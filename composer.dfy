/** The row-piece composer of `pack`: it cuts the two filtered images into
    pieces of rows, fits every piece of either image into a block of exactly
    `targetSize - 5` bytes, and interleaves the blocks with stored-block
    headers that each say "the next `targetSize` bytes are literal". */
module Composer {
  import opened Bytes
  import opened Outcomes
  import opened StoredBlock
  import opened Fitter

  /** What the composer works on: the fitter `compressToSize`, taken as an
      oracle; the two filtered images; the number of rows; and the length
      `targetSize` of a filtered row. */
  datatype Input = Input(fit: FitOracle, msg1: Bytes, msg2: Bytes, height: nat, targetSize: nat)
  {
    /** Both images hold `height` filtered rows of `targetSize` bytes. */
    predicate Valid()
    {
      targetSize >= 1 && |msg1| == height * targetSize && |msg2| == height * targetSize
    }
  }

  /** Rows `y ..< y + p` of a filtered image, `msg[start..<end]` of lines
      247-249 and 265-268. */
  function Rows(msg: Bytes, ts: nat, y: nat, p: nat): (r: Bytes)
    requires ts * (y + p) <= |msg|
    ensures |r| == ts * p
  {
    assert ts * y <= ts * (y + p);
    msg[ts * y..ts * (y + p)]
  }

  /** Rows `y ..< y + p` exist in both images. */
  lemma RowsExist(inp: Input, y: nat, p: nat)
    requires inp.Valid() && y + p <= inp.height
    ensures inp.targetSize * (y + p) <= |inp.msg1| && inp.targetSize * (y + p) <= |inp.msg2|
  {
    MulMono(y + p, inp.height, inp.targetSize);
  }

  /** Where rows `y ..< y + p` start and end in either image. */
  lemma PieceBounds(inp: Input, y: nat, p: nat)
    requires inp.Valid() && y + p <= inp.height && p >= 1
    ensures inp.targetSize * y + inp.targetSize * p == inp.targetSize * (y + p)
    ensures inp.targetSize * p >= 1
    ensures inp.targetSize * (y + p) <= |inp.msg1| && inp.targetSize * (y + p) <= |inp.msg2|
  {
    RowsExist(inp, y, p);
    MulMono(1, p, inp.targetSize);
  }

  /** The block `compressToSize` makes of rows `y ..< y + p` of one image. */
  function FitRows(inp: Input, msg: Bytes, y: nat, p: nat): Fit
    requires inp.Valid() && (msg == inp.msg1 || msg == inp.msg2)
    requires y + p <= inp.height && p >= 1
  {
    RowsExist(inp, y, p);
    inp.fit(Rows(msg, inp.targetSize, y, p), inp.targetSize - 5)
  }

  /** How one candidate height fares in the search loop (lines 245-258). */
  datatype Probe = Fits | Fails | Overflows

  function ProbeHeight(inp: Input, y: nat, q: nat): Probe
    requires inp.Valid() && y + q <= inp.height && q >= 1
  {
    match FitRows(inp, inp.msg1, y, q)
    case LengthOverflow => Overflows
    case Unfit => Fails
    case Fitted(_) =>
      match FitRows(inp, inp.msg2, y, q)
      case LengthOverflow => Overflows
      case Unfit => Fails
      case Fitted(_) => Probe.Fits
  }

  /** The outcome of a probe from the fits of the two images. */
  lemma ProbeCases(inp: Input, y: nat, q: nat)
    requires inp.Valid() && y + q <= inp.height && q >= 1
    ensures FitRows(inp, inp.msg1, y, q).LengthOverflow? ==> ProbeHeight(inp, y, q) == Overflows
    ensures FitRows(inp, inp.msg1, y, q).Unfit? ==> ProbeHeight(inp, y, q) == Fails
    ensures FitRows(inp, inp.msg1, y, q).Fitted? ==>
      ProbeHeight(inp, y, q) == match FitRows(inp, inp.msg2, y, q)
        case LengthOverflow => Overflows
        case Unfit => Fails
        case Fitted(_) => Probe.Fits
  {
  }

  /** The search for a piece height at row `y`, from candidate `q` on: the
      height found is one less than the first candidate that fails, or
      `height - y - 1` when every candidate up to it fits. */
  function SearchHeight(inp: Input, y: nat, q: nat): (r: Result<nat, Failure>)
    requires inp.Valid() && 2 <= q && y + q <= inp.height
    ensures r.Ok? ==> q - 1 <= r.value <= inp.height - y - 1
    ensures r.Err? ==> r.error == Trapped(StoredLengthOverflow)
    decreases inp.height - y - q
  {
    if q >= inp.height - y then Ok(inp.height - y - 1)
    else match ProbeHeight(inp, y, q)
      case Overflows => Err(Trapped(StoredLengthOverflow))
      case Fails => Ok(q - 1)
      case Fits => SearchHeight(inp, y, q + 1)
  }

  /** One piece of rows: where it starts, how many rows it holds, and the
      blocks of either image for those rows. */
  datatype Piece = Piece(ypos: nat, rows: nat, first: Bytes, second: Bytes)

  /** The piece of `p` rows at row `y`, once its height is chosen (lines
      265-273): both fits are made before either is unwrapped. */
  function Assemble(inp: Input, y: nat, p: nat): (r: Result<Piece, Failure>)
    requires inp.Valid() && y + p <= inp.height && p >= 1
    ensures r.Ok? ==> r.value.ypos == y && r.value.rows == p
  {
    var acomp := FitRows(inp, inp.msg1, y, p);
    var bcomp := FitRows(inp, inp.msg2, y, p);
    if acomp.LengthOverflow? || bcomp.LengthOverflow? then Err(Trapped(StoredLengthOverflow))
    else if acomp.Unfit? || bcomp.Unfit? then Err(Trapped(NilUnwrap))
    else Ok(Piece(y, p, acomp.block, bcomp.block))
  }

  /** One round of the outer loop at row `y` (lines 239-275). */
  function Round(inp: Input, y: nat): (r: Result<Piece, Failure>)
    requires inp.Valid() && y < inp.height
    ensures r.Ok? ==> r.value.ypos == y && r.value.rows >= 1 && y + r.value.rows + 1 <= inp.height
  {
    if inp.height - y < 2 then Err(MalformedDatagram)
    else match SearchHeight(inp, y, 2)
      case Err(e) => Err(e)
      case Ok(p) => Assemble(inp, y, p)
  }

  /** The pieces the outer loop makes from row `y` to the end. */
  function ComposeFrom(inp: Input, y: nat): Result<seq<Piece>, Failure>
    requires inp.Valid() && y <= inp.height
    decreases inp.height - y
  {
    if y >= inp.height then Ok([])
    else match Round(inp, y)
      case Err(e) => Err(e)
      case Ok(piece) =>
        match ComposeFrom(inp, y + piece.rows + 1)
        case Err(e) => Err(e)
        case Ok(rest) => Ok([piece] + rest)
  }

  /** `verbatim(zeros)[..<5]`: the stored-block header that announces one
      row of `ts` literal bytes (lines 234, 271 and 273). */
  function RowHeader(ts: nat): (h: Bytes)
    requires ts <= MAX_STORED
    ensures h == Header(ts, false)
  {
    CutHeaderAnnounces(ts, false);
    Verbatim(Zeros(ts), false)[..5]
  }

  /** What one piece appends to `b` (lines 270-273). */
  function Appended(piece: Piece, ts: nat): Bytes
    requires ts <= MAX_STORED
  {
    piece.first + RowHeader(ts) + piece.second + RowHeader(ts)
  }

  /** What a run of pieces appends to `b`. */
  function Flatten(pieces: seq<Piece>, ts: nat): Bytes
    requires ts <= MAX_STORED
  {
    if pieces == [] then [] else Appended(pieces[0], ts) + Flatten(pieces[1..], ts)
  }

  /** The two halves of the deflate stream and the number of rows covered. */
  datatype Composed = Composed(a: Bytes, b: Bytes, ypos: nat)

  /** The stream head `a`: one zero row as a stored block followed by a
      header that leaves the stream inside a stored block (lines 233-234). */
  function Head(ts: nat): Bytes
    requires ts <= MAX_STORED
  {
    Verbatim(Zeros(ts), false) + RowHeader(ts)
  }

  /** The re-synchronisation of lines 279-281: the trailing header is
      replaced by an empty stored block and a final empty stored block. */
  function Resync(b: Bytes): Result<Bytes, Failure>
  {
    if |b| < 5 then Err(Trapped(TrimOutOfRange))
    else Ok(b[..|b| - 5] + EmptyBlock() + FinalEmptyBlock())
  }

  /** Lines 277-281: the stream `b` built by the outer loop, re-synchronised,
      next to the stream head `a`. */
  function Finish(ts: nat, height: nat, stream: Result<Bytes, Failure>): Result<Composed, Failure>
    requires ts <= MAX_STORED
  {
    match stream
    case Err(e) => Err(e)
    case Ok(b) =>
      match Resync(b)
      case Err(e) => Err(e)
      case Ok(b') => Ok(Composed(Head(ts), b', height))
  }

  /** Lines 228-281 as a whole. */
  function Compose(inp: Input): Result<Composed, Failure>
    requires inp.Valid()
  {
    if inp.targetSize > MAX_STORED then Err(Trapped(StoredLengthOverflow))
    else Finish(inp.targetSize, inp.height, Continue(inp, 0, []))
  }

  /** What the outer loop still has to append to `b` from row `y` on. */
  function Continue(inp: Input, y: nat, b: Bytes): Result<Bytes, Failure>
    requires inp.Valid() && y <= inp.height && inp.targetSize <= MAX_STORED
  {
    match ComposeFrom(inp, y)
    case Err(e) => Err(e)
    case Ok(pieces) => Ok(b + Flatten(pieces, inp.targetSize))
  }

  /** Once every row is covered, nothing is left to append. */
  lemma ContinueDone(inp: Input, b: Bytes)
    requires inp.Valid() && inp.targetSize <= MAX_STORED
    ensures Continue(inp, inp.height, b) == Ok(b)
  {
    var none: seq<Piece> := [];
    var empty: Bytes := [];
    assert ComposeFrom(inp, inp.height) == Ok(none);
    assert Flatten(none, inp.targetSize) == empty;
    assert b + empty == b;
  }

  /** A round that fails ends the outer loop with its failure. */
  lemma ContinueFails(inp: Input, y: nat, b: Bytes)
    requires inp.Valid() && y < inp.height && inp.targetSize <= MAX_STORED && Round(inp, y).Err?
    ensures Continue(inp, y, b) == Err(Round(inp, y).error)
  {
  }

  /** A round that succeeds appends the piece's blocks and headers. */
  lemma ContinueStep(inp: Input, y: nat, b: Bytes, piece: Piece)
    requires inp.Valid() && y < inp.height && inp.targetSize <= MAX_STORED && Round(inp, y) == Ok(piece)
    ensures Continue(inp, y, b) == Continue(inp, y + piece.rows + 1, b + Appended(piece, inp.targetSize))
  {
    match ComposeFrom(inp, y + piece.rows + 1)
    case Err(_) =>
    case Ok(rest) =>
      assert ComposeFrom(inp, y) == Ok([piece] + rest);
      FlattenCons(piece, rest, inp.targetSize);
      assert b + (Appended(piece, inp.targetSize) + Flatten(rest, inp.targetSize))
          == (b + Appended(piece, inp.targetSize)) + Flatten(rest, inp.targetSize);
  }

  lemma FlattenCons(piece: Piece, rest: seq<Piece>, ts: nat)
    requires ts <= MAX_STORED
    ensures Flatten([piece] + rest, ts) == Appended(piece, ts) + Flatten(rest, ts)
  {
    assert ([piece] + rest)[1..] == rest;
  }

  /** The search loop of lines 240-263: the height of the piece that
      starts at row `ypos`. */
  method ChoosePieceHeight(fit: FitOracle, msg1: Bytes, msg2: Bytes, height: nat, targetSize: nat, ypos: nat)
    returns (r: Result<nat, Failure>)
    requires Input(fit, msg1, msg2, height, targetSize).Valid() && ypos + 2 <= height
    ensures r == SearchHeight(Input(fit, msg1, msg2, height, targetSize), ypos, 2)
  {
    ghost var inp := Input(fit, msg1, msg2, height, targetSize);
    var found := false;
    var pieceheight: nat := 1;
    var q := 2;
    while q < height - ypos
      invariant 2 <= q <= height - ypos
      invariant pieceheight == q - 1 && !found
      invariant SearchHeight(inp, ypos, q) == SearchHeight(inp, ypos, 2)
    {
      pieceheight := pieceheight + 1;
      var probe := ProbeRows(fit, msg1, msg2, height, targetSize, ypos, pieceheight);
      if probe == Overflows {
        return Err(Trapped(StoredLengthOverflow));
      }
      if probe == Fails {
        found := true;
        break;
      }
      q := q + 1;
    }
    if !found {
      pieceheight := pieceheight + 1;
    }
    pieceheight := pieceheight - 1;
    return Ok(pieceheight);
  }

  /** One turn of the search loop (lines 246-258): the rows of the
      candidate piece are fitted in the first image and then, when that
      fits, in the second. */
  method ProbeRows(fit: FitOracle, msg1: Bytes, msg2: Bytes, height: nat, targetSize: nat, ypos: nat, pieceheight: nat)
    returns (probe: Probe)
    requires Input(fit, msg1, msg2, height, targetSize).Valid() && ypos + pieceheight <= height && pieceheight >= 1
    ensures probe == ProbeHeight(Input(fit, msg1, msg2, height, targetSize), ypos, pieceheight)
  {
    ghost var inp := Input(fit, msg1, msg2, height, targetSize);
    PieceBounds(inp, ypos, pieceheight);
    ProbeCases(inp, ypos, pieceheight);
    var start := targetSize * ypos;
    var end := targetSize * (ypos + pieceheight);
    assert msg1[start..end] == Rows(msg1, targetSize, ypos, pieceheight);
    assert msg2[start..end] == Rows(msg2, targetSize, ypos, pieceheight);
    var acomp := fit(msg1[start..end], targetSize - 5);
    if acomp.LengthOverflow? {
      return Overflows;
    }
    if acomp.Unfit? {
      return Fails;
    }
    var bcomp := fit(msg2[start..end], targetSize - 5);
    if bcomp.LengthOverflow? {
      return Overflows;
    }
    if bcomp.Unfit? {
      return Fails;
    }
    return Probe.Fits;
  }

  /** Lines 265-268: the fits of the piece of `pieceheight` rows at `ypos`,
      both made before either is unwrapped. */
  method AssemblePiece(fit: FitOracle, msg1: Bytes, msg2: Bytes, height: nat, targetSize: nat, ypos: nat, pieceheight: nat)
    returns (r: Result<Piece, Failure>)
    requires Input(fit, msg1, msg2, height, targetSize).Valid()
    requires ypos + pieceheight <= height && pieceheight >= 1
    ensures r == Assemble(Input(fit, msg1, msg2, height, targetSize), ypos, pieceheight)
  {
    ghost var inp := Input(fit, msg1, msg2, height, targetSize);
    PieceBounds(inp, ypos, pieceheight);
    var start := targetSize * ypos;
    var end := targetSize * (ypos + pieceheight);
    assert msg1[start..end] == Rows(msg1, targetSize, ypos, pieceheight);
    assert msg2[start..end] == Rows(msg2, targetSize, ypos, pieceheight);
    var acomp := fit(msg1[start..end], targetSize - 5);
    var bcomp := fit(msg2[start..end], targetSize - 5);
    if acomp.LengthOverflow? || bcomp.LengthOverflow? {
      return Err(Trapped(StoredLengthOverflow));
    }
    if acomp.Unfit? || bcomp.Unfit? {
      return Err(Trapped(NilUnwrap));
    }
    return Ok(Piece(ypos, pieceheight, acomp.block, bcomp.block));
  }

  /** One round of the outer loop (lines 239-275): the piece at `ypos`. */
  method ComposePiece(fit: FitOracle, msg1: Bytes, msg2: Bytes, height: nat, targetSize: nat, ypos: nat)
    returns (r: Result<Piece, Failure>)
    requires Input(fit, msg1, msg2, height, targetSize).Valid() && ypos < height
    ensures r == Round(Input(fit, msg1, msg2, height, targetSize), ypos)
  {
    if height - ypos < 2 {
      return Err(MalformedDatagram);
    }
    var chosen := ChoosePieceHeight(fit, msg1, msg2, height, targetSize, ypos);
    if chosen.Err? {
      return Err(chosen.error);
    }
    r := AssemblePiece(fit, msg1, msg2, height, targetSize, ypos, chosen.value);
  }

  /** The outer loop of lines 238-276: the stream `b` before it is
      re-synchronised. */
  method BuildStream(fit: FitOracle, msg1: Bytes, msg2: Bytes, height: nat, targetSize: nat)
    returns (r: Result<Bytes, Failure>, ypos: nat)
    requires Input(fit, msg1, msg2, height, targetSize).Valid() && targetSize <= MAX_STORED
    ensures r == Continue(Input(fit, msg1, msg2, height, targetSize), 0, [])
    ensures r.Ok? ==> ypos == height
  {
    ghost var inp := Input(fit, msg1, msg2, height, targetSize);
    var header := Verbatim(Zeros(targetSize), false)[..5];
    var b: Bytes := [];
    ypos := 0;
    while ypos < height
      invariant ypos <= height
      invariant header == RowHeader(targetSize)
      invariant Continue(inp, ypos, b) == Continue(inp, 0, [])
      decreases height - ypos
    {
      var piece := ComposePiece(fit, msg1, msg2, height, targetSize, ypos);
      if piece.Err? {
        ContinueFails(inp, ypos, b);
        return Err(piece.error), ypos;
      }
      b, ypos := Advance(inp, ypos, b, piece.value, header, targetSize, Continue(inp, 0, []));
    }
    ContinueDone(inp, b);
    return Ok(b), ypos;
  }

  /** One turn of the outer loop: append the piece and move past its rows,
      keeping what the rest of the loop will produce. */
  method Advance(ghost inp: Input, ypos: nat, b: Bytes, piece: Piece, header: Bytes,
                 targetSize: nat, ghost goal: Result<Bytes, Failure>)
    returns (b': Bytes, ypos': nat)
    requires inp.Valid() && ypos < inp.height && targetSize == inp.targetSize <= MAX_STORED
    requires header == RowHeader(targetSize) && Round(inp, ypos) == Ok(piece)
    requires Continue(inp, ypos, b) == goal
    ensures b' == b + Appended(piece, targetSize) && ypos' == ypos + piece.rows + 1
    ensures ypos < ypos' <= inp.height && Continue(inp, ypos', b') == goal
  {
    b' := AppendPiece(b, piece, header, targetSize);
    ypos' := ypos + piece.rows + 1;
    ContinueStep(inp, ypos, b, piece);
  }

  /** Lines 270-273: a piece's two blocks, each followed by the row header. */
  method AppendPiece(b: Bytes, piece: Piece, header: Bytes, targetSize: nat) returns (b': Bytes)
    requires targetSize <= MAX_STORED && header == RowHeader(targetSize)
    ensures b' == b + Appended(piece, targetSize)
  {
    b' := b + piece.first;
    b' := b' + header;
    b' := b' + piece.second;
    b' := b' + header;
  }

  /** The composer of `pack` (lines 228-281), with the fitter
      `compressToSize` as an oracle. */
  method ComposeRows(fit: FitOracle, msg1: Bytes, msg2: Bytes, height: nat, targetSize: nat)
    returns (res: Result<Composed, Failure>)
    requires Input(fit, msg1, msg2, height, targetSize).Valid()
    ensures res == Compose(Input(fit, msg1, msg2, height, targetSize))
  {
    if targetSize > MAX_STORED {
      return Err(Trapped(StoredLengthOverflow));
    }
    ghost var inp := Input(fit, msg1, msg2, height, targetSize);
    var a := Head(targetSize);
    var b, ypos := BuildStream(fit, msg1, msg2, height, targetSize);
    assert Compose(inp) == Finish(targetSize, height, b);
    if b.Err? {
      return Err(b.error);
    }
    var synced := ResyncStream(b.value);
    if synced.Err? {
      return Err(synced.error);
    }
    return Ok(Composed(a, synced.value, ypos));
  }

  /** Lines 279-281: "re-sync the zlib streams". */
  method ResyncStream(b: Bytes) returns (r: Result<Bytes, Failure>)
    ensures r == Resync(b)
  {
    if |b| < 5 {
      return Err(Trapped(TrimOutOfRange));
    }
    var synced := b[..|b| - 5];
    synced := synced + EmptyBlock();
    synced := synced + FinalEmptyBlock();
    return Ok(synced);
  }
}

/** What the composer promises about the pieces it makes. */
module ComposerFacts {
  import opened Bytes
  import opened Outcomes
  import opened StoredBlock
  import opened Fitter
  import opened Composer

  /** Every candidate height from `q` up to `p` fits in both images. */
  predicate AllFit(inp: Input, y: nat, q: nat, p: nat)
    requires inp.Valid() && y + p <= inp.height && q >= 1
  {
    forall k :: q <= k <= p ==> ProbeHeight(inp, y, k) == Probe.Fits
  }

  /** The height the search is meant to pick at row `y`: every candidate
      from 2 up to it fits, and it is either the last height before the
      final row or the next candidate does not fit. */
  predicate Chosen(inp: Input, y: nat, p: nat)
    requires inp.Valid() && y + 2 <= inp.height
  {
    1 <= p < inp.height - y && AllFit(inp, y, 2, p) &&
    (p + 1 < inp.height - y ==> ProbeHeight(inp, y, p + 1) == Fails)
  }

  lemma {:induction false} SearchHeightSpec(inp: Input, y: nat, q: nat)
    requires inp.Valid() && 2 <= q && y + q <= inp.height
    ensures SearchHeight(inp, y, q).Ok? ==>
      var p := SearchHeight(inp, y, q).value;
      AllFit(inp, y, q, p) && (p + 1 < inp.height - y ==> ProbeHeight(inp, y, p + 1) == Fails)
    ensures SearchHeight(inp, y, q).Err? ==>
      exists k :: q <= k < inp.height - y && ProbeHeight(inp, y, k) == Overflows && AllFit(inp, y, q, k - 1)
    decreases inp.height - y - q
  {
    if q < inp.height - y && ProbeHeight(inp, y, q) == Probe.Fits {
      SearchHeightSpec(inp, y, q + 1);
      if SearchHeight(inp, y, q).Err? {
        var k :| q + 1 <= k < inp.height - y && ProbeHeight(inp, y, k) == Overflows && AllFit(inp, y, q + 1, k - 1);
        assert AllFit(inp, y, q, k - 1);
      }
    } else if q < inp.height - y && ProbeHeight(inp, y, q) == Overflows {
      assert AllFit(inp, y, q, q - 1);
    }
  }

  /** The search loop picks the height `Chosen` describes: one less than
      the first candidate that does not fit. */
  lemma SearchPicksChosen(inp: Input, y: nat)
    requires inp.Valid() && y + 2 <= inp.height
    ensures SearchHeight(inp, y, 2).Ok? ==> Chosen(inp, y, SearchHeight(inp, y, 2).value)
  {
    SearchHeightSpec(inp, y, 2);
  }

  /** At most one height is `Chosen`, so the search result is determined by
      the fits alone. */
  lemma ChosenUnique(inp: Input, y: nat, p1: nat, p2: nat)
    requires inp.Valid() && y + 2 <= inp.height
    requires Chosen(inp, y, p1) && Chosen(inp, y, p2)
    ensures p1 == p2
  {
  }

  /** A round ends in `malformedDatagram` exactly when one row is left. */
  lemma MalformedIffOneRowLeft(inp: Input, y: nat)
    requires inp.Valid() && y < inp.height
    ensures Round(inp, y) == Err(MalformedDatagram) <==> y + 1 == inp.height
  {
  }

  /** A forced unwrap of a nil fit (`acomp!`, `bcomp!`) can only happen for
      a piece of one row: every taller piece was tried by the search. */
  lemma NilUnwrapOnlyForOneRow(inp: Input, y: nat)
    requires inp.Valid() && y < inp.height
    ensures Round(inp, y) == Err(Trapped(NilUnwrap)) ==> SearchHeight(inp, y, 2) == Ok(1)
  {
    if Round(inp, y) == Err(Trapped(NilUnwrap)) {
      SearchHeightSpec(inp, y, 2);
      var p := SearchHeight(inp, y, 2).value;
      if p >= 2 {
        assert ProbeHeight(inp, y, p) == Probe.Fits;
        ProbeCases(inp, y, p);
      }
    }
  }

  /** The pieces cover rows `y ..< height` in order; each is followed by one
      row, the row that the headers around the other image's block make. */
  predicate Tiles(pieces: seq<Piece>, y: nat, height: nat)
    decreases |pieces|
  {
    if pieces == [] then y == height
    else pieces[0].ypos == y && pieces[0].rows >= 1 && Tiles(pieces[1..], y + pieces[0].rows + 1, height)
  }

  /** A piece's blocks are the fits of its rows in either image. */
  predicate PieceFits(inp: Input, piece: Piece)
    requires inp.Valid()
  {
    piece.rows >= 1 && piece.ypos + piece.rows <= inp.height &&
    FitRows(inp, inp.msg1, piece.ypos, piece.rows) == Fitted(piece.first) &&
    FitRows(inp, inp.msg2, piece.ypos, piece.rows) == Fitted(piece.second)
  }

  lemma {:induction false} ComposeFromTiles(inp: Input, y: nat)
    requires inp.Valid() && y <= inp.height
    ensures ComposeFrom(inp, y).Ok? ==> Tiles(ComposeFrom(inp, y).value, y, inp.height)
    ensures ComposeFrom(inp, y).Ok? ==>
      forall i :: 0 <= i < |ComposeFrom(inp, y).value| ==> PieceFits(inp, ComposeFrom(inp, y).value[i])
    decreases inp.height - y
  {
    if y < inp.height && Round(inp, y).Ok? {
      var piece := Round(inp, y).value;
      ComposeFromTiles(inp, y + piece.rows + 1);
      match ComposeFrom(inp, y + piece.rows + 1)
      case Err(_) =>
      case Ok(rest) =>
        var pieces := [piece] + rest;
        assert pieces[1..] == rest;
        assert PieceFits(inp, piece);
        forall i | 0 <= i < |pieces|
          ensures PieceFits(inp, pieces[i])
        {
          if i > 0 {
            assert pieces[i] == rest[i - 1];
          }
        }
    }
  }

  /** The rows of one image that a piece holds. */
  function PieceRows(inp: Input, msg: Bytes, piece: Piece): Bytes
    requires inp.Valid() && (msg == inp.msg1 || msg == inp.msg2)
    requires piece.ypos + piece.rows <= inp.height
  {
    RowsExist(inp, piece.ypos, piece.rows);
    Rows(msg, inp.targetSize, piece.ypos, piece.rows)
  }

  /** With `compressToSize` as the fitter, a piece's blocks are exactly
      `targetSize - 5` bytes, so a header announcing `targetSize` literal
      bytes spans the other image's block and the next header. */
  lemma PieceLengths(compress: Compressor, inp: Input, piece: Piece)
    requires inp.Valid() && inp.fit == FitFunction(compress) && PieceFits(inp, piece)
    requires inp.targetSize <= MAX_STORED
    ensures |piece.first| == inp.targetSize - 5 && |piece.second| == inp.targetSize - 5
    ensures LE16Value(RowHeader(inp.targetSize)[1], RowHeader(inp.targetSize)[2]) == inp.targetSize
    ensures |piece.first + RowHeader(inp.targetSize)| == inp.targetSize
    ensures |piece.second + RowHeader(inp.targetSize)| == inp.targetSize
  {
    BlockLength(compress, inp, inp.msg1, piece, piece.first);
    BlockLength(compress, inp, inp.msg2, piece, piece.second);
    CutHeaderAnnounces(inp.targetSize, false);
  }

  /** With `compressToSize` as the fitter, the block fitted for rows of one
      image is `targetSize - 5` bytes long. */
  lemma BlockLength(compress: Compressor, inp: Input, msg: Bytes, piece: Piece, block: Bytes)
    requires inp.Valid() && inp.fit == FitFunction(compress) && (msg == inp.msg1 || msg == inp.msg2)
    requires piece.rows >= 1 && piece.ypos + piece.rows <= inp.height
    requires FitRows(inp, msg, piece.ypos, piece.rows) == Fitted(block)
    ensures |block| == inp.targetSize - 5
  {
    FitPieceRows(inp, msg, piece, block);
    FittedLength(compress, inp, PieceRows(inp, msg, piece), block);
  }

  /** The oracle's blocks, at the composer's size. */
  lemma FittedLength(compress: Compressor, inp: Input, data: Bytes, block: Bytes)
    requires inp.fit == FitFunction(compress) && inp.fit(data, inp.targetSize - 5) == Fitted(block)
    ensures |block| == inp.targetSize - 5
  {
    OracleLength(inp.fit, compress, data, inp.targetSize - 5, block);
  }

  lemma FittedInflates(compress: Compressor, inflate: Inflater, inp: Input, data: Bytes, block: Bytes)
    requires inp.fit == FitFunction(compress) && inp.fit(data, inp.targetSize - 5) == Fitted(block)
    requires InflatesFramed(compress, inflate)
    ensures inflate(block) == Some(data)
  {
    OracleRoundTrip(inp.fit, compress, inflate, data, inp.targetSize - 5, block);
  }

  /** The fit of a piece's rows is the oracle's answer on them. */
  lemma FitPieceRows(inp: Input, msg: Bytes, piece: Piece, block: Bytes)
    requires inp.Valid() && (msg == inp.msg1 || msg == inp.msg2)
    requires piece.rows >= 1 && piece.ypos + piece.rows <= inp.height
    requires FitRows(inp, msg, piece.ypos, piece.rows) == Fitted(block)
    ensures inp.fit(PieceRows(inp, msg, piece), inp.targetSize - 5) == Fitted(block)
  {
  }

  /** With `compressToSize` as the fitter, the block fitted for rows of one
      image inflates back to those rows. */
  lemma BlockInflates(compress: Compressor, inflate: Inflater, inp: Input, msg: Bytes, piece: Piece, block: Bytes)
    requires inp.Valid() && inp.fit == FitFunction(compress) && (msg == inp.msg1 || msg == inp.msg2)
    requires piece.rows >= 1 && piece.ypos + piece.rows <= inp.height
    requires FitRows(inp, msg, piece.ypos, piece.rows) == Fitted(block)
    requires InflatesFramed(compress, inflate)
    ensures inflate(block) == Some(PieceRows(inp, msg, piece))
  {
    FitPieceRows(inp, msg, piece, block);
    FittedInflates(compress, inflate, inp, PieceRows(inp, msg, piece), block);
  }

  /** With `compressToSize` as the fitter, each block of a piece inflates
      back to the piece's rows of its image. */
  lemma PieceInflates(compress: Compressor, inflate: Inflater, inp: Input, piece: Piece)
    requires inp.Valid() && inp.fit == FitFunction(compress) && PieceFits(inp, piece)
    requires InflatesFramed(compress, inflate)
    ensures inflate(piece.first) == Some(PieceRows(inp, inp.msg1, piece))
    ensures inflate(piece.second) == Some(PieceRows(inp, inp.msg2, piece))
  {
    BlockInflates(compress, inflate, inp, inp.msg1, piece, piece.first);
    BlockInflates(compress, inflate, inp, inp.msg2, piece, piece.second);
  }

  /** Every block of every piece is `ts - 5` bytes long. */
  predicate Sized(pieces: seq<Piece>, ts: nat)
  {
    forall i :: 0 <= i < |pieces| ==> |pieces[i].first| == ts - 5 && |pieces[i].second| == ts - 5
  }

  lemma {:induction false} FlattenLength(pieces: seq<Piece>, ts: nat)
    requires 5 <= ts <= MAX_STORED
    requires Sized(pieces, ts)
    ensures |Flatten(pieces, ts)| == 2 * ts * |pieces|
  {
    if pieces != [] {
      var rest := pieces[1..];
      assert forall i :: 0 <= i < |rest| ==> rest[i] == pieces[i + 1];
      FlattenLength(rest, ts);
      assert |RowHeader(ts)| == 5;
      assert |Flatten(pieces, ts)| == |Appended(pieces[0], ts)| + |Flatten(rest, ts)|;
      assert |Appended(pieces[0], ts)| == 2 * ts;
      MulNext(|pieces|, |rest|, 2 * ts);
    }
  }

  /** What `Compose` returns, in terms of the pieces. */
  lemma ComposedFromPieces(inp: Input)
    requires inp.Valid() && Compose(inp).Ok?
    ensures inp.targetSize <= MAX_STORED && ComposeFrom(inp, 0).Ok?
    ensures Resync(Flatten(ComposeFrom(inp, 0).value, inp.targetSize)) == Ok(Compose(inp).value.b)
    ensures Compose(inp).value.a == Head(inp.targetSize) && Compose(inp).value.ypos == inp.height
  {
    var pieces := ComposeFrom(inp, 0).value;
    var stream := Flatten(pieces, inp.targetSize);
    assert Continue(inp, 0, []) == Ok([] + stream);
    assert [] + stream == stream;
  }

  /** At least one piece is made when `Compose` succeeds: with none, the
      trim of line 279 traps on the empty stream. */
  lemma ComposedNonEmpty(inp: Input)
    requires inp.Valid() && Compose(inp).Ok?
    ensures ComposeFrom(inp, 0).Ok? && ComposeFrom(inp, 0).value != []
  {
    ComposedFromPieces(inp);
  }

  /** With no rows the outer loop does nothing, and the trim of line 279
      traps on the empty stream. */
  lemma ComposeNoRows(inp: Input)
    requires inp.Valid() && inp.height == 0 && inp.targetSize <= MAX_STORED
    ensures Compose(inp) == Err(Trapped(TrimOutOfRange))
  {
    var empty: Bytes := [];
    ContinueDone(inp, empty);
    assert Resync(empty) == Err(Trapped(TrimOutOfRange));
    assert Compose(inp) == Finish(inp.targetSize, 0, Ok(empty));
  }

  /** The stream head `a`: a stored block of one zero row, then a header
      that announces another `targetSize` literal bytes and leaves the
      stream inside that stored block. */
  lemma ComposeHead(inp: Input)
    requires inp.Valid() && Compose(inp).Ok?
    ensures inp.targetSize <= MAX_STORED && 1 <= inp.height
    ensures var c := Compose(inp).value;
      c.ypos == inp.height &&
      |c.a| == inp.targetSize + 10 &&
      c.a[..inp.targetSize + 5] == Verbatim(Zeros(inp.targetSize), false) &&
      c.a[inp.targetSize + 5..] == Header(inp.targetSize, false)
  {
    ComposedFromPieces(inp);
    ComposedNonEmpty(inp);
    var a := Compose(inp).value.a;
    var v := Verbatim(Zeros(inp.targetSize), false);
    assert a == v + RowHeader(inp.targetSize);
    assert a[..|v|] == v;
  }

  /** The stream `b`, with `compressToSize` as the fitter: two rows' worth
      of bytes per piece, whose trailing header is replaced by the empty
      stored block and the final empty stored block. */
  lemma ComposeStream(compress: Compressor, inp: Input)
    requires inp.Valid() && inp.fit == FitFunction(compress) && Compose(inp).Ok?
    ensures ComposeFrom(inp, 0).Ok? &&
      |Compose(inp).value.b| == 2 * inp.targetSize * |ComposeFrom(inp, 0).value| + 5
  {
    ComposedFromPieces(inp);
    ComposedNonEmpty(inp);
    var ts := inp.targetSize;
    var pieces := ComposeFrom(inp, 0).value;
    ComposeFromTiles(inp, 0);
    AllSized(compress, inp, pieces);
    ResyncedLength(pieces, ts, Compose(inp).value.b);
  }

  /** Every fitted piece holds two blocks of the target size less five. */
  lemma AllSized(compress: Compressor, inp: Input, pieces: seq<Piece>)
    requires inp.Valid() && inp.fit == FitFunction(compress) && inp.targetSize <= MAX_STORED
    requires forall i :: 0 <= i < |pieces| ==> PieceFits(inp, pieces[i])
    ensures Sized(pieces, inp.targetSize)
  {
    forall i | 0 <= i < |pieces|
      ensures |pieces[i].first| == inp.targetSize - 5 && |pieces[i].second| == inp.targetSize - 5
    {
      PieceLengths(compress, inp, pieces[i]);
    }
  }

  /** Re-synchronising a stream of such pieces adds five bytes to it. */
  lemma ResyncedLength(pieces: seq<Piece>, ts: nat, b: Bytes)
    requires 5 <= ts <= MAX_STORED && pieces != []
    requires Sized(pieces, ts)
    requires Resync(Flatten(pieces, ts)) == Ok(b)
    ensures |b| == 2 * ts * |pieces| + 5
  {
    FlattenLength(pieces, ts);
    FlattenNonEmpty(pieces, ts);
    ResyncLength(Flatten(pieces, ts));
  }

  lemma FlattenNonEmpty(pieces: seq<Piece>, ts: nat)
    requires 5 <= ts <= MAX_STORED && pieces != [] && Sized(pieces, ts)
    ensures |Flatten(pieces, ts)| >= 2 * ts
  {
    assert |RowHeader(ts)| == 5;
    assert |Flatten(pieces, ts)| == |Appended(pieces[0], ts)| + |Flatten(pieces[1..], ts)|;
  }

  /** The re-synchronisation trims five bytes and adds ten. */
  lemma ResyncLength(stream: Bytes)
    requires |stream| >= 5
    ensures Resync(stream).Ok? && |Resync(stream).value| == |stream| + 5
  {
    var e, f := EmptyBlock(), FinalEmptyBlock();
    var kept := stream[..|stream| - 5];
    assert Resync(stream) == Ok(kept + e + f);
    assert |kept + e + f| == |kept| + 5 + 5;
  }

  /** The stream `b` ends with the empty stored block and the final empty
      stored block that re-synchronise the two readings (lines 279-281). */
  lemma ComposeStreamEnd(inp: Input)
    requires inp.Valid() && Compose(inp).Ok?
    ensures var b := Compose(inp).value.b;
      |b| >= 10 && b[|b| - 10..] == EmptyBlock() + FinalEmptyBlock()
  {
    ComposedFromPieces(inp);
    var stream := Flatten(ComposeFrom(inp, 0).value, inp.targetSize);
    var b := Compose(inp).value.b;
    assert b == stream[..|stream| - 5] + (EmptyBlock() + FinalEmptyBlock());
  }
}
