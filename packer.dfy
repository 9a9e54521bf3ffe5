/** `pack(appleImageURL:otherImageURL:outputURL:)` from the two RGB
    canvases on: filtering, composing the two deflate readings, checking
    both readings, and laying out the PNG file. */
module Packer {
  import opened Bytes
  import opened Outcomes
  import opened StoredBlock
  import opened Filter
  import opened Fitter
  import opened Composer
  import opened ComposerFacts
  import opened Container

  /** `Data.adler32().checksum`: a library black box. */
  type Checksum = Bytes -> u32

  /** The library calls the packer makes, as parameters. */
  datatype Codec = Codec(compress: Compressor, inflate: Inflater, crc32: Crc32, adler32: Checksum)

  /** The zlib header the packer puts in front of `a` (line 291). */
  const ZLIB_HEADER: Bytes := [0x78, 0xDA]

  /** The largest value `UInt32(_)` accepts. */
  const MAX_UINT32: nat := 0xFFFF_FFFF

  /** The composer's input for two canvases of `width` by `height` pixels. */
  function PackInput(codec: Codec, rgb1: Bytes, rgb2: Bytes, width: nat, height: nat): (inp: Input)
    requires width >= 1 && |rgb1| == height * (width * 3) && |rgb2| == height * (width * 3)
    ensures inp.Valid() && inp.height == height && inp.targetSize == TargetSize(width)
    ensures inp.fit == FitFunction(codec.compress)
  {
    FilteredLength(rgb1, width * 3, height);
    FilteredLength(rgb2, width * 3, height);
    Input(FitFunction(codec.compress), Filtered(rgb1, width * 3), Filtered(rgb2, width * 3), height, TargetSize(width))
  }

  /** The values the file records all fit their fields. */
  predicate LayoutFits(width: nat, height: nat, a: Bytes, b: Bytes)
  {
    width <= MAX_UINT32 && 1 <= height <= MAX_UINT32 && |a| <= MAX_CHUNK_BODY && |b| <= MAX_CHUNK_BODY &&
    height - 1 <= MAX_INT32 && IDOT_SIZE + |a| + 12 <= MAX_INT32
  }

  /** The file of lines 296-333, from the two halves of the zlib stream:
      the signature, IHDR, iDOT, an IDAT chunk for each half and IEND. */
  function Layout(crc32: Crc32, width: nat, height: nat, a: Bytes, b: Bytes): Bytes
    requires LayoutFits(width, height, a, b)
  {
    PNG_SIGNATURE + Chunk(crc32, IHDR, IhdrBody(width, height)) +
    Chunk(crc32, IDOT, IdotBody(height - 1, IDOT_SIZE + |Chunk(crc32, IDAT, a)|)) +
    Chunk(crc32, IDAT, a) + Chunk(crc32, IDAT, b) + Chunk(crc32, IEND, [])
  }

  /** The file, or the trap of a conversion `UInt32(_)` or `Int32(_)` given
      a value that does not fit. */
  function PngFile(crc32: Crc32, width: nat, height: nat, a: Bytes, b: Bytes): Result<Bytes, Failure>
    requires height >= 1
  {
    if LayoutFits(width, height, a, b) then Ok(Layout(crc32, width, height, a, b))
    else Err(Trapped(FieldOverflow))
  }

  /** The file put together from the pieces the writes of lines 296-333
      produce: the signature and IHDR, iDOT, the staged IDAT chunks, IEND. */
  lemma FileOfParts(crc32: Crc32, width: nat, height: nat, a: Bytes, b: Bytes,
                    head: Bytes, idats: Bytes, firstOffset: nat)
    requires LayoutFits(width, height, a, b)
    requires head == PNG_SIGNATURE + Chunk(crc32, IHDR, IhdrBody(width, height))
    requires idats == Chunk(crc32, IDAT, a) + Chunk(crc32, IDAT, b)
    requires firstOffset == |Chunk(crc32, IDAT, a)|
    ensures PngFile(crc32, width, height, a, b) ==
      Ok(head + Chunk(crc32, IDOT, IdotBody(height - 1, IDOT_SIZE + firstOffset)) + idats + Chunk(crc32, IEND, []))
  {
    var idot := Chunk(crc32, IDOT, IdotBody(height - 1, IDOT_SIZE + firstOffset));
    var first := Chunk(crc32, IDAT, a);
    var second := Chunk(crc32, IDAT, b);
    assert head + idot + (first + second) == head + idot + first + second;
  }

  /** Lines 283-333, once the composer has made `a` and `b`: both readings
      of the stream are inflated, then checked and written out. */
  function Finalize(codec: Codec, width: nat, c: Composed): Result<Bytes, Failure>
  {
    match codec.inflate(c.a)
    case None => Err(InflateFailed)
    case Some(first) =>
      match codec.inflate(c.b)
      case None => Err(InflateFailed)
      case Some(second) =>
        match codec.inflate(c.a + c.b)
        case None => Err(InflateFailed)
        case Some(interp2) => Checked(codec, width, c, first + second, interp2)
  }

  /** Lines 288-333: both readings pass the filter-byte check, the zlib
      header and the Adler-32 of the second reading are added, and the file
      is laid out. */
  function Checked(codec: Codec, width: nat, c: Composed, interp1: Bytes, interp2: Bytes): Result<Bytes, Failure>
  {
    match FilterCheck(interp1, width)
    case Fail(e) => Err(e)
    case Pass =>
      match FilterCheck(interp2, width)
      case Fail(e) => Err(e)
      case Pass =>
        PngFile(codec.crc32, width, c.ypos + 1, ZLIB_HEADER + c.a, c.b + BE32(codec.adler32(interp2)))
  }

  /** What `pack` writes to the output file, given the two RGB canvases
      (`rgbData`, three bytes a pixel) of the common size. */
  function PackFile(codec: Codec, rgb1: Bytes, rgb2: Bytes, width: nat, height: nat): Result<Bytes, Failure>
    requires |rgb1| == height * (width * 3) && |rgb2| == height * (width * 3)
  {
    if width == 0 then Err(Trapped(ZeroStride))
    else
      match Compose(PackInput(codec, rgb1, rgb2, width, height))
      case Err(e) => Err(e)
      case Ok(c) => Finalize(codec, width, c)
  }

  /** Lines 311-314: the two IDAT chunks, staged in a buffer of their
      own, and the length of the first. */
  method StageIdats(crc32: Crc32, a: Bytes, b: Bytes) returns (idatChunks: ByteBuffer, firstOffset: nat)
    requires |a| <= MAX_CHUNK_BODY && |b| <= MAX_CHUNK_BODY
    ensures fresh(idatChunks)
    ensures idatChunks.bytes == Chunk(crc32, IDAT, a) + Chunk(crc32, IDAT, b)
    ensures firstOffset == |Chunk(crc32, IDAT, a)|
  {
    idatChunks := new ByteBuffer();
    WriteChunk(idatChunks, crc32, IDAT, a);
    firstOffset := idatChunks.WriterIndex();
    WriteChunk(idatChunks, crc32, IDAT, b);
  }

  /** Lines 316-333: the iDOT chunk, the staged IDAT chunks and IEND. */
  method WriteTail(output: ByteBuffer, crc32: Crc32, height: nat, firstOffset: nat, idats: Bytes)
    requires 1 <= height && height - 1 <= MAX_INT32 && IDOT_SIZE + firstOffset <= MAX_INT32
    modifies output
    ensures output.bytes == old(output.bytes) + Chunk(crc32, IDOT, IdotBody(height - 1, IDOT_SIZE + firstOffset)) + idats + Chunk(crc32, IEND, [])
  {
    var idot := IdotBody(height - 1, IDOT_SIZE + firstOffset);
    WriteChunk(output, crc32, IDOT, idot);
    output.WriteBytes(idats);
    WriteChunk(output, crc32, IEND, []);
  }

  /** Lines 296-333: the file, written through a buffer for the output file
      and a buffer holding the two IDAT chunks. */
  method WriteFile(crc32: Crc32, width: nat, height: nat, a: Bytes, b: Bytes) returns (r: Result<Bytes, Failure>)
    requires height >= 1
    ensures r == PngFile(crc32, width, height, a, b)
  {
    if width > MAX_UINT32 || height > MAX_UINT32 {
      return Err(Trapped(FieldOverflow));
    }
    var output := new ByteBuffer();
    output.WriteBytes(PNG_SIGNATURE);
    var ihdr := IhdrBody(width, height);
    WriteChunk(output, crc32, IHDR, ihdr);
    if |a| > MAX_CHUNK_BODY || |b| > MAX_CHUNK_BODY {
      return Err(Trapped(FieldOverflow));
    }
    var idatChunks, firstOffset := StageIdats(crc32, a, b);
    if height - 1 > MAX_INT32 || IDOT_SIZE + firstOffset > MAX_INT32 {
      return Err(Trapped(FieldOverflow));
    }
    ghost var head := output.bytes;
    ghost var idats := idatChunks.bytes;
    WriteTail(output, crc32, height, firstOffset, idatChunks.bytes);
    FileOfParts(crc32, width, height, a, b, head, idats, firstOffset);
    return Ok(output.bytes);
  }

  /** `pack`, from the two RGB canvases to the bytes of the output file. */
  method Pack(codec: Codec, rgb1: Bytes, rgb2: Bytes, width: nat, height: nat) returns (res: Result<Bytes, Failure>)
    requires |rgb1| == height * (width * 3) && |rgb2| == height * (width * 3)
    ensures res == PackFile(codec, rgb1, rgb2, width, height)
  {
    if width == 0 {
      return Err(Trapped(ZeroStride));
    }
    ghost var inp := PackInput(codec, rgb1, rgb2, width, height);
    var targetSize := width * 3 + 1;
    var msg1 := ApplyFilter(rgb1, width);
    var msg2 := ApplyFilter(rgb2, width);
    var composed := ComposeRows(FitFunction(codec.compress), msg1, msg2, height, targetSize);
    if composed.Err? {
      return Err(composed.error);
    }
    res := FinishPack(codec, width, composed.value);
  }

  /** Lines 283-333 as statements. */
  method FinishPack(codec: Codec, width: nat, c: Composed) returns (res: Result<Bytes, Failure>)
    ensures res == Finalize(codec, width, c)
  {
    var a := c.a;
    var b := c.b;
    var first := codec.inflate(a);
    if first.None? {
      return Err(InflateFailed);
    }
    var second := codec.inflate(b);
    if second.None? {
      return Err(InflateFailed);
    }
    var interp1 := first.value + second.value;
    var interp2 := codec.inflate(a + b);
    if interp2.None? {
      return Err(InflateFailed);
    }
    res := CheckAndWrite(codec, width, c, interp1, interp2.value);
  }

  /** Lines 292-333 as statements. */
  method CheckAndWrite(codec: Codec, width: nat, c: Composed, interp1: Bytes, interp2: Bytes)
    returns (res: Result<Bytes, Failure>)
    ensures res == Checked(codec, width, c, interp1, interp2)
  {
    var check1 := CheckFilterBytes(interp1, width);
    if check1.Fail? {
      return Err(check1.error);
    }
    var check2 := CheckFilterBytes(interp2, width);
    if check2.Fail? {
      return Err(check2.error);
    }
    res := WriteStreams(codec, width, c, interp2);
  }

  /** Lines 295-333: the zlib header before `a`, the Adler-32 of the second
      reading after `b`, and the file around them. */
  method WriteStreams(codec: Codec, width: nat, c: Composed, interp2: Bytes) returns (res: Result<Bytes, Failure>)
    ensures res == PngFile(codec.crc32, width, c.ypos + 1, ZLIB_HEADER + c.a, c.b + BE32(codec.adler32(interp2)))
  {
    var a := ZLIB_HEADER + c.a;
    var b := c.b + BE32(codec.adler32(interp2));
    res := WriteFile(codec.crc32, width, c.ypos + 1, a, b);
  }
}

/** What the packed file promises: the chunk order, the header fields, the
    offset at which a parallel decoder restarts, and the checks it passed. */
module PackerFacts {
  import opened Bytes
  import opened Outcomes
  import opened StoredBlock
  import opened Filter
  import opened Fitter
  import opened Composer
  import opened ComposerFacts
  import opened Container
  import opened Packer

  /** `78 DA` is a valid zlib header (section 2.2 of RFC 1950): method 8
      (deflate), a 32 KiB window, and a check value divisible by 31. */
  lemma ZlibHeaderValid()
    ensures |ZLIB_HEADER| == 2
    ensures ZLIB_HEADER[0] % 16 == 8 && ZLIB_HEADER[0] / 16 == 7
    ensures (ZLIB_HEADER[0] as int * 256 + ZLIB_HEADER[1] as int) % 31 == 0
  {
  }

  /** The chunks of the layout, in file order. */
  function LayoutSpecs(crc32: Crc32, width: nat, height: nat, a: Bytes, b: Bytes): (specs: seq<ChunkSpec>)
    requires LayoutFits(width, height, a, b)
    ensures |specs| == 5 && forall i :: 0 <= i < |specs| ==> specs[i].Writable()
  {
    [ChunkSpec(IHDR, IhdrBody(width, height)),
     ChunkSpec(IDOT, IdotBody(height - 1, IDOT_SIZE + |Chunk(crc32, IDAT, a)|)),
     ChunkSpec(IDAT, a), ChunkSpec(IDAT, b), ChunkSpec(IEND, [])]
  }

  lemma LayoutIsChunks(crc32: Crc32, width: nat, height: nat, a: Bytes, b: Bytes)
    requires LayoutFits(width, height, a, b)
    ensures Layout(crc32, width, height, a, b) == PNG_SIGNATURE + Chunks(crc32, LayoutSpecs(crc32, width, height, a, b))
  {
    var specs := LayoutSpecs(crc32, width, height, a, b);
    var idot := IdotBody(height - 1, IDOT_SIZE + |Chunk(crc32, IDAT, a)|);
    var c0 := Chunk(crc32, IHDR, IhdrBody(width, height));
    var c1 := Chunk(crc32, IDOT, idot);
    var c2 := Chunk(crc32, IDAT, a);
    var c3 := Chunk(crc32, IDAT, b);
    var c4 := Chunk(crc32, IEND, []);
    var s4 := [ChunkSpec(IEND, [])];
    var s3 := [ChunkSpec(IDAT, b)] + s4;
    var s2 := [ChunkSpec(IDAT, a)] + s3;
    var s1 := [ChunkSpec(IDOT, idot)] + s2;
    var s0 := [ChunkSpec(IHDR, IhdrBody(width, height))] + s1;
    ChunksCons(crc32, ChunkSpec(IEND, []), []);
    assert Chunks(crc32, s4) == c4 + [];
    ChunksCons(crc32, ChunkSpec(IDAT, b), s4);
    ChunksCons(crc32, ChunkSpec(IDAT, a), s3);
    ChunksCons(crc32, ChunkSpec(IDOT, idot), s2);
    ChunksCons(crc32, ChunkSpec(IHDR, IhdrBody(width, height)), s1);
    assert specs == s0;
    Regroup(PNG_SIGNATURE, c0, c1, c2, c3, c4 + []);
    assert c4 + [] == c4;
  }

  lemma ChunksCons(crc32: Crc32, spec: ChunkSpec, rest: seq<ChunkSpec>)
    requires spec.Writable() && forall i :: 0 <= i < |rest| ==> rest[i].Writable()
    ensures forall i :: 0 <= i < |[spec] + rest| ==> ([spec] + rest)[i].Writable()
    ensures Chunks(crc32, [spec] + rest) == Chunk(crc32, spec.tag, spec.body) + Chunks(crc32, rest)
  {
    assert ([spec] + rest)[1..] == rest;
  }

  lemma Regroup(s: Bytes, c0: Bytes, c1: Bytes, c2: Bytes, c3: Bytes, c4: Bytes)
    ensures s + (c0 + (c1 + (c2 + (c3 + c4)))) == s + c0 + c1 + c2 + c3 + c4
  {
  }

  /** The file is the PNG signature and then exactly the chunks IHDR, iDOT,
      IDAT, IDAT and IEND, in that order, with their bodies and matching
      CRCs (lines 296-333). */
  lemma LayoutChunks(crc32: Crc32, width: nat, height: nat, a: Bytes, b: Bytes)
    requires LayoutFits(width, height, a, b)
    ensures var file := Layout(crc32, width, height, a, b);
      |file| >= 8 && file[..8] == PNG_SIGNATURE && ParseChunks(file[8..]).Some?
    ensures var cs := ParseChunks(Layout(crc32, width, height, a, b)[8..]).value;
      |cs| == 5 &&
      cs[0] == ChunkRecord(IHDR, IhdrBody(width, height), cs[0].crc) &&
      cs[1] == ChunkRecord(IDOT, IdotBody(height - 1, IDOT_SIZE + |a| + 12), cs[1].crc) &&
      cs[2] == ChunkRecord(IDAT, a, cs[2].crc) &&
      cs[3] == ChunkRecord(IDAT, b, cs[3].crc) &&
      cs[4] == ChunkRecord(IEND, [], cs[4].crc) &&
      forall i :: 0 <= i < 5 ==> CrcValid(crc32, cs[i])
  {
    var specs := LayoutSpecs(crc32, width, height, a, b);
    LayoutIsChunks(crc32, width, height, a, b);
    var file := Layout(crc32, width, height, a, b);
    assert file[8..] == Chunks(crc32, specs);
    ParseChunksOfChunks(crc32, specs);
  }

  /** `LayoutChunks`, for a file known to be that layout. */
  lemma FileChunks(crc32: Crc32, width: nat, height: nat, a: Bytes, b: Bytes, file: Bytes)
    requires LayoutFits(width, height, a, b) && file == Layout(crc32, width, height, a, b)
    ensures |file| >= 8 && file[..8] == PNG_SIGNATURE && ParseChunks(file[8..]).Some?
    ensures var cs := ParseChunks(file[8..]).value;
      |cs| == 5 &&
      cs[0].tag == IHDR && cs[1].tag == IDOT && cs[2].tag == IDAT && cs[3].tag == IDAT && cs[4].tag == IEND &&
      cs[0].body == IhdrBody(width, height) &&
      cs[1].body == IdotBody(height - 1, IDOT_SIZE + |a| + 12) &&
      cs[2].body == a && cs[3].body == b && cs[4].body == [] &&
      forall i :: 0 <= i < 5 ==> CrcValid(crc32, cs[i])
    ensures var cs := ParseChunks(file[8..]).value;
      |cs[0].body| == 13 && Field(cs[0].body, 0) == width && Field(cs[0].body, 1) == height &&
      |cs[1].body| == 28 && Field(cs[1].body, 4) == 1 && Field(cs[1].body, 5) == height - 1 &&
      Field(cs[1].body, 6) == IDOT_SIZE + |a| + 12
  {
    LayoutChunks(crc32, width, height, a, b);
    var cs := ParseChunks(file[8..]).value;
    HeaderFields(width, height, IDOT_SIZE + |a| + 12);
  }

  /** The IHDR and iDOT fields, read back as `Field`s. */
  lemma HeaderFields(width: u32, height: nat, restart: nat)
    requires 1 <= height && height - 1 <= MAX_INT32 && restart <= MAX_INT32
    ensures var ihdr := IhdrBody(width, height);
      |ihdr| == 13 && Field(ihdr, 0) == width && Field(ihdr, 1) == height
    ensures var idot := IdotBody(height - 1, restart);
      |idot| == 28 && Field(idot, 4) == 1 && Field(idot, 5) == height - 1 && Field(idot, 6) == restart
  {
    var ihdr := IhdrBody(width, height);
    IhdrFields(width, height);
    assert ihdr[4 * 0..4 * 0 + 4] == ihdr[0..4];
    assert ihdr[4 * 1..4 * 1 + 4] == ihdr[4..8];
    IdotFields(height - 1, restart);
  }

  /** The iDOT chunk starts right after the signature and IHDR, at byte 33,
      and its last field, counted from there, lands on the second IDAT
      chunk: the first IDAT chunk lies between the iDOT chunk and that
      offset, and the second IDAT chunk and IEND follow it. */
  lemma RestartOffsetLocatesSecondIdat(crc32: Crc32, width: nat, height: nat, a: Bytes, b: Bytes)
    requires LayoutFits(width, height, a, b)
    ensures var file := Layout(crc32, width, height, a, b);
      var idot := IdotBody(height - 1, IDOT_SIZE + |a| + 12);
      |idot| == 28 &&
      33 + Field(idot, 6) <= |file| &&
      file[33..33 + IDOT_SIZE] == Chunk(crc32, IDOT, idot) &&
      file[33 + IDOT_SIZE..33 + Field(idot, 6)] == Chunk(crc32, IDAT, a) &&
      file[33 + Field(idot, 6)..] == Chunk(crc32, IDAT, b) + Chunk(crc32, IEND, [])
  {
    var restart := IDOT_SIZE + |Chunk(crc32, IDAT, a)|;
    var idot := IdotBody(height - 1, restart);
    IdotFields(height - 1, restart);
    IhdrFields(width, height);
    var head := PNG_SIGNATURE + Chunk(crc32, IHDR, IhdrBody(width, height));
    var ci := Chunk(crc32, IDOT, idot);
    var c1 := Chunk(crc32, IDAT, a);
    var c2 := Chunk(crc32, IDAT, b);
    var c3 := Chunk(crc32, IEND, []);
    assert Layout(crc32, width, height, a, b) == head + ci + c1 + c2 + c3;
    assert |head| == 33;
    assert |ci| == IDOT_SIZE;
    assert restart == |ci| + |c1|;
    Slices(Layout(crc32, width, height, a, b), head, ci, c1, c2, c3, restart);
    assert Field(idot, 6) == restart;
  }

  /** Where each part of a file of five parts lies in it, given the lengths
      of the first two and the offset at which the fourth starts. */
  lemma Slices(s: Bytes, p0: Bytes, p1: Bytes, p2: Bytes, p3: Bytes, p4: Bytes, offset: nat)
    requires s == p0 + p1 + p2 + p3 + p4
    requires |p0| == 33 && |p1| == IDOT_SIZE && offset == |p1| + |p2|
    ensures 33 + offset <= |s|
    ensures s[33..33 + IDOT_SIZE] == p1
    ensures s[33 + IDOT_SIZE..33 + offset] == p2
    ensures s[33 + offset..] == p3 + p4
  {
    assert s == p0 + p1 + p2 + (p3 + p4);
  }

  /** What a successful `Finalize` has passed through: three inflations
      that succeeded, two readings that passed the filter check, and fields
      that fit. */
  lemma FinalizeOk(codec: Codec, width: nat, c: Composed)
    requires Finalize(codec, width, c).Ok?
    ensures codec.inflate(c.a).Some? && codec.inflate(c.b).Some? && codec.inflate(c.a + c.b).Some?
    ensures FilterCheck(codec.inflate(c.a).value + codec.inflate(c.b).value, width) == Pass
    ensures FilterCheck(codec.inflate(c.a + c.b).value, width) == Pass
    ensures var b := c.b + BE32(codec.adler32(codec.inflate(c.a + c.b).value));
      LayoutFits(width, c.ypos + 1, ZLIB_HEADER + c.a, b) &&
      Finalize(codec, width, c).value == Layout(codec.crc32, width, c.ypos + 1, ZLIB_HEADER + c.a, b)
  {
  }

  /** A packed file comes from a composition that succeeded, two readings
      that both inflated and both passed the filter check, and a layout
      whose height is one more than the canvas height: the extra zero row
      at the head of the stream. */
  lemma PackedFile(codec: Codec, rgb1: Bytes, rgb2: Bytes, width: nat, height: nat)
    requires |rgb1| == height * (width * 3) && |rgb2| == height * (width * 3)
    requires PackFile(codec, rgb1, rgb2, width, height).Ok?
    ensures 1 <= width && 1 <= height && TargetSize(width) <= MAX_STORED
    ensures var inp := PackInput(codec, rgb1, rgb2, width, height);
      Compose(inp).Ok? &&
      var c := Compose(inp).value;
      c.ypos == height && |c.a| == TargetSize(width) + 10 &&
      PackFile(codec, rgb1, rgb2, width, height) == Finalize(codec, width, c)
  {
    var inp := PackInput(codec, rgb1, rgb2, width, height);
    ComposeHead(inp);
  }

  /** The packed file's chunks: IHDR records the canvas width and the
      canvas height plus one, iDOT splits the image after its first row,
      with the second part starting in the second IDAT chunk, and the
      first IDAT chunk starts with the zlib header. Both readings of the
      stream passed the filter check. */
  lemma PackedChunks(codec: Codec, rgb1: Bytes, rgb2: Bytes, width: nat, height: nat)
    requires |rgb1| == height * (width * 3) && |rgb2| == height * (width * 3)
    requires PackFile(codec, rgb1, rgb2, width, height).Ok?
    ensures var file := PackFile(codec, rgb1, rgb2, width, height).value;
      |file| >= 8 && file[..8] == PNG_SIGNATURE && ParseChunks(file[8..]).Some? &&
      var cs := ParseChunks(file[8..]).value;
      |cs| == 5 &&
      cs[0].tag == IHDR && cs[1].tag == IDOT && cs[2].tag == IDAT && cs[3].tag == IDAT && cs[4].tag == IEND &&
      |cs[0].body| == 13 && Field(cs[0].body, 0) == width && Field(cs[0].body, 1) == height + 1 &&
      |cs[1].body| == 28 && Field(cs[1].body, 4) == 1 && Field(cs[1].body, 5) == height &&
      Field(cs[1].body, 6) == IDOT_SIZE + TargetSize(width) + 24 &&
      |cs[2].body| >= 2 && cs[2].body[..2] == ZLIB_HEADER &&
      forall i :: 0 <= i < 5 ==> CrcValid(codec.crc32, cs[i])
  {
    PackedFile(codec, rgb1, rgb2, width, height);
    var inp := PackInput(codec, rgb1, rgb2, width, height);
    var c := Compose(inp).value;
    FinalizeOk(codec, width, c);
    var interp2 := codec.inflate(c.a + c.b).value;
    var a := ZLIB_HEADER + c.a;
    var b := c.b + BE32(codec.adler32(interp2));
    var file := PackFile(codec, rgb1, rgb2, width, height).value;
    assert c.ypos + 1 == height + 1;
    assert file == Layout(codec.crc32, width, height + 1, a, b);
    FileChunks(codec.crc32, width, height + 1, a, b, file);
    assert |a| == TargetSize(width) + 12;
    assert a[..2] == ZLIB_HEADER;
  }

  /** A canvas of width 0 traps on the stride `width * 3` (line 97). */
  lemma ZeroWidthTraps(codec: Codec, rgb1: Bytes, rgb2: Bytes, height: nat)
    requires |rgb1| == 0 && |rgb2| == 0
    ensures PackFile(codec, rgb1, rgb2, 0, height) == Err(Trapped(ZeroStride))
  {
  }

  /** A canvas of height 0 traps when the trailing header is trimmed off
      the empty stream `b` (line 279). */
  lemma ZeroHeightTraps(codec: Codec, width: nat)
    requires 1 <= width && TargetSize(width) <= MAX_STORED
    ensures PackFile(codec, [], [], width, 0) == Err(Trapped(TrimOutOfRange))
  {
    var inp := PackInput(codec, [], [], width, 0);
    ComposeNoRows(inp);
  }

  /** A row longer than a stored block can hold (width 21845 or more) traps
      on the 16-bit length of the stored header (line 115). */
  lemma WideCanvasTraps(codec: Codec, rgb1: Bytes, rgb2: Bytes, width: nat, height: nat)
    requires |rgb1| == height * (width * 3) && |rgb2| == height * (width * 3)
    requires TargetSize(width) > MAX_STORED
    ensures PackFile(codec, rgb1, rgb2, width, height) == Err(Trapped(StoredLengthOverflow))
  {
  }
}
