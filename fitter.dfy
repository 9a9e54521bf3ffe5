/** The exact-size fitter, `compressToSize`: it frames a DEFLATE run of a
    prefix of the data, a stored block of the rest and empty stored blocks
    so that the whole is exactly `size` bytes long. */
module Fitter {
  import opened Bytes
  import opened Outcomes
  import opened StoredBlock

  /** `compress(data)`: raw DEFLATE of `data` with its last two bytes (the
      end-of-stream flush marker) dropped. A library black box. */
  type Compressor = Bytes -> Bytes

  /** `decompressHeaderless(data)`: raw inflate, None when it throws. A
      library black box. */
  type Inflater = Bytes -> Option<Bytes>

  /** What `compressToSize` can end in: a block of exactly the asked size,
      nil, or a trap in `UInt16(ending.count)` once the suffix is longer
      than 0xFFFF bytes. */
  datatype Fit = Fitted(block: Bytes) | Unfit | LengthOverflow

  /** An attempt of the fitter, padded: an empty stored block, the
      compressed prefix, a stored block of the suffix and `pads` empty stored
      blocks (lines 140 and 153). */
  function Framed(compress: Compressor, prefix: Bytes, suffix: Bytes, pads: nat): Bytes
    requires |suffix| <= MAX_STORED
  {
    EmptyBlock() + compress(prefix) + Verbatim(suffix, false) + Padding(pads)
  }

  /** The only property of the compressor and the inflater the model relies
      on: inflating a compressed run framed by stored blocks gives back the
      run followed by the stored bytes. */
  ghost predicate InflatesFramed(compress: Compressor, inflate: Inflater)
  {
    forall prefix: Bytes, suffix: Bytes, pads: nat {:trigger Framed(compress, prefix, suffix, pads)} ::
      |suffix| <= MAX_STORED ==> inflate(Framed(compress, prefix, suffix, pads)) == Some(prefix + suffix)
  }

  /** `size - attempt.count` for the attempt that keeps the last `i` bytes
      as a stored block (line 141). */
  function Remainder(compress: Compressor, data: Bytes, size: int, i: nat): int
    requires 1 <= i < |data| && i <= MAX_STORED
  {
    size - |Framed(compress, data[..|data| - i], data[|data| - i..], 0)|
  }

  /** Whether the attempt with suffix length `i` is the one the loop stops
      at: its remainder is a multiple of 5. Swift's `%` truncates and
      Dafny's is Euclidean, but both give 0 on exactly the multiples of 5. */
  predicate Stops(compress: Compressor, data: Bytes, size: int, i: nat)
    requires 1 <= i < |data| && i <= MAX_STORED
  {
    Remainder(compress, data, size, i) % 5 == 0
  }

  /** Where the loop `for i in 1..<data.count` of line 136 ends. */
  datatype Split = Found(i: nat) | Exhausted | Overflowed

  /** Which suffix lengths stop the loop. */
  type StopRule = nat -> bool

  /** The loop over suffix lengths `i ..< n`: it stops at the first length
      the rule accepts, unless it first runs out of lengths or passes the
      16-bit limit of `UInt16(ending.count)`. */
  function Search(stop: StopRule, n: nat, i: nat): (r: Split)
    ensures r.Found? ==> i <= r.i < n && r.i <= MAX_STORED && stop(r.i)
    decreases n - i
  {
    if i >= n then Exhausted
    else if i > MAX_STORED then Overflowed
    else if stop(i) then Found(i)
    else Search(stop, n, i + 1)
  }

  /** The search finds the first accepted length; it runs out of lengths or
      reaches the 16-bit limit only when no length before accepts. */
  lemma {:induction false} SearchSpec(stop: StopRule, n: nat, i: nat)
    ensures Search(stop, n, i).Found? ==> forall k :: i <= k < Search(stop, n, i).i ==> !stop(k)
    ensures Search(stop, n, i).Exhausted? ==>
      (i >= n || n <= MAX_STORED + 1) && forall k :: i <= k < n ==> !stop(k)
    ensures Search(stop, n, i).Overflowed? ==>
      i < n && MAX_STORED + 1 < n && forall k :: i <= k <= MAX_STORED ==> !stop(k)
    decreases n - i
  {
    if i < n && i <= MAX_STORED && !stop(i) {
      SearchSpec(stop, n, i + 1);
    }
  }

  /** The rule of line 142 on the lengths the loop can reach. */
  function StopRuleOf(compress: Compressor, data: Bytes, size: int): StopRule
  {
    (k: nat) => 1 <= k < |data| && k <= MAX_STORED && Stops(compress, data, size, k)
  }

  /** The rule accepts exactly the reachable lengths that stop the loop. */
  lemma StopRuleAt(compress: Compressor, data: Bytes, size: int, k: nat)
    ensures StopRuleOf(compress, data, size)(k) <==>
      1 <= k < |data| && k <= MAX_STORED && Stops(compress, data, size, k)
  {
  }

  /** The loop of line 136 from suffix length `i` on. */
  function SearchSplit(compress: Compressor, data: Bytes, size: int, i: nat): (r: Split)
    requires 1 <= i
    ensures r.Found? ==> i <= r.i < |data| && r.i <= MAX_STORED && Stops(compress, data, size, r.i)
  {
    Search(StopRuleOf(compress, data, size), |data|, i)
  }

  /** What `compressToSize(data, size:)` returns. */
  function FitToSize(compress: Compressor, data: Bytes, size: int): Fit
    requires |data| >= 1  // the range 1..<data.count traps on empty data
  {
    match SearchSplit(compress, data, size, 1)
    case Exhausted => Unfit
    case Overflowed => LengthOverflow
    case Found(i) =>
      var remainder := Remainder(compress, data, size, i);
      if remainder < 0 then Unfit
      else Fitted(Framed(compress, data[..|data| - i], data[|data| - i..], remainder / 5))
  }

  /** The suffix length the loop of line 136 stops at: the smallest `i` in
      `1..<data.count` whose remainder is a multiple of 5, reached before
      the 16-bit limit. */
  predicate FirstStop(compress: Compressor, data: Bytes, size: int, i: nat)
  {
    1 <= i < |data| && i <= MAX_STORED && Stops(compress, data, size, i) &&
    forall k :: 1 <= k < i ==> !Stops(compress, data, size, k)
  }

  /** No suffix length the loop tries, up to the 16-bit limit, stops it. */
  predicate NeverStops(compress: Compressor, data: Bytes, size: int)
  {
    forall k :: 1 <= k < |data| && k <= MAX_STORED ==> !Stops(compress, data, size, k)
  }

  /** At most one suffix length is the first to stop the loop. */
  lemma FirstStopUnique(compress: Compressor, data: Bytes, size: int, i1: nat, i2: nat)
    requires FirstStop(compress, data, size, i1) && FirstStop(compress, data, size, i2)
    ensures i1 == i2
  {
  }

  /** Either some suffix length is the first to stop the loop, or none of
      the lengths it tries stops it. */
  lemma FirstStopOrNever(compress: Compressor, data: Bytes, size: int)
    requires |data| >= 1
    ensures (exists i :: FirstStop(compress, data, size, i)) || NeverStops(compress, data, size)
  {
    SearchSpec(StopRuleOf(compress, data, size), |data|, 1);
    match SearchSplit(compress, data, size, 1)
    case Found(j) =>
      forall k | 1 <= k < j
        ensures !Stops(compress, data, size, k)
      {
        StopRuleAt(compress, data, size, k);
      }
      assert FirstStop(compress, data, size, j);
    case _ =>
      forall k | 1 <= k < |data| && k <= MAX_STORED
        ensures !Stops(compress, data, size, k)
      {
        StopRuleAt(compress, data, size, k);
      }
  }

  /** At the first suffix length that stops the loop, `compressToSize` is
      nil when the remainder is negative (line 150), and otherwise that
      attempt padded with `remainder / 5` empty blocks (line 153). */
  lemma FitAtFirstStop(compress: Compressor, data: Bytes, size: int, i: nat)
    requires |data| >= 1 && FirstStop(compress, data, size, i)
    ensures var rem := Remainder(compress, data, size, i);
      FitToSize(compress, data, size) ==
        if rem < 0 then Unfit else Fitted(Framed(compress, data[..|data| - i], data[|data| - i..], rem / 5))
  {
    SearchSpec(StopRuleOf(compress, data, size), |data|, 1);
    var r := SearchSplit(compress, data, size, 1);
    if r.Found? {
      forall k | 1 <= k < r.i
        ensures !Stops(compress, data, size, k)
      {
        StopRuleAt(compress, data, size, k);
      }
      FirstStopUnique(compress, data, size, i, r.i);
    } else {
      StopRuleAt(compress, data, size, i);
      assert false;
    }
  }

  /** When no suffix length stops the loop, `compressToSize` is nil
      (line 148), or the 16-bit trap once the loop reaches a suffix of more
      than 0xFFFF bytes. */
  lemma FitWhenNeverStops(compress: Compressor, data: Bytes, size: int)
    requires |data| >= 1 && NeverStops(compress, data, size)
    ensures FitToSize(compress, data, size) == if |data| <= MAX_STORED + 1 then Unfit else LengthOverflow
  {
    SearchSpec(StopRuleOf(compress, data, size), |data|, 1);
    match SearchSplit(compress, data, size, 1)
    case Found(j) =>
      assert false;
    case _ =>
  }

  /** `compressToSize(data, size:)`: the loop over suffix lengths. */
  method CompressToSize(compress: Compressor, data: Bytes, size: int) returns (r: Fit)
    requires |data| >= 1
    ensures r == FitToSize(compress, data, size)
    ensures r.Fitted? ==> |r.block| == size
  {
    var attempt: Bytes := [];
    var remainder: int := 0;
    var found := false;
    var i := 1;
    while i < |data|
      invariant 1 <= i
      invariant SearchSplit(compress, data, size, i) == SearchSplit(compress, data, size, 1)
    {
      SearchSplitUnfold(compress, data, size, i);
      if i > MAX_STORED {
        return LengthOverflow;
      }
      attempt, remainder := Attempt(compress, data, size, i);
      if remainder % 5 == 0 {
        found := true;
        break;
      }
      i := i + 1;
    }
    SearchSplitUnfold(compress, data, size, i);
    if !found {
      return Unfit;
    }
    if remainder < 0 {
      return Unfit;
    }
    attempt := attempt + Padding(remainder / 5);
    FitLength(compress, data, size);
    return Fitted(attempt);
  }

  /** One attempt of the loop of lines 137-141: the empty stored block, the
      compressed prefix and the stored suffix of `i` bytes, and what is left
      of `size` after them. */
  method Attempt(compress: Compressor, data: Bytes, size: int, i: nat) returns (attempt: Bytes, remainder: int)
    requires 1 <= i < |data| && i <= MAX_STORED
    ensures attempt == EmptyBlock() + compress(data[..|data| - i]) + Verbatim(data[|data| - i..], false)
    ensures remainder == Remainder(compress, data, size, i)
  {
    var chunk := data[..|data| - i];
    var compressedChunk := compress(chunk);
    var ending := data[|data| - i..];
    attempt := EmptyBlock() + compressedChunk + Verbatim(ending, false);
    remainder := size - |attempt|;
  }

  /** One step of the loop of line 136, as `SearchSplit` takes it. */
  lemma SearchSplitUnfold(compress: Compressor, data: Bytes, size: int, i: nat)
    requires 1 <= i
    ensures SearchSplit(compress, data, size, i) ==
      if i >= |data| then Exhausted
      else if i > MAX_STORED then Overflowed
      else if Stops(compress, data, size, i) then Found(i)
      else SearchSplit(compress, data, size, i + 1)
  {
  }

  /** The assertion of line 154: a fitted block is exactly `size` bytes. */
  lemma FitLength(compress: Compressor, data: Bytes, size: int)
    requires |data| >= 1
    ensures FitToSize(compress, data, size).Fitted? ==> |FitToSize(compress, data, size).block| == size
  {
  }

  /** The assertion of line 155: a fitted block inflates back to `data`. */
  lemma FitRoundTrip(compress: Compressor, inflate: Inflater, data: Bytes, size: int)
    requires |data| >= 1 && InflatesFramed(compress, inflate)
    ensures FitToSize(compress, data, size).Fitted? ==> inflate(FitToSize(compress, data, size).block) == Some(data)
  {
    match SearchSplit(compress, data, size, 1)
    case Found(i) =>
      assert data[..|data| - i] + data[|data| - i..] == data;
    case _ =>
  }

  /** `compressToSize` with its size argument, as a value a caller can be
      handed as an oracle. */
  type FitOracle = (Bytes, int) -> Fit

  /** The oracle that is `compressToSize` over `compress`. On empty data,
      where the Swift range `1..<0` traps, it answers nil; no caller in the
      packer passes empty data. */
  function FitFunction(compress: Compressor): FitOracle
  {
    (data: Bytes, size: int) => if |data| == 0 then Unfit else FitToSize(compress, data, size)
  }

  /** A block the oracle fits is one `compressToSize` makes of non-empty
      data, and so has the length of line 154. */
  lemma OracleLength(fit: FitOracle, compress: Compressor, data: Bytes, size: int, block: Bytes)
    requires fit == FitFunction(compress) && fit(data, size) == Fitted(block)
    ensures |block| == size
  {
    assert |data| >= 1 && FitToSize(compress, data, size) == Fitted(block);
    FitLength(compress, data, size);
  }

  /** ... and, under the DEFLATE axiom, the round trip of line 155. */
  lemma OracleRoundTrip(fit: FitOracle, compress: Compressor, inflate: Inflater, data: Bytes, size: int, block: Bytes)
    requires fit == FitFunction(compress) && fit(data, size) == Fitted(block)
    requires InflatesFramed(compress, inflate)
    ensures inflate(block) == Some(data)
  {
    assert |data| >= 1 && FitToSize(compress, data, size) == Fitted(block);
    FitRoundTrip(compress, inflate, data, size);
  }
}
