/** Scanline filtering (`applyFilter`) and its consistency check
    (`checkFilterBytes`). Every row of an RGB canvas gets the PNG filter-type
    byte 0 ("None") in front of it. */
module Filter {
  import opened Bytes
  import opened Outcomes

  function Min(x: int, y: int): int { if x <= y then x else y }

  /** The filtered stream of `img` cut into rows of `stride` bytes; a short
      last row is kept as it is, as the `min(..., endIndex)` of line 98 does. */
  function Filtered(img: Bytes, stride: nat): Bytes
    requires stride > 0
    decreases |img|
  {
    if |img| == 0 then []
    else
      var row := img[..Min(stride, |img|)];
      [0] + row + Filtered(img[|row|..], stride)
  }

  /** `applyFilter(imageData, width:)`. */
  method ApplyFilter(imageData: Bytes, width: nat) returns (filtered: Bytes)
    requires width > 0  // stride(from:to:by:) traps on a step of 0
    ensures filtered == Filtered(imageData, width * 3)
  {
    filtered := [];
    var size := |imageData|;
    var stride := width * 3;
    var i := 0;
    while i < size
      invariant Filtered(imageData, stride) == filtered + Filtered(imageData[Min(i, size)..], stride)
      invariant 0 <= i
    {
      var end := Min(i + stride, size);
      FilteredInvariantStep(imageData, stride, i, filtered);
      filtered := filtered + [0] + imageData[i..end];
      i := i + stride;
    }
    assert imageData[Min(i, size)..] == [];
    assert filtered + [] == filtered;
  }

  /** The invariant of the loop of `applyFilter` survives one turn. */
  lemma FilteredInvariantStep(img: Bytes, stride: nat, i: nat, filtered: Bytes)
    requires stride > 0 && i < |img|
    ensures filtered + Filtered(img[Min(i, |img|)..], stride) ==
      (filtered + [0] + img[i..Min(i + stride, |img|)]) + Filtered(img[Min(i + stride, |img|)..], stride)
  {
    var end := Min(i + stride, |img|);
    assert Min(i, |img|) == i;
    FilteredStep(img, stride, i);
    var rest := Filtered(img[end..], stride);
    assert filtered + ([0] + img[i..end] + rest) == filtered + [0] + img[i..end] + rest;
  }

  /** One turn of the loop of `applyFilter`: the rest of the stream from
      offset `i` is a 0, the row at `i`, and the stream of the rows after it. */
  lemma FilteredStep(img: Bytes, stride: nat, i: nat)
    requires stride > 0 && i < |img|
    ensures Filtered(img[i..], stride) ==
      [0] + img[i..Min(i + stride, |img|)] + Filtered(img[Min(i + stride, |img|)..], stride)
  {
    var rest := img[i..];
    var end := Min(i + stride, |img|);
    assert rest[..Min(stride, |rest|)] == img[i..end];
    assert rest[end - i..] == img[end..];
  }

  /** Row `k` of a stream cut into rows of `w` bytes. */
  function RowOf(s: Bytes, w: nat, k: nat): Bytes
    requires (k + 1) * w <= |s|
  {
    s[k * w..(k + 1) * w]
  }

  lemma RowOfShift(s: Bytes, w: nat, k: nat)
    requires 1 <= k && (k + 1) * w <= |s|
    ensures RowOf(s, w, k) == RowOf(s[w..], w, k - 1)
  {
    var i := (k - 1) * w;
    MulSucc(k - 1, w);
    MulSucc(k, w);
    assert s[w..][i..i + w] == s[w + i..w + i + w];
  }

  lemma {:induction false} FilteredLength(img: Bytes, stride: nat, rows: nat)
    requires stride > 0 && |img| == rows * stride
    ensures |Filtered(img, stride)| == |img| + rows == rows * (stride + 1)
  {
    if rows > 0 {
      MulSucc(rows - 1, stride);
      var tail := img[stride..];
      FilteredLength(tail, stride, rows - 1);
      assert Filtered(img, stride) == [0] + img[..stride] + Filtered(tail, stride);
    }
    MulAddOne(rows, stride);
  }

  /** Row `k` of a filtered canvas of `rows` rows of `stride` bytes is the
      filter-type byte 0 followed by row `k` of the canvas, unchanged. */
  lemma {:induction false} FilteredRowAt(img: Bytes, stride: nat, rows: nat, k: nat)
    requires stride > 0 && |img| == rows * stride && k < rows
    ensures |Filtered(img, stride)| == rows * (stride + 1)
    ensures (k + 1) * (stride + 1) <= |Filtered(img, stride)| && (k + 1) * stride <= |img|
    ensures RowOf(Filtered(img, stride), stride + 1, k) == [0] + RowOf(img, stride, k)
  {
    FilteredLength(img, stride, rows);
    MulMono(k + 1, rows, stride + 1);
    MulMono(k + 1, rows, stride);
    var f := Filtered(img, stride);
    var tail := img[stride..];
    MulSucc(rows - 1, stride);
    assert f == [0] + img[..stride] + Filtered(tail, stride);
    if k == 0 {
      assert RowOf(f, stride + 1, 0) == f[..stride + 1];
      assert RowOf(img, stride, 0) == img[..stride];
    } else {
      assert f[stride + 1..] == Filtered(tail, stride);
      FilteredRowAt(tail, stride, rows - 1, k - 1);
      RowOfShift(f, stride + 1, k);
      RowOfShift(img, stride, k);
    }
  }

  /** The offset of row `k` in a stream of rows `stride` bytes long. */
  function RowStart(k: nat, stride: nat): nat
  {
    k * stride
  }

  /** The length of a filtered row of a canvas `width` pixels wide:
      `targetSize` at line 228 and the stride of line 104. */
  function TargetSize(width: nat): nat
  {
    width * 3 + 1
  }

  /** The first row, from row `k` on, whose first byte is not 0. */
  function FirstBadRow(data: Bytes, stride: nat, k: nat): Option<nat>
    requires stride > 0
    decreases |data| - RowStart(k, stride)
  {
    if RowStart(k, stride) >= |data| then None
    else if data[RowStart(k, stride)] != 0 then Some(k)
    else FirstBadRow(data, stride, k + 1)
  }

  /** `checkFilterBytes(data, width:)` as intended: it throws
      `badFilterByte(i)` at the first row start `i` (a multiple of
      `width * 3 + 1`) whose byte is not 0. */
  function FilterCheck(data: Bytes, width: nat): Outcome<Failure>
  {
    match FirstBadRow(data, TargetSize(width), 0)
    case None => Pass
    case Some(k) => Fail(BadFilterByte(RowStart(k, TargetSize(width))))
  }

  /** `checkFilterBytes` as written: before throwing, line 107 dumps
      `data[i - 10 ..< i + 10]`, and that slice traps whenever the bad byte
      lies within ten bytes of either end of `data`. */
  function FilterCheckAsWritten(data: Bytes, width: nat): Outcome<Failure>
  {
    match FirstBadRow(data, TargetSize(width), 0)
    case None => Pass
    case Some(k) =>
      var i := RowStart(k, TargetSize(width));
      if i < 10 || i + 10 > |data| then Fail(Trapped(DumpOutOfRange)) else Fail(BadFilterByte(i))
  }

  /** `checkFilterBytes(data, width:)`: the loop over the row starts. */
  method CheckFilterBytes(data: Bytes, width: nat) returns (r: Outcome<Failure>)
    ensures r == FilterCheck(data, width)
  {
    var stride := TargetSize(width);
    var i := 0;
    ghost var k := 0;
    while i < |data|
      invariant i == RowStart(k, stride)
      invariant FirstBadRow(data, stride, k) == FirstBadRow(data, stride, 0)
    {
      if data[i] != 0 {
        return Fail(BadFilterByte(i));
      }
      i := i + stride;
      k := k + 1;
    }
    return Pass;
  }

  lemma {:induction false} FirstBadRowSpec(data: Bytes, stride: nat, k: nat)
    requires stride > 0
    ensures FirstBadRow(data, stride, k).None? <==>
      forall m :: k <= m && RowStart(m, stride) < |data| ==> data[RowStart(m, stride)] == 0
    ensures FirstBadRow(data, stride, k).Some? ==>
      var b := FirstBadRow(data, stride, k).value;
      k <= b && RowStart(b, stride) < |data| && data[RowStart(b, stride)] != 0 &&
      forall m :: k <= m < b ==> RowStart(m, stride) < |data| && data[RowStart(m, stride)] == 0
    decreases |data| - RowStart(k, stride)
  {
    if RowStart(k, stride) < |data| && data[RowStart(k, stride)] == 0 {
      FirstBadRowSpec(data, stride, k + 1);
      forall m | k < m
        ensures RowStart(k + 1, stride) <= RowStart(m, stride)
      {
        MulMono(k + 1, m, stride);
      }
    } else if RowStart(k, stride) >= |data| {
      forall m | k <= m
        ensures RowStart(k, stride) <= RowStart(m, stride)
      {
        MulMono(k, m, stride);
      }
    }
  }

  /** `checkFilterBytes` passes exactly when every row start holds 0, and
      otherwise reports the smallest row start that does not. */
  lemma FilterCheckMeaning(data: Bytes, width: nat)
    ensures FilterCheck(data, width) == Pass <==>
      forall k :: RowStart(k, TargetSize(width)) < |data| ==> data[RowStart(k, TargetSize(width))] == 0
    ensures FilterCheck(data, width).Fail? ==>
      exists k ::
        FilterCheck(data, width) == Fail(BadFilterByte(RowStart(k, TargetSize(width)))) &&
        RowStart(k, TargetSize(width)) < |data| && data[RowStart(k, TargetSize(width))] != 0 &&
        forall m :: m < k ==> RowStart(m, TargetSize(width)) < |data| && data[RowStart(m, TargetSize(width))] == 0
  {
    FirstBadRowSpec(data, TargetSize(width), 0);
  }

  /** Every row start of a filtered stream holds the filter-type byte 0,
      whatever the length of the canvas. */
  lemma {:induction false} FilteredRowStartsZero(img: Bytes, stride: nat, rowLen: nat)
    requires stride > 0 && rowLen == stride + 1
    ensures forall k :: RowStart(k, rowLen) < |Filtered(img, stride)| ==> Filtered(img, stride)[RowStart(k, rowLen)] == 0
    decreases |img|
  {
    if |img| > 0 {
      var f := Filtered(img, stride);
      var row := img[..Min(stride, |img|)];
      var rest := Filtered(img[|row|..], stride);
      assert f == [0] + row + rest;
      FilteredRowStartsZero(img[|row|..], stride, rowLen);
      forall k | 0 < k && RowStart(k, rowLen) < |f|
        ensures f[RowStart(k, rowLen)] == 0
      {
        assert RowStart(k, rowLen) == RowStart(k - 1, rowLen) + rowLen;
        assert f[RowStart(k, rowLen)] == rest[RowStart(k - 1, rowLen)];
      }
    }
  }

  /** So the check at lines 288-289 passes on anything `applyFilter` built. */
  lemma FilteredPassesCheck(img: Bytes, width: nat)
    requires width > 0
    ensures FilterCheck(Filtered(img, width * 3), width) == Pass
  {
    FilteredRowStartsZero(img, width * 3, TargetSize(width));
    FilterCheckMeaning(Filtered(img, width * 3), width);
  }

  /** A bad first byte makes the written check trap, where a
      `badFilterByte(0)` was meant. */
  lemma DumpTrapsOnFirstByte()
    ensures FilterCheckAsWritten([1], 1) == Fail(Trapped(DumpOutOfRange))
    ensures FilterCheck([1], 1) == Fail(BadFilterByte(0))
  {
  }

  /** The written check and the intended one differ exactly when the first
      bad row start lies within ten bytes of an end of the data. */
  lemma AsWrittenDiffersNearEdges(data: Bytes, width: nat)
    ensures FilterCheckAsWritten(data, width) != FilterCheck(data, width) <==>
      FilterCheck(data, width).Fail? &&
      (FilterCheck(data, width).error.offset < 10 || FilterCheck(data, width).error.offset + 10 > |data|)
  {
  }
}
