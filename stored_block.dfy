/** Stored ("non-compressed") DEFLATE blocks, section 3.2.4 of RFC 1951: the
    framing `verbatim` writes, its parser, and the empty blocks used as
    padding and synchronisation markers. */
module StoredBlock {
  import opened Bytes
  import opened Outcomes

  /** The largest LEN a stored block can announce. */
  const MAX_STORED: nat := 0xFFFF

  /** NLEN, the one's complement of a 16-bit LEN. The source computes it as
      `UInt16(count) ^ UInt16(0xffff)`; flipping all sixteen bits of a value
      below 0x10000 is subtracting it from 0xFFFF. */
  function Complement16(n: nat): nat
    requires n <= MAX_STORED
  {
    MAX_STORED - n
  }

  /** The five header bytes of a stored block: BFINAL in bit 0 and BTYPE 00,
      then LEN and NLEN, both little-endian. */
  function Header(n: nat, last: bool): Bytes
    requires n <= MAX_STORED
  {
    [if last then 1 else 0] + LE16(n) + LE16(Complement16(n))
  }

  /** `verbatim(data, last)`: a stored block holding `data`. */
  function Verbatim(data: Bytes, last: bool): (r: Bytes)
    requires |data| <= MAX_STORED
    ensures |r| == |data| + 5
    ensures r[0] == (if last then 1 else 0)
    ensures LE16Value(r[1], r[2]) == |data|
    ensures LE16Value(r[3], r[4]) == MAX_STORED - |data|
    ensures r[5..] == data
  {
    Header(|data|, last) + data
  }

  /** `verbatim()`: an empty, non-final stored block, five bytes of padding. */
  function EmptyBlock(): (r: Bytes)
    ensures r == [0, 0, 0, 0xFF, 0xFF]
  {
    EmptyBlockBytes();
    Verbatim([], false)
  }

  /** `verbatim(last: true)`: the empty stored block that ends a stream. */
  function FinalEmptyBlock(): (r: Bytes)
    ensures r == [1, 0, 0, 0xFF, 0xFF]
  {
    EmptyBlockBytes();
    Verbatim([], true)
  }

  lemma EmptyBlockBytes()
    ensures Verbatim([], false) == [0, 0, 0, 0xFF, 0xFF]
    ensures Verbatim([], true) == [1, 0, 0, 0xFF, 0xFF]
  {
    EmptyHeaders();
    assert Verbatim([], false) == Header(0, false) + [];
    assert Verbatim([], true) == Header(0, true) + [];
  }

  lemma EmptyHeaders()
    ensures Header(0, false) == [0, 0, 0, 0xFF, 0xFF]
    ensures Header(0, true) == [1, 0, 0, 0xFF, 0xFF]
  {
  }

  /** Lines 234, 271 and 273 cut the first five bytes off a stored block of
      `n` zeros: what remains is a header announcing `n` literal bytes, which
      is not an empty block when `n > 0`. */
  lemma CutHeaderAnnounces(n: nat, last: bool)
    requires n <= MAX_STORED
    ensures Verbatim(Zeros(n), last)[..5] == Header(n, last)
    ensures |Header(n, last)| == 5
    ensures LE16Value(Header(n, last)[1], Header(n, last)[2]) == n
    ensures n > 0 ==> Header(n, false) != EmptyBlock()
  {
    assert Verbatim(Zeros(n), last)[..5] == Header(n, last) by {
      assert Verbatim(Zeros(n), last) == Header(n, last) + Zeros(n);
    }
    assert LE16Value(Header(n, last)[1], Header(n, last)[2]) == n by {
      LE16RoundTrip(n);
      assert Header(n, last)[1..3] == LE16(n);
    }
    if n > 0 {
      assert Header(n, false) != EmptyBlock() by {
        LE16RoundTrip(n);
        assert Header(n, false)[1..3] == LE16(n);
        assert LE16Value(EmptyBlock()[1], EmptyBlock()[2]) == 0;
      }
    }
  }

  /** `k` empty stored blocks back to back, as
      `[Data](repeating: verbatim(), count: k).flatMap { $0 }`. */
  function Padding(k: nat): (p: Bytes)
    ensures |p| == 5 * k
  {
    if k == 0 then [] else EmptyBlock() + Padding(k - 1)
  }

  /** One stored block as a reader sees it. */
  datatype Block = Block(last: bool, data: Bytes)

  /** Reads one stored block off the front of `s`, in the byte-aligned form
      `verbatim` writes (the five header bits above BFINAL and BTYPE zero),
      and returns it with the bytes that follow; None when `s` does not
      start with such a block. */
  function ParseStored(s: Bytes): Option<(Block, Bytes)>
  {
    if |s| < 5 || s[0] > 1 then None
    else
      var len := LE16Value(s[1], s[2]);
      if len > MAX_STORED || LE16Value(s[3], s[4]) != Complement16(len) || |s| < 5 + len then None
      else Some((Block(s[0] == 1, s[5..5 + len]), s[5 + len..]))
  }

  /** The parser reads back what `verbatim` writes. */
  lemma ParseVerbatim(data: Bytes, last: bool, rest: Bytes)
    requires |data| <= MAX_STORED
    ensures ParseStored(Verbatim(data, last) + rest) == Some((Block(last, data), rest))
  {
    var s := Verbatim(data, last) + rest;
    assert s[5..5 + |data|] == data;
    assert s[5 + |data|..] == rest;
  }

  /** ... and `verbatim` is the only way to write a block the parser accepts. */
  lemma ParsedIsVerbatim(s: Bytes)
    requires ParseStored(s).Some?
    ensures |ParseStored(s).value.0.data| <= MAX_STORED
    ensures s == Verbatim(ParseStored(s).value.0.data, ParseStored(s).value.0.last) + ParseStored(s).value.1
  {
    var len := LE16Value(s[1], s[2]);
    var nlen := LE16Value(s[3], s[4]);
    var blk := ParseStored(s).value.0;
    assert s[..5] == Header(len, blk.last) by {
      LE16ValueRoundTrip(s[1], s[2]);
      LE16ValueRoundTrip(s[3], s[4]);
      assert s[..5] == [s[0]] + [s[1], s[2]] + [s[3], s[4]];
    }
    assert s == s[..5] + s[5..5 + len] + s[5 + len..];
  }
}
