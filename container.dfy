/** The PNG container the packer writes: chunks, the IHDR and iDOT bodies,
    and the growable byte buffer the IDAT chunks are staged in. */
module Container {
  import opened Bytes
  import opened Outcomes

  /** `Crc32()` advanced over the chunk name and then the body: a library
      black box, applied here to their concatenation. */
  type Crc32 = Bytes -> u32

  /** `pngMagic`, the eight-byte PNG signature (lines 77-79). */
  const PNG_SIGNATURE: Bytes := [0x89, 0x50, 0x4E, 0x47, 0x0D, 0x0A, 0x1A, 0x0A]

  /** The chunk names, as the UTF-8 bytes of "IHDR", "iDOT", "IDAT", "IEND". */
  const IHDR: Bytes := [0x49, 0x48, 0x44, 0x52]
  const IDOT: Bytes := [0x69, 0x44, 0x4F, 0x54]
  const IDAT: Bytes := [0x49, 0x44, 0x41, 0x54]
  const IEND: Bytes := [0x49, 0x45, 0x4E, 0x44]

  /** The largest body `UInt32(body.count)` accepts. */
  const MAX_CHUNK_BODY: nat := 0xFFFF_FFFF

  /** What `writeChunk` writes (lines 159-179): the body length, the name,
      the body and the CRC-32 of name and body, all big-endian. */
  function Chunk(crc32: Crc32, tag: Bytes, body: Bytes): (r: Bytes)
    requires |tag| == 4 && |body| <= MAX_CHUNK_BODY
    ensures |r| == |body| + 12
  {
    BE32(|body|) + tag + body + BE32(crc32(tag + body))
  }

  /** A `NIO.ByteBuffer` used only for writing: its readable bytes. */
  class ByteBuffer {
    var bytes: Bytes

    constructor()
      ensures bytes == []
    {
      bytes := [];
    }

    /** `writerIndex`: how many bytes have been written. */
    function WriterIndex(): nat
      reads this
    {
      |bytes|
    }

    /** `writeBytes`: appends `data`. */
    method WriteBytes(data: Bytes)
      modifies this
      ensures bytes == old(bytes) + data
    {
      bytes := bytes + data;
    }
  }

  /** `writeChunk(_:name:body:)` into a buffer (lines 170-179); the variant
      that writes to a file handle (lines 159-168) writes the same bytes. */
  method WriteChunk(buffer: ByteBuffer, crc32: Crc32, tag: Bytes, body: Bytes)
    requires |tag| == 4 && |body| <= MAX_CHUNK_BODY
    modifies buffer
    ensures buffer.bytes == old(buffer.bytes) + Chunk(crc32, tag, body)
    ensures buffer.WriterIndex() == old(buffer.WriterIndex()) + |body| + 12
  {
    buffer.WriteBytes(BE32(|body|));
    buffer.WriteBytes(tag);
    buffer.WriteBytes(body);
    buffer.WriteBytes(BE32(crc32(tag + body)));
  }

  /** The IHDR body of lines 300-307: width, height, bit depth 8, colour
      type 2 (truecolour) and compression, filter and interlace method 0. */
  function IhdrBody(width: u32, height: u32): Bytes
  {
    BE32(width) + BE32(height) + [8, 2, 0, 0, 0]
  }

  lemma IhdrFields(width: u32, height: u32)
    ensures var body := IhdrBody(width, height);
      |body| == 13 &&
      BE32Value(body[0..4]) == width && BE32Value(body[4..8]) == height &&
      body[8] == 8 && body[9] == 2 && body[10..] == [0, 0, 0]
  {
    BE32RoundTrip(width);
    BE32RoundTrip(height);
    var body := IhdrBody(width, height);
    assert body[0..4] == BE32(width);
    assert body[4..8] == BE32(height);
  }

  /** The number of parts the iDOT chunk divides the image into (line 316). */
  const IDOT_PARTS: nat := 2

  /** `idotSize`, the length of the iDOT chunk: 24 + 8 * n (line 317). */
  const IDOT_SIZE: nat := 24 + 8 * IDOT_PARTS

  /** The largest value `Int32(_)` accepts. */
  const MAX_INT32: nat := 0x7FFF_FFFF

  /** The iDOT body of lines 319-326, seven big-endian 32-bit fields: the
      number of parts, 0, 1, the chunk size, the height of the first part,
      the height of the second part and the offset, counted from the start
      of the iDOT chunk, of the IDAT chunk where the second part starts. */
  function IdotBody(secondHeight: nat, restartOffset: nat): Bytes
    requires secondHeight <= MAX_INT32 && restartOffset <= MAX_INT32
  {
    BE32(IDOT_PARTS) + BE32(0) + BE32(1) + BE32(IDOT_SIZE) + BE32(1) + BE32(secondHeight) + BE32(restartOffset)
  }

  /** Field `k` of a body of big-endian 32-bit fields. */
  function Field(body: Bytes, k: nat): nat
    requires 4 * k + 4 <= |body|
  {
    BE32Value(body[4 * k..4 * k + 4])
  }

  lemma IdotFields(secondHeight: nat, restartOffset: nat)
    requires secondHeight <= MAX_INT32 && restartOffset <= MAX_INT32
    ensures var body := IdotBody(secondHeight, restartOffset);
      |body| == 28 && |body| + 12 == IDOT_SIZE &&
      Field(body, 0) == IDOT_PARTS && Field(body, 1) == 0 && Field(body, 2) == 1 &&
      Field(body, 3) == IDOT_SIZE && Field(body, 4) == 1 &&
      Field(body, 5) == secondHeight && Field(body, 6) == restartOffset
  {
    var body := IdotBody(secondHeight, restartOffset);
    BE32RoundTrip(IDOT_PARTS);
    BE32RoundTrip(0);
    BE32RoundTrip(1);
    BE32RoundTrip(IDOT_SIZE);
    BE32RoundTrip(secondHeight);
    BE32RoundTrip(restartOffset);
    assert body[0..4] == BE32(IDOT_PARTS);
    assert body[4..8] == BE32(0);
    assert body[8..12] == BE32(1);
    assert body[12..16] == BE32(IDOT_SIZE);
    assert body[16..20] == BE32(1);
    assert body[20..24] == BE32(secondHeight);
    assert body[24..28] == BE32(restartOffset);
  }

  /** One chunk as a reader sees it. */
  datatype ChunkRecord = ChunkRecord(tag: Bytes, body: Bytes, crc: nat)

  /** The record's CRC field matches its name and body. */
  predicate CrcValid(crc32: Crc32, c: ChunkRecord)
  {
    c.crc == crc32(c.tag + c.body)
  }

  /** Reads one chunk off the front of `s`. */
  function ParseChunk(s: Bytes): (r: Option<(ChunkRecord, Bytes)>)
    ensures r.Some? ==> |r.value.1| + 12 <= |s|
  {
    if |s| < 12 then None
    else
      var len := BE32Value(s[..4]);
      if |s| < 12 + len then None
      else Some((ChunkRecord(s[4..8], s[8..8 + len], BE32Value(s[8 + len..12 + len])), s[12 + len..]))
  }

  /** Reads a sequence of chunks that fills `s` exactly. */
  function ParseChunks(s: Bytes): Option<seq<ChunkRecord>>
    decreases |s|
  {
    if s == [] then Some([])
    else match ParseChunk(s)
      case None => None
      case Some((c, rest)) =>
        match ParseChunks(rest)
        case None => None
        case Some(cs) => Some([c] + cs)
  }

  /** A chunk reads back as its name, body and CRC. */
  lemma ParseChunkOfChunk(crc32: Crc32, tag: Bytes, body: Bytes, rest: Bytes)
    requires |tag| == 4 && |body| <= MAX_CHUNK_BODY
    ensures ParseChunk(Chunk(crc32, tag, body) + rest) ==
      Some((ChunkRecord(tag, body, crc32(tag + body)), rest))
  {
    var s := Chunk(crc32, tag, body) + rest;
    var n := |body|;
    BE32RoundTrip(n);
    BE32RoundTrip(crc32(tag + body));
    assert s[..4] == BE32(n);
    assert s[4..8] == tag;
    assert s[8..8 + n] == body;
    assert s[8 + n..12 + n] == BE32(crc32(tag + body));
    assert s[12 + n..] == rest;
  }

  /** A chunk to write: its name and body. */
  datatype ChunkSpec = ChunkSpec(tag: Bytes, body: Bytes)
  {
    predicate Writable()
    {
      |tag| == 4 && |body| <= MAX_CHUNK_BODY
    }
  }

  /** The bytes of a run of chunks. */
  function Chunks(crc32: Crc32, specs: seq<ChunkSpec>): Bytes
    requires forall i :: 0 <= i < |specs| ==> specs[i].Writable()
  {
    if specs == [] then []
    else
      assert specs[0].Writable();
      Chunk(crc32, specs[0].tag, specs[0].body) + Chunks(crc32, specs[1..])
  }

  /** Reading back a run of chunks gives their names and bodies, in order,
      each with a CRC that matches. */
  lemma {:induction false} ParseChunksOfChunks(crc32: Crc32, specs: seq<ChunkSpec>)
    requires forall i :: 0 <= i < |specs| ==> specs[i].Writable()
    ensures ParseChunks(Chunks(crc32, specs)).Some?
    ensures var cs := ParseChunks(Chunks(crc32, specs)).value;
      |cs| == |specs| &&
      forall i :: 0 <= i < |cs| ==> cs[i].tag == specs[i].tag && cs[i].body == specs[i].body && CrcValid(crc32, cs[i])
  {
    if specs != [] {
      var rest := Chunks(crc32, specs[1..]);
      ParseChunkOfChunk(crc32, specs[0].tag, specs[0].body, rest);
      ParseChunksOfChunks(crc32, specs[1..]);
      var s := Chunks(crc32, specs);
      assert s != [] by {
        assert |s| >= 12;
      }
    }
  }
}
