/** The authentication-indication payload: a header and 4-byte-aligned chunks, copied into the
    message posted to the interface. */
module AuthIndication {
  import opened ByteBuffers
  import opened MachineTypes

  const MESSAGE_SIZE: nat := 0x6c
  const HEADER_SIZE: nat := 4
  const HEADER_TYPE: uint16 := 1
  const CHUNK_HEADER_SIZE: nat := 4
  const CHUNK_ALIGNMENT: nat := 4
  const CHUNK_ALIGNED_LENGTH_MAX: nat := 0xfffa
  const CHUNK_TYPE1: uint16 := 1
  const CHUNK_TYPE1_MIN_SIZE: nat := 0x20
  const CHUNK_TYPE1_MAX_SIZE: nat := 0x40
  const CHUNK_TYPE1_OUTPUT: nat := 0x18
  const CHUNK_TYPE2: uint16 := 2
  const CHUNK_TYPE2_SIZE: nat := 0x10
  const CHUNK_TYPE2_OUTPUT: nat := 0x54
  const CHUNK_AREA_END: nat := 0x64

  const REASON_TRAP_THRESHOLD: uint32 := 0x2e
  const REASON_APPLE_BASE: uint32 := 0xe0823000
  const REASON_FALLBACK: uint32 := 0xe3ff8100

  // ---------- specification ----------

  function Le16(s: seq<byte>, at: nat): uint16
    requires at + 2 <= |s|
  {
    s[at] as int + 0x100 * (s[at + 1] as int)
  }

  function ToLe16(v: uint16): seq<byte> {
    [v % 0x100, v / 0x100]
  }

  /** The payload length rounded up to the alignment; an empty payload still takes one unit. */
  function AlignedLength(length: uint16): nat {
    if length == 0 then CHUNK_ALIGNMENT else (length - 1) / CHUNK_ALIGNMENT * CHUNK_ALIGNMENT + CHUNK_ALIGNMENT
  }

  datatype Chunk = Chunk(kind: uint16, data: seq<byte>) {
    predicate Encodable() {
      |data| < 0x1_0000 && AlignedLength(|data|) <= CHUNK_ALIGNED_LENGTH_MAX
    }

    /** Which chunks reach the message. */
    predicate Accepted() {
      || (kind == CHUNK_TYPE1 && CHUNK_TYPE1_MIN_SIZE <= |data| <= CHUNK_TYPE1_MAX_SIZE)
      || (kind == CHUNK_TYPE2 && |data| == CHUNK_TYPE2_SIZE)
    }

    function Output(): nat {
      if kind == CHUNK_TYPE1 then CHUNK_TYPE1_OUTPUT else CHUNK_TYPE2_OUTPUT
    }

    /** The chunk writes message byte k: type 1 with 0x20 to 0x40 bytes from 0x18 on, type 2 with exactly
        0x10 bytes from 0x54 on. */
    predicate Covers(k: nat) {
      || (kind == 1 && 0x20 <= |data| <= 0x40 && 0x18 <= k < 0x18 + |data|)
      || (kind == 2 && |data| == 0x10 && 0x54 <= k < 0x64)
    }

    /** What it writes there. */
    function ByteAt(k: nat): byte
      requires Covers(k)
    {
      data[if kind == 1 then k - 0x18 else k - 0x54]
    }
  }

  /** A chunk whose aligned length stays below the limit and inside the list. */
  predicate ChunkAt(h: seq<byte>, off: nat) {
    && off + CHUNK_HEADER_SIZE <= |h|
    && AlignedLength(Le16(h, off + 2)) <= CHUNK_ALIGNED_LENGTH_MAX
    && off + CHUNK_HEADER_SIZE + AlignedLength(Le16(h, off + 2)) <= |h|
  }

  function ReadChunk(h: seq<byte>, off: nat): Chunk
    requires ChunkAt(h, off)
  {
    Chunk(Le16(h, off), h[off + CHUNK_HEADER_SIZE..off + CHUNK_HEADER_SIZE + Le16(h, off + 2)])
  }

  function NextChunk(h: seq<byte>, off: nat): (next: nat)
    requires ChunkAt(h, off)
    ensures off < next <= |h|
  {
    off + CHUNK_HEADER_SIZE + AlignedLength(Le16(h, off + 2))
  }

  /** The chunks of the list that starts at `off`; a chunk that overruns the header length ends it. */
  function ChunksFrom(h: seq<byte>, off: nat): seq<Chunk>
    decreases |h| - off
  {
    if ChunkAt(h, off) then [ReadChunk(h, off)] + ChunksFrom(h, NextChunk(h, off)) else []
  }

  predicate ValidHeader(data: seq<byte>) {
    && |data| >= HEADER_SIZE
    && Le16(data, 0) == HEADER_TYPE
    && HEADER_SIZE <= Le16(data, 2) <= |data|
  }

  /** The chunks inside the declared header length. */
  function Chunks(data: seq<byte>): seq<Chunk> {
    if ValidHeader(data) then ChunksFrom(data[..Le16(data, 2)], HEADER_SIZE) else []
  }

  ghost function ApplyChunk(m: seq<byte>, c: Chunk): (r: seq<byte>)
    requires |m| == MESSAGE_SIZE
    ensures |r| == MESSAGE_SIZE
  {
    if c.Accepted() then Splice(m, c.Output(), c.data) else m
  }

  /** The left-to-right fold of the chunks. */
  ghost function ApplyAll(m: seq<byte>, cs: seq<Chunk>): (r: seq<byte>)
    requires |m| == MESSAGE_SIZE
    ensures |r| == MESSAGE_SIZE
    decreases |cs|
  {
    if cs == [] then m else ApplyAll(ApplyChunk(m, cs[0]), cs[1..])
  }

  // ---------- properties ----------

  lemma AlignedLengthMeaning(length: uint16)
    ensures var a := AlignedLength(length);
            && a % 4 == 0 && a > 0 && length <= a
            && forall b: nat | b % 4 == 0 && b > 0 && length <= b :: a <= b
  {
  }

  lemma ApplyChunkAt(m: seq<byte>, c: Chunk, k: nat)
    requires |m| == MESSAGE_SIZE && k < MESSAGE_SIZE
    ensures ApplyChunk(m, c)[k] == if c.Covers(k) then c.ByteAt(k) else m[k]
  {
    if c.Accepted() {
      SpliceMeaning(m, c.Output(), c.data);
    }
  }

  /** Every message byte holds what the last accepted chunk covering it wrote, or its old value. */
  lemma {:induction false} LastWriterWins(m: seq<byte>, cs: seq<Chunk>, k: nat)
    requires |m| == MESSAGE_SIZE && k < MESSAGE_SIZE
    ensures (forall i | 0 <= i < |cs| :: !cs[i].Covers(k)) ==> ApplyAll(m, cs)[k] == m[k]
    ensures forall i | 0 <= i < |cs| && cs[i].Covers(k) && (forall j | i < j < |cs| :: !cs[j].Covers(k)) ::
              ApplyAll(m, cs)[k] == cs[i].ByteAt(k)
    decreases |cs|
  {
    hide ApplyChunk;
    if cs != [] {
      ApplyChunkAt(m, cs[0], k);
      var rest := cs[1..];
      LastWriterWins(ApplyChunk(m, cs[0]), rest, k);
      assert forall i | 0 < i < |cs| :: cs[i] == rest[i - 1];
      forall i | 0 <= i < |cs| && cs[i].Covers(k) && (forall j | i < j < |cs| :: !cs[j].Covers(k))
        ensures ApplyAll(m, cs)[k] == cs[i].ByteAt(k)
      {
        if i > 0 {
          assert rest[i - 1].Covers(k);
        }
      }
    }
  }

  /** Type, status and MAC survive: only bytes 0x18 to 0x63 can change. */
  lemma OnlyChunkAreaChanges(m: seq<byte>, cs: seq<Chunk>)
    requires |m| == MESSAGE_SIZE
    ensures ApplyAll(m, cs)[..CHUNK_TYPE1_OUTPUT] == m[..CHUNK_TYPE1_OUTPUT]
    ensures ApplyAll(m, cs)[CHUNK_AREA_END..] == m[CHUNK_AREA_END..]
  {
    forall k: nat | k < MESSAGE_SIZE && !(CHUNK_TYPE1_OUTPUT <= k < CHUNK_AREA_END)
      ensures ApplyAll(m, cs)[k] == m[k]
    {
      LastWriterWins(m, cs, k);
    }
  }

  /** Type-1 data longer than 0x3c bytes runs into the type-2 area: the order of two accepted chunks
      of different types matters exactly when the overlapping bytes differ. */
  lemma TypesCommuteIff(m: seq<byte>, c1: Chunk, c2: Chunk)
    requires |m| == MESSAGE_SIZE
    requires c1.Accepted() && c2.Accepted() && c1.kind == CHUNK_TYPE1 && c2.kind == CHUNK_TYPE2
    ensures ApplyAll(m, [c1, c2]) == ApplyAll(m, [c2, c1])
            <==> forall i | 0x3c <= i < |c1.data| :: c1.data[i] == c2.data[i - 0x3c]
  {
    var a, b := ApplyAll(m, [c1, c2]), ApplyAll(m, [c2, c1]);
    forall k: nat | k < MESSAGE_SIZE
      ensures a[k] == if c2.Covers(k) then c2.data[k - 0x54] else if c1.Covers(k) then c1.data[k - 0x18] else m[k]
      ensures b[k] == if c1.Covers(k) then c1.data[k - 0x18] else if c2.Covers(k) then c2.data[k - 0x54] else m[k]
    {
      ApplyChunkAt(m, c1, k);
      ApplyChunkAt(ApplyChunk(m, c1), c2, k);
      ApplyChunkAt(m, c2, k);
      ApplyChunkAt(ApplyChunk(m, c2), c1, k);
      FoldOfTwo(m, c1, c2);
      FoldOfTwo(m, c2, c1);
    }
    if a == b {
      forall i | 0x3c <= i < |c1.data| ensures c1.data[i] == c2.data[i - 0x3c] {
        assert a[i + 0x18] == b[i + 0x18];
      }
    }
  }

  lemma FoldStep(m: seq<byte>, c: Chunk, rest: seq<Chunk>)
    requires |m| == MESSAGE_SIZE
    ensures ApplyAll(m, [c] + rest) == ApplyAll(ApplyChunk(m, c), rest)
  {
    assert ([c] + rest)[1..] == rest;
  }

  lemma FoldChunk(m: seq<byte>, h: seq<byte>, off: nat, next: nat)
    requires |m| == MESSAGE_SIZE && ChunkAt(h, off) && next == NextChunk(h, off)
    ensures ApplyAll(m, ChunksFrom(h, off)) == ApplyAll(ApplyChunk(m, ReadChunk(h, off)), ChunksFrom(h, next))
  {
    FoldStep(m, ReadChunk(h, off), ChunksFrom(h, next));
  }

  lemma FoldEnd(m: seq<byte>, h: seq<byte>, off: nat)
    requires |m| == MESSAGE_SIZE && !ChunkAt(h, off)
    ensures ApplyAll(m, ChunksFrom(h, off)) == m
  {
  }

  lemma NoChunksNoChange(m: seq<byte>)
    requires |m| == MESSAGE_SIZE
    ensures ApplyAll(m, []) == m
  {
  }

  lemma FoldOfTwo(m: seq<byte>, c: Chunk, d: Chunk)
    requires |m| == MESSAGE_SIZE
    ensures ApplyAll(m, [c, d]) == ApplyChunk(ApplyChunk(m, c), d)
  {
    FoldStep(m, c, [d]);
    FoldStep(ApplyChunk(m, c), d, []);
    assert [c] + [d] == [c, d] && [d] + [] == [d];
  }

  function EncodeChunk(c: Chunk): seq<byte>
    requires c.Encodable()
  {
    ToLe16(c.kind) + ToLe16(|c.data|) + c.data + Zeros(AlignedLength(|c.data|) - |c.data|)
  }

  function Encode(cs: seq<Chunk>): seq<byte>
    requires forall c | c in cs :: c.Encodable()
  {
    if cs == [] then [] else EncodeChunk(cs[0]) + Encode(cs[1..])
  }

  lemma EncodedBytes(c: Chunk)
    requires c.Encodable()
    ensures var e := EncodeChunk(c);
            && |e| == CHUNK_HEADER_SIZE + AlignedLength(|c.data|)
            && Le16(e, 0) == c.kind && Le16(e, 2) == |c.data|
            && forall i | 0 <= i < |c.data| :: e[4 + i] == c.data[i]
  {
  }

  lemma ChunkIsReadBack(h: seq<byte>, off: nat, c: Chunk)
    requires c.Encodable()
    requires off + |EncodeChunk(c)| <= |h| && h[off..off + |EncodeChunk(c)|] == EncodeChunk(c)
    ensures ChunkAt(h, off) && ReadChunk(h, off) == c && NextChunk(h, off) == off + |EncodeChunk(c)|
  {
    hide EncodeChunk, AlignedLength;
    var e := EncodeChunk(c);
    EncodedBytes(c);
    AlignedLengthMeaning(|c.data|);
    assert h[off] == e[0] && h[off + 1] == e[1] && h[off + 2] == e[2] && h[off + 3] == e[3];
    SliceOfSlice(h, off, off + |e|, 4, 4 + |c.data|);
    assert e[4..4 + |c.data|] == c.data;
  }

  lemma EncodedPieces(h: seq<byte>, off: nat, e: seq<byte>, rest: seq<byte>)
    requires off <= |h| && h[off..] == e + rest
    ensures off + |e| <= |h| && h[off..off + |e|] == e && h[off + |e|..] == rest
  {
    var t := h[off..];
    assert t[..|e|] == e && t[|e|..] == rest;
    SliceOfSlice(h, off, |h|, 0, |e|);
    SliceOfSlice(h, off, |h|, |e|, |t|);
  }

  lemma NoChunkAtEnd(h: seq<byte>, off: nat)
    requires off <= |h| && h[off..] == []
    ensures !ChunkAt(h, off)
  {
    assert |h[off..]| == |h| - off;
  }

  /** The grammar is what a sender writes: encoding any chunks after any header bytes and parsing
      gives them back. */
  lemma {:induction false} ParseEncode(h: seq<byte>, off: nat, cs: seq<Chunk>)
    requires forall c | c in cs :: c.Encodable()
    requires off <= |h| && h[off..] == Encode(cs)
    ensures ChunksFrom(h, off) == cs
    decreases |cs|
  {
    hide EncodeChunk, ReadChunk, NextChunk;
    if cs == [] {
      NoChunkAtEnd(h, off);
    } else {
      var e, rest := EncodeChunk(cs[0]), Encode(cs[1..]);
      EncodedPieces(h, off, e, rest);
      ChunkIsReadBack(h, off, cs[0]);
      ParseEncode(h, off + |e|, cs[1..]);
    }
  }

  /** Which bytes hold a chunk: four header bytes, a length up to 0xfff8, and the payload rounded up to a
      positive multiple of four, all inside the list. */
  lemma ChunkAtIff(h: seq<byte>, off: nat)
    ensures ChunkAt(h, off)
            <==> && off + 4 <= |h|
                 && var n: int := h[off + 2] as int + 0x100 * (h[off + 3] as int);
                    n <= 0xfff8 && off + 4 + (if n == 0 then 4 else (n + 3) / 4 * 4) <= |h|
  {
    if off + 4 <= |h| {
      AlignedLengthMeaning(Le16(h, off + 2));
    }
  }

  /** Type and length are little-endian, and the padding is zeros. */
  lemma EncodedExamples()
    ensures EncodeChunk(Chunk(0x0102, [7])) == [2, 1, 1, 0, 7, 0, 0, 0]
    ensures EncodeChunk(Chunk(1, [])) == [1, 0, 0, 0, 0, 0, 0, 0]
  {
    assert Zeros(3) == [0, 0, 0] && Zeros(4) == [0, 0, 0, 0];
  }

  lemma EncodableIff(c: Chunk)
    ensures c.Encodable() <==> |c.data| <= 0xfff8
  {
  }

  /** A whole payload: with type 1 and a declared length that ends behind the chunks, whatever follows them, the
      chunks are read back. */
  lemma PayloadRoundTrip(cs: seq<Chunk>, junk: seq<byte>)
    requires forall c | c in cs :: c.Encodable()
    requires 4 + |Encode(cs)| < 0x1_0000
    ensures var n := 4 + |Encode(cs)|; Chunks([1, 0, n % 0x100, n / 0x100] + Encode(cs) + junk) == cs
  {
    var n := 4 + |Encode(cs)|;
    var data := [1, 0, n % 0x100, n / 0x100] + Encode(cs) + junk;
    var h := data[..n];
    assert h == [1, 0, n % 0x100, n / 0x100] + Encode(cs);
    assert Le16(data, 0) == 1 && Le16(data, 2) == n;
    ParseEncode(h, 4, cs);
  }

  /** Without type 1 or with a declared length below 4 or beyond the data there are no chunks. */
  lemma BadHeaderHasNoChunks(data: seq<byte>)
    requires || |data| < 4 || data[0] != 1 || data[1] != 0
             || data[2] as int + 0x100 * (data[3] as int) < 4 || data[2] as int + 0x100 * (data[3] as int) > |data|
    ensures Chunks(data) == []
  {
  }

  /** The status field of the message for a reason code. The base has no bit below 0x1000 set, so adding a
      reason is the same as OR-ing it in. */
  function StatusFromReason(reason: uint32): uint32 {
    if reason == 0 then 0
    else if reason < REASON_TRAP_THRESHOLD then REASON_APPLE_BASE + reason
    else REASON_FALLBACK
  }

  // ---------- the code ----------

  /** The body of the chunk loop: what one chunk does to the message. */
  method StoreChunk(message: array<byte>, chunkType: uint16, chunkLength: uint16, data: seq<byte>, at: nat)
    requires message.Length == MESSAGE_SIZE && at + chunkLength <= |data|
    modifies message
    ensures message[..] == ApplyChunk(old(message[..]), Chunk(chunkType, data[at..at + chunkLength]))
  {
    if chunkType == CHUNK_TYPE1 {
      if chunkLength >= CHUNK_TYPE1_MIN_SIZE && chunkLength <= CHUNK_TYPE1_MAX_SIZE {
        CopyBytes(message, CHUNK_TYPE1_OUTPUT, data, at, chunkLength);
      }
    } else if chunkType == CHUNK_TYPE2 {
      if chunkLength == CHUNK_TYPE2_SIZE {
        CopyBytes(message, CHUNK_TYPE2_OUTPUT, data, at, chunkLength);
      }
    }
  }

  /** The chunk loop over the bytes inside the declared header length. */
  method CopyChunks(h: seq<byte>, message: array<byte>)
    requires HEADER_SIZE <= |h| < 0x1_0000 && message.Length == MESSAGE_SIZE
    modifies message
    ensures message[..] == ApplyAll(old(message[..]), ChunksFrom(h, HEADER_SIZE))
  {
    hide ApplyAll, ApplyChunk, ChunksFrom;
    ghost var target := ApplyAll(message[..], ChunksFrom(h, HEADER_SIZE));
    var remaining: uint32 := |h| - HEADER_SIZE;
    if remaining < CHUNK_HEADER_SIZE {
      FoldEnd(message[..], h, HEADER_SIZE);
      return;
    }
    var chunk: uint32 := HEADER_SIZE;
    while remaining >= CHUNK_HEADER_SIZE
      invariant chunk + remaining == |h|
      invariant target == ApplyAll(message[..], ChunksFrom(h, chunk))
      decreases remaining
    {
      var chunkType := Le16(h, chunk);
      var chunkLength := Le16(h, chunk + 2);
      var alignedLength: uint32 := AlignedLength(chunkLength);
      if alignedLength > CHUNK_ALIGNED_LENGTH_MAX || alignedLength > remaining - CHUNK_HEADER_SIZE {
        FoldEnd(message[..], h, chunk);
        return;
      }
      ghost var before, c, next := message[..], ReadChunk(h, chunk), NextChunk(h, chunk);
      FoldChunk(before, h, chunk, next);
      StoreChunk(message, chunkType, chunkLength, h, chunk + CHUNK_HEADER_SIZE);
      assert message[..] == ApplyChunk(before, c);
      // The bounds check above makes the source's second check, advance > remaining, redundant.
      var advance: uint32 := alignedLength + CHUNK_HEADER_SIZE;
      assert advance <= remaining;
      remaining := remaining - advance;
      chunk := chunk + advance;
      assert chunk == next;
    }
    FoldEnd(message[..], h, chunk);
  }

  /** For every buffer and declared length the message ends up as the fold of the chunks over it. */
  method CopyAuthIndChunks(data: ConstBytes, dataLength: uint32, message: array<byte>)
    requires data.Holds(dataLength) && message.Length == MESSAGE_SIZE
    modifies message
    ensures message[..] == ApplyAll(old(message[..]), Chunks(data.Bytes(dataLength)))
  {
    hide ChunksFrom, ApplyAll;
    NoChunksNoChange(message[..]);
    if data.Null? || dataLength < HEADER_SIZE {
      return;
    }
    var headerType := Le16(data.bytes, 0);
    var headerLength := Le16(data.bytes, 2);
    if headerType != HEADER_TYPE || headerLength > dataLength || headerLength < HEADER_SIZE {
      return;
    }
    // Every later read goes through this slice: the bytes inside the declared header length.
    var h := data.bytes[..headerLength];
    assert data.Bytes(dataLength)[..headerLength] == h;
    CopyChunks(h, message);
  }
}
