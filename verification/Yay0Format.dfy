/** The Yay0 format byte by byte: where in the file of a list of tokens everything stands. */
module Yay0Format {
  import opened Bits
  import opened Bytes
  import opened Yay0

  lemma ReadsAreValues(s: seq<byte>, at: nat)
    ensures at + 2 <= |s| ==> ReadBe16(s, at) == Value(s[at..at + 2])
    ensures at + 4 <= |s| ==> ReadBe32(s, at) == Value(s[at..at + 4])
  {
    if at + 2 <= |s| { TwoBytes(s, at); }
    if at + 4 <= |s| {
      TwoBytes(s, at + 2);
      assert s[at..at + 4] == s[at..at + 2] + s[at + 2..at + 4];
      ValueConcat(s[at..at + 2], s[at + 2..at + 4]);
      assert Power256(1) == 256 && Power256(2) == 65536;
      hide Power256, Value, ReadBe16;
    }
  }

  lemma TwoBytes(s: seq<byte>, at: nat)
    requires at + 2 <= |s|
    ensures ReadBe16(s, at) == Value(s[at..at + 2])
  {
    var p := s[at..at + 2];
    assert p[..1] == [s[at]] && [s[at]][..0] == [];
    assert Value([s[at]]) == s[at];
  }

  /** The number of links, and of the bytes that chunks and long links take. */
  function LinkCount(ts: seq<Token>): nat {
    if ts == [] then 0 else LinkCount(ts[..|ts| - 1]) + if ts[|ts| - 1].Link? then 1 else 0
  }

  function ByteCount(ts: seq<Token>): nat {
    if ts == [] then 0
    else
      var more := match ts[|ts| - 1] case Chunk(_) => 1 case Link(_, count) => if count >= 18 then 1 else 0;
      ByteCount(ts[..|ts| - 1]) + more
  }

  lemma {:induction false} StreamSizes(ts: seq<Token>)
    requires WellFormed(ts)
    ensures |Links(ts)| == 2 * LinkCount(ts) && |Chunks(ts)| == ByteCount(ts)
    decreases |ts|
  {
    hide Expand;
    if ts != [] { StreamSizes(ts[..|ts| - 1]); }
  }

  /** Magic, size and the places of the other two streams; each number with the most significant byte first. */
  lemma HeaderBytes(file: seq<byte>, ts: seq<Token>)
    requires WellFormed(ts) && Encodes(file, ts) && |file| < WORD32 && |Expand(ts)| < WORD32
    ensures |file| == 16 + (|ts| + 7) / 8 + 2 * LinkCount(ts) + ByteCount(ts)
    ensures file[..4] == ['Y' as int, 'a' as int, 'y' as int, '0' as int]
    ensures Value(file[4..8]) == |Expand(ts)|
    ensures Value(file[8..12]) == 16 + (|ts| + 7) / 8
    ensures Value(file[12..16]) == 16 + (|ts| + 7) / 8 + 2 * LinkCount(ts)
  {
    hide Value, ReadBe32, HoldsAt, Links, Chunks, Expand, Masked, Header, WellFormed, LinkCount, ByteCount, CheckMagic;
    StreamSizes(ts);
    HeaderReads(file, ts);
    StartOfStreams(ts);
    ReadsAreValues(file, 4);
    ReadsAreValues(file, 8);
    ReadsAreValues(file, 12);
    MagicIs(file);
  }

  lemma StartOfStreams(ts: seq<Token>)
    ensures CursorAt(ts, 0) == Cursor(0, 16 + (|ts| + 7) / 8, 16 + (|ts| + 7) / 8 + |Links(ts)|)
  {
    assert ts[..0] == [];
    assert Links([]) == [] && Chunks([]) == [];
    hide Links, Chunks;
  }

  lemma MagicIs(file: seq<byte>)
    requires CheckMagic(file, 0).Ok? && |file| >= 4
    ensures file[..4] == ['Y' as int, 'a' as int, 'y' as int, '0' as int]
  {
    assert CheckMagic(file, 1).Ok?;
    assert CheckMagic(file, 2).Ok?;
    assert CheckMagic(file, 3).Ok?;
  }

  /** Token k has bit k of the mask, from the top bit of each byte on, which is set for a chunk. */
  lemma MaskBitOf(file: seq<byte>, ts: seq<Token>, k: nat)
    requires WellFormed(ts) && Encodes(file, ts) && k < |ts|
    ensures 16 + k / 8 < |file|
    ensures file[16 + k / 8] / TwoTo(7 - k % 8) % 2 == if ts[k].Chunk? then 1 else 0
  {
    hide TwoTo, Encodes, WellFormed, GetBit;
    MaskBitRead(file, ts, k);
    DigitsAre(file[16 + k / 8], 7 - k % 8);
  }

  /** Chunk k is its byte, after the links and the bytes of the tokens before it. */
  lemma ChunkBytes(file: seq<byte>, ts: seq<Token>, k: nat, b: byte, c: nat)
    requires WellFormed(ts) && Encodes(file, ts) && k < |ts| && ts[k] == Chunk(b)
    requires c == 16 + (|ts| + 7) / 8 + 2 * LinkCount(ts) + ByteCount(ts[..k])
    ensures c < |file| && file[c] == b
  {
    hide Encodes, Links, Chunks, LinkCount, ByteCount, WellFormed, HoldsAt, Expand;
    TokenPlaces(file, ts, k);
    HoldsByte(file, c, ChunkPart(ts[k]), 0);
  }

  /**
   * Link k is a two-byte number, the offset minus one in the low 12 bits and the count minus 2
   * above them. A count from 18 on is 0 there and has a byte among the chunks, which is the count
   * minus 18.
   */
  lemma LinkBytes(file: seq<byte>, ts: seq<Token>, k: nat, offset: nat, count: nat, l: nat, c: nat)
    requires WellFormed(ts) && Encodes(file, ts) && k < |ts| && ts[k] == Link(offset, count)
    requires l == 16 + (|ts| + 7) / 8 + 2 * LinkCount(ts[..k])
    requires c == 16 + (|ts| + 7) / 8 + 2 * LinkCount(ts) + ByteCount(ts[..k])
    ensures l + 2 <= |file|
    ensures Value(file[l..l + 2]) % 4096 == offset - 1
    ensures Value(file[l..l + 2]) / 4096 == if count >= 18 then 0 else count - 2
    ensures count >= 18 ==> c < |file| && file[c] as int == count - 18
  {
    hide Encodes, LinkCount, ByteCount, WellFormed, Value, LinkPart, ChunkPart, HoldsAt;
    TokenPlaces(file, ts, k);
    LinkHeld(file, offset, count, l, c);
  }

  lemma LinkHeld(file: seq<byte>, offset: nat, count: nat, l: nat, c: nat)
    requires 1 <= offset <= WINDOW && 3 <= count <= MAX_LINK_LEN
    requires HoldsAt(file, l, LinkPart(Link(offset, count))) && HoldsAt(file, c, ChunkPart(Link(offset, count)))
    ensures l + 2 <= |file|
    ensures Value(file[l..l + 2]) % 4096 == offset - 1
    ensures Value(file[l..l + 2]) / 4096 == if count >= 18 then 0 else count - 2
    ensures count >= 18 ==> c < |file| && file[c] as int == count - 18
  {
    hide Value, LinkPart, HoldsAt, ReadBe16;
    LinkDecodes(offset, count);
    PartValue(file, l, LinkPart(Link(offset, count)));
    if count >= 18 { HoldsByte(file, c, ChunkPart(Link(offset, count)), 0); }
  }

  lemma TokenPlaces(file: seq<byte>, ts: seq<Token>, k: nat)
    requires WellFormed(ts) && Encodes(file, ts) && k < |ts|
    ensures HoldsAt(file, 16 + (|ts| + 7) / 8 + 2 * LinkCount(ts[..k]), LinkPart(ts[k]))
    ensures HoldsAt(file, 16 + (|ts| + 7) / 8 + 2 * LinkCount(ts) + ByteCount(ts[..k]), ChunkPart(ts[k]))
    ensures ts[k].Link? ==> 1 <= ts[k].offset <= WINDOW && 3 <= ts[k].count <= MAX_LINK_LEN
  {
    hide Encodes, Links, Chunks, LinkCount, ByteCount, WellFormed, LinkPart, ChunkPart, HoldsAt, Expand;
    TokenAt(ts, k);
    StreamSizes(ts);
    StreamSizes(ts[..k]);
    StreamsRead(file, ts, k);
  }

  lemma PartValue(file: seq<byte>, at: nat, p: seq<byte>)
    requires |p| == 2 && HoldsAt(file, at, p)
    ensures at + 2 <= |file| && Value(file[at..at + 2]) == ReadBe16(p, 0)
  {
    hide Value, ReadBe16;
    ReadsAreValues(p, 0);
    assert p[0..2] == p;
  }
}
