/** docs/gc-font-tool.cpp: the Yay0 compressor and decompressor. */
module Yay0 {
  import opened Bits
  import opened Bytes

  const MAX_LINK_LEN: nat := 255 + 18
  const WINDOW: nat := 0x1000
  const WORD32: nat := 0x1_0000_0000

  datatype Error = NotYay0 | Invalid

  datatype Result<T> = Ok(value: T) | Err(error: Error)

  // ---- Tokens and what they stand for

  datatype Token = Chunk(b: byte) | Link(offset: nat, count: nat)

  /** Copies count bytes from offset back, one at a time, so a copy may overlap its own output. */
  function Replay(out: seq<byte>, offset: nat, count: nat): (r: seq<byte>)
    requires 1 <= offset <= |out|
    ensures |r| == |out| + count && out <= r
    decreases count
  {
    if count == 0 then out else Replay(out + [out[|out| - offset]], offset, count - 1)
  }

  predicate Applies(out: seq<byte>, t: Token) {
    t.Link? ==> 1 <= t.offset <= |out|
  }

  function Apply(out: seq<byte>, t: Token): (r: seq<byte>)
    requires Applies(out, t)
    ensures out <= r
  {
    match t
    case Chunk(b) => out + [b]
    case Link(offset, count) => Replay(out, offset, count)
  }

  /** Links stay within the format and within what precedes them. */
  ghost predicate WellFormed(ts: seq<Token>)
    decreases |ts|, 0
  {
    ts != [] ==>
      var init, t := ts[..|ts| - 1], ts[|ts| - 1];
      WellFormed(init) && Applies(Expand(init), t) &&
      (t.Link? ==> t.offset <= WINDOW && 3 <= t.count <= MAX_LINK_LEN)
  }

  ghost function Expand(ts: seq<Token>): seq<byte>
    requires WellFormed(ts)
    decreases |ts|, 1
  {
    if ts == [] then [] else Apply(Expand(ts[..|ts| - 1]), ts[|ts| - 1])
  }

  lemma {:induction false} WellFormedPrefix(ts: seq<Token>, k: nat)
    requires WellFormed(ts) && k <= |ts|
    ensures WellFormed(ts[..k]) && Expand(ts[..k]) <= Expand(ts)
    ensures |Expand(ts)| >= |Expand(ts[..k])| + (|ts| - k)
  {
    if k < |ts| {
      var n := |ts| - 1;
      WellFormedPrefix(ts[..n], k);
      assert ts[..n][..k] == ts[..k];
    } else {
      assert ts[..k] == ts;
    }
  }

  // ---- The three streams

  function Be16(v: nat): seq<byte> {
    [v / 256 % 256, v % 256]
  }

  function Be32(v: nat): seq<byte> {
    Be16(v / 65536) + Be16(v)
  }

  function LinkPart(t: Token): seq<byte> {
    match t
    case Chunk(_) => []
    case Link(offset, count) =>
      var header := if count >= 18 || count < 2 then 0 else count - 2;
      if offset >= 1 then Be16(header * 4096 + (offset - 1)) else []
  }

  function ChunkPart(t: Token): seq<byte> {
    match t
    case Chunk(b) => [b]
    case Link(_, count) => if count >= 18 then [(count - 18) % 256] else []
  }

  function Links(ts: seq<Token>): seq<byte> {
    if ts == [] then [] else Links(ts[..|ts| - 1]) + LinkPart(ts[|ts| - 1])
  }

  function Chunks(ts: seq<Token>): seq<byte> {
    if ts == [] then [] else Chunks(ts[..|ts| - 1]) + ChunkPart(ts[|ts| - 1])
  }

  lemma {:induction false} StreamPrefix(ts: seq<Token>, k: nat)
    requires k < |ts|
    ensures Links(ts[..k]) + LinkPart(ts[k]) <= Links(ts)
    ensures Chunks(ts[..k]) + ChunkPart(ts[k]) <= Chunks(ts)
    ensures Links(ts[..k + 1]) == Links(ts[..k]) + LinkPart(ts[k])
    ensures Chunks(ts[..k + 1]) == Chunks(ts[..k]) + ChunkPart(ts[k])
  {
    hide LinkPart, ChunkPart;
    var n := |ts| - 1;
    assert ts[..k + 1][..k] == ts[..k];
    if k < n {
      StreamPrefix(ts[..n], k);
      assert ts[..n][..k] == ts[..k];
    } else {
      assert ts[..k + 1] == ts;
    }
  }

  // ---- Mask bits

  /** b | (bit << k) */
  function OrBit(b: nat, bit: bool, k: nat): nat {
    if bit && GetBit(b, k) == 0 then b + TwoTo(k) else b
  }

  /** The mask of a token list: a set bit for a chunk, the first bit in the top bit of the first byte. */
  ghost predicate Masked(data: seq<byte>, bits: seq<bool>) {
    && |data| == (|bits| + 7) / 8
    && (forall i :: 0 <= i < |bits| ==> (MaskBit(data, i) <==> bits[i]))
    && (|bits| % 8 != 0 ==> Low(data[|data| - 1], 8 - |bits| % 8) == 0)
  }

  predicate MaskBit(data: seq<byte>, i: nat)
    requires i / 8 < |data|
  {
    GetBit(data[i / 8], 7 - i % 8) == 1
  }

  /** Setting a bit above which nothing but higher bits is set. */
  lemma {:induction false} OrBitDigits(b: nat, bit: bool, k: nat)
    requires Low(b, k + 1) == 0
    ensures Low(OrBit(b, bit, k), k) == 0
    ensures GetBit(OrBit(b, bit, k), k) == if bit then 1 else 0
    ensures forall j :: j > k ==> GetBit(OrBit(b, bit, k), j) == GetBit(b, j)
  {
    LowBits(b, k);
    if bit {
      AddPower(b, k);
      forall j | j > k ensures GetBit(b + TwoTo(k), j) == GetBit(b, j) {
        AddPowerAbove(b, k, j);
      }
    }
  }

  lemma {:induction false} LowBits(b: nat, k: nat)
    requires Low(b, k + 1) == 0
    ensures Low(b, k) == 0 && GetBit(b, k) == 0
  {
    if k > 0 { LowBits(b / 2, k - 1); }
  }

  lemma {:induction false} AddPower(b: nat, k: nat)
    requires Low(b, k + 1) == 0
    ensures Low(b + TwoTo(k), k) == 0 && GetBit(b + TwoTo(k), k) == 1
  {
    if k > 0 {
      assert (b + TwoTo(k)) / 2 == b / 2 + TwoTo(k - 1);
      AddPower(b / 2, k - 1);
    }
  }

  lemma {:induction false} AddPowerAbove(b: nat, k: nat, j: nat)
    requires Low(b, k + 1) == 0 && j > k
    ensures GetBit(b + TwoTo(k), j) == GetBit(b, j)
  {
    if k > 0 {
      assert (b + TwoTo(k)) / 2 == b / 2 + TwoTo(k - 1);
      AddPowerAbove(b / 2, k - 1, j - 1);
    }
  }

  class MaskVectorWriter {
    var data: seq<byte>
    var nextOffset: int
    ghost var bits: seq<bool>

    ghost predicate Valid()
      reads this
    {
      && Masked(data, bits)
      && nextOffset == if |bits| % 8 == 0 then -1 else 7 - |bits| % 8
    }

    constructor ()
      ensures Valid() && bits == []
    {
      data, nextOffset, bits := [], -1, [];
    }

    method PushBack(bit: bool)
      requires Valid()
      modifies this
      ensures Valid() && bits == old(bits) + [bit]
    {
      hide Masked, OpenMask;
      MaskOpens(data, bits);
      if nextOffset < 0 {
        data := data + [0];
        nextOffset := 7;
      }
      var last := |data| - 1;
      MaskCloses(data, bits, bit);
      data := data[last := OrBit(data[last], bit, nextOffset)];
      nextOffset := nextOffset - 1;
      bits := bits + [bit];
    }
  }

  /** A mask with room for the next bit in its last byte. */
  ghost predicate OpenMask(data: seq<byte>, bits: seq<bool>) {
    && |data| == |bits| / 8 + 1
    && (forall i :: 0 <= i < |bits| ==> (MaskBit(data, i) <==> bits[i]))
    && Low(data[|data| - 1], 8 - |bits| % 8) == 0
  }

  lemma MaskOpens(data: seq<byte>, bits: seq<bool>)
    requires Masked(data, bits)
    ensures OpenMask(if |bits| % 8 == 0 then data + [0] else data, bits)
  {
    LowZero(8);
    hide GetBit, Low;
    if |bits| % 8 == 0 {
      forall i | 0 <= i < |bits| ensures MaskBit(data + [0], i) <==> bits[i] {
        assert (data + [0])[i / 8] == data[i / 8];
      }
    }
  }

  lemma LowZero(k: nat)
    ensures Low(0, k) == 0
  {
  }

  lemma MaskCloses(data: seq<byte>, bits: seq<bool>, bit: bool)
    requires OpenMask(data, bits)
    ensures |data| > 0 && OrBit(data[|data| - 1], bit, 7 - |bits| % 8) < 256
    ensures Masked(data[|data| - 1 := OrBit(data[|data| - 1], bit, 7 - |bits| % 8)], bits + [bit])
  {
    var last, k := |data| - 1, 7 - |bits| % 8;
    OrBitDigits(data[last], bit, k);
    assert TwoTo(4) == 16;
    OrBitFits(data[last], bit, k, 8);
    MaskClosedBy(data, bits, bit, OrBit(data[last], bit, k));
  }

  lemma MaskClosedBy(data: seq<byte>, bits: seq<bool>, bit: bool, v: byte)
    requires OpenMask(data, bits)
    requires var k := 7 - |bits| % 8;
             && Low(v, k) == 0 && GetBit(v, k) == (if bit then 1 else 0)
             && (forall j :: j > k ==> GetBit(v, j) == GetBit(data[|data| - 1], j))
    ensures Masked(data[|data| - 1 := v], bits + [bit])
  {
    hide GetBit, Low, MaskBit;
    forall i | 0 <= i < |bits| ensures MaskBit(data[|data| - 1 := v], i) <==> bits[i] {
      EarlierBit(data, v, 7 - |bits| % 8, i);
      assert MaskBit(data, i) <==> bits[i];
    }
    LastBit(data, v, |bits|);
  }

  /** A changed last byte keeps the mask bits in front of bit k. */
  lemma EarlierBit(data: seq<byte>, v: byte, k: nat, i: nat)
    requires |data| > 0 && k < 8 && i < 8 * |data| - 1 - k
    requires forall j :: j > k ==> GetBit(v, j) == GetBit(data[|data| - 1], j)
    ensures MaskBit(data[|data| - 1 := v], i) <==> MaskBit(data, i)
  {
    hide GetBit;
    if i / 8 == |data| - 1 { assert 7 - i % 8 > k; }
  }

  lemma LastBit(data: seq<byte>, v: byte, n: nat)
    requires |data| == n / 8 + 1
    ensures MaskBit(data[|data| - 1 := v], n) <==> GetBit(v, 7 - n % 8) == 1
  {
    hide GetBit;
  }

  lemma OrBitFits(b: nat, bit: bool, k: nat, width: nat)
    requires k < width && b < TwoTo(width) && Low(b, k + 1) == 0
    ensures OrBit(b, bit, k) < TwoTo(width)
  {
    AddPowerFits(b, k, width);
  }

  lemma {:induction false} AddPowerFits(b: nat, k: nat, width: nat)
    requires k < width && b < TwoTo(width) && Low(b, k + 1) == 0
    ensures b + TwoTo(k) < TwoTo(width)
  {
    if k > 0 {
      assert (b + TwoTo(k)) / 2 == b / 2 + TwoTo(k - 1);
      AddPowerFits(b / 2, k - 1, width - 1);
    }
  }

  // ---- Decompression

  class MaskVectorReader {
    const input: seq<byte>
    var offset: nat
    var nextBit: nat
    ghost var position: nat

    ghost predicate Valid()
      reads this
    {
      nextBit <= 8 && 8 * offset + nextBit == 8 * 16 + position
    }

    constructor (input: seq<byte>)
      ensures Valid() && position == 0 && this.input == input
    {
      this.input, offset, nextBit, position := input, 16, 0, 0;
    }

    /** Fails when the byte holding the bit lies outside the input. */
    method PopFront() returns (ok: bool, value: bool)
      requires Valid()
      modifies this
      ensures ok <==> 16 + old(position) / 8 < |input|
      ensures ok ==> Valid() && position == old(position) + 1
      ensures ok ==> (value <==> GetBit(input[16 + old(position) / 8], 7 - old(position) % 8) == 1)
    {
      if nextBit == 8 {
        nextBit := 0;
        offset := offset + 1;
      }
      assert offset == 16 + position / 8 && nextBit == position % 8;
      ok, value := offset < |input|, false;
      if ok {
        value := GetBit(input[offset], 7 - nextBit) == 1;
        nextBit := nextBit + 1;
        position := position + 1;
      }
    }
  }

  function ReadBe16(input: seq<byte>, offset: nat): nat
    requires offset + 1 < |input|
  {
    256 * (input[offset] as int) + input[offset + 1] as int
  }

  function ReadBe32(input: seq<byte>, offset: nat): nat
    requires offset + 3 < |input|
  {
    65536 * ReadBe16(input, offset) + ReadBe16(input, offset + 2)
  }

  /** The positions in the three streams: bits of the mask, bytes of the other two. */
  datatype Cursor = Cursor(mask: nat, links: nat, chunks: nat)

  /** Reading one link at a cursor. */
  function ReadLink(input: seq<byte>, c: Cursor): (r: Result<(Token, Cursor)>)
    ensures r.Err? ==> r.error == Invalid
    ensures r.Ok? ==> r.value.0.Link? && r.value.0.offset >= 1 && 1 <= r.value.0.count <= MAX_LINK_LEN
  {
    if c.links + 1 >= |input| then Err(Invalid)
    else
      var link := ReadBe16(input, c.links);
      var links := (c.links + 2) % WORD32;
      if link / 4096 != 0 then
        Ok((Link(link % 4096 + 1, link / 4096 + 2), Cursor(c.mask + 1, links, c.chunks)))
      else if c.chunks >= |input| then Err(Invalid)
      else
        Ok((Link(link % 4096 + 1, input[c.chunks] as int + 18), Cursor(c.mask + 1, links, (c.chunks + 1) % WORD32)))
  }

  /** Reading one token at a cursor. */
  function ReadToken(input: seq<byte>, c: Cursor): (r: Result<(Token, Cursor)>)
    ensures r.Err? ==> r.error == Invalid
    ensures r.Ok? && r.value.0.Link? ==> r.value.0.offset >= 1 && 1 <= r.value.0.count <= MAX_LINK_LEN
  {
    if 16 + c.mask / 8 >= |input| then Err(Invalid)
    else if GetBit(input[16 + c.mask / 8], 7 - c.mask % 8) != 1 then ReadLink(input, c)
    else if c.chunks >= |input| then Err(Invalid)
    else Ok((Chunk(input[c.chunks]), Cursor(c.mask + 1, c.links, (c.chunks + 1) % WORD32)))
  }

  /** Reading one token at a cursor and applying it. */
  function Step(input: seq<byte>, c: Cursor, out: seq<byte>): (r: Result<(Cursor, seq<byte>)>)
    ensures r.Ok? ==> |out| < |r.value.1| <= |out| + MAX_LINK_LEN
    ensures r.Err? ==> r.error == Invalid
  {
    var read := ReadToken(input, c);
    if read.Err? then Err(read.error)
    else if !Applies(out, read.value.0) then Err(Invalid)
    else Ok((read.value.1, Apply(out, read.value.0)))
  }

  /** Decoding from a cursor on, with the output so far. */
  function Decode(input: seq<byte>, c: Cursor, out: seq<byte>, finalSize: nat): Result<seq<byte>>
    decreases finalSize - |out|
  {
    if |out| >= finalSize then Ok(out)
    else
      var step := Step(input, c, out);
      if step.Err? then Err(step.error) else Decode(input, step.value.0, step.value.1, finalSize)
  }

  const MAGIC: seq<byte> := [0x59, 0x61, 0x79, 0x30]

  /** The first byte of the signature that is missing or wrong, if any. */
  function CheckMagic(input: seq<byte>, k: nat): Result<()>
    requires k <= 4
    decreases 4 - k
  {
    if k == 4 then Ok(())
    else if k >= |input| then Err(Invalid)
    else if input[k] != MAGIC[k] then Err(NotYay0)
    else CheckMagic(input, k + 1)
  }

  function DecodeFile(input: seq<byte>): Result<seq<byte>> {
    if CheckMagic(input, 0).Err? then Err(CheckMagic(input, 0).error)
    else if |input| < 16 then Err(Invalid)
    else Decode(input, Cursor(0, ReadBe32(input, 8), ReadBe32(input, 12)), [], ReadBe32(input, 4))
  }

  /** A successful decoding stops at the first length that is not short, so it overruns by less than one link. */
  lemma {:induction false} DecodeLength(input: seq<byte>, c: Cursor, out: seq<byte>, finalSize: nat)
    ensures var r := Decode(input, c, out, finalSize);
      r.Ok? ==> finalSize <= |r.value| && (|out| < finalSize ==> |r.value| <= finalSize + 272)
    decreases finalSize - |out|
  {
    if |out| < finalSize {
      var step := Step(input, c, out);
      if step.Ok? { DecodeLength(input, step.value.0, step.value.1, finalSize); }
    }
  }

  /** yay0_decompress */
  method Decompress(input: seq<byte>) returns (r: Result<seq<byte>>)
    ensures r == DecodeFile(input)
    ensures r.Ok? ==> |input| >= 16 && ReadBe32(input, 4) <= |r.value| <= ReadBe32(input, 4) + 272
  {
    hide Step, ReadBe32, CheckMagic;
    var magic := CheckMagic(input, 0);
    if magic.Err? { return Err(magic.error); }
    if |input| < 16 { return Err(Invalid); }
    var finalSize := ReadBe32(input, 4);
    var linksOffset: nat, chunksOffset: nat := ReadBe32(input, 8), ReadBe32(input, 12);
    DecodeLength(input, Cursor(0, linksOffset, chunksOffset), [], finalSize);
    var masks := new MaskVectorReader(input);
    var result: seq<byte> := [];
    while |result| < finalSize
      invariant masks.Valid() && masks.input == input && fresh(masks)
      invariant DecodeFile(input) == Decode(input, Cursor(masks.position, linksOffset, chunksOffset), result, finalSize)
      decreases finalSize - |result|
    {
      ghost var c, before := Cursor(masks.position, linksOffset, chunksOffset), result;
      var ok;
      ok, result, linksOffset, chunksOffset := DecodeToken(masks, result, linksOffset, chunksOffset);
      StepGrows(input, c, before);
      if !ok { return Err(Invalid); }
    }
    r := Ok(result);
  }

  lemma StepGrows(input: seq<byte>, c: Cursor, out: seq<byte>)
    ensures Step(input, c, out).Ok? ==> |Step(input, c, out).value.1| > |out|
  {
    hide Step;
  }

  /** The loop body of yay0_decompress: one chunk or one link; fails where the original throws. */
  method DecodeToken(masks: MaskVectorReader, out: seq<byte>, links: nat, chunks: nat)
    returns (ok: bool, result: seq<byte>, linksOffset: nat, chunksOffset: nat)
    requires masks.Valid()
    modifies masks
    ensures var step := Step(masks.input, Cursor(old(masks.position), links, chunks), out);
      if ok then masks.Valid() && step == Ok((Cursor(masks.position, linksOffset, chunksOffset), result))
      else step == Err(Invalid)
  {
    hide GetBit, Replay, ReadBe16;
    var input := masks.input;
    result, linksOffset, chunksOffset := out, links, chunks;
    var isChunk;
    ok, isChunk := masks.PopFront();
    if !ok { return; }
    if isChunk {
      if chunksOffset >= |input| { ok := false; return; }
      result := result + [input[chunksOffset]];
      chunksOffset := (chunksOffset + 1) % WORD32;
    } else {
      if linksOffset + 1 >= |input| { ok := false; return; }
      var link := ReadBe16(input, linksOffset);
      linksOffset := (linksOffset + 2) % WORD32;
      var count := link / 4096 + 2;
      if count == 2 {
        if chunksOffset >= |input| { ok := false; return; }
        count := input[chunksOffset] as int + 18;
        chunksOffset := (chunksOffset + 1) % WORD32;
      }
      var offset := link % 4096 + 1;
      if offset > |result| { ok := false; return; }
      result := ReplayLink(result, offset, count);
    }
  }

  method ReplayLink(out: seq<byte>, offset: nat, count: nat) returns (result: seq<byte>)
    requires 1 <= offset <= |out|
    ensures result == Replay(out, offset, count)
  {
    result := out;
    for i := 0 to count
      invariant offset <= |result| && Replay(out, offset, count) == Replay(result, offset, count - i)
    {
      result := result + [result[|result| - offset]];
    }
  }

  // ---- The file for a token list

  ghost function ChunkBits(ts: seq<Token>): seq<bool> {
    seq(|ts|, i requires 0 <= i < |ts| => ts[i].Chunk?)
  }

  function Header(size: nat, maskSize: nat, linksSize: nat): seq<byte> {
    MAGIC + Be32(size) + Be32(16 + maskSize) + Be32(16 + maskSize + linksSize)
  }

  /** The bytes s stand in the file from position at on. */
  ghost predicate HoldsAt(file: seq<byte>, at: nat, s: seq<byte>) {
    at + |s| <= |file| && file[at..at + |s|] == s
  }

  lemma HoldsPart(file: seq<byte>, at: nat, s: seq<byte>, before: seq<byte>, part: seq<byte>)
    requires HoldsAt(file, at, s) && before + part <= s
    ensures HoldsAt(file, at + |before|, part)
  {
    forall i | 0 <= i < |part| ensures file[at + |before| + i] == part[i] {
      HoldsByte(file, at, s, |before| + i);
      assert (before + part)[|before| + i] == part[i];
    }
  }

  lemma HoldsByte(file: seq<byte>, at: nat, s: seq<byte>, i: nat)
    requires HoldsAt(file, at, s) && i < |s|
    ensures at + i < |file| && file[at + i] == s[i]
  {
    assert file[at..at + |s|][i] == file[at + i];
  }

  /** The number of mask bytes for a token list. */
  function MaskSize(ts: seq<Token>): nat {
    (|ts| + 7) / 8
  }

  /** The file holds the header and the three streams of the token list. */
  ghost predicate Encodes(file: seq<byte>, ts: seq<Token>)
    requires WellFormed(ts)
  {
    && |file| == 16 + MaskSize(ts) + |Links(ts)| + |Chunks(ts)|
    && HoldsAt(file, 0, Header(|Expand(ts)|, MaskSize(ts), |Links(ts)|))
    && Masked(file[16..16 + MaskSize(ts)], ChunkBits(ts))
    && HoldsAt(file, 16 + MaskSize(ts), Links(ts))
    && HoldsAt(file, 16 + MaskSize(ts) + |Links(ts)|, Chunks(ts))
  }

  /** A link of 3 bytes or more never costs more than the bytes it stands for. */
  lemma {:induction false} StreamsBounded(ts: seq<Token>)
    requires WellFormed(ts)
    ensures |ts| + 0 <= |Expand(ts)| && |Links(ts)| + |Chunks(ts)| <= |Expand(ts)|
  {
    if ts != [] { StreamsBounded(ts[..|ts| - 1]); }
  }

  /** The output is never longer than the input by more than the header and the mask. */
  lemma FileBounded(file: seq<byte>, ts: seq<Token>)
    requires WellFormed(ts) && Encodes(file, ts)
    ensures |file| <= 16 + |Expand(ts)| + (|Expand(ts)| + 7) / 8
  {
    StreamsBounded(ts);
  }

  lemma ReadsBe16(v: nat)
    ensures |Be16(v)| == 2 && ReadBe16(Be16(v), 0) == v % 65536
  {
  }

  lemma ReadsBe32(file: seq<byte>, offset: nat, v: nat)
    requires v < WORD32 && HoldsAt(file, offset, Be32(v))
    ensures offset + 4 <= |file| && ReadBe32(file, offset) == v
  {
    hide HoldsAt, Be32;
    Be32Size(v);
    HoldsByte(file, offset, Be32(v), 0);
    HoldsByte(file, offset, Be32(v), 1);
    HoldsByte(file, offset, Be32(v), 2);
    HoldsByte(file, offset, Be32(v), 3);
    Be32ReadBack(v);
  }

  lemma Be32ReadBack(v: nat)
    requires v < WORD32
    ensures |Be32(v)| == 4 && ReadBe32(Be32(v), 0) == v
  {
    hide Be16;
    ReadsBe16(v / 65536);
    ReadsBe16(v);
    ReadBe16Concat(Be16(v / 65536), Be16(v));
  }

  lemma ReadBe16Concat(a: seq<byte>, b: seq<byte>)
    requires |a| == |b| == 2
    ensures ReadBe16(a + b, 0) == ReadBe16(a, 0) && ReadBe16(a + b, 2) == ReadBe16(b, 0)
  {
  }

  /** The cursor after k tokens. */
  ghost function CursorAt(ts: seq<Token>, k: nat): Cursor
    requires k <= |ts|
  {
    Cursor(k, 16 + MaskSize(ts) + |Links(ts[..k])|, 16 + MaskSize(ts) + |Links(ts)| + |Chunks(ts[..k])|)
  }

  lemma MaskBitRead(file: seq<byte>, ts: seq<Token>, k: nat)
    requires WellFormed(ts) && Encodes(file, ts) && k < |ts|
    ensures 16 + k / 8 < |file|
    ensures GetBit(file[16 + k / 8], 7 - k % 8) == 1 <==> ts[k].Chunk?
  {
    hide GetBit, Header, Expand, HoldsAt;
    MaskedRead(file[16..16 + MaskSize(ts)], ChunkBits(ts), k);
  }

  lemma MaskedRead(mask: seq<byte>, bits: seq<bool>, k: nat)
    requires Masked(mask, bits) && k < |bits|
    ensures k / 8 < |mask| && (GetBit(mask[k / 8], 7 - k % 8) == 1 <==> bits[k])
  {
    assert MaskBit(mask, k) <==> bits[k];
  }

  lemma CursorNext(ts: seq<Token>, k: nat)
    requires k < |ts|
    ensures CursorAt(ts, k + 1) == Cursor(k + 1, CursorAt(ts, k).links + |LinkPart(ts[k])|,
                                          CursorAt(ts, k).chunks + |ChunkPart(ts[k])|)
    ensures CursorAt(ts, k).mask == k
  {
    hide LinkPart, ChunkPart;
    StreamPrefix(ts, k);
    hide Links, Chunks;
  }

  lemma EncodedStreams(file: seq<byte>, ts: seq<Token>)
    requires WellFormed(ts) && Encodes(file, ts)
    ensures HoldsAt(file, 16 + MaskSize(ts), Links(ts))
    ensures HoldsAt(file, 16 + MaskSize(ts) + |Links(ts)|, Chunks(ts))
  {
    hide HoldsAt, Links, Chunks, Expand, WellFormed, Masked, MaskSize;
  }

  /** What the streams hold at the cursor after k tokens. */
  lemma StreamsRead(file: seq<byte>, ts: seq<Token>, k: nat)
    requires WellFormed(ts) && Encodes(file, ts) && k < |ts|
    ensures HoldsAt(file, CursorAt(ts, k).links, LinkPart(ts[k]))
    ensures HoldsAt(file, CursorAt(ts, k).chunks, ChunkPart(ts[k]))
  {
    hide LinkPart, ChunkPart, Links, Chunks, HoldsAt, WellFormed, MaskSize, Encodes;
    StreamPrefix(ts, k);
    EncodedStreams(file, ts);
    var m, l, c := 16 + MaskSize(ts), Links(ts), Chunks(ts);
    HoldsPart(file, m, l, Links(ts[..k]), LinkPart(ts[k]));
    HoldsPart(file, m + |l|, c, Chunks(ts[..k]), ChunkPart(ts[k]));
  }

  lemma LinkDecodes(offset: nat, count: nat)
    requires 1 <= offset <= WINDOW && 3 <= count <= MAX_LINK_LEN
    ensures var p := LinkPart(Link(offset, count));
      |p| == 2 && ReadBe16(p, 0) % 4096 + 1 == offset &&
      ReadBe16(p, 0) / 4096 == if count >= 18 then 0 else count - 2
  {
    hide Be16, ReadBe16;
    var header := if count >= 18 then 0 else count - 2;
    ReadsBe16(header * 4096 + (offset - 1));
    TwoFields(header, offset - 1);
  }

  lemma TwoFields(header: nat, low: nat)
    requires header < 16 && low < 4096
    ensures (header * 4096 + low) % 65536 == header * 4096 + low
    ensures (header * 4096 + low) / 4096 == header && (header * 4096 + low) % 4096 == low
  {
  }

  lemma TokenAt(ts: seq<Token>, k: nat)
    requires WellFormed(ts) && k < |ts|
    ensures WellFormed(ts[..k]) && WellFormed(ts[..k + 1]) && Applies(Expand(ts[..k]), ts[k])
    ensures ts[k].Link? ==> ts[k].offset <= WINDOW && 3 <= ts[k].count <= MAX_LINK_LEN
    ensures Expand(ts[..k + 1]) == Apply(Expand(ts[..k]), ts[k])
  {
    WellFormedPrefix(ts, k);
    WellFormedPrefix(ts, k + 1);
    assert ts[..k + 1][..k] == ts[..k];
  }

  /** One decoding step reads back one token. */
  lemma StepReadsToken(file: seq<byte>, ts: seq<Token>, k: nat)
    requires WellFormed(ts) && Encodes(file, ts) && k < |ts| && |file| < WORD32
    ensures WellFormed(ts[..k]) && WellFormed(ts[..k + 1])
    ensures Step(file, CursorAt(ts, k), Expand(ts[..k])) == Ok((CursorAt(ts, k + 1), Expand(ts[..k + 1])))
  {
    hide Encodes, CursorAt, WellFormed, Expand, ReadToken, Replay;
    TokenAt(ts, k);
    ReadsToken(file, ts, k);
  }

  lemma ReadsToken(file: seq<byte>, ts: seq<Token>, k: nat)
    requires WellFormed(ts) && Encodes(file, ts) && k < |ts| && |file| < WORD32
    ensures ReadToken(file, CursorAt(ts, k)) == Ok((ts[k], CursorAt(ts, k + 1)))
  {
    hide Encodes, CursorAt, WellFormed, Expand, GetBit, HoldsAt, ReadLink, LinkPart, Links, Chunks, Masked;
    TokenAt(ts, k);
    MaskBitRead(file, ts, k);
    StreamsRead(file, ts, k);
    CursorNext(ts, k);
    ReadsOne(file, CursorAt(ts, k), ts[k]);
  }

  /** A token whose mask bit, link and chunk bytes are where the cursor points. */
  lemma ReadsOne(file: seq<byte>, c: Cursor, t: Token)
    requires 16 + c.mask / 8 < |file| < WORD32
    requires GetBit(file[16 + c.mask / 8], 7 - c.mask % 8) == 1 <==> t.Chunk?
    requires t.Link? ==> 1 <= t.offset <= WINDOW && 3 <= t.count <= MAX_LINK_LEN
    requires HoldsAt(file, c.links, LinkPart(t)) && HoldsAt(file, c.chunks, ChunkPart(t))
    ensures ReadToken(file, c) == Ok((t, Cursor(c.mask + 1, c.links + |LinkPart(t)|, c.chunks + |ChunkPart(t)|)))
  {
    hide HoldsAt, ReadLink, LinkPart, ChunkPart, GetBit;
    match t
    case Chunk(b) =>
      ChunkParts(b);
      ReadsChunk(file, c, b);
    case Link(offset, count) =>
      ReadsLink(file, c, offset, count);
  }

  lemma ChunkParts(b: byte)
    ensures LinkPart(Chunk(b)) == [] && ChunkPart(Chunk(b)) == [b]
  {
  }

  lemma ReadsChunk(file: seq<byte>, c: Cursor, b: byte)
    requires 16 + c.mask / 8 < |file| < WORD32 && GetBit(file[16 + c.mask / 8], 7 - c.mask % 8) == 1
    requires HoldsAt(file, c.chunks, [b])
    ensures ReadToken(file, c) == Ok((Chunk(b), Cursor(c.mask + 1, c.links, c.chunks + 1)))
  {
    hide GetBit, HoldsAt;
    HoldsByte(file, c.chunks, [b], 0);
    HoldsBound(file, c.chunks, [b]);
  }

  lemma ReadsLink(file: seq<byte>, c: Cursor, offset: nat, count: nat)
    requires 1 <= offset <= WINDOW && 3 <= count <= MAX_LINK_LEN && |file| < WORD32
    requires HoldsAt(file, c.links, LinkPart(Link(offset, count)))
    requires HoldsAt(file, c.chunks, ChunkPart(Link(offset, count)))
    ensures |LinkPart(Link(offset, count))| == 2
    ensures ReadLink(file, c) == Ok((Link(offset, count),
                                     Cursor(c.mask + 1, c.links + 2, c.chunks + |ChunkPart(Link(offset, count))|)))
  {
    LinkDecodes(offset, count);
    var p, q := LinkPart(Link(offset, count)), ChunkPart(Link(offset, count));
    HoldsByte(file, c.links, p, 0);
    HoldsByte(file, c.links, p, 1);
    assert ReadBe16(file, c.links) == ReadBe16(p, 0);
    HoldsBound(file, c.links, p);
    HoldsBound(file, c.chunks, q);
    hide LinkPart, ReadBe16;
    if count >= 18 { HoldsByte(file, c.chunks, q, 0); }
    hide HoldsAt;
  }

  lemma HoldsBound(file: seq<byte>, at: nat, s: seq<byte>)
    requires HoldsAt(file, at, s)
    ensures at + |s| <= |file|
  {
  }

  lemma {:induction false} DecodesTokens(file: seq<byte>, ts: seq<Token>, k: nat)
    requires WellFormed(ts) && Encodes(file, ts) && k <= |ts| && |file| < WORD32
    ensures WellFormed(ts[..k])
    ensures Decode(file, CursorAt(ts, k), Expand(ts[..k]), |Expand(ts)|) == Ok(Expand(ts))
    decreases |ts| - k
  {
    hide Encodes, CursorAt, Step;
    WellFormedPrefix(ts, k);
    if k < |ts| {
      StepReadsToken(file, ts, k);
      DecodesTokens(file, ts, k + 1);
    } else {
      assert ts[..k] == ts;
    }
  }

  /** Decompressing the file of a token list gives what the tokens stand for. */
  lemma DecodesFile(file: seq<byte>, ts: seq<Token>)
    requires WellFormed(ts) && Encodes(file, ts) && |Expand(ts)| < 0x8000_0000
    ensures DecodeFile(file) == Ok(Expand(ts))
  {
    FileBounded(file, ts);
    HeaderReads(file, ts);
    DecodesTokens(file, ts, 0);
    assert ts[..0] == [];
  }

  lemma HeaderReads(file: seq<byte>, ts: seq<Token>)
    requires WellFormed(ts) && Encodes(file, ts) && |file| < WORD32 && |Expand(ts)| < WORD32
    ensures CheckMagic(file, 0).Ok?
    ensures ReadBe32(file, 4) == |Expand(ts)|
    ensures Cursor(0, ReadBe32(file, 8), ReadBe32(file, 12)) == CursorAt(ts, 0)
  {
    hide HoldsAt, ReadBe32, Expand, WellFormed, Links, Be32, Header, CheckMagic, Masked, MaskSize;
    HeaderParts(file, |Expand(ts)|, MaskSize(ts), |Links(ts)|);
    hide Encodes;
    assert ts[..0] == [];
    EmptyStreams();
  }

  lemma HeaderParts(file: seq<byte>, n: nat, m: nat, l: nat)
    requires HoldsAt(file, 0, Header(n, m, l)) && n < WORD32 && 16 + m + l < WORD32
    ensures |file| >= 16 && CheckMagic(file, 0).Ok?
    ensures ReadBe32(file, 4) == n && ReadBe32(file, 8) == 16 + m && ReadBe32(file, 12) == 16 + m + l
  {
    hide HoldsAt, ReadBe32, Be32, CheckMagic;
    var h := Header(n, m, l);
    Be32Size(n);
    Be32Size(16 + m);
    Be32Size(16 + m + l);
    HoldsBound(file, 0, h);
    HoldsPart(file, 0, h, [], MAGIC);
    HoldsPart(file, 0, h, MAGIC, Be32(n));
    HoldsPart(file, 0, h, MAGIC + Be32(n), Be32(16 + m));
    HoldsPart(file, 0, h, MAGIC + Be32(n) + Be32(16 + m), Be32(16 + m + l));
    hide Header;
    ReadsBe32(file, 4, n);
    ReadsBe32(file, 8, 16 + m);
    ReadsBe32(file, 12, 16 + m + l);
    MagicRead(file);
  }

  lemma EmptyStreams()
    ensures Links([]) == [] && Chunks([]) == []
  {
  }

  lemma Be32Size(v: nat)
    ensures |Be32(v)| == 4
  {
  }

  lemma MagicRead(file: seq<byte>)
    requires HoldsAt(file, 0, MAGIC)
    ensures CheckMagic(file, 0).Ok?
  {
    HoldsByte(file, 0, MAGIC, 0);
    HoldsByte(file, 0, MAGIC, 1);
    HoldsByte(file, 0, MAGIC, 2);
    HoldsByte(file, 0, MAGIC, 3);
    assert CheckMagic(file, 4).Ok?;
    assert CheckMagic(file, 2).Ok?;
  }

  // ---- Compression

  /** How many bytes from pos + from on agree with those offset earlier. */
  ghost function MatchLength(x: seq<byte>, pos: nat, offset: nat, from: nat): (m: nat)
    requires 1 <= offset <= pos && pos + from <= |x|
    ensures from <= m && pos + m <= |x|
    ensures forall j {:trigger x[j]} :: pos + from <= j < pos + m ==> x[j] == x[j - offset]
    decreases |x| - from
  {
    if pos + from < |x| && x[pos - offset + from] == x[pos + from] then MatchLength(x, pos, offset, from + 1) else from
  }

  /** The longest link that may be made at a position: the format's limit, and one byte short of the end. */
  ghost function Cap(x: seq<byte>, pos: nat): nat
    requires pos < |x|
  {
    if |x| - pos - 1 < MAX_LINK_LEN then |x| - pos - 1 else MAX_LINK_LEN
  }

  /** The length of the link with a given offset. */
  ghost function LinkLength(x: seq<byte>, pos: nat, offset: nat): nat
    requires 1 <= offset <= pos < |x|
  {
    var m := MatchLength(x, pos, offset, 0);
    if m < Cap(x, pos) then m else Cap(x, pos)
  }

  /** The length of the longest link with an offset of at most `offsets`. */
  ghost function LongestLink(x: seq<byte>, pos: nat, offsets: nat): (m: nat)
    requires offsets <= pos < |x|
    ensures m <= Cap(x, pos)
    ensures forall o :: 1 <= o <= offsets ==> LinkLength(x, pos, o) <= m
  {
    if offsets == 0 then 0
    else
      var m := LongestLink(x, pos, offsets - 1);
      if LinkLength(x, pos, offsets) > m then LinkLength(x, pos, offsets) else m
  }

  ghost function Reachable(pos: nat): nat {
    if pos < WINDOW then pos else WINDOW
  }

  /** The match with a given offset goes on beyond the longest link that may be made. */
  ghost predicate CutOff(x: seq<byte>, pos: nat, offset: nat)
    requires 1 <= offset <= pos < |x|
  {
    MatchLength(x, pos, offset, 0) > Cap(x, pos)
  }

  /** None of the first offsets has a link of so many bytes. */
  ghost predicate Below(x: seq<byte>, pos: nat, offsets: nat, count: nat)
    requires offsets <= pos < |x|
  {
    forall o :: 1 <= o <= offsets ==> LinkLength(x, pos, o) < count
  }

  ghost predicate NoneCutOff(x: seq<byte>, pos: nat, offsets: nat)
    requires offsets <= pos < |x|
  {
    forall o :: 1 <= o <= offsets ==> !CutOff(x, pos, o)
  }

  /**
   * The offset the search settles on: the first one whose match is cut off, if there is one,
   * and otherwise the first one with the longest link.
   */
  ghost predicate Preferred(x: seq<byte>, pos: nat, offset: nat)
    requires 1 <= offset <= pos < |x|
  {
    if CutOff(x, pos, offset) then NoneCutOff(x, pos, offset - 1)
    else NoneCutOff(x, pos, Reachable(pos)) && Below(x, pos, offset - 1, LinkLength(x, pos, offset))
  }

  /** t is the choice at pos: the preferred one of the longest links if they have 3 bytes, or else a chunk. */
  ghost predicate Chosen(x: seq<byte>, pos: nat, t: Token)
    requires pos < |x|
  {
    match t
    case Chunk(b) => b == x[pos] && LongestLink(x, pos, Reachable(pos)) < 3
    case Link(offset, count) =>
      1 <= offset <= Reachable(pos) && count >= 3 && Preferred(x, pos, offset)
      && count == LongestLink(x, pos, Reachable(pos)) == LinkLength(x, pos, offset)
  }

  /** There is one choice at each position, so the tokens are determined by the input. */
  lemma ChosenOnce(x: seq<byte>, pos: nat, t: Token, u: Token)
    requires pos < |x| && Chosen(x, pos, t) && Chosen(x, pos, u)
    ensures t == u
  {
    hide LongestLink, LinkLength, CutOff;
    if t.Link? && u.Link? {
      PreferredOnce(x, pos, t.offset, u.offset);
      PreferredOnce(x, pos, u.offset, t.offset);
    }
  }

  lemma PreferredOnce(x: seq<byte>, pos: nat, first: nat, second: nat)
    requires 1 <= first <= Reachable(pos) && 1 <= second <= Reachable(pos) && pos < |x|
    requires Preferred(x, pos, first) && Preferred(x, pos, second)
    requires LinkLength(x, pos, first) == LinkLength(x, pos, second)
    ensures first >= second
  {
    hide LinkLength, CutOff;
  }

  /** Every token is the right choice at the position it is made for. */
  ghost predicate Greedy(x: seq<byte>, ts: seq<Token>)
    requires WellFormed(ts)
  {
    forall k :: 0 <= k < |ts| ==> GreedyAt(x, ts, k)
  }

  ghost predicate GreedyAt(x: seq<byte>, ts: seq<Token>, k: nat)
    requires WellFormed(ts) && k < |ts|
  {
    WellFormedPrefix(ts, k);
    |Expand(ts[..k])| < |x| && Chosen(x, |Expand(ts[..k])|, ts[k])
  }

  /** The inner loop of the search: the length of the match, and whether the limits cut it off. */
  method Compare(x: seq<byte>, pos: nat, offset: nat) returns (count: nat, maxCountReached: bool)
    requires 1 <= offset <= pos < |x|
    ensures maxCountReached <==> CutOff(x, pos, offset)
    ensures LinkLength(x, pos, offset) == if maxCountReached then count - 1 else count
  {
    count, maxCountReached := 0, false;
    while x[pos - offset + count] == x[pos + count]
      invariant pos + count < |x| && count <= MAX_LINK_LEN
      invariant MatchLength(x, pos, offset, 0) == MatchLength(x, pos, offset, count)
      decreases |x| - count
    {
      count := count + 1;
      if count > MAX_LINK_LEN || pos + count >= |x| {
        maxCountReached := true;
        return;
      }
    }
  }

  /** What the search has found after the first offsets. */
  ghost predicate BestOf(x: seq<byte>, pos: nat, offsets: nat, count: nat, offset: nat)
    requires offsets <= pos < |x|
  {
    && count == LongestLink(x, pos, offsets) && NoneCutOff(x, pos, offsets)
    && (count > 0 ==> 1 <= offset <= offsets && LinkLength(x, pos, offset) == count && Below(x, pos, offset - 1, count))
  }

  lemma BestNext(x: seq<byte>, pos: nat, offsets: nat, count: nat, offset: nat, length: nat)
    requires offsets < pos < |x| && BestOf(x, pos, offsets, count, offset)
    requires !CutOff(x, pos, offsets + 1) && length == LinkLength(x, pos, offsets + 1)
    ensures length > count ==> BestOf(x, pos, offsets + 1, length, offsets + 1)
    ensures length <= count ==> BestOf(x, pos, offsets + 1, count, offset)
  {
    hide LinkLength, CutOff;
  }

  /** A match that is cut off gives the longest link there can be. */
  lemma LongestCutOff(x: seq<byte>, pos: nat, offsets: nat, offset: nat)
    requires 1 <= offset <= offsets <= pos < |x| && CutOff(x, pos, offset)
    ensures LongestLink(x, pos, offsets) == LinkLength(x, pos, offset) == Cap(x, pos)
  {
  }

  /** The search of the window. */
  method FindLink(x: seq<byte>, pos: nat) returns (linkCount: nat, linkOffset: nat)
    requires pos < |x|
    ensures linkCount == LongestLink(x, pos, Reachable(pos))
    ensures linkCount > 0 ==> 1 <= linkOffset <= Reachable(pos) && LinkLength(x, pos, linkOffset) == linkCount
    ensures linkCount > 0 ==> Preferred(x, pos, linkOffset)
  {
    hide LongestLink, LinkLength, CutOff, Below, NoneCutOff;
    linkCount, linkOffset := 0, 0;
    var offset := 1;
    NothingFound(x, pos);
    while offset <= WINDOW && offset <= pos
      invariant 1 <= offset <= Reachable(pos) + 1
      invariant BestOf(x, pos, offset - 1, linkCount, linkOffset)
    {
      var count, maxCountReached := Compare(x, pos, offset);
      if maxCountReached {
        LongestCutOff(x, pos, Reachable(pos), offset);
        return count - 1, offset;
      }
      BestNext(x, pos, offset - 1, linkCount, linkOffset, count);
      if count > linkCount {
        linkCount, linkOffset := count, offset;
      }
      offset := offset + 1;
    }
    if linkCount > 0 { NotCutOff(x, pos, Reachable(pos), linkOffset); }
  }

  lemma NothingFound(x: seq<byte>, pos: nat)
    requires pos < |x|
    ensures BestOf(x, pos, 0, 0, 0)
  {
  }

  lemma NotCutOff(x: seq<byte>, pos: nat, offsets: nat, offset: nat)
    requires 1 <= offset <= offsets <= pos < |x| && NoneCutOff(x, pos, offsets)
    ensures !CutOff(x, pos, offset)
  {
  }

  /** Each of `count` bytes from pos on agrees with the one offset earlier. */
  ghost predicate Repeats(x: seq<byte>, pos: nat, offset: nat, count: nat)
    requires 1 <= offset <= pos && pos + count <= |x|
  {
    forall j {:trigger x[j]} :: pos <= j < pos + count ==> x[j] == x[j - offset]
  }

  lemma RepeatsNext(x: seq<byte>, pos: nat, offset: nat, count: nat)
    requires 1 <= offset <= pos && pos + count <= |x| && 0 < count && Repeats(x, pos, offset, count)
    ensures x[pos] == x[pos - offset] && Repeats(x, pos + 1, offset, count - 1)
  {
  }

  lemma NoReplay(out: seq<byte>, offset: nat)
    requires 1 <= offset <= |out|
    ensures Replay(out, offset, 0) == out
  {
  }

  lemma ReplayNext(out: seq<byte>, offset: nat, count: nat)
    requires 1 <= offset <= |out| && 0 < count
    ensures Replay(out, offset, count) == Replay(out + [out[|out| - offset]], offset, count - 1)
  {
  }

  /** A link over matching bytes continues the text. */
  lemma {:induction false} ReplayContinues(x: seq<byte>, pos: nat, offset: nat, count: nat)
    requires 1 <= offset <= pos && pos + count <= |x| && Repeats(x, pos, offset, count)
    ensures Replay(x[..pos], offset, count) == x[..pos + count]
    decreases count
  {
    hide Replay, Repeats;
    if count == 0 {
      NoReplay(x[..pos], offset);
    } else {
      RepeatsNext(x, pos, offset, count);
      OneMore(x, pos, offset);
      ReplayNext(x[..pos], offset, count);
      ReplayContinues(x, pos + 1, offset, count - 1);
    }
  }

  lemma OneMore(x: seq<byte>, pos: nat, offset: nat)
    requires 1 <= offset <= pos < |x| && x[pos] == x[pos - offset]
    ensures x[..pos] + [x[..pos][pos - offset]] == x[..pos + 1]
  {
  }

  /** The two streams of bytes grow by the parts of each new token. */
  lemma Appended(ts: seq<Token>, t: Token)
    ensures Links(ts + [t]) == Links(ts) + LinkPart(t)
    ensures Chunks(ts + [t]) == Chunks(ts) + ChunkPart(t)
    ensures ChunkBits(ts + [t]) == ChunkBits(ts) + [t.Chunk?]
  {
    assert (ts + [t])[..|ts|] == ts;
  }

  /** A right choice extends the text that the tokens stand for. */
  lemma ExpandStep(x: seq<byte>, ts: seq<Token>, t: Token)
    requires WellFormed(ts) && Expand(ts) <= x && |Expand(ts)| < |x| && Chosen(x, |Expand(ts)|, t)
    ensures WellFormed(ts + [t]) && Expand(ts + [t]) <= x
    ensures |Expand(ts + [t])| == |Expand(ts)| + if t.Chunk? then 1 else t.count
  {
    var pos := |Expand(ts)|;
    ChosenContinues(x, pos, t);
    hide Chosen, LongestLink, Apply;
    assert (ts + [t])[..|ts|] == ts;
    assert Expand(ts) == x[..pos];
  }

  lemma ChosenContinues(x: seq<byte>, pos: nat, t: Token)
    requires pos < |x| && Chosen(x, pos, t)
    ensures Applies(x[..pos], t) && (t.Link? ==> t.offset <= WINDOW && 3 <= t.count <= MAX_LINK_LEN)
    ensures var next := pos + if t.Chunk? then 1 else t.count;
      next <= |x| && Apply(x[..pos], t) == x[..next]
  {
    hide LongestLink, Replay;
    if t.Link? { ReplayContinues(x, pos, t.offset, t.count); }
  }

  /** Appending the right choice keeps every choice right. */
  lemma GreedyStep(x: seq<byte>, ts: seq<Token>, t: Token)
    requires WellFormed(ts) && Greedy(x, ts) && Expand(ts) <= x && |Expand(ts)| < |x|
    requires Chosen(x, |Expand(ts)|, t)
    ensures WellFormed(ts + [t]) && Greedy(x, ts + [t])
  {
    hide Chosen, WellFormed, Expand;
    var us := ts + [t];
    ExpandStep(x, ts, t);
    assert us[..|ts|] == ts;
    forall k | 0 <= k < |us| ensures GreedyAt(x, us, k) {
      if k < |ts| {
        assert us[..k] == ts[..k];
        assert GreedyAt(x, ts, k);
      }
    }
  }

  lemma NothingChosen(x: seq<byte>)
    ensures WellFormed([]) && Greedy(x, []) && Expand([]) == []
    ensures Links([]) == [] && Chunks([]) == [] && ChunkBits([]) == []
  {
  }

  /** yay0_compress, with the tokens it chose */
  method Compress(input: seq<byte>) returns (result: seq<byte>, ghost tokens: seq<Token>)
    ensures WellFormed(tokens) && Expand(tokens) == input && Greedy(input, tokens) && Encodes(result, tokens)
    ensures |result| <= 16 + |input| + (|input| + 7) / 8
  {
    hide Greedy, LongestLink, LinkLength, Preferred, Masked, Applies, Be16, WellFormed, Expand, Links, Chunks,
      ChunkBits, Encodes;
    NothingChosen(input);
    var inputPos := 0;
    var masks := new MaskVectorWriter();
    var links: seq<byte>, chunks: seq<byte> := [], [];
    tokens := [];
    while inputPos < |input|
      invariant masks.Valid() && fresh(masks) && inputPos <= |input|
      invariant WellFormed(tokens) && Greedy(input, tokens) && Expand(tokens) <= input
      invariant inputPos == |Expand(tokens)|
      invariant masks.bits == ChunkBits(tokens) && links == Links(tokens) && chunks == Chunks(tokens)
    {
      var linkCount, linkOffset := FindLink(input, inputPos);
      ghost var t: Token;
      if linkCount >= 3 {
        t := Link(linkOffset, linkCount);
        var linkCountHeader := 0;
        if linkCount >= 18 {
          chunks := chunks + [(linkCount - 18) % 256];
        } else {
          linkCountHeader := linkCount - 2;
        }
        links := links + Be16(linkCountHeader * 4096 + (linkOffset - 1));
        masks.PushBack(false);
        inputPos := inputPos + linkCount;
      } else {
        t := Chunk(input[inputPos]);
        chunks := chunks + [input[inputPos]];
        masks.PushBack(true);
        inputPos := inputPos + 1;
      }
      GreedyStep(input, tokens, t);
      ExpandStep(input, tokens, t);
      Appended(tokens, t);
      tokens := tokens + [t];
    }
    result := AssembleFile(|input|, masks.data, links, chunks, tokens);
    FileBounded(result, tokens);
  }

  method AssembleFile(size: nat, masks: seq<byte>, links: seq<byte>, chunks: seq<byte>, ghost ts: seq<Token>)
    returns (result: seq<byte>)
    requires WellFormed(ts) && size == |Expand(ts)| && links == Links(ts) && chunks == Chunks(ts)
    requires Masked(masks, ChunkBits(ts))
    ensures Encodes(result, ts)
  {
    hide Links, Chunks, Expand, WellFormed, Masked, Header, HoldsAt;
    var header := Header(size, |masks|, |links|);
    HeaderSize(size, |masks|, |links|);
    MaskedSize(masks, ts);
    result := header + masks + links + chunks;
    FourParts(header, masks, links, chunks);
  }

  lemma HeaderSize(size: nat, maskSize: nat, linksSize: nat)
    ensures |Header(size, maskSize, linksSize)| == 16
  {
    hide Be32;
    Be32Size(size);
    Be32Size(16 + maskSize);
    Be32Size(16 + maskSize + linksSize);
  }

  lemma MaskedSize(masks: seq<byte>, ts: seq<Token>)
    requires Masked(masks, ChunkBits(ts))
    ensures |masks| == MaskSize(ts)
  {
  }

  lemma FourParts(a: seq<byte>, b: seq<byte>, c: seq<byte>, d: seq<byte>)
    ensures var r := a + b + c + d;
      && HoldsAt(r, 0, a) && r[|a|..|a| + |b|] == b && HoldsAt(r, |a| + |b|, c)
      && HoldsAt(r, |a| + |b| + |c|, d)
  {
  }

  /** Compressing and decompressing any input of less than 2^31 bytes gives it back. */
  method RoundTrip(x: seq<byte>) returns (r: Result<seq<byte>>)
    requires |x| < 0x8000_0000
    ensures r == Ok(x)
  {
    var file;
    ghost var tokens;
    file, tokens := Compress(x);
    DecodesFile(file, tokens);
    r := Decompress(file);
  }
}
