/** What the Yay0 decompressor makes of any input, in terms of the places of the format. */
module Yay0Decoding {
  import opened Bits
  import opened Bytes
  import opened Yay0
  import opened Yay0Format

  /** Byte i of a copy repeats the byte that lies the offset before it, which may be a copied one. */
  lemma {:induction false} ReplayIs(out: seq<byte>, offset: nat, count: nat, i: nat)
    requires 1 <= offset <= |out| && |out| <= i < |out| + count
    ensures Replay(out, offset, count)[i] == Replay(out, offset, count)[i - offset]
    decreases count
  {
    var next := out + [out[|out| - offset]];
    if i > |out| {
      ReplayIs(next, offset, count - 1, i);
    } else {
      var r := Replay(next, offset, count - 1);
      assert r[i] == next[i] && r[i - offset] == next[i - offset];
    }
  }

  /** The signature is required, and a byte that differs is reported before one that is missing. */
  lemma SignatureIs(input: seq<byte>, signature: seq<byte>, n: nat)
    requires signature == ['Y' as int, 'a' as int, 'y' as int, '0' as int]
    requires n <= |input| && n <= 4 && (n == |input| || n == 4)
    ensures CheckMagic(input, 0) ==
      if input[..n] != signature[..n] then Err(NotYay0) else if n < 4 then Err(Invalid) else Ok(())
  {
    assert MAGIC == signature;
    assert input[..n] == signature[..n] <==> forall i :: 0 <= i < n ==> input[i] == signature[i];
    assert CheckMagic(input, 4).Ok?;
    SignatureFrom(input, 3, n);
    SignatureFrom(input, 2, n);
    SignatureFrom(input, 1, n);
    SignatureFrom(input, 0, n);
  }

  lemma SignatureFrom(input: seq<byte>, k: nat, n: nat)
    requires k < 4 && n <= |input| && n <= 4 && (n == |input| || n == 4)
    ensures CheckMagic(input, k) ==
      if k >= n then Err(Invalid) else if input[k] != MAGIC[k] then Err(NotYay0) else CheckMagic(input, k + 1)
  {
  }

  /** What stands at the two places, when the mask says that it is a link. */
  ghost predicate LinkStands(input: seq<byte>, offset: nat, count: nat, l: nat, c: nat) {
    && l + 2 <= |input|
    && Value(input[l..l + 2]) % 4096 == offset - 1
    && if count >= 18 then Value(input[l..l + 2]) / 4096 == 0 && c < |input| && input[c] as int == count - 18
       else count > 2 && Value(input[l..l + 2]) / 4096 == count - 2
  }

  /** Token t stands in the input, with bit k of the mask, its link at l and its byte at c. */
  ghost predicate Stands(input: seq<byte>, t: Token, k: nat, l: nat, c: nat) {
    && 16 + k / 8 < |input|
    && input[16 + k / 8] / TwoTo(7 - k % 8) % 2 == (if t.Chunk? then 1 else 0)
    && match t
       case Chunk(b) => c < |input| && input[c] == b
       case Link(offset, count) => LinkStands(input, offset, count, l, c)
  }

  /** The tokens stand in the three streams one after the other; places are 32-bit numbers. */
  ghost predicate AllStand(input: seq<byte>, ts: seq<Token>, l: nat, c: nat) {
    forall k :: 0 <= k < |ts| ==> Stands(input, ts[k], k, Place(ts, k, l, c).links, Place(ts, k, l, c).chunks)
  }

  ghost function Place(ts: seq<Token>, k: nat, l: nat, c: nat): Cursor
    requires k <= |ts|
  {
    Cursor(k, (l + 2 * LinkCount(ts[..k])) % WORD32, (c + ByteCount(ts[..k])) % WORD32)
  }

  /** The output is complete with the last token and not before it. */
  ghost predicate Stops(ts: seq<Token>, size: nat)
    requires WellFormed(ts)
  {
    |Expand(ts)| >= size && (ts != [] ==> |Expand(ts[..|ts| - 1])| < size)
  }

  lemma LinkIs(input: seq<byte>, c: Cursor, offset: nat, count: nat)
    requires c.links < WORD32 && c.chunks < WORD32
    ensures ReadLink(input, c).Ok? && ReadLink(input, c).value.0 == Link(offset, count)
      <==> LinkStands(input, offset, count, c.links, c.chunks)
    ensures LinkStands(input, offset, count, c.links, c.chunks) ==>
      ReadLink(input, c).value.1 ==
        Cursor(c.mask + 1, (c.links + 2) % WORD32, (c.chunks + if count >= 18 then 1 else 0) % WORD32)
  {
    hide Value, ReadBe16;
    if c.links + 2 <= |input| {
      ReadsAreValues(input, c.links);
      TwoBytesFit(input, c.links);
      var v := ReadBe16(input, c.links);
      assert v / 4096 < 16;
    }
  }

  lemma TwoBytesFit(s: seq<byte>, at: nat)
    requires at + 2 <= |s|
    ensures ReadBe16(s, at) < 65536
  {
  }

  lemma MaskBitIs(input: seq<byte>, k: nat, bit: nat)
    requires 16 + k / 8 < |input| && bit == GetBit(input[16 + k / 8], 7 - k % 8)
    ensures bit == input[16 + k / 8] / TwoTo(7 - k % 8) % 2 && bit < 2
  {
    hide TwoTo, GetBit;
    DigitsAre(input[16 + k / 8], 7 - k % 8);
  }

  /** A token is read exactly when it stands there and is one of the format. */
  lemma TokenIs(input: seq<byte>, c: Cursor, t: Token)
    requires c.links < WORD32 && c.chunks < WORD32
    ensures ReadToken(input, c).Ok? && ReadToken(input, c).value.0 == t <==> Stands(input, t, c.mask, c.links, c.chunks)
    ensures Stands(input, t, c.mask, c.links, c.chunks) ==> ReadToken(input, c).value.1 == Behind(c, t)
  {
    hide TwoTo, GetBit, ReadLink, LinkStands;
    if 16 + c.mask / 8 < |input| {
      var bit := GetBit(input[16 + c.mask / 8], 7 - c.mask % 8);
      MaskBitIs(input, c.mask, bit);
      if bit == 0 {
        if t.Link? { LinkIs(input, c, t.offset, t.count); }
      }
    }
  }

  ghost function Behind(c: Cursor, t: Token): Cursor {
    Cursor(c.mask + 1, (c.links + if t.Link? then 2 else 0) % WORD32,
           (c.chunks + if t.Chunk? || t.count >= 18 then 1 else 0) % WORD32)
  }

  lemma LinkFits(input: seq<byte>, c: Cursor)
    ensures ReadToken(input, c).Ok? && ReadToken(input, c).value.0.Link? ==>
      var t := ReadToken(input, c).value.0;
      1 <= t.offset <= WINDOW && 3 <= t.count <= MAX_LINK_LEN
  {
    hide GetBit;
  }

  lemma PlaceNext(ts: seq<Token>, t: Token, l: nat, c: nat)
    ensures Place(ts + [t], |ts|, l, c) == Place(ts, |ts|, l, c)
    ensures Place(ts + [t], |ts| + 1, l, c) == Behind(Place(ts, |ts|, l, c), t)
  {
    hide LinkCount, ByteCount;
    assert (ts + [t])[..|ts|] == ts[..|ts|] == ts;
    assert (ts + [t])[..|ts| + 1] == ts + [t];
    CountsNext(ts, t);
    WrapNext(l + 2 * LinkCount(ts), if t.Link? then 2 else 0);
    WrapNext(c + ByteCount(ts), if t.Chunk? || t.count >= 18 then 1 else 0);
  }

  lemma WrapNext(x: nat, more: nat)
    ensures (x % WORD32 + more) % WORD32 == (x + more) % WORD32
  {
  }

  lemma CountsNext(ts: seq<Token>, t: Token)
    ensures LinkCount(ts + [t]) == LinkCount(ts) + if t.Link? then 1 else 0
    ensures ByteCount(ts + [t]) == ByteCount(ts) + if t.Chunk? || t.count >= 18 then 1 else 0
  {
    assert (ts + [t])[..|ts + [t]| - 1] == ts;
  }

  lemma StandsNext(input: seq<byte>, ts: seq<Token>, t: Token, l: nat, c: nat)
    requires AllStand(input, ts, l, c)
    requires Stands(input, t, |ts|, Place(ts, |ts|, l, c).links, Place(ts, |ts|, l, c).chunks)
    ensures AllStand(input, ts + [t], l, c)
  {
    hide Stands, LinkCount, ByteCount;
    PlaceNext(ts, t, l, c);
    forall k | 0 <= k < |ts| ensures Place(ts + [t], k, l, c) == Place(ts, k, l, c) {
      assert (ts + [t])[..k] == ts[..k];
    }
  }

  lemma FormedNext(ts: seq<Token>, t: Token)
    requires WellFormed(ts) && Applies(Expand(ts), t)
    requires t.Link? ==> t.offset <= WINDOW && 3 <= t.count <= MAX_LINK_LEN
    ensures WellFormed(ts + [t]) && Expand(ts + [t]) == Apply(Expand(ts), t) && (ts + [t])[..|ts + [t]| - 1] == ts
  {
    assert (ts + [t])[..|ts + [t]| - 1] == ts;
    hide Apply;
  }

  /** A step that succeeds has read and applied a token that stands there. */
  lemma StepStands(input: seq<byte>, ts: seq<Token>, l: nat, c: nat) returns (t: Token)
    requires WellFormed(ts) && AllStand(input, ts, l, c) && Step(input, Place(ts, |ts|, l, c), Expand(ts)).Ok?
    ensures WellFormed(ts + [t]) && AllStand(input, ts + [t], l, c) && (ts + [t])[..|ts + [t]| - 1] == ts
    ensures Step(input, Place(ts, |ts|, l, c), Expand(ts)).value
         == (Place(ts + [t], |ts| + 1, l, c), Expand(ts + [t]))
  {
    hide ReadToken, Apply, AllStand, Stands, Behind, Expand, WellFormed;
    t := ReadToken(input, Place(ts, |ts|, l, c)).value.0;
    TokenIs(input, Place(ts, |ts|, l, c), t);
    LinkFits(input, Place(ts, |ts|, l, c));
    PlaceNext(ts, t, l, c);
    StandsNext(input, ts, t, l, c);
    FormedNext(ts, t);
  }

  /** Whatever is decoded is what tokens that stand in the input stand for. */
  lemma {:induction false} DecodedStands(input: seq<byte>, ts: seq<Token>, l: nat, c: nat, size: nat)
    returns (us: seq<Token>)
    requires WellFormed(ts) && AllStand(input, ts, l, c) && (ts != [] ==> |Expand(ts[..|ts| - 1])| < size)
    requires Decode(input, Place(ts, |ts|, l, c), Expand(ts), size).Ok?
    ensures WellFormed(us) && AllStand(input, us, l, c) && Stops(us, size)
    ensures Decode(input, Place(ts, |ts|, l, c), Expand(ts), size).value == Expand(us)
    decreases size - |Expand(ts)|
  {
    hide Step, AllStand, Place, Expand, WellFormed;
    us := ts;
    if |Expand(ts)| < size {
      var t := StepStands(input, ts, l, c);
      us := DecodedStands(input, ts + [t], l, c, size);
    }
  }

  lemma StepOfToken(input: seq<byte>, us: seq<Token>, k: nat, l: nat, c: nat)
    requires WellFormed(us) && AllStand(input, us, l, c) && k < |us|
    ensures WellFormed(us[..k]) && WellFormed(us[..k + 1])
    ensures Step(input, Place(us, k, l, c), Expand(us[..k])) == Ok((Place(us, k + 1, l, c), Expand(us[..k + 1])))
  {
    hide ReadToken, Apply, Stands, Behind, Expand, WellFormed, LinkCount, ByteCount;
    var ts, t := us[..k], us[k];
    TokenAt(us, k);
    TokenIs(input, Place(us, k, l, c), t);
    PlaceNext(ts, t, l, c);
    assert us[..k + 1] == ts + [t];
    assert (ts + [t])[..k] == ts && (ts + [t])[..k + 1] == ts + [t];
  }

  /** Tokens that stand in the input are decoded, if the size asks for the last of them and no more. */
  lemma {:induction false} StandingDecoded(input: seq<byte>, us: seq<Token>, k: nat, l: nat, c: nat, size: nat)
    requires WellFormed(us) && AllStand(input, us, l, c) && Stops(us, size) && k <= |us|
    ensures WellFormed(us[..k]) && Decode(input, Place(us, k, l, c), Expand(us[..k]), size) == Ok(Expand(us))
    decreases |us| - k
  {
    hide Step, AllStand, Place, Expand, WellFormed;
    if k < |us| {
      var init := us[..|us| - 1];
      assert init[..k] == us[..k];
      WellFormedPrefix(us, |us| - 1);
      WellFormedPrefix(init, k);
      StepOfToken(input, us, k, l, c);
      StandingDecoded(input, us, k + 1, l, c, size);
    } else {
      assert us[..k] == us;
    }
  }

  lemma StartPlace(ts: seq<Token>, l: nat, c: nat)
    requires l < WORD32 && c < WORD32
    ensures Place(ts, 0, l, c) == Cursor(0, l, c)
  {
    assert ts[..0] == [];
  }

  ghost predicate Decodes(input: seq<byte>, ts: seq<Token>, size: nat, l: nat, c: nat, out: seq<byte>) {
    WellFormed(ts) && AllStand(input, ts, l, c) && Stops(ts, size) && Expand(ts) == out
  }

  lemma DecodeIs(input: seq<byte>, size: nat, l: nat, c: nat, out: seq<byte>)
    requires l < WORD32 && c < WORD32
    ensures Decode(input, Cursor(0, l, c), [], size) == Ok(out) <==> exists ts :: Decodes(input, ts, size, l, c, out)
  {
    hide Decode, Place, Stands;
    StartPlace([], l, c);
    if Decode(input, Cursor(0, l, c), [], size) == Ok(out) {
      var us := DecodedStands(input, [], l, c, size);
      assert Decodes(input, us, size, l, c, out);
    }
    if exists us :: Decodes(input, us, size, l, c, out) {
      var us :| Decodes(input, us, size, l, c, out);
      StartPlace(us, l, c);
      StandingDecoded(input, us, 0, l, c, size);
      assert us[..0] == [];
    }
  }

  lemma FourBytesFit(s: seq<byte>, at: nat)
    requires at + 4 <= |s|
    ensures ReadBe32(s, at) < WORD32
  {
    hide ReadBe16;
    TwoBytesFit(s, at);
    TwoBytesFit(s, at + 2);
  }

  /**
   * The decompressor accepts exactly the inputs in which tokens of the format stand that make up
   * the size announced, the last one perhaps more, and returns what they stand for.
   */
  lemma DecodedIs(input: seq<byte>, size: nat, l: nat, c: nat, out: seq<byte>)
    requires |input| >= 16 && size == Value(input[4..8]) && l == Value(input[8..12]) && c == Value(input[12..16])
    ensures DecodeFile(input) == Ok(out) <==>
      input[..4] == ['Y' as int, 'a' as int, 'y' as int, '0' as int]
      && exists ts :: Decodes(input, ts, size, l, c, out)
  {
    hide Decode, Decodes, Value, ReadBe32, CheckMagic;
    SignatureIs(input, ['Y' as int, 'a' as int, 'y' as int, '0' as int], 4);
    ReadsAreValues(input, 4);
    ReadsAreValues(input, 8);
    ReadsAreValues(input, 12);
    FourBytesFit(input, 8);
    FourBytesFit(input, 12);
    DecodeIs(input, size, l, c, out);
  }

  /** Short inputs fail, and the only other kind of failure than an invalid input is a wrong signature. */
  lemma FailuresAre(input: seq<byte>, signature: seq<byte>, n: nat)
    requires signature == ['Y' as int, 'a' as int, 'y' as int, '0' as int]
    requires n <= |input| && n <= 4 && (n == |input| || n == 4)
    ensures |input| < 16 ==> DecodeFile(input).Err?
    ensures DecodeFile(input).Err? ==>
      DecodeFile(input).error == if input[..n] != signature[..n] then NotYay0 else Invalid
  {
    hide CheckMagic, Decode, ReadBe32;
    SignatureIs(input, signature, n);
    if |input| >= 16 {
      DecodeInvalid(input, Cursor(0, ReadBe32(input, 8), ReadBe32(input, 12)), [], ReadBe32(input, 4));
    }
  }

  lemma {:induction false} DecodeInvalid(input: seq<byte>, c: Cursor, out: seq<byte>, size: nat)
    ensures Decode(input, c, out, size).Err? ==> Decode(input, c, out, size).error == Invalid
    decreases size - |out|
  {
    hide Step;
    if |out| < size && Step(input, c, out).Ok? {
      DecodeInvalid(input, Step(input, c, out).value.0, Step(input, c, out).value.1, size);
    }
  }
}
