/** Externals/CryptoPP/asn.cpp: lengths in BER and DER, and re-encoding BER as DER. */
module Asn {
  import opened Bytes

  datatype Result<T> = Ok(value: T) | BERDecodeError

  const WORD64: nat := 0x1_0000_0000_0000_0000

  const TOP_BYTE: nat := 0x100_0000_0000_0000

  class ByteQueue {
    var contents: seq<byte>

    constructor ()
      ensures contents == []
    {
      contents := [];
    }
  }

  // ---- Lengths (section 8.1.3 of X.690)

  datatype Length = Definite(length: nat) | Indefinite

  /** The number of significant bytes. */
  function BytePrecision(v: nat): nat {
    if v == 0 then 0 else 1 + BytePrecision(v / 256)
  }

  function DerLength(length: nat): seq<byte> {
    if length <= 0x7f then [length]
    else [(BytePrecision(length) + 0x80) % 256] + BigEndian(length, BytePrecision(length))
  }

  /** Reads count length bytes onto acc; refuses to lose a set top byte. */
  function ReadBytes(s: seq<byte>, count: nat, acc: nat): (r: Result<(nat, seq<byte>)>)
    ensures r.Ok? ==> |r.value.1| + count == |s| && r.value.1 == s[count..]
    decreases count
  {
    if count == 0 then Ok((acc, s))
    else if acc >= TOP_BYTE || s == [] then BERDecodeError
    else ReadBytes(s[1..], count - 1, acc * 256 + s[0] as int)
  }

  function DecodeLength(s: seq<byte>): (r: Result<(Length, seq<byte>)>)
    ensures r.Ok? ==> |r.value.1| < |s| && r.value.1 == s[|s| - |r.value.1|..]
  {
    if s == [] then BERDecodeError
    else if s[0] < 0x80 then Ok((Definite(s[0]), s[1..]))
    else if s[0] == 0x80 then Ok((Indefinite, s[1..]))
    else
      var r := ReadBytes(s[1..], s[0] - 0x80, 0);
      if r.Ok? then Ok((Definite(r.value.0), r.value.1)) else BERDecodeError
  }

  /** DERLengthEncode */
  method DERLengthEncode(bt: ByteQueue, length: nat) returns (i: nat)
    requires length < WORD64
    modifies bt
    ensures bt.contents == old(bt.contents) + DerLength(length)
    ensures i == |DerLength(length)|
  {
    hide BigEndian, BytePrecision, Power256, DerLength;
    DerLengthForms(length);
    i := 0;
    if length <= 0x7f {
      bt.contents := bt.contents + [length];
      i := i + 1;
    } else {
      var precision := BytePrecision(length);
      bt.contents := bt.contents + [precision + 0x80];
      i := i + 1;
      ghost var start := bt.contents;
      var j := precision;
      while j > 0
        invariant 0 <= j <= precision && i == 1 + (precision - j)
        invariant bt.contents == start + BigEndian(length, precision)[..precision - j]
      {
        BigEndianAt(length, precision, precision - j);
        bt.contents := bt.contents + [length / Power256(j - 1) % 256];
        i := i + 1;
        j := j - 1;
      }
    }
  }

  lemma DerLengthForms(length: nat)
    requires length < WORD64
    ensures length <= 0x7f ==> DerLength(length) == [length]
    ensures length > 0x7f ==>
      1 <= BytePrecision(length) <= 8
      && DerLength(length) == [BytePrecision(length) + 0x80] + BigEndian(length, BytePrecision(length))
  {
    PrecisionAtMostEight(length);
    if length > 0x7f { PrecisionPositive(length); }
    hide BytePrecision, BigEndian;
  }

  lemma {:induction false} PrecisionBounds(v: nat, n: nat)
    ensures v < Power256(n) <==> BytePrecision(v) <= n
  {
    if n > 0 && v > 0 { PrecisionBounds(v / 256, n - 1); }
  }

  lemma PrecisionAtMostEight(v: nat)
    requires v < WORD64
    ensures BytePrecision(v) <= 8
  {
    assert Power256(4) == 0x1_0000_0000;
    assert Power256(8) == WORD64;
    PrecisionBounds(v, 8);
  }

  lemma PrecisionPositive(v: nat)
    requires v > 0
    ensures BytePrecision(v) >= 1
  {
  }

  /** BERLengthDecode */
  method BERLengthDecode(bt: ByteQueue) returns (r: Result<Length>)
    modifies bt
    ensures r.Ok? <==> DecodeLength(old(bt.contents)).Ok?
    ensures r.Ok? ==> DecodeLength(old(bt.contents)) == Ok((r.value, bt.contents))
  {
    if bt.contents == [] { return BERDecodeError; }
    var b := bt.contents[0];
    bt.contents := bt.contents[1..];
    if b < 0x80 { return Ok(Definite(b)); }
    var lengthBytes: nat := b - 0x80;
    if lengthBytes == 0 { return Ok(Indefinite); }
    var length: nat := 0;
    ghost var start, count := bt.contents, lengthBytes;
    while lengthBytes > 0
      invariant ReadBytes(start, count, 0) == ReadBytes(bt.contents, lengthBytes, length)
    {
      lengthBytes := lengthBytes - 1;
      if length >= TOP_BYTE { return BERDecodeError; }
      if bt.contents == [] { return BERDecodeError; }
      length := length * 256 + bt.contents[0] as int;
      bt.contents := bt.contents[1..];
    }
    r := Ok(Definite(length));
  }

  lemma {:induction false} ReadBytesNext(a: seq<byte>, b: byte, rest: seq<byte>, acc: nat, x: nat)
    requires ReadBytes(a + ([b] + rest), |a|, acc) == Ok((x, [b] + rest)) && x < TOP_BYTE
    ensures ReadBytes(a + [b] + rest, |a| + 1, acc) == Ok((x * 256 + b as int, rest))
    decreases |a|
  {
    hide ReadBytes;
    if a == [] {
      assert [] + ([b] + rest) == [b] + rest == [] + [b] + rest;
      ReadBytesNone([b] + rest, acc);
      ReadBytesFirst(b, rest, 1, acc);
      ReadBytesNone(rest, acc * 256 + b as int);
    } else {
      var tail := a[1..];
      assert a + ([b] + rest) == [a[0]] + (tail + ([b] + rest));
      assert a + [b] + rest == [a[0]] + (tail + [b] + rest);
      ReadBytesFirst(a[0], tail + ([b] + rest), |a|, acc);
      ReadBytesFirst(a[0], tail + [b] + rest, |a| + 1, acc);
      ReadBytesNext(tail, b, rest, acc * 256 + a[0] as int, x);
    }
  }

  lemma ReadBytesNone(s: seq<byte>, acc: nat)
    ensures ReadBytes(s, 0, acc) == Ok((acc, s))
  {
  }

  lemma ReadBytesFirst(b: byte, rest: seq<byte>, count: nat, acc: nat)
    requires count > 0
    ensures ReadBytes([b] + rest, count, acc)
         == if acc >= TOP_BYTE then BERDecodeError else ReadBytes(rest, count - 1, acc * 256 + b as int)
  {
    assert ([b] + rest)[1..] == rest;
  }

  lemma {:induction false} ReadsBigEndian(v: nat, n: nat, rest: seq<byte>)
    requires n <= 8 && v < Power256(n)
    ensures ReadBytes(BigEndian(v, n) + rest, n, 0) == Ok((v, rest))
  {
    if n == 0 {
      assert BigEndian(v, n) + rest == rest;
    } else {
      assert v / 256 < Power256(n - 1);
      ReadsBigEndian(v / 256, n - 1, [v % 256] + rest);
      assert v / 256 < TOP_BYTE by {
        assert Power256(3) == 0x100_0000;
        assert Power256(7) == TOP_BYTE;
        GrowingPower(n - 1, 7);
      }
      ReadBytesNext(BigEndian(v / 256, n - 1), v % 256, rest, 0, v / 256);
    }
  }

  lemma {:induction false} GrowingPower(m: nat, n: nat)
    requires m <= n
    ensures Power256(m) <= Power256(n)
  {
    if m < n { GrowingPower(m, n - 1); }
  }

  /** Decoding inverts encoding for every 64-bit length, whatever follows. */
  lemma LengthRoundTrip(length: nat, rest: seq<byte>)
    requires length < WORD64
    ensures DecodeLength(DerLength(length) + rest) == Ok((Definite(length), rest))
  {
    hide BigEndian, BytePrecision, Power256, ReadBytes, DerLength, DecodeLength;
    DerLengthForms(length);
    if length > 0x7f {
      var n := BytePrecision(length);
      PrecisionBounds(length, n);
      ReadsBigEndian(length, n, rest);
      DecodeLong(n, BigEndian(length, n), rest, length);
    } else {
      DecodeShort(length, rest);
    }
  }

  lemma DecodeShort(length: byte, rest: seq<byte>)
    requires length <= 0x7f
    ensures DecodeLength([length] + rest) == Ok((Definite(length), rest))
  {
    hide ReadBytes;
  }

  lemma DecodeLong(n: nat, body: seq<byte>, rest: seq<byte>, length: nat)
    requires 1 <= n <= 8 && ReadBytes(body + rest, n, 0) == Ok((length, rest))
    ensures DecodeLength([n + 0x80] + body + rest) == Ok((Definite(length), rest))
  {
    hide ReadBytes;
    assert ([n + 0x80] + body + rest)[1..] == body + rest;
  }

  lemma {:induction false} ReadBytesBelow(s: seq<byte>, count: nat, acc: nat, n: nat)
    requires ReadBytes(s, count, acc).Ok? && acc < Power256(n)
    ensures ReadBytes(s, count, acc).value.0 < Power256(n + count)
    decreases count
  {
    if count > 0 {
      assert acc * 256 + s[0] as int < Power256(n + 1);
      ReadBytesBelow(s[1..], count - 1, acc * 256 + s[0] as int, n + 1);
    }
  }

  /** No other encoding of a length is shorter. */
  lemma DerLengthIsMinimal(s: seq<byte>, length: nat, rest: seq<byte>)
    requires DecodeLength(s) == Ok((Definite(length), rest))
    ensures |DerLength(length)| <= |s| - |rest|
  {
    if s[0] >= 0x80 {
      ReadBytesBelow(s[1..], s[0] - 0x80, 0, 0);
      PrecisionBounds(length, s[0] - 0x80);
    }
  }

  // ---- Elements (sections 8.1.1 and 10.1 of X.690)

  /** An element with its contents as they stand, or one of indefinite length with its children. */
  datatype Element = Plain(tag: byte, content: seq<byte>) | Spine(tag: byte, children: seq<Element>)

  predicate Constructed(tag: byte) {
    tag / 0x20 % 2 == 1
  }

  predicate EndOfContent(s: seq<byte>) {
    |s| >= 2 && s[0] == 0 && s[1] == 0
  }

  /** The element with a definite length of the fewest bytes, and so for all the children of its spine. */
  function Der(e: Element): seq<byte>
    decreases e, 0
  {
    match e
    case Plain(tag, content) => [tag] + DerLength(|content|) + content
    case Spine(tag, children) => [tag] + DerLength(|DerAll(children)|) + DerAll(children)
  }

  function DerAll(es: seq<Element>): seq<byte>
    decreases es, 1
  {
    if es == [] then [] else DerAll(es[..|es| - 1]) + Der(es[|es| - 1])
  }

  /** The bytes p are a BER encoding of e: with any definite length, or the indefinite one. */
  ghost predicate IsBer(e: Element, p: seq<byte>)
    decreases e, 0
  {
    |p| > 0 && p[0] == e.tag &&
    match e
    case Plain(_, content) => DecodeLength(p[1..]) == Ok((Definite(|content|), content))
    case Spine(tag, children) =>
      |p| >= 4 && p[1] == 0x80 && Constructed(tag) && EndOfContent(p[|p| - 2..]) && AreBer(children, p[2..|p| - 2])
  }

  /** The bytes p are encodings of the elements, one after the other, none of them looking like an end. */
  ghost predicate AreBer(es: seq<Element>, p: seq<byte>)
    decreases es, 1
  {
    if es == [] then p == []
    else exists k :: 0 <= k <= |p| && !EndOfContent(p[..k]) && IsBer(es[0], p[..k]) && AreBer(es[1..], p[k..])
  }

  /** Reading one element from the front. */
  function Parse(s: seq<byte>): (r: Result<(Element, seq<byte>)>)
    ensures r.Ok? ==> |r.value.1| + 2 <= |s| && r.value.1 == s[|s| - |r.value.1|..]
    decreases |s|, 0
  {
    if s == [] then BERDecodeError
    else
      var l := DecodeLength(s[1..]);
      if l.BERDecodeError? then BERDecodeError
      else
        var rest := l.value.1;
        match l.value.0
        case Definite(n) =>
          if n > |rest| then BERDecodeError else Ok((Plain(s[0], rest[..n]), rest[n..]))
        case Indefinite =>
          if !Constructed(s[0]) then BERDecodeError
          else
            var r := ParseAll(rest);
            if r.Ok? then Ok((Spine(s[0], r.value.0), r.value.1)) else BERDecodeError
  }

  /** Reading elements up to and including the end-of-contents octets. */
  function ParseAll(s: seq<byte>): (r: Result<(seq<Element>, seq<byte>)>)
    ensures r.Ok? ==> |r.value.1| + 2 <= |s| && r.value.1 == s[|s| - |r.value.1|..]
    decreases |s|, 1
  {
    if EndOfContent(s) then Ok(([], s[2..]))
    else
      var first := Parse(s);
      if first.BERDecodeError? then BERDecodeError
      else
        Prepend([first.value.0], ParseAll(first.value.1))
  }

  /** Elements already read in front of the rest of a list. */
  function Prepend(done: seq<Element>, r: Result<(seq<Element>, seq<byte>)>): Result<(seq<Element>, seq<byte>)> {
    if r.Ok? then Ok((done + r.value.0, r.value.1)) else BERDecodeError
  }

  lemma {:induction false} ReadBytesExtend(s: seq<byte>, t: seq<byte>, count: nat, acc: nat)
    requires count <= |s|
    ensures ReadBytes(s + t, count, acc).Ok? <==> ReadBytes(s, count, acc).Ok?
    ensures ReadBytes(s, count, acc).Ok? ==>
      ReadBytes(s + t, count, acc) == Ok((ReadBytes(s, count, acc).value.0, ReadBytes(s, count, acc).value.1 + t))
    decreases count
  {
    if count > 0 {
      assert (s + t)[1..] == s[1..] + t;
      if acc < TOP_BYTE { ReadBytesExtend(s[1..], t, count - 1, acc * 256 + s[0] as int); }
    }
  }

  /** The length does not depend on what follows it. */
  lemma DecodeLengthExtend(s: seq<byte>, t: seq<byte>)
    requires DecodeLength(s).Ok? || (DecodeLength(s + t).Ok? && |DecodeLength(s + t).value.1| >= |t|)
    ensures DecodeLength(s).Ok? && DecodeLength(s + t).Ok?
    ensures DecodeLength(s + t).value == (DecodeLength(s).value.0, DecodeLength(s).value.1 + t)
  {
    assert s != [];
    assert (s + t)[1..] == s[1..] + t;
    if s[0] > 0x80 {
      var n := s[0] - 0x80;
      assert |s[1..]| >= n;
      ReadBytesExtend(s[1..], t, n, 0);
    }
  }

  lemma IndefiniteLength(s: seq<byte>)
    requires DecodeLength(s).Ok? && DecodeLength(s).value.0.Indefinite?
    ensures s != [] && s[0] == 0x80 && DecodeLength(s).value.1 == s[1..]
  {
  }

  /** What has been read is a BER encoding of what was returned. */
  lemma {:induction false} ParseSound(s: seq<byte>) returns (p: seq<byte>)
    requires Parse(s).Ok?
    ensures s == p + Parse(s).value.1 && IsBer(Parse(s).value.0, p)
    decreases |s|, 0
  {
    hide DecodeLength, AreBer, IsBer;
    var (e, rest) := Parse(s).value;
    if e.Plain? {
      p := s[..|s| - |rest|];
      PlainSound(s, e.tag, e.content, rest, DecodeLength(s[1..]).value.1);
    } else {
      SpineParsed(s);
      hide Parse, ParseAll;
      var q := ParseAllSound(s[2..]);
      p := [s[0], s[1]] + q + [0, 0];
      SpineIsBer(e.tag, e.children, q, s[1]);
      SpineGlued(s, q, rest);
    }
  }

  lemma SpineParsed(s: seq<byte>)
    requires Parse(s).Ok? && Parse(s).value.0.Spine?
    ensures |s| >= 2 && s[1] == 0x80 && s[0] == Parse(s).value.0.tag && Constructed(s[0])
    ensures ParseAll(s[2..]) == Ok((Parse(s).value.0.children, Parse(s).value.1))
  {
    hide DecodeLength, ParseAll;
    IndefiniteLength(s[1..]);
    assert s[1..][1..] == s[2..];
  }

  lemma SpineGlued(s: seq<byte>, q: seq<byte>, rest: seq<byte>)
    requires |s| >= 2 && s[2..] == q + [0, 0] + rest
    ensures s == [s[0], s[1]] + q + [0, 0] + rest
  {
    assert s == [s[0], s[1]] + s[2..];
  }

  lemma PlainSound(s: seq<byte>, tag: byte, content: seq<byte>, rest: seq<byte>, tail: seq<byte>)
    requires |s| > |rest| && s[0] == tag && s[|s| - |rest|..] == rest && tail == content + rest
    requires DecodeLength(s[1..]) == Ok((Definite(|content|), tail))
    ensures IsBer(Plain(tag, content), s[..|s| - |rest|])
  {
    hide DecodeLength;
    var p := s[..|s| - |rest|];
    assert s[1..] == p[1..] + rest;
    DecodeLengthExtend(p[1..], rest);
    assert (DecodeLength(p[1..]).value.1 + rest)[..|content|] == DecodeLength(p[1..]).value.1;
  }

  lemma SpineIsBer(tag: byte, children: seq<Element>, q: seq<byte>, l: byte)
    requires l == 0x80 && Constructed(tag) && AreBer(children, q)
    ensures IsBer(Spine(tag, children), [tag, l] + q + [0, 0])
  {
    hide AreBer;
    var p := [tag, l] + q + [0, 0];
    assert p[2..|p| - 2] == q;
  }

  lemma {:induction false} ParseAllSound(s: seq<byte>) returns (q: seq<byte>)
    requires ParseAll(s).Ok?
    ensures s == q + [0, 0] + ParseAll(s).value.1 && AreBer(ParseAll(s).value.0, q)
    decreases |s|, 1
  {
    hide IsBer, Parse, DecodeLength, AreBer, EndOfContent;
    if EndOfContent(s) {
      EndParts(s);
      q := [];
      NothingIsBer();
    } else {
      var (e, next) := Parse(s).value;
      var p := ParseSound(s);
      var q' := ParseAllSound(next);
      q := p + q';
      AtLeastTwo(e, p);
      JoinParts(s, p, next, q', ParseAll(next).value.1);
      AreBerCons(e, ParseAll(next).value.0, p, q');
    }
  }

  lemma JoinParts(s: seq<byte>, p: seq<byte>, next: seq<byte>, q: seq<byte>, rest: seq<byte>)
    requires s == p + next && next == q + [0, 0] + rest && |p| >= 2
    ensures s == p + q + [0, 0] + rest && (EndOfContent(s) <==> EndOfContent(p))
  {
    assert s[0] == p[0] && s[1] == p[1];
  }

  lemma EndParts(s: seq<byte>)
    requires EndOfContent(s)
    ensures s == [] + [0, 0] + s[2..]
  {
  }

  lemma NothingIsBer()
    ensures AreBer([], [])
  {
  }

  lemma AtLeastTwo(e: Element, p: seq<byte>)
    requires IsBer(e, p)
    ensures |p| >= 2
  {
  }

  lemma AreBerCons(e: Element, es: seq<Element>, p: seq<byte>, q: seq<byte>)
    requires !EndOfContent(p) && IsBer(e, p) && AreBer(es, q)
    ensures AreBer([e] + es, p + q)
  {
    hide IsBer;
    assert ([e] + es)[1..] == es;
    assert (p + q)[..|p|] == p && (p + q)[|p|..] == q;
  }

  /** Whatever is a BER encoding of an element is read as that element, whatever follows. */
  lemma {:induction false} ParseComplete(e: Element, p: seq<byte>, rest: seq<byte>)
    requires IsBer(e, p)
    ensures |p| >= 2 && Parse(p + rest) == Ok((e, rest))
    decreases e, 0
  {
    var s := p + rest;
    assert s[1..] == p[1..] + rest;
    if e.Plain? {
      DecodeLengthExtend(p[1..], rest);
      hide DecodeLength;
      assert (e.content + rest)[..|e.content|] == e.content && (e.content + rest)[|e.content|..] == rest;
    } else {
      var body := p[2..|p| - 2];
      assert s[1..][1..] == body + ([0, 0] + rest);
      assert s[1..][0] == 0x80;
      ParseAllComplete(e.children, body, rest);
    }
  }

  lemma {:induction false} ParseAllComplete(es: seq<Element>, p: seq<byte>, rest: seq<byte>)
    requires AreBer(es, p)
    ensures ParseAll(p + ([0, 0] + rest)) == Ok((es, rest))
    decreases es, 1
  {
    hide IsBer, AreBer, Parse, DecodeLength, EndOfContent;
    var s, tail := p + ([0, 0] + rest), [0, 0] + rest;
    var k := FirstChild(es, p);
    if es == [] {
      assert s == [0, 0] + rest;
      StartsWithEnd(rest);
    } else {
      ParseComplete(es[0], p[..k], p[k..] + tail);
      ParseAllComplete(es[1..], p[k..], rest);
      EndInFront(p[..k], p[k..] + tail);
      ChildThenOthers(es[0], es[1..], p[..k], p[k..] + tail, rest);
      CutAndJoin(p, k, tail);
      assert [es[0]] + es[1..] == es;
    }
  }

  lemma CutAndJoin(p: seq<byte>, k: nat, tail: seq<byte>)
    requires k <= |p|
    ensures p[..k] + (p[k..] + tail) == p + tail
  {
  }

  lemma EndInFront(a: seq<byte>, t: seq<byte>)
    requires |a| >= 2
    ensures EndOfContent(a + t) <==> EndOfContent(a)
  {
    assert (a + t)[0] == a[0] && (a + t)[1] == a[1];
  }

  lemma ChildThenOthers(e: Element, es: seq<Element>, a: seq<byte>, t: seq<byte>, rest: seq<byte>)
    requires !EndOfContent(a + t) && Parse(a + t) == Ok((e, t)) && ParseAll(t) == Ok((es, rest))
    ensures ParseAll(a + t) == Ok(([e] + es, rest))
  {
    hide Parse, EndOfContent;
  }

  lemma FirstChild(es: seq<Element>, p: seq<byte>) returns (k: nat)
    requires AreBer(es, p)
    ensures if es == [] then p == []
      else k <= |p| && !EndOfContent(p[..k]) && IsBer(es[0], p[..k]) && AreBer(es[1..], p[k..])
  {
    hide IsBer, EndOfContent;
    k := 0;
    if es != [] {
      k :| 0 <= k <= |p| && !EndOfContent(p[..k]) && IsBer(es[0], p[..k]) && AreBer(es[1..], p[k..]);
    }
  }

  lemma StartsWithEnd(rest: seq<byte>)
    ensures EndOfContent([0, 0] + rest) && ([0, 0] + rest)[2..] == rest
  {
  }

  /** Reading succeeds with e exactly when the input starts with a BER encoding of e, and leaves the rest. */
  lemma ParseExact(s: seq<byte>, e: Element, rest: seq<byte>)
    ensures Parse(s) == Ok((e, rest)) <==> exists p :: s == p + rest && IsBer(e, p)
  {
    hide Parse, IsBer;
    if Parse(s) == Ok((e, rest)) {
      var p := ParseSound(s);
      assert s == p + rest && IsBer(e, p);
    }
    forall p | s == p + rest && IsBer(e, p) ensures Parse(s) == Ok((e, rest)) {
      ParseComplete(e, p, rest);
    }
  }

  /** Re-encoding what was produced changes nothing: it is one element whose contents stand as they are. */
  lemma DerIsBer(e: Element)
    requires |Contents(e)| < WORD64
    ensures IsBer(Plain(e.tag, Contents(e)), Der(e)) && Der(Plain(e.tag, Contents(e))) == Der(e)
  {
    hide IsBer, DerLength, DerAll;
    DefiniteIsBer(e.tag, Contents(e));
  }

  lemma DefiniteIsBer(tag: byte, content: seq<byte>)
    requires |content| < WORD64
    ensures IsBer(Plain(tag, content), [tag] + DerLength(|content|) + content)
  {
    hide DecodeLength, DerLength, AreBer;
    LengthRoundTrip(|content|, content);
    AfterTag(tag, DerLength(|content|), content);
  }

  lemma AfterTag(tag: byte, length: seq<byte>, content: seq<byte>)
    ensures ([tag] + length + content)[0] == tag && ([tag] + length + content)[1..] == length + content
  {
  }

  /** The contents octets of the re-encoded element. */
  function Contents(e: Element): seq<byte> {
    match e
    case Plain(_, content) => content
    case Spine(_, children) => DerAll(children)
  }

  /** The encoding of the result of a successful parse is a fixed point of re-encoding. */
  lemma ReencodeIdempotent(s: seq<byte>, rest: seq<byte>)
    requires Parse(s).Ok? && |Contents(Parse(s).value.0)| < WORD64
    ensures var once := Der(Parse(s).value.0);
      Parse(once + rest).Ok? && Der(Parse(once + rest).value.0) == once && Parse(once + rest).value.1 == rest
  {
    hide Parse, Der, IsBer;
    var e := Parse(s).value.0;
    DerIsBer(e);
    ParseComplete(Plain(e.tag, Contents(e)), Der(e), rest);
  }

  // ---- DERReencode

  lemma DerAllNext(es: seq<Element>, e: Element)
    ensures DerAll(es + [e]) == DerAll(es) + Der(e)
  {
    assert (es + [e])[..|es|] == es;
  }

  lemma PrependNothing(s: seq<byte>)
    ensures Prepend([], ParseAll(s)) == ParseAll(s)
  {
    if ParseAll(s).Ok? { assert [] + ParseAll(s).value.0 == ParseAll(s).value.0; }
  }

  lemma PrependNext(done: seq<Element>, s: seq<byte>)
    requires !EndOfContent(s)
    ensures Parse(s).BERDecodeError? ==> Prepend(done, ParseAll(s)).BERDecodeError?
    ensures Parse(s).Ok? ==>
      Prepend(done, ParseAll(s)) == Prepend(done + [Parse(s).value.0], ParseAll(Parse(s).value.1))
  {
    hide Parse, EndOfContent, Prepend;
    if Parse(s).Ok? {
      PrependTwice(done, Parse(s).value.0, ParseAll(Parse(s).value.1));
    } else {
      PrependFailure(done);
    }
  }

  lemma PrependTwice(done: seq<Element>, e: Element, r: Result<(seq<Element>, seq<byte>)>)
    ensures Prepend(done, Prepend([e], r)) == Prepend(done + [e], r)
  {
    if r.Ok? { assert done + ([e] + r.value.0) == done + [e] + r.value.0; }
  }

  lemma PrependFailure(done: seq<Element>)
    ensures Prepend(done, BERDecodeError).BERDecodeError?
  {
  }

  /** Contents of a 64-bit size have children of a 64-bit size. */
  lemma ContentsFit(es: seq<Element>, e: Element)
    ensures |DerAll(es + [e])| >= |DerAll(es)| && |DerAll(es + [e])| >= |Contents(e)|
  {
    DerAllNext(es, e);
  }

  /** A size in a 64-bit variable. */
  function Lword(n: nat): (r: nat)
    ensures r < WORD64 && (n < WORD64 ==> r == n)
  {
    if n < WORD64 then n else n % WORD64
  }

  /** DERGeneralEncoder::MessageEnd: the tag, the length and what was put into the encoder. */
  method MessageEnd(outQueue: ByteQueue, tag: byte, contents: seq<byte>)
    modifies outQueue
    ensures |contents| < WORD64 ==>
      outQueue.contents == old(outQueue.contents) + ([tag] + DerLength(|contents|) + contents)
  {
    hide Lword, DerLength;
    outQueue.contents := outQueue.contents + [tag];
    var n := DERLengthEncode(outQueue, Lword(|contents|));
    outQueue.contents := outQueue.contents + contents;
  }

  /** Takes one BER element from source and appends its re-encoding to dest, or fails. Elements of the
      spine read through to the same source; each has its own queue for what it encodes. */
  method DERReencode(source: ByteQueue, dest: ByteQueue) returns (ok: bool)
    requires source != dest
    modifies source, dest
    ensures ok <==> Parse(old(source.contents)).Ok?
    ensures ok ==> source.contents == Parse(old(source.contents)).value.1
    ensures ok && |Contents(Parse(old(source.contents)).value.0)| < WORD64 ==>
      dest.contents == old(dest.contents) + Der(Parse(old(source.contents)).value.0)
    decreases |source.contents|, 0
  {
    hide DecodeLength, DerLength, ParseAll;
    if source.contents == [] { return false; }
    var tag := source.contents[0];
    source.contents := source.contents[1..];
    var length := BERLengthDecode(source);
    if length.BERDecodeError? { return false; }
    if length.value.Indefinite? {
      if !Constructed(tag) { return false; }
      var encoder := new ByteQueue();
      ok := ReencodeChildren(source, encoder);
      if ok { MessageEnd(dest, tag, encoder.contents); }
    } else {
      var n := length.value.length;
      if n > |source.contents| { return false; }
      var contents := source.contents[..n];
      source.contents := source.contents[n..];
      MessageEnd(dest, tag, contents);
      ok := true;
    }
  }

  /** The loop over the children of an element of indefinite length, and its end-of-contents octets. */
  method ReencodeChildren(source: ByteQueue, encoder: ByteQueue) returns (ok: bool)
    requires source != encoder && encoder.contents == []
    modifies source, encoder
    ensures ok <==> ParseAll(old(source.contents)).Ok?
    ensures ok ==> source.contents == ParseAll(old(source.contents)).value.1
    ensures ok && |DerAll(ParseAll(old(source.contents)).value.0)| < WORD64 ==>
      encoder.contents == DerAll(ParseAll(old(source.contents)).value.0)
    decreases |source.contents|, 1
  {
    hide Parse, Der;
    ghost var start, done := source.contents, [];
    PrependNothing(start);
    while !EndOfContent(source.contents)
      invariant |source.contents| <= |start|
      invariant ParseAll(start) == Prepend(done, ParseAll(source.contents))
      invariant |DerAll(done)| < WORD64 ==> encoder.contents == DerAll(done)
      decreases |source.contents|
    {
      ghost var s := source.contents;
      PrependNext(done, s);
      ok := DERReencode(source, encoder);
      if !ok { return; }
      ghost var e := Parse(s).value.0;
      ContentsFit(done, e);
      DerAllNext(done, e);
      done := done + [e];
    }
    assert done + [] == done;
    source.contents := source.contents[2..];
    ok := true;
  }
}
