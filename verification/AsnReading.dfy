/**
 * What re-encoded elements say, told by a reader that knows nothing of how they were made:
 * a list of elements of definite length, read until the bytes are used up.
 */
module AsnReading {
  import opened Arithmetic
  import opened Bytes
  import opened Asn

  // ---- length octets (section 8.1.3 of X.690) ----

  lemma PowerNext(count: nat, acc: nat, b: nat, value: nat)
    ensures (acc * 256 + b) * Power256(count) + value == acc * Power256(count + 1) + (b * Power256(count) + value)
  {
    Spread(acc, b, Power256(count));
  }

  lemma Spread(acc: nat, b: nat, p: nat)
    ensures (acc * 256 + b) * p == acc * (256 * p) + b * p
  {
  }

  lemma ValueHead(s: seq<byte>, count: nat)
    requires 0 < count <= |s|
    ensures Value(s[..count]) == s[0] * Power256(count - 1) + Value(s[1..][..count - 1])
  {
    assert s[..count] == [s[0]] + s[1..][..count - 1];
    ValueConcat([s[0]], s[1..][..count - 1]);
    assert [s[0]][..0] == [] && Value([s[0]]) == s[0];
  }

  lemma TooLarge(acc: nat, count: nat, value: nat)
    requires acc >= TOP_BYTE && count > 0
    ensures acc * Power256(count) + value >= WORD64
  {
    GrowingPower(1, count);
    assert Power256(1) == 256;
    Monotone(256, Power256(count), acc);
    Swapped(acc, Power256(count));
    hide Power256;
  }

  lemma Swapped(a: nat, b: nat)
    ensures a * b == b * a
  {
  }

  lemma Single(acc: nat)
    ensures acc * Power256(0) == acc
  {
    assert Power256(0) == 1;
  }

  /** Bytes are read onto acc as long as the number they make fits into 64 bits. */
  lemma {:induction false} ReadBytesIs(s: seq<byte>, count: nat, acc: nat)
    requires acc < WORD64
    ensures ReadBytes(s, count, acc).Ok? <==> count <= |s| && acc * Power256(count) + Value(s[..count]) < WORD64
    ensures ReadBytes(s, count, acc).Ok? ==>
      ReadBytes(s, count, acc).value == (acc * Power256(count) + Value(s[..count]), s[count..])
    decreases count
  {
    hide Power256, Value;
    if count == 0 {
      Single(acc);
      NoValue();
      assert s[..0] == [] && s[0..] == s;
    } else if acc >= TOP_BYTE {
      if count <= |s| { TooLarge(acc, count, Value(s[..count])); }
    } else if s != [] {
      var next := acc * 256 + s[0] as int;
      ReadBytesIs(s[1..], count - 1, next);
      if count <= |s| {
        ValueHead(s, count);
        PowerNext(count - 1, acc, s[0], Value(s[1..][..count - 1]));
        assert s[1..][count - 1..] == s[count..];
      }
    }
  }

  lemma NoValue()
    ensures Value([]) == 0
  {
  }

  /** The short form, the long form and the indefinite form. */
  lemma DecodeLengthIs(s: seq<byte>)
    ensures s == [] ==> DecodeLength(s).BERDecodeError?
    ensures s != [] && s[0] < 0x80 ==> DecodeLength(s) == Ok((Definite(s[0]), s[1..]))
    ensures s != [] && s[0] == 0x80 ==> DecodeLength(s) == Ok((Indefinite, s[1..]))
    ensures s != [] && s[0] > 0x80 ==>
      var n := s[0] - 0x80;
      (DecodeLength(s).Ok? <==> n < |s| && Value(s[1..1 + n]) < WORD64)
      && (DecodeLength(s).Ok? ==> DecodeLength(s).value == (Definite(Value(s[1..1 + n])), s[1 + n..]))
  {
    hide ReadBytes, Value, Power256;
    if s != [] && s[0] > 0x80 {
      var n := s[0] - 0x80;
      ReadBytesIs(s[1..], n, 0);
      if n < |s| { assert s[1..][..n] == s[1..1 + n] && s[1..][n..] == s[1 + n..]; }
    }
  }

  // ---- lists of definite elements ----

  datatype Octets = Octets(tag: byte, content: seq<byte>)

  function ReadOne(s: seq<byte>): (r: Result<(Octets, seq<byte>)>)
    ensures r.Ok? ==> |r.value.1| < |s|
  {
    if s == [] then BERDecodeError
    else
      var l := DecodeLength(s[1..]);
      if l.BERDecodeError? || l.value.0.Indefinite? || l.value.0.length > |l.value.1| then BERDecodeError
      else
        var n := l.value.0.length;
        Ok((Octets(s[0], l.value.1[..n]), l.value.1[n..]))
  }

  function ReadList(s: seq<byte>): (r: Result<seq<Octets>>)
    decreases |s|
  {
    if s == [] then Ok([])
    else
      var first := ReadOne(s);
      if first.BERDecodeError? then BERDecodeError
      else
        var rest := ReadList(first.value.1);
        if rest.BERDecodeError? then BERDecodeError else Ok([first.value.0] + rest.value)
  }

  /** The contents octets say what the element said: the same bytes, or the same children in the same order. */
  ghost predicate Says(content: seq<byte>, e: Element)
    decreases e
  {
    match e
    case Plain(_, original) => content == original
    case Spine(_, children) =>
      && ReadList(content).Ok? && |ReadList(content).value| == |children|
      && forall i :: 0 <= i < |children| ==>
           ReadList(content).value[i].tag == children[i].tag && Says(ReadList(content).value[i].content, children[i])
  }

  lemma ReadDer(tag: byte, content: seq<byte>, rest: seq<byte>)
    requires |content| < WORD64
    ensures ReadOne([tag] + DerLength(|content|) + content + rest) == Ok((Octets(tag, content), rest))
  {
    hide DecodeLength, DerLength;
    var s := [tag] + DerLength(|content|) + content + rest;
    assert s[0] == tag && s[1..] == DerLength(|content|) + (content + rest);
    LengthRoundTrip(|content|, content + rest);
  }

  lemma {:induction false} ReadListConcat(a: seq<byte>, b: seq<byte>)
    requires ReadList(a).Ok? && ReadList(b).Ok?
    ensures ReadList(a + b) == Ok(ReadList(a).value + ReadList(b).value)
    decreases |a|
  {
    hide ReadOne;
    if a == [] {
      assert a + b == b;
      assert [] + ReadList(b).value == ReadList(b).value;
    } else {
      var first := ReadOne(a).value;
      ReadOneExtend(a, b);
      ReadListConcat(first.1, b);
      assert [first.0] + (ReadList(first.1).value + ReadList(b).value)
          == [first.0] + ReadList(first.1).value + ReadList(b).value;
    }
  }

  lemma ReadOneExtend(a: seq<byte>, b: seq<byte>)
    requires ReadOne(a).Ok?
    ensures ReadOne(a + b) == Ok((ReadOne(a).value.0, ReadOne(a).value.1 + b))
  {
    hide DecodeLength;
    assert (a + b)[1..] == a[1..] + b;
    DecodeLengthExtend(a[1..], b);
    var rest, n := DecodeLength(a[1..]).value.1, DecodeLength(a[1..]).value.0.length;
    assert (rest + b)[..n] == rest[..n] && (rest + b)[n..] == rest[n..] + b;
  }

  lemma OneInList(s: seq<byte>, o: Octets)
    requires ReadOne(s) == Ok((o, []))
    ensures ReadList(s) == Ok([o])
  {
    hide ReadOne;
    assert ReadList([]) == Ok([]);
    assert [o] + [] == [o];
  }

  /** The re-encoded children are read back one by one. */
  lemma {:induction false} ChildrenRead(es: seq<Element>)
    requires |DerAll(es)| < WORD64
    ensures ReadList(DerAll(es)).Ok? && |ReadList(DerAll(es)).value| == |es|
    ensures forall i :: 0 <= i < |es| ==>
      ReadList(DerAll(es)).value[i] == Octets(es[i].tag, Contents(es[i])) && |Contents(es[i])| < WORD64
    decreases |es|
  {
    hide ReadOne, Der, Contents, DerLength;
    if es != [] {
      var front, e := es[..|es| - 1], es[|es| - 1];
      assert es == front + [e];
      ContentsFit(front, e);
      DerAllNext(front, e);
      ChildrenRead(front);
      DerRead(e, []);
      assert Der(e) + [] == Der(e);
      OneInList(Der(e), Octets(e.tag, Contents(e)));
      ReadListConcat(DerAll(front), Der(e));
    }
  }

  lemma DerRead(e: Element, rest: seq<byte>)
    requires |Contents(e)| < WORD64
    ensures ReadOne(Der(e) + rest) == Ok((Octets(e.tag, Contents(e)), rest))
  {
    hide ReadOne, DerLength, DerAll;
    ReadDer(e.tag, Contents(e), rest);
  }

  lemma {:induction false} ContentsSay(e: Element)
    requires |Contents(e)| < WORD64
    ensures Says(Contents(e), e)
    decreases e
  {
    hide ReadList, DerAll;
    if e.Spine? {
      ChildrenRead(e.children);
      forall i | 0 <= i < |e.children| ensures Says(Contents(e.children[i]), e.children[i]) {
        ContentsSay(e.children[i]);
      }
    }
  }

  /** A re-encoded element is one definite element of the same tag that says the same. */
  lemma ReencodedSays(e: Element, rest: seq<byte>)
    requires |Contents(e)| < WORD64
    ensures ReadOne(Der(e) + rest).Ok?
    ensures var (o, left) := ReadOne(Der(e) + rest).value;
      left == rest && o.tag == e.tag && Says(o.content, e)
  {
    hide ReadOne, Says, Der, Contents;
    DerRead(e, rest);
    ContentsSay(e);
  }

  // ---- nothing shorter says the same ----

  function Size(o: Octets): nat {
    1 + |DerLength(|o.content|)| + |o.content|
  }

  function Total(os: seq<Octets>): nat {
    if os == [] then 0 else Size(os[0]) + Total(os[1..])
  }

  lemma {:induction false} TotalConcat(a: seq<Octets>, b: seq<Octets>)
    ensures Total(a + b) == Total(a) + Total(b)
  {
    hide Size;
    if a == [] {
      assert a + b == b;
    } else {
      TotalConcat(a[1..], b);
      assert (a + b)[1..] == a[1..] + b;
    }
  }

  lemma {:induction false} TotalGrows(a: seq<Octets>, b: seq<Octets>)
    requires |a| == |b| && forall i :: 0 <= i < |a| ==> |a[i].content| <= |b[i].content|
    ensures Total(a) <= Total(b)
  {
    hide Size;
    if a != [] {
      SizeGrows(a[0], b[0]);
      TotalGrows(a[1..], b[1..]);
    }
  }

  lemma SizeGrows(a: Octets, b: Octets)
    requires |a.content| <= |b.content|
    ensures Size(a) <= Size(b)
  {
    hide BigEndian, BytePrecision;
    PrecisionGrows(|a.content|, |b.content|);
  }

  lemma {:induction false} PrecisionGrows(v: nat, w: nat)
    requires v <= w
    ensures BytePrecision(v) <= BytePrecision(w)
  {
    if v > 0 { PrecisionGrows(v / 256, w / 256); }
  }

  /** What is read from a list takes up at least the shortest encodings. */
  lemma {:induction false} ListIsLong(s: seq<byte>)
    requires ReadList(s).Ok?
    ensures |s| >= Total(ReadList(s).value)
    decreases |s|
  {
    hide ReadOne, Size;
    if s != [] {
      var (o, rest) := ReadOne(s).value;
      OneIsLong(s);
      ListIsLong(rest);
      assert ReadList(s).value[1..] == ReadList(rest).value;
    }
  }

  lemma OneIsLong(s: seq<byte>)
    requires ReadOne(s).Ok?
    ensures |s| >= Size(ReadOne(s).value.0) + |ReadOne(s).value.1|
  {
    hide DecodeLength, DerLength;
    var l := DecodeLength(s[1..]).value;
    DerLengthIsMinimal(s[1..], l.0.length, l.1);
  }

  function OctetsOf(es: seq<Element>): (r: seq<Octets>)
    ensures |r| == |es|
  {
    seq(|es|, i requires 0 <= i < |es| => Octets(es[i].tag, Contents(es[i])))
  }

  lemma {:induction false} DerAllSize(es: seq<Element>)
    ensures |DerAll(es)| == Total(OctetsOf(es))
    decreases |es|
  {
    hide Size, Der, Contents;
    if es != [] {
      var front, e := es[..|es| - 1], es[|es| - 1];
      DerAllSize(front);
      DerSize(e);
      assert OctetsOf(es) == OctetsOf(front) + [Octets(e.tag, Contents(e))];
      TotalConcat(OctetsOf(front), [Octets(e.tag, Contents(e))]);
      OneTotal(Octets(e.tag, Contents(e)));
    }
  }

  lemma OneTotal(o: Octets)
    ensures Total([o]) == Size(o)
  {
    hide Size;
    assert Total([]) == 0 && [o][1..] == [];
  }

  lemma DerSize(e: Element)
    ensures |Der(e)| == Size(Octets(e.tag, Contents(e)))
  {
    hide DerLength, DerAll;
  }

  lemma {:induction false} ShortestContents(content: seq<byte>, e: Element)
    requires Says(content, e)
    ensures |Contents(e)| <= |content|
    decreases e
  {
    hide ReadList, DerAll, Total, OctetsOf;
    if e.Spine? {
      var os := ReadList(content).value;
      forall i | 0 <= i < |e.children| ensures |Contents(e.children[i])| <= |os[i].content| {
        ShortestContents(os[i].content, e.children[i]);
      }
      ListIsLong(content);
      DerAllSize(e.children);
      ChildrenShorter(e.children, os);
    }
  }

  lemma ChildrenShorter(es: seq<Element>, os: seq<Octets>)
    requires |es| == |os| && forall i :: 0 <= i < |es| ==> |Contents(es[i])| <= |os[i].content|
    ensures Total(OctetsOf(es)) <= Total(os)
  {
    hide Total, Contents;
    TotalGrows(OctetsOf(es), os);
  }

  /** No definite element that says what e says is shorter than the re-encoding of e. */
  lemma ReencodedIsShortest(p: seq<byte>, content: seq<byte>, e: Element)
    requires ReadOne(p) == Ok((Octets(e.tag, content), [])) && Says(content, e)
    ensures |Der(e)| <= |p|
  {
    hide ReadOne, Says, Contents, Der, Size;
    ShortestContents(content, e);
    SizeGrows(Octets(e.tag, Contents(e)), Octets(e.tag, content));
    DerSize(e);
    OneIsLong(p);
  }

  lemma OneChildParsed(tag: byte, e: Element, q: seq<byte>)
    requires Constructed(tag) && IsBer(e, q) && !EndOfContent(q)
    ensures Parse([tag, 0x80] + q + [0, 0]) == Ok((Spine(tag, [e]), []))
  {
    NoneIsBer();
    AreBerCons(e, [], q, []);
    assert [e] + [] == [e] && q + [] == q;
    hide IsBer, AreBer, Parse;
    SpineIsBer(tag, [e], q, 0x80);
    var p := [tag, 0x80] + q + [0, 0];
    ParseComplete(Spine(tag, [e]), p, []);
    assert p + [] == p;
  }

  lemma NoneIsBer()
    ensures AreBer([], [])
  {
  }

  lemma PrimitiveRefused(tag: byte, rest: seq<byte>)
    requires !Constructed(tag)
    ensures Parse([tag, 0x80] + rest).BERDecodeError?
  {
    var s := [tag, 0x80] + rest;
    assert s[1..][0] == 0x80;
    DecodeLengthIs(s[1..]);
    hide DecodeLength;
  }

  lemma OneChildEncoded(tag: byte, e: Element)
    ensures Der(Spine(tag, [e])) == [tag] + DerLength(|Der(e)|) + Der(e)
  {
    hide DerLength;
    DerAllNext([], e);
    assert [] + [e] == [e] && DerAll([]) == [];
  }

  lemma SmallParts()
    ensures Constructed(0x30) && !Constructed(0x10) && !EndOfContent([2, 1, 5]) && DerLength(3) == [3]
    ensures Der(Plain(2, [5])) == [2, 1, 5] && IsBer(Plain(2, [5]), [2, 1, 5])
  {
    assert DerLength(1) == [1] && [2] + [1] + [5] == [2, 1, 5];
    DefiniteIsBer(2, [5]);
    hide IsBer;
  }

  /** Indefinite length is for tags with bit 0x20 only, and two zero bytes end the contents. */
  lemma IndefiniteIs(tag: byte, children: seq<Element>, p: seq<byte>, rest: seq<byte>)
    ensures tag % 64 < 32 ==> Parse([tag, 0x80] + rest).BERDecodeError?
    ensures IsBer(Spine(tag, children), p) ==>
      |p| >= 4 && tag % 64 >= 32 && p[..2] == [tag, 0x80] && p[|p| - 2..] == [0, 0]
  {
    hide AreBer, Parse;
    if tag % 64 < 32 { PrimitiveRefused(tag, rest); }
  }

  /** An integer in a sequence of indefinite length, and a primitive tag that cannot have one. */
  lemma WorkedExample()
    ensures Parse([0x30, 0x80, 2, 1, 5, 0, 0]) == Ok((Spine(0x30, [Plain(2, [5])]), []))
    ensures Der(Spine(0x30, [Plain(2, [5])])) == [0x30, 3, 2, 1, 5]
    ensures Parse([0x10, 0x80, 0, 0]).BERDecodeError?
  {
    hide Parse, Der, DerLength, IsBer, Constructed, EndOfContent;
    SmallParts();
    OneChildParsed(0x30, Plain(2, [5]), [2, 1, 5]);
    OneChildEncoded(0x30, Plain(2, [5]));
    PrimitiveRefused(0x10, [0, 0]);
    assert [0x30, 0x80] + [2, 1, 5] + [0, 0] == [0x30, 0x80, 2, 1, 5, 0, 0];
    assert [0x30] + [3] + [2, 1, 5] == [0x30, 3, 2, 1, 5];
    assert [0x10, 0x80] + [0, 0] == [0x10, 0x80, 0, 0];
  }
}
