/** Bytes as numbers and their exclusive or. */
module Bytes {
  import opened Arithmetic
  import opened Bits

  type byte = x: nat | x < 256

  /** Exclusive or of the low `width` binary digits. */
  function XorDigits(a: nat, b: nat, width: nat): nat {
    if width == 0 then 0
    else 2 * XorDigits(a / 2, b / 2, width - 1) + (if a % 2 == b % 2 then 0 else 1)
  }

  lemma {:induction false} XorDigitsFit(a: nat, b: nat, width: nat)
    ensures XorDigits(a, b, width) < TwoTo(width)
  {
    if width > 0 { XorDigitsFit(a / 2, b / 2, width - 1); }
  }

  lemma {:induction false} XorDigitsCancel(a: nat, b: nat, width: nat)
    requires a < TwoTo(width)
    ensures XorDigits(XorDigits(a, b, width), b, width) == a
  {
    if width > 0 {
      XorDigitsCancel(a / 2, b / 2, width - 1);
      assert XorDigits(a, b, width) / 2 == XorDigits(a / 2, b / 2, width - 1);
    }
  }

  function Xor(a: byte, b: byte): byte {
    XorDigitsFit(a, b, 8);
    assert TwoTo(4) == 16;
    XorDigits(a, b, 8)
  }

  lemma XorCancels(a: byte, b: byte)
    ensures Xor(Xor(a, b), b) == a
  {
    assert TwoTo(4) == 16;
    XorDigitsCancel(a, b, 8);
  }

  lemma {:induction false} XorDigitsZero(a: nat, width: nat)
    requires a < TwoTo(width)
    ensures XorDigits(a, 0, width) == a
  {
    if width > 0 { XorDigitsZero(a / 2, width - 1); }
  }

  lemma XorZero(a: byte)
    ensures Xor(a, 0) == a
  {
    assert TwoTo(4) == 16;
    XorDigitsZero(a, 8);
  }

  lemma {:induction false} XorDigitsSymmetric(a: nat, b: nat, width: nat)
    ensures XorDigits(a, b, width) == XorDigits(b, a, width)
  {
    if width > 0 { XorDigitsSymmetric(a / 2, b / 2, width - 1); }
  }

  lemma ZeroXor(a: byte)
    ensures Xor(0, a) == a
  {
    XorZero(a);
    XorDigitsSymmetric(0, a, 8);
  }

  /** The low n bytes of v, the most significant first. */
  function BigEndian(v: nat, n: nat): (r: seq<byte>)
    ensures |r| == n
  {
    if n == 0 then [] else BigEndian(v / 256, n - 1) + [v % 256]
  }

  /** The number that bytes stand for, the most significant first. */
  function Value(b: seq<byte>): nat {
    if b == [] then 0 else 256 * Value(b[..|b| - 1]) + b[|b| - 1]
  }

  /** Any bytes are those of their number. */
  lemma {:induction false} ValueCounts(b: seq<byte>)
    ensures BigEndian(Value(b), |b|) == b
  {
    if b != [] {
      var rest, last := b[..|b| - 1], b[|b| - 1];
      ValueCounts(rest);
      Divided(Value(b), 256, Value(rest), last);
      assert b == rest + [last];
    }
  }

  function Power256(n: nat): (r: nat)
    ensures r > 0
  {
    if n == 0 then 1 else 256 * Power256(n - 1)
  }

  /** Each byte of a number is the digit of its place. */
  lemma {:induction false} BigEndianAt(v: nat, n: nat, i: nat)
    requires i < n
    ensures BigEndian(v, n)[i] == v / Power256(n - 1 - i) % 256
  {
    if i < n - 1 {
      BigEndianAt(v / 256, n - 1, i);
      DivideTwice(v, Power256(n - 2 - i));
    }
  }

  lemma DivideTwice(v: nat, m: nat)
    requires m > 0
    ensures v / 256 / m == v / (256 * m)
  {
    var q, r := v / 256 / m, v / 256 % m;
    assert v == 256 * (m * q + r) + v % 256;
    assert 256 * (m * q) == 256 * m * q;
    Divided(v, 256 * m, q, 256 * r + v % 256);
  }

  /** Reading back the low n bytes of v gives v modulo 256^n. */
  lemma {:induction false} ValueOfLowBytes(v: nat, n: nat)
    ensures Value(BigEndian(v, n)) == v % Power256(n)
  {
    if n > 0 {
      ValueOfLowBytes(v / 256, n - 1);
      RemainderByBytes(v, Power256(n - 1));
      assert BigEndian(v, n)[..n - 1] == BigEndian(v / 256, n - 1);
    }
  }

  lemma RemainderByBytes(v: nat, m: nat)
    requires m > 0
    ensures v % (256 * m) == 256 * (v / 256 % m) + v % 256
  {
    DivideTwice(v, m);
    var q, r := v / 256 / m, v / 256 % m;
    assert v == 256 * (m * q + r) + v % 256;
    assert 256 * (m * q) == 256 * m * q;
    Divided(v, 256 * m, q, 256 * r + v % 256);
  }

  lemma ValueOfBigEndian(v: nat, n: nat)
    requires v < Power256(n)
    ensures Value(BigEndian(v, n)) == v
  {
    ValueOfLowBytes(v, n);
    Divided(v, Power256(n), 0, v);
  }

  lemma {:induction false} ValueConcat(a: seq<byte>, b: seq<byte>)
    ensures Value(a + b) == Value(a) * Power256(|b|) + Value(b)
  {
    if b == [] {
      assert a + b == a && Power256(0) == 1;
    } else {
      var front := b[..|b| - 1];
      ValueConcat(a, front);
      assert (a + b)[..|a + b| - 1] == a + front;
      Scaled256(Value(a), Power256(|front|));
    }
  }

  lemma Scaled256(x: nat, p: nat)
    ensures 256 * (x * p) == x * (256 * p)
  {
  }

  /** The exclusive or digit by digit. */
  lemma {:induction false} XorDigitAt(a: nat, b: nat, width: nat, k: nat)
    requires k < width
    ensures GetBit(XorDigits(a, b, width), k) == if GetBit(a, k) == GetBit(b, k) then 0 else 1
  {
    assert XorDigits(a, b, width) / 2 == XorDigits(a / 2, b / 2, width - 1);
    if k > 0 {
      XorDigitAt(a / 2, b / 2, width - 1, k - 1);
    } else {
      assert GetBit(a, 0) == a % 2 && GetBit(b, 0) == b % 2;
    }
  }

  lemma XorBits(a: byte, b: byte, k: nat)
    requires k < 8
    ensures GetBit(Xor(a, b), k) == if GetBit(a, k) == GetBit(b, k) then 0 else 1
  {
    XorDigitAt(a, b, 8, k);
  }

  /** Pieces put together again. */
  function Flatten(chunks: seq<seq<byte>>): seq<byte> {
    if chunks == [] then [] else Flatten(chunks[..|chunks| - 1]) + chunks[|chunks| - 1]
  }

  lemma FlattenNext(chunks: seq<seq<byte>>, i: nat)
    requires i < |chunks|
    ensures Flatten(chunks[..i + 1]) == Flatten(chunks[..i]) + chunks[i]
  {
    assert chunks[..i + 1][..i] == chunks[..i];
  }
}
