/**
 * Encoding and decoding told by numbers: the letters are the digits to the base 2^k of the
 * number that the bytes stand for.
 */
module BaseNNumbers {
  import opened Arithmetic
  import opened Bits
  import opened Bytes
  import opened BitStrings
  import opened BaseN

  function DigitNumber(digits: seq<byte>, k: nat): nat {
    if digits == [] then 0 else DigitNumber(digits[..|digits| - 1], k) * TwoTo(k) + digits[|digits| - 1]
  }

  predicate AreDigits(digits: seq<byte>, k: nat) {
    forall i :: 0 <= i < |digits| ==> digits[i] < TwoTo(k)
  }

  lemma {:induction false} BitsOfDigits(digits: seq<byte>, k: nat)
    requires AreDigits(digits, k)
    ensures ToNat(AllBits(digits, k)) == DigitNumber(digits, k)
  {
    hide ToNat, ToBits, TwoTo;
    if digits == [] {
      NoBits();
    } else {
      var front, last := digits[..|digits| - 1], digits[|digits| - 1];
      BitsOfDigits(front, k);
      ToNatToBits(last, k);
      ToNatConcat(AllBits(front, k), ToBits(last, k));
    }
  }

  lemma {:induction false} BytesAreDigits(data: seq<byte>)
    ensures AreDigits(data, 8) && DigitNumber(data, 8) == Value(data)
  {
    ByteWidth();
    if data != [] { BytesAreDigits(data[..|data| - 1]); }
  }

  /** As many digits with the same number are the same digits. */
  lemma {:induction false} DigitsOnce(a: seq<byte>, b: seq<byte>, k: nat)
    requires |a| == |b| && AreDigits(a, k) && AreDigits(b, k) && DigitNumber(a, k) == DigitNumber(b, k)
    ensures a == b
  {
    hide TwoTo;
    if a != [] {
      var n := |a| - 1;
      Divided(DigitNumber(a, k), TwoTo(k), DigitNumber(a[..n], k), a[n]);
      Divided(DigitNumber(b, k), TwoTo(k), DigitNumber(b[..n], k), b[n]);
      DigitsOnce(a[..n], b[..n], k);
      assert a == a[..n] + [a[n]] && b == b[..n] + [b[n]];
    }
  }

  // ---- encoding ----

  /** Enough digits for the bits of the bytes, and no digit more; the lowest bits may be blank. */
  ghost predicate Represents(digits: seq<byte>, k: nat, data: seq<byte>) {
    && AreDigits(digits, k)
    && 8 * |data| <= k * |digits| < 8 * |data| + k
    && DigitNumber(digits, k) == Value(data) * TwoTo(k * |digits| - 8 * |data|)
  }

  lemma GroupsRepresent(k: nat, data: seq<byte>)
    requires 0 < k < 8
    ensures Represents(Groups(k, AllBits(data, 8)), k, data)
  {
    hide Groups, AllBits, ToNat, TwoTo, Filling, DigitNumber, Value;
    var s := AllBits(data, 8);
    var digits := Groups(k, s);
    CharacterCount(k, data);
    GroupsSpellOut(k, s);
    SpanIsProduct(|data|, 8);
    SpanIsProduct(|digits|, k);
    BytesAreDigits(data);
    BitsOfDigits(data, 8);
    BitsOfDigits(digits, k);
    var blank := Blank(Filling(|s|, k));
    ToNatConcat(s, blank);
    ToNatBlank(Filling(|s|, k));
    Commuted(|digits|, k);
  }

  lemma Commuted(a: nat, b: nat)
    ensures a * b == b * a
  {
  }

  lemma RepresentedOnce(a: seq<byte>, b: seq<byte>, k: nat, data: seq<byte>)
    requires k > 0 && Represents(a, k, data) && Represents(b, k, data)
    ensures a == b
  {
    if |a| < |b| {
      Distribute(k, |b|, |a|);
      NonNegative(k, |b| - |a|);
      assert false;
    } else if |b| < |a| {
      Distribute(k, |a|, |b|);
      NonNegative(k, |a| - |b|);
      assert false;
    }
    DigitsOnce(a, b, k);
  }

  /** The block is the least number of characters that make up whole bytes. */
  lemma BlockSizeIs(k: nat, m: nat)
    requires 0 < k < 8
    ensures BlockSize(k) * k % 8 == 0
    ensures 0 < m < BlockSize(k) ==> m * k % 8 != 0
  {
    if 0 < m < BlockSize(k) {
      if k == 1 { assert m * 1 % 8 != 0; }
      else if k == 2 { assert m * 2 % 8 != 0; }
      else if k == 3 { assert m * 3 % 8 != 0; }
      else if k == 4 { assert m * 4 % 8 != 0; }
      else if k == 5 { assert m * 5 % 8 != 0; }
      else if k == 6 { assert m * 6 % 8 != 0; }
      else { assert m * 7 % 8 != 0; }
    }
  }

  lemma {:induction false} FillingIs(n: nat, width: nat)
    requires 0 < width
    ensures (n + Filling(n, width)) % width == 0
  {
    if n >= width {
      FillingIs(n - width, width);
      RemainderAdds(n - width + Filling(n, width), width, width);
      Divided(width, width, 1, 0);
    } else if n > 0 {
      Divided(width, width, 1, 0);
    } else {
      Divided(0, width, 0, 0);
    }
  }

  /** The letters of the digits, and the fewest padding characters that complete the block. */
  lemma EncodedIs(alphabet: seq<byte>, k: nat, padding: int, data: seq<byte>, digits: seq<byte>)
    requires 0 < k < 8 && |alphabet| == TwoTo(k) && -1 <= padding < 256 && Represents(digits, k, data)
    ensures var e := Encoded(alphabet, k, padding, data);
      && |digits| <= |e| && (forall i :: 0 <= i < |digits| ==> e[i] == alphabet[digits[i]])
      && (padding == -1 ==> |e| == |digits|)
      && (padding != -1 ==> |e| % BlockSize(k) == 0 && |e| < |digits| + BlockSize(k)
                            && forall i :: |digits| <= i < |e| ==> e[i] == padding)
  {
    hide Groups, AllBits, Represents, TwoTo, Filling, BlockSize;
    GroupsRepresent(k, data);
    RepresentedOnce(digits, Groups(k, AllBits(data, 8)), k, data);
    FillingIs(|digits|, BlockSize(k));
  }

  // ---- decoding ----

  lemma {:induction false} WholeBytesSpellOut(s: bits)
    ensures var b := WholeGroups(8, s);
      8 * |b| <= |s| < 8 * |b| + 8 && AllBits(b, 8) + s[8 * |b|..] == s
    decreases |s|
  {
    hide ToNat, ToBits, AllBits, Span;
    if |s| < 8 {
      NoBytesSpelled();
    } else {
      var first, rest := s[..8], s[8..];
      WholeBytesSpellOut(rest);
      CellFits(s, 8);
      var b := WholeGroups(8, rest);
      OneByte(ToNat(first), 8);
      ToBitsToNat(first);
      AllBitsConcat([ToNat(first)], b, 8);
      assert WholeGroups(8, s) == [ToNat(first)] + b;
      assert s[8 * |b| + 8..] == rest[8 * |b|..];
    }
  }

  lemma NoBytesSpelled()
    ensures AllBits([], 8) == []
  {
  }

  lemma QuotientOfParts(a: nat, t: nat, low: nat)
    requires low < t
    ensures (a * t + low) / t == a
  {
    Divided(a * t + low, t, a, low);
  }

  /** The bytes decoded from values of k bits are the number of the values without its last few bits. */
  lemma DecodedIs(lookup: seq<int>, k: nat, chars: seq<byte>)
    requires |lookup| == 256 && AreDigits(Values(lookup, chars), k)
    ensures var values, b := Values(lookup, chars), Decoded(lookup, k, chars);
      && 8 * |b| <= k * |values| < 8 * |b| + 8
      && Value(b) == DigitNumber(values, k) / TwoTo(k * |values| - 8 * |b|)
  {
    hide Values, WholeGroups, AllBits, ToNat, TwoTo, DigitNumber, Value;
    var values := Values(lookup, chars);
    var s := AllBits(values, k);
    var b := WholeGroups(8, s);
    WholeBytesSpellOut(s);
    SpanIsProduct(|values|, k);
    SpanIsProduct(|b|, 8);
    Commuted(|values|, k);
    BitsOfDigits(values, k);
    BytesAreDigits(b);
    BitsOfDigits(b, 8);
    ToNatConcat(AllBits(b, 8), s[8 * |b|..]);
    QuotientOfParts(Value(b), TwoTo(|s[8 * |b|..]|), ToNat(s[8 * |b|..]));
  }

  /** Byte i, in group g, stands behind g separators. */
  lemma {:induction false} GroupedByte(size: nat, separator: seq<byte>, data: seq<byte>, g: nat, i: nat, at: nat)
    requires size > 0 && i < |data| && g * size <= i < g * size + size && at == i + g * |separator|
    ensures at < |Grouped(size, separator, data)| && Grouped(size, separator, data)[at] == data[i]
    decreases g
  {
    OneLess(g, size);
    OneLess(g, |separator|);
    if g > 0 {
      var rest := data[size..];
      GroupedByte(size, separator, rest, g - 1, i - size, at - size - |separator|);
      GroupInFront(size, separator, data);
      hide Grouped;
      assert rest[i - size] == data[i];
    }
  }

  lemma OneLess(g: nat, n: nat)
    ensures g == 0 ==> g * n == 0
    ensures g > 0 ==> (g - 1) * n == g * n - n && g * n >= n
  {
  }

  lemma GroupInFront(size: nat, separator: seq<byte>, data: seq<byte>)
    requires 0 < size < |data|
    ensures var g, tail := Grouped(size, separator, data), Grouped(size, separator, data[size..]);
      && |g| == size + |separator| + |tail|
      && (forall j :: 0 <= j < |separator| ==> g[size + j] == separator[j])
      && (forall j :: 0 <= j < |tail| ==> g[size + |separator| + j] == tail[j])
  {
  }

  lemma OneGroupOn(i: nat, size: nat, n: nat)
    requires 0 < size <= i
    ensures i + i / size * n == size + n + (i - size + (i - size) / size * n)
  {
    Divided(i, size, (i - size) / size + 1, (i - size) % size);
  }

  /** Group g, when there are bytes left for it, has the separator in front. */
  lemma {:induction false} GroupedSeparator(size: nat, separator: seq<byte>, data: seq<byte>, g: nat, at: nat, j: nat)
    requires size > 0 && g > 0 && g * size < |data| && j < |separator|
    requires at == g * size + (g - 1) * |separator| + j
    ensures at < |Grouped(size, separator, data)| && Grouped(size, separator, data)[at] == separator[j]
    decreases g
  {
    hide Grouped;
    OneLess(g, size);
    OneLess(g - 1, |separator|);
    GroupInFront(size, separator, data);
    if g > 1 {
      OneLess(g - 1, size);
      GroupedSeparator(size, separator, data[size..], g - 1, at - size - |separator|, j);
    } else {
      assert g * size == size && at == size + j;
    }
  }

  /** Nothing else is written. */
  lemma {:induction false} GroupedSize(size: nat, separator: seq<byte>, data: seq<byte>)
    requires size > 0 && data != []
    ensures |Grouped(size, separator, data)| == |data| + (|data| - 1) / size * |separator|
    decreases |data|
  {
    if |data| <= size {
      Divided(|data| - 1, size, 0, |data| - 1);
    } else {
      GroupedSize(size, separator, data[size..]);
      OneGroupOn(|data| - 1, size, |separator|);
    }
  }
}
