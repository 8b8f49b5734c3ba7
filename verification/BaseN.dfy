/** Externals/CryptoPP/basecode.cpp: encoding bytes as characters of 1 to 7 bits, grouping them, and decoding. */
module BaseN {
  import opened Bits
  import opened Bytes
  import opened BitStrings

  // ---- what the filters compute ----

  function Repeat(b: byte, n: nat): (r: seq<byte>)
    ensures |r| == n
  {
    seq(n, _ => b)
  }

  /** The characters of the digits. */
  function Spelled(alphabet: seq<byte>, digits: seq<byte>): (r: seq<byte>)
    requires forall i :: 0 <= i < |digits| ==> digits[i] < |alphabet|
    ensures |r| == |digits|
  {
    seq(|digits|, i requires 0 <= i < |digits| => alphabet[digits[i]])
  }

  lemma SpelledConcat(alphabet: seq<byte>, a: seq<byte>, b: seq<byte>)
    requires forall i :: 0 <= i < |a| ==> a[i] < |alphabet|
    requires forall i :: 0 <= i < |b| ==> b[i] < |alphabet|
    ensures forall i :: 0 <= i < |a + b| ==> (a + b)[i] < |alphabet|
    ensures Spelled(alphabet, a + b) == Spelled(alphabet, a) + Spelled(alphabet, b)
  {
  }

  /** How many characters make up a whole number of bytes: 8 / gcd(8, k). */
  function BlockSize(k: nat): (n: nat)
    ensures n > 0
  {
    if k == 4 then 2 else if k == 2 || k == 6 then 4 else 8
  }

  /** An absent padding character is -1. */
  function Encoded(alphabet: seq<byte>, k: nat, padding: int, data: seq<byte>): seq<byte>
    requires 0 < k < 8 && |alphabet| == TwoTo(k) && -1 <= padding < 256
  {
    var digits := Groups(k, AllBits(data, 8));
    Spelled(alphabet, digits) + if padding == -1 then [] else Repeat(padding, Filling(|digits|, BlockSize(k)))
  }

  /** The table entries of the characters that have one. */
  function Values(lookup: seq<int>, chars: seq<byte>): (r: seq<byte>)
    requires |lookup| == 256
  {
    if chars == [] then []
    else
      var front, value := Values(lookup, chars[..|chars| - 1]), lookup[chars[|chars| - 1]];
      if 0 <= value < 256 then front + [value] else front
  }

  function Decoded(lookup: seq<int>, k: nat, chars: seq<byte>): seq<byte>
    requires |lookup| == 256
  {
    WholeGroups(8, AllBits(Values(lookup, chars), k))
  }

  /** A separator between any two groups of `size` bytes. */
  function Grouped(size: nat, separator: seq<byte>, data: seq<byte>): seq<byte> {
    if size == 0 || |data| <= size then data
    else data[..size] + separator + Grouped(size, separator, data[size..])
  }

  // ---- the lookup table ----

  predicate IsUpper(c: byte) {
    0x41 <= c <= 0x5A
  }

  predicate IsLower(c: byte) {
    0x61 <= c <= 0x7A
  }

  function ToUpper(c: byte): byte {
    if IsLower(c) then c - 0x20 else c
  }

  function ToLower(c: byte): byte {
    if IsUpper(c) then c + 0x20 else c
  }

  /** Whether the table takes character c for the letter a. */
  predicate Matches(a: byte, c: byte, caseInsensitive: bool) {
    if caseInsensitive && (IsUpper(a) || IsLower(a)) then c == ToUpper(a) || c == ToLower(a) else c == a
  }

  /** The last letter that c is taken for. */
  function Found(alphabet: seq<byte>, c: byte, caseInsensitive: bool): (i: int)
    ensures -1 <= i < |alphabet|
    ensures i >= 0 ==> Matches(alphabet[i], c, caseInsensitive)
    ensures forall j :: i < j < |alphabet| ==> !Matches(alphabet[j], c, caseInsensitive)
  {
    if alphabet == [] then -1
    else if Matches(alphabet[|alphabet| - 1], c, caseInsensitive) then |alphabet| - 1
    else Found(alphabet[..|alphabet| - 1], c, caseInsensitive)
  }

  method InitializeDecodingLookupArray(lookup: array<int>, alphabet: seq<byte>, base: nat, caseInsensitive: bool)
    requires lookup.Length == 256 && base <= |alphabet|
    modifies lookup
    ensures forall c: byte :: lookup[c] == Found(alphabet[..base], c, caseInsensitive)
  {
    forall c | 0 <= c < 256 { lookup[c] := -1; }
    for i := 0 to base
      invariant forall c: byte :: lookup[c] == Found(alphabet[..i], c, caseInsensitive)
    {
      var a := alphabet[i];
      if caseInsensitive && (IsUpper(a) || IsLower(a)) {
        lookup[ToUpper(a)] := i;
        lookup[ToLower(a)] := i;
      } else {
        lookup[a] := i;
      }
      assert alphabet[..i + 1][..i] == alphabet[..i];
    }
  }

  /** Letters stand for both cases when case does not matter; everything else only for itself. */
  lemma MatchesIs(a: byte, c: byte)
    ensures Matches(a, c, false) <==> a == c
    ensures Matches(a, c, true) <==>
      a == c || ('A' as int <= a <= 'Z' as int && c == a - 'A' as int + 'a' as int)
      || ('a' as int <= a <= 'z' as int && c == a - 'a' as int + 'A' as int)
  {
  }

  /** The two cases of a letter share their table entry. */
  lemma {:induction false} CasesShare(alphabet: seq<byte>, upper: byte, lower: byte)
    requires 'A' as int <= upper <= 'Z' as int && lower == upper - 'A' as int + 'a' as int
    ensures Found(alphabet, upper, true) == Found(alphabet, lower, true)
  {
    if alphabet != [] {
      var a := alphabet[|alphabet| - 1];
      MatchesIs(a, upper);
      MatchesIs(a, lower);
      CasesShare(alphabet[..|alphabet| - 1], upper, lower);
    }
  }

  /** No letter is taken for a later one. */
  ghost predicate Unambiguous(alphabet: seq<byte>, caseInsensitive: bool) {
    forall i, j :: 0 <= i < j < |alphabet| ==> !Matches(alphabet[j], alphabet[i], caseInsensitive)
  }

  /** The table reads every letter back exactly when the alphabet is unambiguous. */
  lemma LookupInverts(alphabet: seq<byte>, caseInsensitive: bool)
    ensures Unambiguous(alphabet, caseInsensitive)
       <==> forall i :: 0 <= i < |alphabet| ==> Found(alphabet, alphabet[i], caseInsensitive) == i
  {
    forall i | 0 <= i < |alphabet| ensures Matches(alphabet[i], alphabet[i], caseInsensitive) {}
    if Unambiguous(alphabet, caseInsensitive) {
      forall i | 0 <= i < |alphabet| ensures Found(alphabet, alphabet[i], caseInsensitive) == i {
        var j := Found(alphabet, alphabet[i], caseInsensitive);
        assert j >= i;
      }
    }
  }

  /** The table that InitializeDecodingLookupArray makes. */
  ghost predicate TableOf(lookup: seq<int>, alphabet: seq<byte>, caseInsensitive: bool) {
    |lookup| == 256 && forall c: byte :: lookup[c] == Found(alphabet, c, caseInsensitive)
  }

  /** No character is taken for a letter. */
  ghost predicate NoLetters(alphabet: seq<byte>, caseInsensitive: bool, chars: seq<byte>) {
    forall i, j :: 0 <= i < |chars| && 0 <= j < |alphabet| ==> !Matches(alphabet[j], chars[i], caseInsensitive)
  }

  lemma TableInverts(lookup: seq<int>, alphabet: seq<byte>, caseInsensitive: bool)
    requires TableOf(lookup, alphabet, caseInsensitive) && |alphabet| <= 256
    ensures Inverts(lookup, alphabet) <==> Unambiguous(alphabet, caseInsensitive)
  {
    LookupInverts(alphabet, caseInsensitive);
    hide Found, Unambiguous;
    forall i | 0 <= i < |alphabet| ensures lookup[alphabet[i]] == Found(alphabet, alphabet[i], caseInsensitive) {}
  }

  lemma TableIgnores(lookup: seq<int>, alphabet: seq<byte>, caseInsensitive: bool, chars: seq<byte>)
    requires TableOf(lookup, alphabet, caseInsensitive) && |alphabet| <= 256
    ensures Ignored(lookup, chars) <==> NoLetters(alphabet, caseInsensitive, chars)
  {
    hide Matches;
    forall i | 0 <= i < |chars|
      ensures 0 <= lookup[chars[i]] < 256
         <==> exists j :: 0 <= j < |alphabet| && Matches(alphabet[j], chars[i], caseInsensitive)
    {
      assert lookup[chars[i]] == Found(alphabet, chars[i], caseInsensitive);
    }
  }

  lemma TableFits(lookup: seq<int>, alphabet: seq<byte>, caseInsensitive: bool, k: nat)
    requires TableOf(lookup, alphabet, caseInsensitive) && |alphabet| == TwoTo(k)
    ensures forall c: byte :: 0 <= lookup[c] < 256 ==> lookup[c] < TwoTo(k)
  {
  }

  // ---- laws ----

  lemma {:induction false} ValuesConcat(lookup: seq<int>, a: seq<byte>, b: seq<byte>)
    requires |lookup| == 256
    ensures Values(lookup, a + b) == Values(lookup, a) + Values(lookup, b)
  {
    if b == [] {
      assert a + b == a;
    } else {
      ValuesConcat(lookup, a, b[..|b| - 1]);
      assert (a + b)[..|a + b| - 1] == a + b[..|b| - 1];
    }
  }

  /** None of the characters has a table entry. */
  predicate Ignored(lookup: seq<int>, chars: seq<byte>)
    requires |lookup| == 256
  {
    forall i :: 0 <= i < |chars| ==> !(0 <= lookup[chars[i]] < 256)
  }

  lemma {:induction false} IgnoredValues(lookup: seq<int>, chars: seq<byte>)
    requires |lookup| == 256 && Ignored(lookup, chars)
    ensures Values(lookup, chars) == []
  {
    if chars != [] { IgnoredValues(lookup, chars[..|chars| - 1]); }
  }

  lemma SeparatedValues(lookup: seq<int>, front: seq<byte>, separator: seq<byte>, rest: seq<byte>)
    requires |lookup| == 256 && Ignored(lookup, separator)
    ensures Values(lookup, front + separator + rest) == Values(lookup, front) + Values(lookup, rest)
  {
    hide Values, Ignored;
    ValuesConcat(lookup, front + separator, rest);
    ValuesConcat(lookup, front, separator);
    IgnoredValues(lookup, separator);
    assert Values(lookup, front) + [] == Values(lookup, front);
  }

  lemma {:induction false} GroupedValues(lookup: seq<int>, size: nat, separator: seq<byte>, data: seq<byte>)
    requires |lookup| == 256 && Ignored(lookup, separator)
    ensures Values(lookup, Grouped(size, separator, data)) == Values(lookup, data)
    decreases |data|
  {
    if size > 0 && |data| > size {
      hide Values, Ignored;
      GroupedValues(lookup, size, separator, data[size..]);
      SeparatedValues(lookup, data[..size], separator, Grouped(size, separator, data[size..]));
      ValuesConcat(lookup, data[..size], data[size..]);
      assert data == data[..size] + data[size..];
    }
  }

  /** The table reads every letter of the alphabet back. */
  predicate Inverts(lookup: seq<int>, alphabet: seq<byte>)
    requires |lookup| == 256
  {
    |alphabet| <= 256 && forall i :: 0 <= i < |alphabet| ==> lookup[alphabet[i]] == i
  }

  lemma {:induction false} SpelledValues(lookup: seq<int>, alphabet: seq<byte>, digits: seq<byte>)
    requires |lookup| == 256 && Inverts(lookup, alphabet)
    requires forall i :: 0 <= i < |digits| ==> digits[i] < |alphabet|
    ensures Values(lookup, Spelled(alphabet, digits)) == digits
  {
    if digits != [] {
      var front, last := digits[..|digits| - 1], digits[|digits| - 1];
      SpelledValues(lookup, alphabet, front);
      SpelledConcat(alphabet, front, [last]);
      assert digits == front + [last] && Spelled(alphabet, [last]) == [alphabet[last]];
    }
  }

  /** Encoding, grouping and decoding give the data back. */
  lemma RoundTrip(lookup: seq<int>, alphabet: seq<byte>, k: nat, padding: int, size: nat, separator: seq<byte>,
                  terminator: seq<byte>, data: seq<byte>)
    requires 0 < k < 8 && |alphabet| == TwoTo(k) && -1 <= padding < 256
    requires |lookup| == 256 && Inverts(lookup, alphabet)
    requires Ignored(lookup, separator) && Ignored(lookup, terminator) && (padding != -1 ==> Ignored(lookup, [padding]))
    ensures Decoded(lookup, k, Grouped(size, separator, Encoded(alphabet, k, padding, data)) + terminator) == data
  {
    hide Groups, AllBits, Values, Spelled, WholeGroups, Grouped;
    var s := AllBits(data, 8);
    var digits := Groups(k, s);
    var letters := Spelled(alphabet, digits);
    var filling := if padding == -1 then [] else Repeat(padding, Filling(|digits|, BlockSize(k)));
    ValuesConcat(lookup, Grouped(size, separator, letters + filling), terminator);
    GroupedValues(lookup, size, separator, letters + filling);
    ValuesConcat(lookup, letters, filling);
    SpelledValues(lookup, alphabet, digits);
    assert Ignored(lookup, filling) by {
      if padding != -1 { assert [padding][0] == padding; }
    }
    IgnoredValues(lookup, filling);
    IgnoredValues(lookup, terminator);
    assert Encoded(alphabet, k, padding, data) == letters + filling;
    assert Values(lookup, Grouped(size, separator, letters + filling) + terminator) == digits + [] + [] == digits;
    GroupsSpellOut(k, s);
    BytesReadBack(data, Blank(Filling(|s|, k)));
  }

  lemma {:induction false} SpanIsProduct(n: nat, width: nat)
    ensures Span(n, width) == n * width
  {
    if n > 0 { SpanIsProduct(n - 1, width); }
  }

  /** Before padding there are just enough characters for the bits. */
  lemma CharacterCount(k: nat, data: seq<byte>)
    requires 0 < k < 8
    ensures 8 * |data| <= |Groups(k, AllBits(data, 8))| * k < 8 * |data| + k
  {
    hide Groups, AllBits;
    var s := AllBits(data, 8);
    GroupsSpellOut(k, s);
    SpanIsProduct(|data|, 8);
    SpanIsProduct(|Groups(k, s)|, k);
  }
}
