/** Externals/CryptoPP/adler32.cpp: the checksum with its reductions put off. */
module Adler {
  import opened Arithmetic
  import opened Bytes

  /** What an unsigned long can hold everywhere. */
  type word32 = x: nat | x < 0x1_0000_0000

  // ---- section 2.2 of RFC 1950: reduced after every byte ----

  function Sum1(data: seq<byte>): (s: nat)
    ensures s < 65521
  {
    if data == [] then 1 else (Sum1(data[..|data| - 1]) + data[|data| - 1]) % 65521
  }

  function Sum2(data: seq<byte>): (s: nat)
    ensures s < 65521
  {
    if data == [] then 0 else (Sum2(data[..|data| - 1]) + Sum1(data)) % 65521
  }

  lemma SumNext(data: seq<byte>, b: byte, s1: nat, s2: nat)
    requires s1 % 65521 == Sum1(data) && s2 % 65521 == Sum2(data)
    ensures (s1 + b) % 65521 == Sum1(data + [b])
    ensures (s2 + (s1 + b)) % 65521 == Sum2(data + [b])
  {
    assert (data + [b])[..|data|] == data;
    PutOff(s1, b);
    PutOff(s2, s1 + b);
    PutOff(s1 + b, Sum2(data));
  }

  // ---- the sums in one piece ----

  function ByteSum(data: seq<byte>): nat {
    if data == [] then 0 else ByteSum(data[..|data| - 1]) + data[|data| - 1]
  }

  /** Every byte times the number of bytes from it to the end. */
  function WeightedSum(data: seq<byte>): nat {
    if data == [] then 0 else |data| * data[0] + WeightedSum(data[1..])
  }

  lemma {:induction false} WeightedNext(data: seq<byte>, b: byte)
    ensures WeightedSum(data + [b]) == WeightedSum(data) + ByteSum(data) + b
    decreases |data|
  {
    if data == [] {
      assert data + [b] == [b] && [b][1..] == [];
    } else {
      assert (data + [b])[1..] == data[1..] + [b];
      WeightedNext(data[1..], b);
      SumHead(data);
      OneWeightMore(|data|, data[0]);
    }
  }

  lemma OneWeightMore(n: nat, x: nat)
    ensures (n + 1) * x == n * x + x
  {
  }

  lemma {:induction false} SumHead(data: seq<byte>)
    requires data != []
    ensures ByteSum(data) == data[0] + ByteSum(data[1..])
    decreases |data|
  {
    if |data| > 1 {
      var front := data[..|data| - 1];
      SumHead(front);
      assert front[1..] == data[1..][..|data| - 2];
    } else {
      assert data[..0] == [] && data[1..] == [];
    }
  }

  /** One plus all the bytes, and all the values the first sum has had, modulo 65521. */
  lemma {:induction false} SumsAre(data: seq<byte>)
    ensures Sum1(data) == (1 + ByteSum(data)) % 65521
    ensures Sum2(data) == (|data| + WeightedSum(data)) % 65521
  {
    if data != [] {
      var front, b := data[..|data| - 1], data[|data| - 1];
      assert data == front + [b];
      SumsAre(front);
      WeightedNext(front, b);
      SumNext(front, b, 1 + ByteSum(front), |front| + WeightedSum(front));
    }
  }

  /** A sum may be reduced early or late. */
  lemma PutOff(x: nat, y: nat)
    ensures (x + y) % 65521 == (x % 65521 + y) % 65521
  {
  }

  class Adler32 {
    var s1: nat
    var s2: nat
    ghost var fed: seq<byte>

    ghost predicate Valid()
      reads this
    {
      s1 == Sum1(fed) && s2 == Sum2(fed)
    }

    constructor ()
      ensures Valid() && fed == []
    {
      s1, s2, fed := 1, 0, [];
    }

    /** One byte into unreduced sums; that they stay below 2^32 is part of their type. */
    static method Accumulate(a: word32, b: word32, input: byte, ghost data: seq<byte>)
      returns (s1: word32, s2: word32)
      requires a % 65521 == Sum1(data) && b % 65521 == Sum2(data)
      requires a + input < 0x1_0000_0000 && b + a + input < 0x1_0000_0000
      ensures s1 == a + input && s2 == b + s1
      ensures s1 % 65521 == Sum1(data + [input]) && s2 % 65521 == Sum2(data + [input])
    {
      SumNext(data, input, a, b);
      s1 := a + input;
      s2 := b + s1;
    }

    /** Eight bytes at once. */
    static method AccumulateEight(a: word32, b: word32, input: seq<byte>, ghost data: seq<byte>)
      returns (s1: word32, s2: word32)
      requires |input| == 8 && a < 65521 && b < 0x1_0000_0000 - 540480
      requires a % 65521 == Sum1(data) && b % 65521 == Sum2(data)
      ensures s1 < 65521 + 2040 && s2 <= b + 540480
      ensures s1 % 65521 == Sum1(data + input) && s2 % 65521 == Sum2(data + input)
    {
      hide Sum1, Sum2;
      s1, s2 := a, b;
      assert data + input[..0] == data;
      for i := 0 to 8
        invariant s1 <= a + 255 * i && s2 <= b + 67560 * i
        invariant s1 % 65521 == Sum1(data + input[..i]) && s2 % 65521 == Sum2(data + input[..i])
      {
        s1, s2 := Accumulate(s1, s2, input[i], data + input[..i]);
        assert data + input[..i + 1] == data + input[..i] + [input[i]];
      }
      assert input[..8] == input;
    }

    /** The bytes in front of the last multiple of eight. */
    static method AccumulateOdd(a0: word32, b0: word32, input: seq<byte>, ghost fed: seq<byte>)
      returns (a: word32, b: word32, length: nat)
      requires a0 == Sum1(fed) && b0 == Sum2(fed)
      ensures length == |input| - |input| % 8 && a < 65521 && b < 65521
      ensures a == Sum1(fed + input[..|input| % 8]) && b == Sum2(fed + input[..|input| % 8])
    {
      hide Sum1, Sum2;
      a, b, length := a0, b0, |input|;
      ghost var n := |input| % 8;
      var at: nat := 0;
      assert fed + input[..0] == fed;
      if length % 8 != 0 {
        while length % 8 != 0
          invariant at <= n && length == |input| - at
          invariant a < 65521 + 255 * at && b < 65521 + 68000 * at
          invariant a % 65521 == Sum1(fed + input[..at]) && b % 65521 == Sum2(fed + input[..at])
          decreases n - at
        {
          a, b := Accumulate(a, b, input[at], fed + input[..at]);
          assert fed + input[..at + 1] == fed + input[..at] + [input[at]];
          at := at + 1;
          length := length - 1;
        }
        if a >= 65521 { a := a - 65521; }
        b := b % 65521;
      }
    }

    static lemma NextRest(length: nat)
      requires length % 8 == 0 && length > 0
      ensures length >= 8 && (length - 8) % 8 == 0
      ensures (length - 8) % 0x8000 == if length % 0x8000 == 0 then 0x8000 - 8 else length % 0x8000 - 8
    {
      var q, r, eighth := length / 0x8000, length % 0x8000, length / 8;
      assert r == 8 * (eighth - 0x1000 * q);
      if r == 0 {
        Divided(length - 8, 0x8000, q - 1, 0x8000 - 8);
      } else {
        Divided(length - 8, 0x8000, q, r - 8);
      }
    }

    /** One subtraction reduces the first sum; the second is reduced once for every 0x8000 bytes. */
    method Update(input: seq<byte>)
      requires Valid()
      modifies this
      ensures Valid() && fed == old(fed) + input
    {
      hide Sum1, Sum2;
      var a: word32, b: word32, length: nat := AccumulateOdd(s1, s2, input, fed);
      ghost var at: nat := |input| % 8;
      while length > 0
        modifies {}
        invariant at <= |input| && length + at == |input| && length % 8 == 0
        invariant a < 65521 && b <= 65520 + 67560 * (0x8000 - length % 0x8000)
        invariant length % 0x8000 == 0 ==> b < 65521
        invariant a % 65521 == Sum1(fed + input[..at]) && b % 65521 == Sum2(fed + input[..at])
        decreases length
      {
        NextRest(length);
        var next := input[|input| - length..|input| - length + 8];
        a, b := AccumulateEight(a, b, next, fed + input[..at]);
        assert fed + input[..at + 8] == fed + input[..at] + next;
        length := length - 8;
        at := at + 8;
        if a >= 65521 { a := a - 65521; }
        if length % 0x8000 == 0 { b := b % 65521; }
      }
      assert input[..at] == input;
      s1, s2 := a, b;
      fed := fed + input;
    }
  }
}
