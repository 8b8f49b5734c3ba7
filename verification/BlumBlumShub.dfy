/** Externals/CryptoPP/blumshub.cpp: the generator as a stream of bits, and random access into it. */
module BlumBlumShub {
  import opened Arithmetic
  import opened Bits
  import opened Bytes
  import opened NumberTheory
  import opened SquareModulus

  lemma BitLengthAtLeast(x: nat)
    ensures x >= 1 ==> BitLength(x) >= 1
    ensures x >= 2 ==> BitLength(x) >= 2
  {
    if x >= 2 { assert x / 2 >= 1; }
  }

  /** The bits taken from each state: one less than the precision of the bit count of n. */
  function MaxBits(n: nat): (k: nat)
    requires n >= 2
    ensures k >= 1
  {
    BitLengthAtLeast(n);
    BitLengthAtLeast(BitLength(n));
    BitLength(BitLength(n)) - 1
  }

  function Square(n: nat, a: int): nat
    requires n > 0
  {
    a * a % n
  }

  function PowNat(b: nat, e: nat): (r: nat)
    ensures b > 0 ==> r > 0
    ensures r == Pow(b, e)
  {
    if e == 0 then 1 else b * PowNat(b, e - 1)
  }

  /** The state after s squarings of the square of x0. */
  ghost function State(n: nat, x0: nat, s: nat): nat
    requires n > 0
  {
    Pow(x0, PowNat(2, s + 1)) % n
  }

  lemma StateStep(n: nat, x0: nat, s: nat)
    requires n > 0
    ensures State(n, x0, s + 1) == Square(n, State(n, x0, s))
  {
    var k := PowNat(2, s + 1);
    PowAdd(x0, k, k);
    ModMul(Pow(x0, k), Pow(x0, k), n);
    ModMul(Pow(x0, k) % n, Pow(x0, k), n);
  }

  lemma StateZero(n: nat, x0: nat)
    requires n > 0
    ensures State(n, x0, 0) == Square(n, x0)
  {
    assert PowNat(2, 1) == 2 * PowNat(2, 0);
    assert Pow(x0, 2) == x0 * Pow(x0, 1) == x0 * (x0 * Pow(x0, 0));
  }

  /** Bit j of the stream defined by n and x0. */
  ghost function StreamBit(n: nat, x0: nat, j: nat): nat
    requires n >= 2
  {
    GetBit(State(n, x0, j / MaxBits(n)), MaxBits(n) - 1 - j % MaxBits(n))
  }

  /** count bits from bit j on, the first one most significant. */
  ghost function StreamBits(n: nat, x0: nat, j: nat, count: nat): (v: nat)
    requires n >= 2
    ensures v < TwoTo(count)
  {
    if count == 0 then 0 else 2 * StreamBits(n, x0, j, count - 1) + StreamBit(n, x0, j + count - 1)
  }

  lemma BitOfState(n: nat, x0: nat, s: nat, i: nat)
    requires n >= 2 && i < MaxBits(n)
    ensures StreamBit(n, x0, MaxBits(n) * s + i) == GetBit(State(n, x0, s), MaxBits(n) - 1 - i)
  {
    Divided(MaxBits(n) * s + i, MaxBits(n), s, i);
  }

  /** Bits in a row are the bits of the two halves one after the other. */
  lemma {:induction false} StreamBitsConcat(n: nat, x0: nat, j: nat, a: nat, b: nat)
    requires n >= 2
    ensures StreamBits(n, x0, j, a + b) == StreamBits(n, x0, j, a) * TwoTo(b) + StreamBits(n, x0, j + a, b)
  {
    hide StreamBit;
    if b > 0 {
      StreamBitsConcat(n, x0, j, a, b - 1);
      var high, low := StreamBits(n, x0, j, a), StreamBits(n, x0, j + a, b - 1);
      Doubled(high, TwoTo(b - 1));
    }
  }

  /** The last c bits taken from a state are its low c bits. */
  lemma {:induction false} LastBitsOfState(n: nat, x0: nat, s: nat, c: nat)
    requires n >= 2 && c <= MaxBits(n)
    ensures StreamBits(n, x0, MaxBits(n) * s + (MaxBits(n) - c), c) == Low(State(n, x0, s), c)
  {
    hide State, StreamBit, GetBit, MaxBits;
    if c > 0 {
      var first := MaxBits(n) * s + (MaxBits(n) - c);
      LastBitsOfState(n, x0, s, c - 1);
      StreamBitsConcat(n, x0, first, 1, c - 1);
      OneStreamBit(n, x0, first);
      BitOfState(n, x0, s, MaxBits(n) - c);
      DigitOfLow(State(n, x0, s), c - 1);
    }
  }

  lemma OneStreamBit(n: nat, x0: nat, j: nat)
    requires n >= 2
    ensures StreamBits(n, x0, j, 1) == StreamBit(n, x0, j)
  {
    assert StreamBits(n, x0, j, 0) == 0;
  }

  /** The bits taken from one state, the first one most significant, are the lowest bits of that state. */
  lemma BitsOfState(n: nat, x0: nat, s: nat)
    requires n >= 2
    ensures StreamBits(n, x0, MaxBits(n) * s, MaxBits(n)) == State(n, x0, s) % TwoTo(MaxBits(n))
  {
    hide State, StreamBits, MaxBits;
    LastBitsOfState(n, x0, s, MaxBits(n));
    DigitsAre(State(n, x0, s), MaxBits(n));
  }

  /** As many bits as the binary logarithm of the number of bits of n, rounded down. */
  lemma MaxBitsIs(n: nat)
    requires n >= 2
    ensures TwoTo(MaxBits(n)) <= BitLength(n) < 2 * TwoTo(MaxBits(n))
    ensures TwoTo(BitLength(n) - 1) <= n < TwoTo(BitLength(n))
  {
    hide TwoTo, BitLength;
    BitLengthAtLeast(n);
    BitLengthBounds(n);
    BitLengthBounds(BitLength(n));
    TwoToNext(MaxBits(n));
  }

  ghost function StreamByte(n: nat, x0: nat, j: nat): byte
    requires n >= 2
  {
    ByteWidth();
    StreamBits(n, x0, j, 8)
  }

  /** What the documentation asks of the factors, and that they differ. */
  ghost predicate BlumPrimes(p: nat, q: nat) {
    Prime(p) && Prime(q) && p != q && p % 4 == 3 && q % 4 == 3
  }

  class BlumBlumShub {
    const n: nat
    const p: nat
    const q: nat
    const x0: nat
    const maxBits: nat
    var current: nat
    var bitsLeft: nat
    ghost var step: nat

    ghost predicate Valid()
      reads this
    {
      && n == p * q && p >= 2 && q >= 2 && n >= 2 && maxBits == MaxBits(n)
      && bitsLeft <= maxBits
      && current == State(n, x0, step)
    }

    /** The number of the next bit; a used-up state and a fresh one can stand for the same position. */
    ghost function Position(): nat
      requires Valid()
      reads this
    {
      maxBits * step + (maxBits - bitsLeft)
    }

    constructor (p: nat, q: nat, seed: int)
      requires p >= 2 && q >= 2
      ensures Valid() && Position() == 0
      ensures this.p == p && this.q == q && x0 == Square(p * q, seed)
    {
      PositiveProduct(p, q);
      assert p * q >= 2 by { assert p * q == 2 * q + (p - 2) * q; }
      StateZero(p * q, Square(p * q, seed));
      this.p, this.q, this.n := p, q, p * q;
      x0 := Square(p * q, seed);
      current := Square(p * q, Square(p * q, seed));
      maxBits := MaxBits(p * q);
      bitsLeft := MaxBits(p * q);
      step := 0;
    }

    method GenerateBit() returns (bit: nat)
      requires Valid()
      modifies this
      ensures Valid() && Position() == old(Position()) + 1
      ensures bit == StreamBit(n, x0, old(Position()))
    {
      if bitsLeft == 0 {
        StateStep(n, x0, step);
        current := Square(n, current);
        bitsLeft := maxBits;
        step := step + 1;
        assert maxBits * step == maxBits * (step - 1) + maxBits;
      }
      assert Position() == old(Position());
      Divided(Position(), maxBits, step, maxBits - bitsLeft);
      bitsLeft := bitsLeft - 1;
      bit := GetBit(current, bitsLeft);
    }

    method GenerateByte() returns (b: byte)
      requires Valid()
      modifies this
      ensures Valid() && Position() == old(Position()) + 8
      ensures b == StreamByte(n, x0, old(Position()))
    {
      hide State, GetBit, StreamBit;
      ByteWidth();
      b := 0;
      ghost var start := Position();
      for i := 0 to 8
        invariant Valid() && Position() == start + i
        invariant b == StreamBits(n, x0, start, i)
      {
        var bit := GenerateBit();
        BitsFit(n, x0, start, i + 1);
        assert b * 2 + bit == StreamBits(n, x0, start, i + 1);
        b := (b * 2 + bit) % 256;
      }
    }

    method GenerateBlock(output: array<byte>)
      requires Valid()
      modifies this, output
      ensures Valid() && Position() == old(Position()) + 8 * output.Length
      ensures forall k :: 0 <= k < output.Length ==> output[k] == StreamByte(n, x0, old(Position()) + 8 * k)
    {
      ghost var start := Position();
      for k := 0 to output.Length
        invariant Valid() && Position() == start + 8 * k
        invariant forall j :: 0 <= j < k ==> output[j] == StreamByte(n, x0, start + 8 * j)
      {
        var b := GenerateByte();
        output[k] := b;
      }
    }

    /** The stream transformation: exclusive or with the bytes of the stream. */
    method ProcessData(outString: array<byte>, inString: array<byte>)
      requires Valid() && outString.Length == inString.Length
      modifies this, outString
      ensures Valid() && Position() == old(Position()) + 8 * inString.Length
      ensures outString[..] == Masked(n, x0, old(Position()), old(inString[..]))
    {
      hide StreamByte, Xor, State;
      ghost var start := Position();
      ghost var input := inString[..];
      for k := 0 to inString.Length
        invariant Valid() && Position() == start + 8 * k
        invariant forall j :: k <= j < inString.Length ==> inString[j] == input[j]
        invariant forall j :: 0 <= j < k ==> outString[j] == Xor(input[j], StreamByte(n, x0, start + 8 * j))
      {
        var b := GenerateByte();
        outString[k] := Xor(inString[k], b);
      }
    }

    /**
     * Jumps to byte index: for distinct primes congruent to 3 modulo 4, to the state the generator
     * reaches by itself, whatever the seed; for other distinct primes exactly when the reduced
     * exponent is not 0 or the square of the seed is a unit; for a prime taken twice, exactly when
     * the exponent may be reduced modulo the square of the prime.
     */
    method Seek(index: nat)
      requires Valid()
      modifies this
      ensures BlumPrimes(p, q) ==> Valid() && Position() == 8 * index
      ensures step == 8 * index / maxBits && bitsLeft == maxBits - 8 * index % maxBits
      ensures Prime(p) && Prime(q) && p != q ==>
        (current == State(n, x0, step) <==> SeekIsExact(p, q, x0, step + 1))
      ensures Prime(p) && p == q && p % 2 == 1 ==>
        (current == State(n, x0, step) <==> ReducesModSquare(p, x0, PowNat(2, step + 1)))
    {
      hide State, Totient, SeekIsExact, BlumPrimes, Prime, ReducesModSquare;
      var i := index * 8;
      TotientPositive(p, q);
      var e := PowNat(2, i / maxBits + 1) % Totient(p, q);
      SoughtState(p, q, x0, i / maxBits);
      current := PowNat(x0, e) % n;
      bitsLeft := maxBits - i % maxBits;
      step := i / maxBits;
    }
  }

  lemma SoughtState(p: nat, q: nat, x0: nat, s: nat)
    requires p >= 2 && q >= 2
    ensures Totient(p, q) > 0 && p * q > 0
    ensures BlumPrimes(p, q) ==> PowNat(x0, PowNat(2, s + 1) % Totient(p, q)) % (p * q) == State(p * q, x0, s)
    ensures Prime(p) && Prime(q) && p != q ==>
      (PowNat(x0, PowNat(2, s + 1) % Totient(p, q)) % (p * q) == State(p * q, x0, s) <==> SeekIsExact(p, q, x0, s + 1))
    ensures Prime(p) && p == q && p % 2 == 1 ==>
      (PowNat(x0, PowNat(2, s + 1) % Totient(p, q)) % (p * q) == State(p * q, x0, s) <==>
       ReducesModSquare(p, x0, PowNat(2, s + 1)))
  {
    TotientPositive(p, q);
    hide Totient, Prime, ReducesModSquare;
    if p == q && Prime(p) && p % 2 == 1 {
      PowerOfTwo(s);
      ReducedModSquare(p, x0, PowNat(2, s + 1));
    } else if Prime(p) && Prime(q) && p != q {
      ReducedExponent(p, q, x0, PowNat(2, s + 1));
      if BlumPrimes(p, q) {
        BlumExponent(p, q, s + 1);
      }
    }
  }

  lemma PowerOfTwo(s: nat)
    ensures PowNat(2, s + 1) >= 2 && PowNat(2, s + 1) % 2 == 0
  {
    DoubledNumber(PowNat(2, s));
  }

  lemma DoubledNumber(x: nat)
    ensures 2 * x % 2 == 0
  {
  }

  /** The k-th power of two survives reduction modulo (p - 1) * (q - 1), or x0 is a unit. */
  ghost predicate SeekIsExact(p: nat, q: nat, x0: nat, k: nat)
    requires p >= 2 && q >= 2
  {
    TotientPositive(p, q);
    PowNat(2, k) % Totient(p, q) != 0 || (x0 % p != 0 && x0 % q != 0)
  }

  ghost function Masked(n: nat, x0: nat, j: nat, s: seq<byte>): seq<byte>
    requires n >= 2
  {
    seq(|s|, k requires 0 <= k < |s| => Xor(s[k], StreamByte(n, x0, j + 8 * k)))
  }

  /** Masking twice at the same position restores the text. */
  lemma MaskedTwice(n: nat, x0: nat, j: nat, s: seq<byte>)
    requires n >= 2
    ensures Masked(n, x0, j, Masked(n, x0, j, s)) == s
  {
    forall k | 0 <= k < |s| ensures Masked(n, x0, j, Masked(n, x0, j, s))[k] == s[k] {
      XorCancels(s[k], StreamByte(n, x0, j + 8 * k));
    }
  }

  /** A generator that seeks to byte k and one that generates its first k bytes then produce the same bytes. */
  method SeekMatchesSkipping(p: nat, q: nat, seed: int, k: nat, count: nat)
    returns (sought: seq<byte>, skipped: seq<byte>)
    requires BlumPrimes(p, q)
    ensures sought == skipped && |sought| == count
  {
    hide StreamByte, State, Prime;
    var a := new BlumBlumShub(p, q, seed);
    var b := new BlumBlumShub(p, q, seed);
    var first, left, right := new byte[k], new byte[count], new byte[count];
    a.Seek(k);
    a.GenerateBlock(left);
    b.GenerateBlock(first);
    b.GenerateBlock(right);
    sought, skipped := left[..], right[..];
  }

  /** Seeking back to where a text was masked and processing it again restores it, in place. */
  method SeekAndUnmask(g: BlumBlumShub, index: nat, text: array<byte>)
    requires g.Valid() && BlumPrimes(g.p, g.q)
    modifies g, text
    ensures g.Valid() && g.Position() == 8 * (index + text.Length)
    ensures text[..] == old(text[..])
  {
    g.Seek(index);
    g.ProcessData(text, text);
    g.Seek(index);
    MaskedTwice(g.n, g.x0, 8 * index, old(text[..]));
    g.ProcessData(text, text);
  }

  /** Equal primes congruent to 3 modulo 4 are not enough: with p = q = 7 and seed 2, seeking to byte 3
      gives another state than thirteen squarings do, and the next two bits differ. */
  lemma DistinctPrimesAreNeeded()
    ensures Square(49, 2) == 4 && MaxBits(49) == 2 && 8 * 3 / MaxBits(49) + 1 == 13
    ensures PowNat(2, 13) % Totient(7, 7) == 20
    ensures PowNat(4, 20) % 49 == 37 && State(49, 4, 12) == 16
    ensures GetBit(37, 0) != GetBit(16, 0)
  {
    hide State, PowNat, GetBit, MaxBits, Totient;
    StateSquares();
    SmallPowers();
    SmallNumbers();
  }

  lemma SmallNumbers()
    ensures Square(49, 2) == 4 && MaxBits(49) == 2 && Totient(7, 7) == 36
    ensures GetBit(37, 0) == 1 && GetBit(16, 0) == 0
  {
    assert BitLength(6) == 3 && BitLength(12) == 4 && BitLength(49) == 6;
  }

  lemma SmallPowers()
    ensures PowNat(2, 13) == 8192 && PowNat(4, 20) == 1048576 * 1048576
  {
    assert PowNat(2, 6) == 64 && PowNat(2, 13) == 128 * PowNat(2, 6);
    assert PowNat(4, 5) == 1024;
    PowAdd(4, 5, 5);
    PowAdd(4, 10, 10);
  }

  lemma StateSquares()
    ensures State(49, 4, 12) == 16
  {
    StateZero(49, 4);
    assert State(49, 4, 0) == 16;
    StateStep(49, 4, 0);
    assert State(49, 4, 1) == 11;
    StateStep(49, 4, 1);
    assert State(49, 4, 2) == 23;
    StateStep(49, 4, 2);
    assert State(49, 4, 3) == 39;
    StateStep(49, 4, 3);
    assert State(49, 4, 4) == 2;
    StateStep(49, 4, 4);
    assert State(49, 4, 5) == 4;
    StateStep(49, 4, 5);
    assert State(49, 4, 6) == 16;
    StateStep(49, 4, 6);
    StateStep(49, 4, 7);
    StateStep(49, 4, 8);
    StateStep(49, 4, 9);
    StateStep(49, 4, 10);
    StateStep(49, 4, 11);
  }

  lemma BitsFit(n: nat, x0: nat, j: nat, count: nat)
    requires n >= 2 && count <= 8
    ensures StreamBits(n, x0, j, count) < 256
    decreases 8 - count
  {
    ByteWidth();
    if count < 8 {
      BitsFit(n, x0, j, count + 1);
    }
  }
}
