/**
 * Words as bit vectors, on which exclusive or can be evaluated, and quarter rounds given by
 * all the words they pass through.
 */
module BitVectors {
  import opened Arithmetic
  import opened Bits
  import Bytes
  import opened ChaCha

  function Number(u: bv32): word {
    u as int
  }

  function HighestBit(u: bv32): bv32 {
    u >> 31
  }

  function OtherBits(u: bv32): bv32 {
    u & 0x7fff_ffff
  }

  lemma BitOrNot(u: bv32)
    ensures u <= 1 ==> Number(u) <= 1
  {
  }

  lemma NumberIsZero(u: bv32)
    requires Number(u) == 0
    ensures u == 0
  {
  }

  // ---- turning by one bit ----

  function Turned(u: bv32): bv32 {
    (u << 1) | (u >> 31)
  }

  function TurnedBack(u: bv32): bv32 {
    (u >> 1) | (u << 31)
  }

  lemma TurnedNumber(u: bv32)
    ensures Number(Turned(u)) == 2 * Number(OtherBits(u)) + Number(HighestBit(u))
  {
  }

  // ---- from the lowest bit up ----

  function Half(u: bv32): bv32 {
    u >> 1
  }

  function LowBit(u: bv32): bv32 {
    u & 1
  }

  lemma TurnedBackIs(u: bv32)
    ensures Turned(TurnedBack(u)) == u
    ensures OtherBits(TurnedBack(u)) == Half(u) && HighestBit(TurnedBack(u)) == LowBit(u)
    ensures LowBit(u) <= 1
  {
  }

  /** Halving a bit vector halves its number. */
  lemma HalfNumber(u: bv32)
    ensures Number(u) == 2 * Number(Half(u)) + Number(LowBit(u)) && Number(LowBit(u)) <= 1
  {
    hide Number, Turned, TurnedBack, HighestBit, OtherBits, Half, LowBit;
    TurnedBackIs(u);
    TurnedNumber(TurnedBack(u));
    BitOrNot(LowBit(u));
  }

  function Mixture(u: bv32, v: bv32): bv32 {
    u ^ v
  }

  lemma HalfMixture(u: bv32, v: bv32)
    ensures Half(Mixture(u, v)) == Mixture(Half(u), Half(v))
    ensures LowBit(Mixture(u, v)) == if LowBit(u) == LowBit(v) then 0 else 1
    ensures Mixture(0, 0) == 0
  {
  }

  lemma SameBit(b: bv32, c: bv32)
    requires b <= 1 && c <= 1
    ensures Number(b) == Number(c) <==> b == c
    ensures Number(0) == 0 && Number(1) == 1
  {
    assert (b == 0 || b == 1) && (c == 0 || c == 1);
  }

  lemma XorLastDigit(a: nat, b: nat, c: nat, d: nat, width: nat)
    requires c <= 1 && d <= 1
    ensures Bytes.XorDigits(2 * a + c, 2 * b + d, width + 1)
         == 2 * Bytes.XorDigits(a, b, width) + if c == d then 0 else 1
  {
    assert (2 * a + c) / 2 == a && (2 * b + d) / 2 == b;
  }

  lemma HalfFits(n: nat, bit: nat, width: nat)
    requires 2 * n + bit < TwoTo(width + 1)
    ensures n < TwoTo(width)
  {
  }

  lemma {:induction false} XorOfLowBits(u: bv32, v: bv32, width: nat)
    requires Number(u) < TwoTo(width) && Number(v) < TwoTo(width)
    ensures Bytes.XorDigits(Number(u), Number(v), width) == Number(Mixture(u, v))
  {
    hide Number, Half, LowBit, Mixture, Bytes.XorDigits, TwoTo;
    HalfMixture(u, v);
    if width == 0 {
      NothingMixed(u, v);
    } else {
      HalfNumber(u);
      HalfNumber(v);
      HalfNumber(Mixture(u, v));
      TurnedBackIs(u);
      TurnedBackIs(v);
      SameBit(LowBit(u), LowBit(v));
      HalfFits(Number(Half(u)), Number(LowBit(u)), width - 1);
      HalfFits(Number(Half(v)), Number(LowBit(v)), width - 1);
      XorLastDigit(Number(Half(u)), Number(Half(v)), Number(LowBit(u)), Number(LowBit(v)), width - 1);
      XorOfLowBits(Half(u), Half(v), width - 1);
    }
  }

  lemma NothingMixed(u: bv32, v: bv32)
    requires Number(u) < TwoTo(0) && Number(v) < TwoTo(0)
    ensures Bytes.XorDigits(Number(u), Number(v), 0) == Number(Mixture(u, v))
  {
    NumberIsZero(u);
    NumberIsZero(v);
  }

  lemma XorNumber(u: bv32, v: bv32)
    ensures Xor(Number(u), Number(v)) == Number(Mixture(u, v))
  {
    hide Number, TwoTo;
    WordWidth();
    XorOfLowBits(u, v, 32);
  }

  // ---- rounds on bit vectors ----

  /** Addition without a division. */
  predicate SumIs(a: nat, b: nat, sum: nat) {
    sum < 0x1_0000_0000 && (sum == a + b || sum + 0x1_0000_0000 == a + b)
  }

  /** Turning x at the bit of weight m brings its low part up by t and its high part down. */
  predicate TurnIs(x: nat, high: nat, turned: nat, m: nat, t: nat) {
    0 <= x - m * high < m && turned == (x - m * high) * t + high
  }

  lemma SumIsAdd(a: word, b: word, sum: word)
    requires SumIs(a, b, sum)
    ensures Add(a, b) == sum
  {
  }

  lemma TurnIsRotl(x: word, high: nat, turned: word, k: nat, m: nat, t: nat)
    requires k <= 32 && m == TwoTo(32 - k) && t == TwoTo(k) && TurnIs(x, high, turned, m, t)
    ensures Rotl(x, k) == turned
  {
    hide TwoTo, Low, Shr;
    ShrSplit(x, 32 - k);
    Divided(x, m, Shr(x, 32 - k), Low(x, 32 - k));
    Divided(x, m, high, x - m * high);
  }

  lemma Weights()
    ensures TwoTo(7) == 0x80 && TwoTo(8) == 0x100 && TwoTo(12) == 0x1000 && TwoTo(16) == 0x1_0000
    ensures TwoTo(20) == 0x10_0000 && TwoTo(24) == 0x100_0000 && TwoTo(25) == 0x200_0000
  {
    assert TwoTo(4) == 0x10;
    assert TwoTo(8) == 2 * TwoTo(7) && TwoTo(25) == 2 * TwoTo(24);
    TwoToSum(4, 4);
    TwoToSum(4, 8);
    TwoToSum(8, 8);
    TwoToSum(4, 16);
    TwoToSum(8, 16);
  }

  /** Adding b to a, mixing the sum into d and turning d by the bit of weight m. */
  predicate StepIs(a: bv32, b: bv32, d: bv32, sum: bv32, high: nat, turned: bv32, m: nat, t: nat) {
    SumIs(Number(a), Number(b), Number(sum)) && TurnIs(Number(Mixture(d, sum)), high, Number(turned), m, t)
  }

  lemma StepIsRight(a: bv32, b: bv32, d: bv32, sum: bv32, high: nat, turned: bv32, k: nat, m: nat, t: nat)
    requires StepIs(a, b, d, sum, high, turned, m, t) && k <= 32 && m == TwoTo(32 - k) && t == TwoTo(k)
    ensures Add(Number(a), Number(b)) == Number(sum)
    ensures Rotl(Xor(Number(d), Number(sum)), k) == Number(turned)
  {
    hide TwoTo, Number, Xor, Add, Rotl, SumIs, TurnIs, Mixture;
    SumIsAdd(Number(a), Number(b), Number(sum));
    XorNumber(d, sum);
    TurnIsRotl(Number(Mixture(d, sum)), high, Number(turned), k, m, t);
  }

  function QuarterOf(a: bv32, b: bv32, c: bv32, d: bv32): (word, word, word, word) {
    QuarterRound(Number(a), Number(b), Number(c), Number(d))
  }

  function Quarter(a: bv32, b: bv32, c: bv32, d: bv32): (word, word, word, word) {
    (Number(a), Number(b), Number(c), Number(d))
  }

  /** A quarter round with the words it passes through, and the bits that come down in its four turns. */
  lemma QuarterIs(a: bv32, b: bv32, c: bv32, d: bv32, a1: bv32, h1: nat, d1: bv32, c1: bv32, h2: nat, b1: bv32,
                  a2: bv32, h3: nat, d2: bv32, c2: bv32, h4: nat, b2: bv32)
    requires StepIs(a, b, d, a1, h1, d1, 0x1_0000, 0x1_0000)
    requires StepIs(c, d1, b, c1, h2, b1, 0x10_0000, 0x1000)
    requires StepIs(a1, b1, d1, a2, h3, d2, 0x100_0000, 0x100)
    requires StepIs(c1, d2, b1, c2, h4, b2, 0x200_0000, 0x80)
    ensures QuarterOf(a, b, c, d) == Quarter(a2, b2, c2, d2)
  {
    hide TwoTo, Number, Xor, Add, Rotl, StepIs;
    Weights();
    StepIsRight(a, b, d, a1, h1, d1, 16, 0x1_0000, 0x1_0000);
    StepIsRight(c, d1, b, c1, h2, b1, 12, 0x10_0000, 0x1000);
    StepIsRight(a1, b1, d1, a2, h3, d2, 8, 0x100_0000, 0x100);
    StepIsRight(c1, d2, b1, c2, h4, b2, 7, 0x200_0000, 0x80);
  }

  /** Four words, as bit vectors. */
  datatype Four = Four(a: bv32, b: bv32, c: bv32, d: bv32)

  /** The state with these rows. */
  function Rows(r0: Four, r1: Four, r2: Four, r3: Four): State {
    State(RowOf(r0), RowOf(r1), RowOf(r2), RowOf(r3))
  }

  function RowOf(v: Four): Row {
    Row(Number(v.a), Number(v.b), Number(v.c), Number(v.d))
  }
}
