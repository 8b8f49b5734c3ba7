/** Reducing an exponent modulo (p - 1) * (p - 1) when the modulus is the square of a prime p. */
module SquareModulus {
  import opened Arithmetic
  import opened NumberTheory

  /** What (1 + p * t)^m has beyond 1 + m * p * t, in multiples of p * p. */
  function Beyond(p: int, t: int, m: nat): int {
    if m == 0 then 0 else Beyond(p, t, m - 1) * (1 + p * t) + (m - 1) * (t * t)
  }

  lemma SquareOf(p: int, t: int)
    ensures (p * t) * (p * t) == (p * p) * (t * t)
  {
  }

  lemma BinomialStep(s: int, k: int, square: int, t2: int, c: int, power: int)
    requires s * s == square * t2 && power == 1 + k * s + square * c
    ensures (1 + s) * power == 1 + (k + 1) * s + square * (c * (1 + s) + k * t2)
  {
    Distribute(power, 1, s);
    Distribute(s, 1 + k * s, square * c);
    Distribute(s, 1, k * s);
    Swap(s, k, s);
    Swap(k, square, t2);
    Swap(s, square, c);
    Distribute(square, c * (1 + s), k * t2);
    Distribute(c, 1, s);
    Distribute(square, c, c * s);
    Distribute(s, k, 1);
  }

  lemma {:induction false} Binomial(p: int, t: int, m: nat)
    ensures Pow(1 + p * t, m) == 1 + m * (p * t) + p * p * Beyond(p, t, m)
  {
    if m > 0 {
      Binomial(p, t, m - 1);
      SquareOf(p, t);
      BinomialStep(p * t, m - 1, p * p, t * t, Beyond(p, t, m - 1), Pow(1 + p * t, m - 1));
    } else {
      assert 0 * (p * t) == 0 && p * p * 0 == 0;
    }
  }

  lemma MultipleOfSquare(p: nat, v: int)
    requires p >= 2
    ensures p * p > 0
    ensures (p * v) % (p * p) == 0 <==> v % p == 0
  {
    PositiveProduct(p, p);
    if v % p == 0 {
      Associate(p, p, v / p);
      Divided(p * v, p * p, v / p, 0);
    } else if (p * v) % (p * p) == 0 {
      var w := p * v / (p * p);
      Associate(p, p, w);
      Cancel(p, v, p * w);
      Divided(v, p, w, 0);
    }
  }

  lemma Cancel(p: nat, v: int, w: int)
    requires p > 0 && p * v == p * w
    ensures v == w
  {
    if v < w { Monotone(v + 1, w, p); } else if w < v { Monotone(w + 1, v, p); }
  }

  lemma OneModSquare(p: nat, t: int)
    requires p >= 2
    ensures p * p > 0
    ensures (1 + p * t) % (p * p) == 1 <==> t % p == 0
  {
    MultipleOfSquare(p, t);
    Monotone(2, p, p);
    Divided(1, p * p, 0, 1);
    SameResidue(1 + p * t, 1, p * p);
  }

  /** A prime divides none of the powers of a number that it does not divide. */
  lemma {:induction false} PowUndivided(p: nat, x: int, e: nat)
    requires Prime(p) && x % p != 0
    ensures Pow(x, e) % p != 0
  {
    if e == 0 {
      Divided(1, p, 0, 1);
    } else {
      hide Prime;
      PowUndivided(p, x, e - 1);
      if Pow(x, e) % p == 0 { Euclid(p, x, Pow(x, e - 1)); }
    }
  }

  lemma DividesMultiple(p: nat, a: int, b: int)
    requires p > 0 && a % p == 0
    ensures (a * b) % p == 0 && (b * a) % p == 0
  {
    MultipleTimes(p, a, b);
    Swap(a, b, 1);
  }

  lemma DividesProduct(p: nat, y: int, k: int, d: int, t: int)
    requires Prime(p)
    requires y % p != 0 && k % p != 0
    ensures (y * (k * d * t)) % p == 0 <==> d % p == 0 || t % p == 0
  {
    assert p > 0;
    hide Prime;
    if (y * (k * d * t)) % p == 0 {
      Euclid(p, y, k * d * t);
      Euclid(p, k * d, t);
      if t % p != 0 { Euclid(p, k, d); }
    } else if d % p == 0 {
      DividesMultiple(p, d, k);
      DividesMultiple(p, k * d, t);
      DividesMultiple(p, k * d * t, y);
    } else if t % p == 0 {
      DividesMultiple(p, t, k * d);
      DividesMultiple(p, k * d * t, y);
    }
  }

  /** With u = 1 + p * t the difference of y * u^m and y is y * m * t * p, up to multiples of the square. */
  lemma Difference(p: nat, t: int, m: nat, y: int, power: int)
    requires p >= 2 && power == Pow(1 + p * t, m)
    ensures p * p > 0
    ensures (y * power) % (p * p) == y % (p * p) <==> (y * (m * t)) % p == 0
  {
    Binomial(p, t, m);
    MultipleOfSquare(p, y * (m * t));
    hide Pow;
    var c := Beyond(p, t, m);
    Distribute(y, power, 1);
    Distribute(y, m * (p * t), p * p * c);
    Swap(m, p, t);
    Swap(y, p, m * t);
    Swap(y, p * p, c);
    ModAddMultiple(p * (y * (m * t)), p * p, y * c);
    SameResidue(y * power, y, p * p);
    assert y * power - y == p * (y * (m * t)) + p * p * (y * c);
  }

  lemma UnitPower(p: nat, u: int, m: nat, y: int, d: nat)
    requires Prime(p) && u % p == 1 && y % p != 0 && m == (p - 1) * d
    ensures p * p > 0
    ensures (y * Pow(u, m)) % (p * p) == y % (p * p) <==> u % (p * p) == 1 || d % p == 0
  {
    var t := u / p;
    assert u == 1 + p * t;
    Divided(p - 1, p, 0, p - 1);
    DividesProduct(p, y, p - 1, d, t);
    hide Prime, Pow;
    OneModSquare(p, t);
    Difference(p, t, m, y, Pow(u, m));
  }

  /** Which exponents keep their meaning when reduced, for a base the prime does not divide. */
  lemma UnitReduced(p: nat, x: int, r: nat, d: nat, m: nat)
    requires Prime(p) && x % p != 0 && m == (p - 1) * d
    ensures p * p > 0
    ensures Pow(x, r + (p - 1) * m) % (p * p) == Pow(x, r) % (p * p)
      <==> Pow(x, p - 1) % (p * p) == 1 || d % p == 0
  {
    assert p > 1;
    hide Pow, Prime;
    Fermat(p, x);
    PowUndivided(p, x, r);
    PowAdd(x, r, (p - 1) * m);
    PowMul(x, p - 1, m);
    UnitPower(p, Pow(x, p - 1), m, Pow(x, r), d);
  }

  lemma HighPower(p: nat, x: int, e: nat)
    requires p >= 2 && x % p == 0
    ensures p * p > 0
    ensures e >= 2 ==> Pow(x, e) % (p * p) == 0
    ensures e == 0 ==> Pow(x, e) % (p * p) == 1
  {
    Monotone(2, p, p);
    Divided(1, p * p, 0, 1);
    if e >= 2 {
      PowOfMultiple(p, x, e - 1);
      var v := Pow(x, e - 1);
      Multiples(p, x, x / p, v, v / p);
      Divided(x * v, p * p, (x / p) * (v / p), 0);
    }
  }

  lemma Multiples(p: int, x: int, a: int, v: int, b: int)
    requires x == p * a && v == p * b
    ensures x * v == p * p * (a * b)
  {
    Associate(p, a, p * b);
    Swap(a, p, b);
    Associate(p, p, a * b);
  }

  lemma EvenRemainder(e: nat, half: nat)
    requires e % 2 == 0 && half > 0
    ensures e % (2 * half) % 2 == 0
  {
    var d := e / (2 * half);
    Associate(2, half, d);
    assert e == 2 * (half * d) + e % (2 * half);
  }

  /** (p - 1) * (p - 1) is even for odd p, so the remainder of an even exponent is never 1. */
  lemma RemainderNotOne(p: nat, e: nat)
    requires p % 2 == 1 && p >= 3 && e % 2 == 0
    ensures Totient(p, p) > 0 && e % Totient(p, p) != 1
  {
    TotientPositive(p, p);
    var h := (p - 1) / 2;
    PositiveProduct(h, p - 1);
    EvenRemainder(e, h * (p - 1));
    TwiceProduct(h, p - 1);
    hide Totient;
    TotientOfOdd(p, h);
  }

  lemma TwiceProduct(h: nat, k: nat)
    ensures 2 * h * k == 2 * (h * k)
  {
  }

  lemma TotientOfOdd(p: nat, h: nat)
    requires p == 2 * h + 1
    ensures Totient(p, p) == 2 * h * (p - 1)
  {
  }

  /**
   * Modulo the square of an odd prime an even exponent may be reduced modulo (p - 1) * (p - 1)
   * exactly in these cases; d is the quotient of the division.
   */
  ghost predicate ReducesModSquare(p: nat, x: int, e: nat)
    requires p >= 2
  {
    TotientPositive(p, p);
    if x % p == 0 then e % Totient(p, p) != 0
    else Pow(x, p - 1) % (p * p) == 1 || e / Totient(p, p) % p == 0
  }

  lemma ReducedModSquare(p: nat, x: int, e: nat)
    requires Prime(p) && p % 2 == 1 && e % 2 == 0 && e >= 2
    ensures Totient(p, p) > 0 && p * p > 0
    ensures Pow(x, e) % (p * p) == Pow(x, e % Totient(p, p)) % (p * p) <==> ReducesModSquare(p, x, e)
  {
    TotientPositive(p, p);
    assert p >= 3;
    hide Totient, Prime, Pow;
    QuotientAndRemainder(e, Totient(p, p));
    RemainderNotOne(p, e);
    if x % p == 0 {
      ReducedMultiple(p, x, e, e % Totient(p, p));
    } else {
      ReducedUnit(p, x, e, e % Totient(p, p), e / Totient(p, p));
    }
  }

  lemma ReducedMultiple(p: nat, x: int, e: nat, r: nat)
    requires p >= 2 && x % p == 0 && e >= 2 && r != 1
    ensures p * p > 0
    ensures Pow(x, e) % (p * p) == Pow(x, r) % (p * p) <==> r != 0
  {
    hide Pow;
    HighPower(p, x, e);
    HighPower(p, x, r);
  }

  lemma QuotientAndRemainder(e: nat, m: nat)
    requires m > 0
    ensures e == m * (e / m) + e % m
  {
  }

  lemma ReducedUnit(p: nat, x: int, e: nat, r: nat, d: nat)
    requires Prime(p) && x % p != 0 && e == Totient(p, p) * d + r
    ensures p * p > 0
    ensures Pow(x, e) % (p * p) == Pow(x, r) % (p * p) <==> Pow(x, p - 1) % (p * p) == 1 || d % p == 0
  {
    TotientMultiple(p, p, d);
    UnitReduced(p, x, r, d, (p - 1) * d);
  }
}
