/** Powers, residues and primes, up to Fermat's little theorem and its form for a product of two primes. */
module NumberTheory {
  import opened Arithmetic

  function Pow(b: int, e: nat): int {
    if e == 0 then 1 else b * Pow(b, e - 1)
  }

  lemma {:induction false} PowAdd(b: int, d: nat, e: nat)
    ensures Pow(b, d + e) == Pow(b, d) * Pow(b, e)
  {
    if d > 0 {
      PowAdd(b, d - 1, e);
      assert b * (Pow(b, d - 1) * Pow(b, e)) == b * Pow(b, d - 1) * Pow(b, e);
    }
  }

  lemma {:induction false} PowMul(b: int, d: nat, e: nat)
    ensures Pow(b, d * e) == Pow(Pow(b, d), e)
  {
    if e == 0 {
      assert d * e == 0;
    } else {
      assert d * e == d + d * (e - 1);
      PowMul(b, d, e - 1);
      PowAdd(b, d, d * (e - 1));
    }
  }

  lemma ModAddMultiple(x: int, m: nat, k: int)
    requires m > 0
    ensures (x + m * k) % m == x % m
  {
    assert x + m * k == m * (x / m + k) + x % m;
    Divided(x + m * k, m, x / m + k, x % m);
  }

  lemma ModMul(a: int, b: int, m: nat)
    requires m > 0
    ensures (a * b) % m == (a % m * b) % m
    ensures (a * b) % m == (a * (b % m)) % m
  {
    var r, s := a % m, b % m;
    assert a * b == r * b + m * (a / m * b) by {
      assert (m * (a / m) + r) * b == r * b + m * (a / m * b);
    }
    assert a * b == a * s + m * (b / m * a) by {
      assert a * (m * (b / m) + s) == a * s + m * (b / m * a);
    }
    ModAddMultiple(r * b, m, a / m * b);
    ModAddMultiple(a * s, m, b / m * a);
  }

  lemma {:induction false} PowMod(b: int, e: nat, m: nat)
    requires m > 0
    ensures Pow(b, e) % m == Pow(b % m, e) % m
  {
    if e > 0 {
      PowMod(b, e - 1, m);
      ModMul(b, Pow(b, e - 1), m);
      ModMul(b % m, Pow(b, e - 1), m);
      ModMul(b % m, Pow(b % m, e - 1), m);
    }
  }

  lemma SameResidue(a: int, b: int, m: nat)
    requires m > 0
    ensures a % m == b % m <==> (a - b) % m == 0
  {
    if a % m == b % m {
      DifferenceDivides(a, b, m, a / m, b / m, a % m);
    } else if (a - b) % m == 0 {
      MultipleApart(a, b, m, (a - b) / m);
    }
  }

  lemma DifferenceDivides(a: int, b: int, m: nat, j: int, k: int, r: int)
    requires m > 0 && a == m * j + r && b == m * k + r
    ensures (a - b) % m == 0
  {
    Distribute(m, j, k);
    Divided(a - b, m, j - k, 0);
  }

  lemma MultipleApart(a: int, b: int, m: nat, k: int)
    requires m > 0 && a - b == m * k
    ensures a % m == b % m
  {
    ModAddMultiple(b, m, k);
  }

  ghost predicate Prime(p: nat) {
    p >= 2 && forall d :: 1 < d < p ==> p % d != 0
  }

  /** A prime divides a product only if it divides a factor; by the remainders of p, p mod a, ... */
  lemma {:induction false} EuclidSmall(p: nat, a: nat, b: int)
    requires Prime(p) && 0 < a < p && (a * b) % p == 0
    ensures b % p == 0
    decreases a
  {
    if a > 1 {
      var q, r := p / a, p % a;
      assert 0 < r < a;
      var k := a * b / p;
      assert a * b == p * k;
      assert r * b == p * (b - q * k) by {
        assert (p - q * a) * b == p * b - q * (a * b);
        assert q * (p * k) == p * (q * k);
        assert p * b - p * (q * k) == p * (b - q * k);
      }
      ModAddMultiple(0, p, b - q * k);
      EuclidSmall(p, r, b);
    }
  }

  lemma Euclid(p: nat, a: int, b: int)
    requires Prime(p) && (a * b) % p == 0
    ensures a % p == 0 || b % p == 0
  {
    if a % p != 0 {
      ModMul(a, b, p);
      EuclidSmall(p, a % p, b);
    }
  }

  /** The product of a finite set of numbers. */
  ghost function Product(s: set<nat>): nat {
    if s == {} then 1 else
      var x := Least(s);
      x * Product(s - {x})
  }

  ghost function Least(s: set<nat>): (x: nat)
    requires s != {}
    ensures x in s && forall y :: y in s ==> x <= y
  {
    var x :| x in s;
    if s == {x} then x else
      assert s == (s - {x}) + {x};
      var y := Least(s - {x});
      if x <= y then x else y
  }

  /** The order in which the factors are taken does not matter. */
  lemma {:induction false} ProductRemove(s: set<nat>, x: nat)
    requires x in s
    ensures Product(s) == x * Product(s - {x})
    decreases s
  {
    var y := Least(s);
    if y != x {
      var u := s - {y} - {x};
      assert s - {x} - {y} == u;
      ProductRemove(s - {y}, x);
      ProductRemove(s - {x}, y);
      Swap(x, y, Product(u));
    }
  }

  lemma Swap(x: int, y: int, z: int)
    ensures x * (y * z) == y * (x * z)
  {
  }

  /** The residues of a * x for x in s. */
  ghost function Scaled(s: set<nat>, a: int, p: nat): set<nat>
    requires p > 0
  {
    set x | x in s :: a * x % p
  }

  ghost function Units(p: nat): (s: set<nat>)
    ensures forall x :: x in s <==> 1 <= x < p
    ensures |s| == if p == 0 then 0 else p - 1
  {
    if p <= 1 then {} else Units(p - 1) + {p - 1}
  }

  /** Multiplying by a is injective on the residues of a prime that does not divide a. */
  lemma ScaleInjective(p: nat, a: int, x: nat, y: nat)
    requires Prime(p) && a % p != 0 && x < p && y < p && a * x % p == a * y % p
    ensures x == y
  {
    Distribute(a, x, y);
    SameResidue(a * x, a * y, p);
    hide Prime;
    Euclid(p, a, x - y);
    SmallMultiple(x - y, p);
  }

  lemma SmallMultiple(d: int, p: nat)
    requires 0 - p < d < p && d % p == 0
    ensures d == 0
  {
    if d < 0 { Divided(d, p, 0 - 1, p + d); } else { Divided(d, p, 0, d); }
  }

  /** Splitting one element off a scaled set. */
  lemma ScaledStep(t: set<nat>, x: nat, a: int, p: nat)
    requires Prime(p) && a % p != 0 && t <= Units(p) && x in Units(p) && x !in t
    ensures Scaled(t + {x}, a, p) == Scaled(t, a, p) + {a * x % p}
    ensures a * x % p !in Scaled(t, a, p) && a * x % p in Units(p)
  {
    forall z | z in t ensures a * z % p != a * x % p {
      if a * z % p == a * x % p { ScaleInjective(p, a, x, z); }
    }
    if a * x % p == 0 {
      Euclid(p, a, x);
      Divided(x, p, 0, x);
    }
  }

  lemma MulModStep(p: nat, a: int, x: nat, f: int, b: int, c: int)
    requires p > 0 && f % p == b * c % p
    ensures (a * x % p) * f % p == (a * b) * (x * c) % p
  {
    var y := a * x % p;
    ModMul(y, f, p);
    ModMul(y, b * c, p);
    ModMul(a * x, b * c, p);
    Regroup(a, x, b, c);
  }

  lemma {:induction false} ScaledProduct(s: set<nat>, a: int, p: nat)
    requires Prime(p) && a % p != 0 && s <= Units(p)
    ensures Scaled(s, a, p) <= Units(p) && |Scaled(s, a, p)| == |s|
    ensures Product(Scaled(s, a, p)) % p == Pow(a, |s|) * Product(s) % p
  {
    if s == {} {
      assert Scaled(s, a, p) == {};
    } else {
      var x := Least(s);
      var t := s - {x};
      assert s == t + {x};
      assert Product(s) == x * Product(t);
      hide Prime, Units, Scaled, Product, Pow;
      ScaledProduct(t, a, p);
      ScaledNext(t, x, a, p);
    }
  }

  lemma ScaledNext(t: set<nat>, x: nat, a: int, p: nat)
    requires Prime(p) && a % p != 0 && t <= Units(p) && x in Units(p) && x !in t
    requires Scaled(t, a, p) <= Units(p) && |Scaled(t, a, p)| == |t|
    requires Product(Scaled(t, a, p)) % p == Pow(a, |t|) * Product(t) % p
    ensures Scaled(t + {x}, a, p) <= Units(p) && |Scaled(t + {x}, a, p)| == |t| + 1
    ensures Product(Scaled(t + {x}, a, p)) % p == Pow(a, |t| + 1) * (x * Product(t)) % p
  {
    assert Pow(a, |t| + 1) == a * Pow(a, |t|);
    hide Prime, Units, Scaled, Product, Pow;
    ScaledStep(t, x, a, p);
    var y := a * x % p;
    assert Scaled(t + {x}, a, p) - {y} == Scaled(t, a, p);
    ProductRemove(Scaled(t + {x}, a, p), y);
    MulModStep(p, a, x, Product(Scaled(t, a, p)), Pow(a, |t|), Product(t));
  }

  lemma Regroup(a: int, x: int, b: int, c: int)
    ensures a * x * (b * c) == a * b * (x * c)
  {
  }

  lemma SubsetSameSize(s: set<nat>, t: set<nat>)
    requires s <= t && |s| == |t|
    ensures s == t
  {
    assert t == s + (t - s);
  }

  lemma {:induction false} ProductCoprime(s: set<nat>, p: nat)
    requires Prime(p) && s <= Units(p)
    ensures Product(s) % p != 0
  {
    if s == {} {
      Divided(1, p, 0, 1);
    } else {
      var x := Least(s);
      ProductCoprime(s - {x}, p);
      Divided(x, p, 0, x);
      if Product(s) % p == 0 { Euclid(p, x, Product(s - {x})); }
    }
  }

  lemma CancelMod(p: nat, f: int, g: int)
    requires Prime(p) && f * g % p == g % p && g % p != 0
    ensures f % p == 1
  {
    var k := f * g / p - g / p;
    assert (f - 1) * g == p * k;
    ModAddMultiple(0, p, k);
    Euclid(p, f - 1, g);
    Divided(f, p, (f - 1) / p, 1);
  }

  /** Fermat's little theorem. */
  lemma Fermat(p: nat, a: int)
    requires Prime(p) && a % p != 0
    ensures Pow(a, p - 1) % p == 1
  {
    var s := Units(p);
    ScaledProduct(s, a, p);
    SubsetSameSize(Scaled(s, a, p), s);
    ProductCoprime(s, p);
    CancelMod(p, Pow(a, p - 1), Product(s));
  }

  lemma {:induction false} PowOfMultiple(p: nat, x: int, e: nat)
    requires p > 0 && x % p == 0 && e >= 1
    ensures Pow(x, e) % p == 0
  {
    assert Pow(x, e) == x * Pow(x, e - 1);
    hide Pow;
    MultipleTimes(p, x, Pow(x, e - 1));
  }

  lemma MultipleTimes(p: nat, x: int, y: int)
    requires p > 0 && x % p == 0
    ensures (x * y) % p == 0
  {
    assert x == p * (x / p);
    Associate(p, x / p, y);
    Divided(x * y, p, x / p * y, 0);
  }

  lemma {:induction false} PowOne(d: nat)
    ensures Pow(1, d) == 1
  {
    if d > 0 { PowOne(d - 1); }
  }

  lemma PowUnit(p: nat, x: int, d: nat)
    requires Prime(p) && x % p != 0
    ensures Pow(x, (p - 1) * d) % p == 1
  {
    Fermat(p, x);
    hide Prime;
    PowMul(x, p - 1, d);
    PowMod(Pow(x, p - 1), d, p);
    PowOne(d);
    Divided(1, p, 0, 1);
  }

  /** Modulo a prime a positive exponent only matters up to multiples of p - 1, whatever the base. */
  lemma PowPeriodic(p: nat, x: int, e: nat, d: nat)
    requires Prime(p) && (e >= 1 || x % p != 0)
    ensures Pow(x, e + (p - 1) * d) % p == Pow(x, e) % p
  {
    NonNegative(p - 1, d);
    if x % p == 0 {
      PowOfMultiple(p, x, e);
      PowOfMultiple(p, x, e + (p - 1) * d);
    } else {
      PowUnit(p, x, d);
      hide Prime, Pow;
      PowAdd(x, e, (p - 1) * d);
      ModMul(Pow(x, e), Pow(x, (p - 1) * d), p);
    }
  }

  lemma PrimesCoprime(p: nat, q: nat)
    requires Prime(p) && Prime(q) && p != q
    ensures p % q != 0
  {
    if p < q { Divided(p, q, 0, p); }
  }

  lemma PositiveProduct(a: nat, b: nat)
    requires a > 0 && b > 0
    ensures a * b > 0 && a * b == b * a
  {
  }

  lemma FactorDivides(p: nat, q: nat, m: int)
    requires p > 0 && q > 0 && p * q > 0 && m % (p * q) == 0
    ensures m % p == 0
  {
    var l := m / (p * q);
    assert m == p * q * l == p * (q * l);
    Divided(m, p, q * l, 0);
  }

  /** Chinese remainders: a number divisible by two distinct primes is divisible by their product. */
  lemma BothDivide(p: nat, q: nat, m: int)
    requires Prime(p) && Prime(q) && p != q && p * q > 0
    ensures m % p == 0 && m % q == 0 <==> m % (p * q) == 0
  {
    PrimesCoprime(p, q);
    hide Prime;
    if m % p == 0 && m % q == 0 {
      var k := m / p;
      assert m == p * k;
      Euclid(q, p, k);
      var l := k / q;
      assert p * k == p * (q * l) == p * q * l;
      Divided(m, p * q, l, 0);
    } else if m % (p * q) == 0 {
      FactorDivides(p, q, m);
      PositiveProduct(p, q);
      FactorDivides(q, p, m);
    }
  }

  lemma SameResidueBoth(p: nat, q: nat, a: int, b: int)
    requires Prime(p) && Prime(q) && p != q && p * q > 0
    ensures a % p == b % p && a % q == b % q <==> a % (p * q) == b % (p * q)
  {
    hide Prime;
    BothDivide(p, q, a - b);
    SameResidue(a, b, p);
    SameResidue(a, b, q);
    SameResidue(a, b, p * q);
  }

  function Totient(p: nat, q: nat): nat
    requires p >= 1 && q >= 1
  {
    (p - 1) * (q - 1)
  }

  lemma TotientMultiple(p: nat, q: nat, d: nat)
    requires p >= 1 && q >= 1
    ensures Totient(p, q) * d == (p - 1) * ((q - 1) * d)
  {
  }

  lemma TotientPositive(p: nat, q: nat)
    requires p >= 2 && q >= 2
    ensures Totient(p, q) > 0 && Totient(p, q) == Totient(q, p) && p * q > 0
  {
    PositiveProduct(p - 1, q - 1);
    PositiveProduct(p, q);
  }

  /** Modulo p * q the exponent may be reduced modulo (p - 1) * (q - 1) exactly when the reduced
      exponent is not 0 or the base is a unit. */
  lemma ReducedExponent(p: nat, q: nat, x: int, e: nat)
    requires Prime(p) && Prime(q) && p != q && e >= 1
    ensures Totient(p, q) > 0 && p * q > 0
    ensures Pow(x, e) % (p * q) == Pow(x, e % Totient(p, q)) % (p * q)
      <==> e % Totient(p, q) != 0 || (x % p != 0 && x % q != 0)
  {
    TotientPositive(p, q);
    hide Prime, Pow, Totient;
    var r := e % Totient(p, q);
    ReducedExponentOne(p, q, x, e);
    ReducedExponentOne(q, p, x, e);
    SameResidueBoth(p, q, Pow(x, e), Pow(x, r));
  }

  lemma ReducedExponentOne(p: nat, q: nat, x: int, e: nat)
    requires Prime(p) && q >= 2 && e >= 1
    ensures Totient(p, q) > 0
    ensures Pow(x, e) % p == Pow(x, e % Totient(p, q)) % p <==> e % Totient(p, q) != 0 || x % p != 0
  {
    TotientPositive(p, q);
    var d := e / Totient(p, q);
    TotientMultiple(p, q, d);
    PeriodicStep(p, x, e % Totient(p, q), (q - 1) * d, e);
  }

  lemma PeriodicStep(p: nat, x: int, r: nat, c: nat, e: nat)
    requires Prime(p) && e >= 1 && e == r + (p - 1) * c
    ensures Pow(x, e) % p == Pow(x, r) % p <==> r != 0 || x % p != 0
  {
    if r != 0 || x % p != 0 {
      PowPeriodic(p, x, r, c);
    } else {
      ZeroExponent(p, x, e);
    }
  }

  lemma ZeroExponent(p: nat, x: int, e: nat)
    requires Prime(p) && x % p == 0 && e >= 1
    ensures Pow(x, e) % p != Pow(x, 0) % p
  {
    PowOfMultiple(p, x, e);
    Divided(1, p, 0, 1);
  }

  lemma OddProduct(u: int, c: int)
    requires u % 2 == 1
    ensures (u * c) % 2 == c % 2
  {
    ModMul(u, c, 2);
  }

  lemma {:induction false} OddDividesPowerOfTwo(u: nat, k: nat)
    requires u % 2 == 1 && Pow(2, k) % u == 0
    ensures u == 1
  {
    if k == 0 {
      if u > 1 { Divided(1, u, 0, 1); }
    } else {
      assert Pow(2, k) == 2 * Pow(2, k - 1);
      hide Pow;
      HalfDivisible(u, Pow(2, k - 1));
      OddDividesPowerOfTwo(u, k - 1);
    }
  }

  lemma HalfDivisible(u: nat, x: int)
    requires u % 2 == 1 && (2 * x) % u == 0
    ensures x % u == 0
  {
    var c := 2 * x / u;
    assert 2 * x == u * c;
    OddProduct(u, c);
    HalfProduct(u, c, c / 2);
    Divided(x, u, c / 2, 0);
  }

  lemma HalfProduct(u: int, c: int, half: int)
    requires c == 2 * half
    ensures u * c == 2 * (u * half)
  {
  }

  /** For distinct primes congruent to 3 modulo 4 no power of two is divisible by (p - 1) * (q - 1). */
  lemma BlumExponent(p: nat, q: nat, k: nat)
    requires p % 4 == 3 && q % 4 == 3 && p != q
    ensures Totient(p, q) > 0 && Pow(2, k) % Totient(p, q) != 0
  {
    hide Pow, Totient;
    OddHalf(p);
    OddHalf(q);
    BlumExponentHalves((p - 1) / 2, (q - 1) / 2, k);
  }

  lemma OddHalf(p: nat)
    requires p % 4 == 3
    ensures (p - 1) / 2 % 2 == 1 && p == 2 * ((p - 1) / 2) + 1
  {
  }

  lemma BlumExponentHalves(a: nat, b: nat, k: nat)
    requires a % 2 == 1 && b % 2 == 1 && a != b
    ensures Totient(2 * a + 1, 2 * b + 1) > 0 && Pow(2, k) % Totient(2 * a + 1, 2 * b + 1) != 0
  {
    hide Pow, Totient;
    TotientHalves(a, b);
    BlumHalves(a, b, k);
  }

  lemma TotientHalves(a: nat, b: nat)
    ensures Totient(2 * a + 1, 2 * b + 1) == 4 * (a * b)
  {
    TwiceTwice(a, b);
  }

  lemma BlumHalves(a: nat, b: nat, k: nat)
    requires a % 2 == 1 && b % 2 == 1 && a != b
    ensures a * b >= 1 && Pow(2, k) % (4 * (a * b)) != 0
  {
    OddProduct(a, b);
    assert a * b >= 1;
    if Pow(2, k) % (4 * (a * b)) == 0 {
      DivisorOfDivisor(Pow(2, k), a * b);
      OddDividesPowerOfTwo(a * b, k);
      FactorsOfOne(a, b);
    }
  }

  lemma TwiceTwice(a: int, b: int)
    ensures (2 * a) * (2 * b) == 4 * (a * b)
  {
  }

  lemma DivisorOfDivisor(x: int, u: nat)
    requires u > 0 && x % (4 * u) == 0
    ensures x % u == 0
  {
    var c := x / (4 * u);
    assert x == 4 * u * c == u * (4 * c);
    Divided(x, u, 4 * c, 0);
  }

  lemma FactorsOfOne(a: nat, b: nat)
    requires a * b == 1
    ensures a == 1 && b == 1
  {
    assert a >= 2 ==> a * b != 1;
  }
}
