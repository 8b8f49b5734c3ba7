/** Externals/CryptoPP/algebra.cpp: many exponents at once, by repeatedly dividing the largest by the next. */
module GeneralCascade {
  import opened Arithmetic
  import opened Cascade
  import opened Groups
  import opened SlidingWindow

  datatype Term = Term(base: Element, exponent: nat)

  ghost function Value(g: Group, t: Term): Element {
    g.Times(t.exponent, t.base)
  }

  /** The sum of all exponents times their bases. */
  ghost function Sum(g: Group, s: seq<Term>): Element {
    if s == [] then g.zero else g.add(Value(g, s[0]), Sum(g, s[1..]))
  }

  ghost function TotalExponent(s: seq<Term>): nat {
    if s == [] then 0 else s[0].exponent + TotalExponent(s[1..])
  }

  ghost function Without(s: seq<Term>, k: nat): seq<Term>
    requires k < |s|
  {
    s[..k] + s[k + 1..]
  }

  /** Any term can be taken out first. */
  lemma {:induction false} SumWithout(g: Group, s: seq<Term>, k: nat)
    requires g.Abelian() && k < |s|
    ensures Sum(g, s) == g.add(Value(g, s[k]), Sum(g, Without(s, k)))
    ensures TotalExponent(s) == s[k].exponent + TotalExponent(Without(s, k))
  {
    hide Group.Abelian, Value;
    if k == 0 {
      assert Without(s, 0) == s[1..];
    } else {
      SumWithout(g, s[1..], k - 1);
      assert Without(s, k)[1..] == Without(s[1..], k - 1);
      var a, b, r := Value(g, s[0]), Value(g, s[k]), Sum(g, Without(s[1..], k - 1));
      Rotate(g, a, b, r);
    }
  }

  lemma Rotate(g: Group, a: Element, b: Element, c: Element)
    requires g.Abelian()
    ensures g.add(a, g.add(b, c)) == g.add(b, g.add(a, c))
  {
    assert g.AssociativeAt(a, b, c) && g.AssociativeAt(b, a, c) && g.CommutativeAt(a, b);
  }

  lemma WithoutMultiset(s: seq<Term>, k: nat)
    requires k < |s|
    ensures multiset(Without(s, k)) == multiset(s) - multiset{s[k]}
  {
    assert s == s[..k] + [s[k]] + s[k + 1..];
  }

  /** The order of the terms does not matter. */
  lemma {:induction false} SumPermuted(g: Group, s: seq<Term>, t: seq<Term>)
    requires g.Abelian() && multiset(s) == multiset(t)
    ensures Sum(g, s) == Sum(g, t) && TotalExponent(s) == TotalExponent(t)
  {
    hide Group.Abelian, Value;
    if s == [] {
      assert |t| == |multiset(t)| == 0;
    } else {
      assert s[0] in multiset(t);
      var k :| 0 <= k < |t| && t[k] == s[0];
      SumWithout(g, t, k);
      WithoutMultiset(s, 0);
      WithoutMultiset(t, k);
      assert Without(s, 0) == s[1..];
      SumPermuted(g, s[1..], Without(t, k));
    }
  }

  /** Dividing the last exponent by the first and moving the quotient into the first base keeps the sum. */
  lemma DivideKeepsSum(g: Group, s: seq<Term>, q: nat, r: nat, base: Element)
    requires g.Abelian() && |s| >= 2
    requires s[|s| - 1].exponent == q * s[0].exponent + r
    requires base == g.add(s[0].base, g.Times(q, s[|s| - 1].base))
    ensures Sum(g, s[0 := Term(base, s[0].exponent)][|s| - 1 := Term(s[|s| - 1].base, r)]) == Sum(g, s)
    ensures TotalExponent(s[0 := Term(base, s[0].exponent)][|s| - 1 := Term(s[|s| - 1].base, r)])
         == TotalExponent(s) - q * s[0].exponent
  {
    hide Group.Abelian, Group.Times;
    var n := |s| - 1;
    var t := s[0 := Term(base, s[0].exponent)][n := Term(s[n].base, r)];
    var mid := s[1..n];
    SumWithout(g, s[1..], n - 1);
    SumWithout(g, t[1..], n - 1);
    assert Without(s[1..], n - 1) == mid && Without(t[1..], n - 1) == mid;
    var e, b, d := s[0].exponent, s[0].base, s[n].base;
    TimesAdd(g, e, b, g.Times(q, d));
    TimesTimes(g, e, q, d);
    TimesSum(g, e * q, r, d);
    Regroup(g, g.Times(e, b), g.Times(e * q, d), g.Times(r, d), Sum(g, mid));
    assert e * q == q * e;
  }

  /** (a + b) + (c + d) == a + ((b + c) + d) */
  lemma Regroup(g: Group, a: Element, b: Element, c: Element, d: Element)
    requires g.Abelian()
    ensures g.add(g.add(a, b), g.add(c, d)) == g.add(a, g.add(g.add(b, c), d))
  {
    assert g.AssociativeAt(a, b, g.add(c, d)) && g.AssociativeAt(b, c, d);
  }

  /** If all but the last exponent are zero the sum is the last term. */
  lemma {:induction false} OnlyLastTerm(g: Group, s: seq<Term>)
    requires g.Abelian() && |s| > 0 && forall i :: 0 <= i < |s| - 1 ==> s[i].exponent == 0
    ensures Sum(g, s) == Value(g, s[|s| - 1])
  {
    if |s| == 1 {
      assert Sum(g, s[1..]) == g.zero;
      assert g.UnitAt(Value(g, s[0]));
    } else {
      OnlyLastTerm(g, s[1..]);
      var v := Sum(g, s[1..]);
      assert g.UnitAt(v) && g.CommutativeAt(g.zero, v);
    }
  }

  function Parent(i: nat): nat
    requires i > 0
  {
    (i - 1) / 2
  }

  ghost predicate HeapAt(s: seq<Term>, i: nat)
    requires 0 < i < |s|
  {
    s[Parent(i)].exponent >= s[i].exponent
  }

  /** The first n terms form a heap, largest exponent first. */
  ghost predicate IsHeap(s: seq<Term>, n: nat) {
    n <= |s| && forall i :: 0 < i < n ==> HeapAt(s, i)
  }

  lemma {:induction false} HeapTop(s: seq<Term>, n: nat, i: nat)
    requires IsHeap(s, n) && i < n
    ensures s[i].exponent <= s[0].exponent
  {
    if i > 0 {
      HeapTop(s, n, Parent(i));
      assert HeapAt(s, i);
    }
  }

  function Swapped(s: seq<Term>, i: nat, j: nat): (t: seq<Term>)
    requires i < |s| && j < |s|
    ensures |t| == |s|
  {
    s[i := s[j]][j := s[i]]
  }

  /** A heap but for the term at k, which may exceed its parent but whose children do not. */
  ghost predicate RisingAt(s: seq<Term>, n: nat, k: nat) {
    && k < n <= |s|
    && (forall i :: 0 < i < n && i != k ==> HeapAt(s, i))
    && (forall i :: 0 < i < n && k > 0 && Parent(i) == k ==> s[Parent(k)].exponent >= s[i].exponent)
  }

  lemma Rise(s: seq<Term>, n: nat, k: nat)
    requires RisingAt(s, n, k) && k > 0 && s[Parent(k)].exponent < s[k].exponent
    ensures RisingAt(Swapped(s, k, Parent(k)), n, Parent(k))
  {
    var p, t := Parent(k), Swapped(s, k, Parent(k));
    forall i | 0 < i < n && i != p ensures HeapAt(t, i) {
      assert i != k ==> HeapAt(s, i);
    }
    forall i | 0 < i < n && p > 0 && Parent(i) == p ensures t[Parent(p)].exponent >= t[i].exponent {
      assert HeapAt(s, p) && (i != k ==> HeapAt(s, i));
    }
  }

  /** A heap but for the term at k, which its children may exceed but not its parent. */
  ghost predicate SinkingAt(s: seq<Term>, n: nat, k: nat) {
    && n <= |s| && k < |s|
    && (forall i :: 0 < i < n && Parent(i) != k ==> HeapAt(s, i))
    && (forall i :: 0 < i < n && k > 0 && Parent(i) == k ==> s[Parent(k)].exponent >= s[i].exponent)
  }

  lemma Sink(s: seq<Term>, n: nat, k: nat, child: nat)
    requires SinkingAt(s, n, k) && 0 < child < n && Parent(child) == k
    requires s[child].exponent > s[k].exponent
    requires forall i :: 0 < i < n && Parent(i) == k ==> s[i].exponent <= s[child].exponent
    ensures SinkingAt(Swapped(s, k, child), n, child)
  {
    var t := Swapped(s, k, child);
    forall i | 0 < i < n && Parent(i) != child ensures HeapAt(t, i) {
      assert Parent(i) != k ==> HeapAt(s, i);
    }
    forall i | 0 < i < n && Parent(i) == child ensures t[Parent(child)].exponent >= t[i].exponent {
      assert HeapAt(s, i);
    }
  }

  method Swap(a: array<Term>, i: nat, j: nat)
    requires i < a.Length && j < a.Length
    modifies a
    ensures a[..] == Swapped(old(a[..]), i, j)
    ensures multiset(a[..]) == old(multiset(a[..]))
  {
    a[i], a[j] := a[j], a[i];
  }

  /** std::push_heap on the first n terms */
  method PushHeap(a: array<Term>, n: nat)
    requires 0 < n <= a.Length && IsHeap(a[..], n - 1)
    modifies a
    ensures IsHeap(a[..], n) && multiset(a[..]) == old(multiset(a[..]))
  {
    var k: nat := n - 1;
    while k > 0 && a[Parent(k)].exponent < a[k].exponent
      invariant k < n && multiset(a[..]) == old(multiset(a[..]))
      invariant RisingAt(a[..], n, k)
    {
      Rise(a[..], n, k);
      Swap(a, k, Parent(k));
      k := Parent(k);
    }
    assert k > 0 ==> HeapAt(a[..], k);
  }

  /** std::pop_heap on the whole range */
  method PopHeap(a: array<Term>)
    requires a.Length > 0 && IsHeap(a[..], a.Length)
    modifies a
    ensures IsHeap(a[..], a.Length - 1) && multiset(a[..]) == old(multiset(a[..]))
    ensures a[a.Length - 1] == old(a[0])
  {
    hide SinkingAt, HeapAt, IsHeap, Swapped;
    var n := a.Length - 1;
    PopStart(a[..]);
    Swap(a, 0, n);
    assert a[n] == old(a[0]) by { SwappedEnds(old(a[..]), 0, n); }
    var k: nat := 0;
    while 2 * k + 1 < n
      invariant 0 <= k <= n && multiset(a[..]) == old(multiset(a[..])) && a[n] == old(a[0])
      invariant SinkingAt(a[..], n, k)
      decreases n - k
    {
      var child := LargerChild(a, n, k);
      if a[child].exponent <= a[k].exponent {
        Sunk(a[..], n, k);
        return;
      }
      Sink(a[..], n, k, child);
      SwappedKeeps(a[..], k, child, n);
      Swap(a, k, child);
      k := child;
    }
    Sunk(a[..], n, k);
  }

  method LargerChild(a: array<Term>, n: nat, k: nat) returns (child: nat)
    requires 2 * k + 1 < n <= a.Length
    ensures 0 < child < n && Parent(child) == k
    ensures forall i :: 0 < i < n && Parent(i) == k ==> a[i].exponent <= a[child].exponent
  {
    child := 2 * k + 1;
    if child + 1 < n && a[child + 1].exponent > a[child].exponent {
      child := child + 1;
    }
  }

  lemma SwappedEnds(s: seq<Term>, i: nat, j: nat)
    requires i < |s| && j < |s|
    ensures Swapped(s, i, j)[j] == s[i]
  {
  }

  lemma SwappedKeeps(s: seq<Term>, i: nat, j: nat, m: nat)
    requires i < |s| && j < |s| && m < |s| && m != i && m != j
    ensures Swapped(s, i, j)[m] == s[m]
  {
  }

  lemma PopStart(s: seq<Term>)
    requires |s| > 0 && IsHeap(s, |s|)
    ensures SinkingAt(Swapped(s, 0, |s| - 1), |s| - 1, 0)
  {
    forall i | 0 < i < |s| - 1 && Parent(i) != 0 ensures HeapAt(Swapped(s, 0, |s| - 1), i) {
      assert HeapAt(s, i);
    }
  }

  lemma Sunk(s: seq<Term>, n: nat, k: nat)
    requires SinkingAt(s, n, k)
    requires forall i :: 0 < i < n && Parent(i) == k ==> s[i].exponent <= s[k].exponent
    ensures IsHeap(s, n)
  {
  }

  /** std::make_heap on the whole range */
  method MakeHeap(a: array<Term>)
    modifies a
    ensures IsHeap(a[..], a.Length) && multiset(a[..]) == old(multiset(a[..]))
  {
    for n := 0 to a.Length
      invariant IsHeap(a[..], n) && multiset(a[..]) == old(multiset(a[..]))
    {
      PushHeap(a, n + 1);
    }
  }

  /** GeneralCascadeMultiplication: the sum over the original pairs, for every non-empty range. */
  method GeneralCascadeMultiplication(g: Group, inversionIsFast: bool, pairs: array<Term>, unset: Element)
    returns (result: Element)
    requires g.Abelian() && pairs.Length > 0
    modifies pairs
    ensures result == Sum(g, old(pairs[..]))
  {
    hide Group.Abelian, Group.Times, IsHeap;
    var last := pairs.Length - 1;
    if pairs.Length == 1 {
      OnlyLastTerm(g, pairs[..]);
      result := ScalarMultiply(g, inversionIsFast, pairs[0].base, pairs[0].exponent);
    } else if pairs.Length == 2 {
      SumOfTwo(g, pairs[..]);
      result := CascadeScalarMultiply(g, pairs[0].base, pairs[0].exponent, pairs[1].base, pairs[1].exponent, unset);
    } else {
      MakeHeap(pairs);
      PopLargest(g, pairs);
      SumPermuted(g, pairs[..], old(pairs[..]));
      while pairs[0].exponent != 0
        invariant LargestLast(pairs[..])
        invariant Sum(g, pairs[..]) == Sum(g, old(pairs[..]))
        decreases TotalExponent(pairs[..])
      {
        DivideStep(g, inversionIsFast, pairs);
      }
      AllOthersZero(pairs[..]);
      OnlyLastTerm(g, pairs[..]);
      result := ScalarMultiply(g, inversionIsFast, pairs[last].base, pairs[last].exponent);
    }
  }

  lemma SumOfTwo(g: Group, s: seq<Term>)
    requires g.Abelian() && |s| == 2
    ensures Sum(g, s) == Combination(g, s[0].exponent, s[0].base, s[1].exponent, s[1].base)
  {
    OnlyLastTerm(g, s[1..]);
  }

  /** All but the last term form a heap and no exponent exceeds the last. */
  ghost predicate LargestLast(s: seq<Term>) {
    |s| >= 2 && IsHeap(s, |s| - 1) && s[0].exponent <= s[|s| - 1].exponent
  }

  lemma AllOthersZero(s: seq<Term>)
    requires LargestLast(s) && s[0].exponent == 0
    ensures forall i :: 0 <= i < |s| - 1 ==> s[i].exponent == 0
  {
    forall i | 0 <= i < |s| - 1 ensures s[i].exponent == 0 {
      HeapTop(s, |s| - 1, i);
    }
  }

  method PopLargest(g: Group, pairs: array<Term>)
    requires pairs.Length >= 2 && IsHeap(pairs[..], pairs.Length)
    modifies pairs
    ensures LargestLast(pairs[..]) && multiset(pairs[..]) == old(multiset(pairs[..]))
  {
    forall i | 0 <= i < pairs.Length ensures pairs[i].exponent <= pairs[0].exponent {
      HeapTop(pairs[..], pairs.Length, i);
    }
    ghost var before := pairs[..];
    PopHeap(pairs);
    assert pairs[0] in multiset(pairs[..]);
    assert pairs[0] in before;
  }

  /** The loop body: divides the largest exponent by the next largest and restores the heap. */
  method DivideStep(g: Group, inversionIsFast: bool, pairs: array<Term>)
    requires g.Abelian() && LargestLast(pairs[..]) && pairs[0].exponent != 0
    modifies pairs
    ensures LargestLast(pairs[..]) && Sum(g, pairs[..]) == old(Sum(g, pairs[..]))
    ensures TotalExponent(pairs[..]) < old(TotalExponent(pairs[..]))
  {
    hide Group.Abelian, Group.Times, IsHeap;
    var last := pairs.Length - 1;
    ghost var before := pairs[..];
    var t, d := pairs[last].exponent, pairs[0].exponent;
    var q, r := t / d, t % d;
    assert t == q * d + r && q >= 1;
    var scaled := pairs[last].base;
    if q == 1 {
      TimesOne(g, scaled);
    } else {
      scaled := ScalarMultiply(g, inversionIsFast, scaled, q);
    }
    var base := g.add(pairs[0].base, scaled);
    DivideKeepsSum(g, before, q, r, base);
    HeapUntouched(before, base, r);
    pairs[last] := Term(pairs[last].base, r);
    pairs[0] := Term(base, d);
    assert pairs[..] == before[0 := Term(base, d)][last := Term(before[last].base, r)];
    ghost var divided := pairs[..];
    PushHeap(pairs, pairs.Length);
    PopLargest(g, pairs);
    SumPermuted(g, pairs[..], divided);
    NonNegative(q - 1, d);
  }

  lemma HeapUntouched(s: seq<Term>, base: Element, r: nat)
    requires LargestLast(s)
    ensures IsHeap(s[0 := Term(base, s[0].exponent)][|s| - 1 := Term(s[|s| - 1].base, r)], |s| - 1)
  {
    var t := s[0 := Term(base, s[0].exponent)][|s| - 1 := Term(s[|s| - 1].base, r)];
    forall i | 0 < i < |s| - 1 ensures HeapAt(t, i) {
      assert HeapAt(s, i);
    }
  }
}
