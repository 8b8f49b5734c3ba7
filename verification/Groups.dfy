/** Abelian groups given by their operations, and integer multiples of their elements. */
module Groups {

  type Element(!new)

  datatype Group = Group(zero: Element, add: (Element, Element) -> Element, neg: Element -> Element) {

    ghost predicate AssociativeAt(a: Element, b: Element, c: Element) {
      add(add(a, b), c) == add(a, add(b, c))
    }

    ghost predicate CommutativeAt(a: Element, b: Element) {
      add(a, b) == add(b, a)
    }

    ghost predicate UnitAt(a: Element) {
      add(a, zero) == a
    }

    ghost predicate InverseAt(a: Element) {
      add(a, neg(a)) == zero
    }

    ghost predicate Abelian() {
      && (forall a, b, c :: AssociativeAt(a, b, c))
      && (forall a, b :: CommutativeAt(a, b))
      && (forall a :: UnitAt(a))
      && (forall a :: InverseAt(a))
    }

    /** k times x, for any integer k. */
    ghost function Times(k: int, x: Element): Element
      decreases if k < 0 then -k else k
    {
      if k == 0 then zero
      else if k > 0 then add(Times(k - 1, x), x)
      else add(Times(k + 1, x), neg(x))
    }
  }

  /** (a + b) + (c + d) == (a + c) + (b + d) */
  lemma Exchange(g: Group, a: Element, b: Element, c: Element, d: Element)
    requires g.Abelian()
    ensures g.add(g.add(a, b), g.add(c, d)) == g.add(g.add(a, c), g.add(b, d))
  {
    assert g.AssociativeAt(a, b, g.add(c, d));
    assert g.AssociativeAt(b, c, d);
    assert g.CommutativeAt(b, c);
    assert g.AssociativeAt(c, b, d);
    assert g.AssociativeAt(a, c, g.add(b, d));
  }

  lemma TimesSucc(g: Group, k: int, x: Element)
    requires g.Abelian()
    ensures g.Times(k + 1, x) == g.add(g.Times(k, x), x)
  {
    if k < 0 {
      var t := g.Times(k + 1, x);
      assert g.AssociativeAt(t, g.neg(x), x);
      assert g.CommutativeAt(g.neg(x), x) && g.InverseAt(x) && g.UnitAt(t);
    }
  }

  lemma {:induction false} TimesSum(g: Group, j: int, k: int, x: Element)
    requires g.Abelian()
    ensures g.add(g.Times(j, x), g.Times(k, x)) == g.Times(j + k, x)
    decreases if k < 0 then -k else k
  {
    var t := g.Times(j, x);
    if k == 0 {
      assert g.UnitAt(t);
    } else if k > 0 {
      TimesSum(g, j, k - 1, x);
      TimesSucc(g, j + k - 1, x);
      assert g.AssociativeAt(t, g.Times(k - 1, x), x);
    } else {
      TimesSum(g, j, k + 1, x);
      assert g.AssociativeAt(t, g.Times(k + 1, x), g.neg(x));
      TimesPred(g, j + k + 1, x);
    }
  }

  lemma TimesPred(g: Group, k: int, x: Element)
    requires g.Abelian()
    ensures g.Times(k - 1, x) == g.add(g.Times(k, x), g.neg(x))
  {
    if k > 0 {
      var t := g.Times(k - 1, x);
      assert g.AssociativeAt(t, x, g.neg(x));
      assert g.InverseAt(x) && g.UnitAt(t);
    }
  }

  lemma TimesOne(g: Group, x: Element)
    requires g.Abelian()
    ensures g.Times(1, x) == x
  {
    assert g.Times(0, x) == g.zero;
    assert g.CommutativeAt(g.zero, x) && g.UnitAt(x);
  }

  lemma InverseUnique(g: Group, a: Element, b: Element)
    requires g.Abelian() && g.add(a, b) == g.zero
    ensures b == g.neg(a)
  {
    var n := g.neg(a);
    assert g.InverseAt(a) && g.CommutativeAt(a, n);
    assert g.AssociativeAt(n, a, b);
    assert g.UnitAt(b) && g.CommutativeAt(g.zero, b) && g.UnitAt(n);
  }

  lemma TimesNeg(g: Group, k: int, x: Element)
    requires g.Abelian()
    ensures g.neg(g.Times(k, x)) == g.Times(-k, x)
  {
    TimesSum(g, k, -k, x);
    InverseUnique(g, g.Times(k, x), g.Times(-k, x));
  }

  lemma {:induction false} TimesTimes(g: Group, j: int, k: int, x: Element)
    requires g.Abelian()
    ensures g.Times(j, g.Times(k, x)) == g.Times(j * k, x)
    decreases if j < 0 then -j else j
  {
    var y := g.Times(k, x);
    if j > 0 {
      TimesTimes(g, j - 1, k, x);
      TimesSum(g, (j - 1) * k, k, x);
      assert (j - 1) * k + k == j * k;
    } else if j < 0 {
      TimesTimes(g, j + 1, k, x);
      TimesNeg(g, k, x);
      TimesSum(g, (j + 1) * k, -k, x);
      assert (j + 1) * k - k == j * k;
    }
  }

  lemma {:induction false} TimesAdd(g: Group, k: nat, x: Element, y: Element)
    requires g.Abelian()
    ensures g.Times(k, g.add(x, y)) == g.add(g.Times(k, x), g.Times(k, y))
  {
    if k == 0 {
      assert g.UnitAt(g.zero);
    } else {
      TimesAdd(g, k - 1, x, y);
      Exchange(g, g.Times(k - 1, x), g.Times(k - 1, y), x, y);
    }
  }
}
