/** Externals/CryptoPP/algebra.cpp: two exponents at once, over a sparse table of small combinations. */
module Cascade {
  import opened Arithmetic
  import opened Bits
  import opened Groups

  /** a x + b y */
  ghost function Combination(g: Group, a: int, x: Element, b: int, y: Element): Element {
    g.add(g.Times(a, x), g.Times(b, y))
  }

  lemma CombinationSum(g: Group, x: Element, y: Element, a: int, b: int, c: int, d: int)
    requires g.Abelian()
    ensures g.add(Combination(g, a, x, b, y), Combination(g, c, x, d, y)) == Combination(g, a + c, x, b + d, y)
  {
    hide Group.Abelian, Group.Times;
    Exchange(g, g.Times(a, x), g.Times(b, y), g.Times(c, x), g.Times(d, y));
    TimesSum(g, a, c, x);
    TimesSum(g, b, d, y);
  }

  lemma CombinationUnits(g: Group, x: Element, y: Element)
    requires g.Abelian()
    ensures x == Combination(g, 1, x, 0, y) && y == Combination(g, 0, x, 1, y)
    ensures g.zero == Combination(g, 0, x, 0, y)
  {
    TimesOne(g, x);
    TimesOne(g, y);
    assert g.UnitAt(x) && g.UnitAt(g.zero);
    assert g.CommutativeAt(g.zero, y) && g.UnitAt(y);
  }

  /** The table index of k x + r y for a table of size rows of size entries. */
  function Cell(size: nat, r: nat, k: nat): nat {
    r * size + k
  }

  /** The number of entries of the table, (1 << w) << w. */
  function Area(size: nat): nat {
    size * size
  }

  lemma CellInside(size: nat, r: nat, k: nat)
    requires r < size && k < size
    ensures Cell(size, r, k) < Area(size)
  {
    Monotone(r, size - 1, size);
    Distribute(size, size, 1);
  }

  lemma CellsDiffer(size: nat, r: nat, k: nat)
    requires r < size && k < size
    ensures forall s: nat, l: nat :: s < size && l < size && Cell(size, s, l) == Cell(size, r, k) ==> s == r && l == k
  {
    forall s: nat, l: nat | s < size && l < size && Cell(size, s, l) == Cell(size, r, k) ensures s == r && l == k {
      assert size * r + k == size * s + l;
      Divided(Cell(size, r, k), size, r, k);
      Divided(Cell(size, r, k), size, s, l);
    }
  }

  /** Entry (r, k) of the table has been computed. */
  ghost predicate Filled(g: Group, x: Element, y: Element, size: nat, table: seq<Element>, r: nat, k: nat)
  {
    Cell(size, r, k) < |table| && table[Cell(size, r, k)] == Combination(g, k, x, r, y)
  }

  /** Storing the sum of two computed entries computes another one and keeps the rest. */
  method StoreSum(g: Group, ghost x: Element, ghost y: Element, size: nat, table: seq<Element>,
                  at: nat, a: Element, b: Element,
                  ghost r: nat, ghost k: nat, ghost r1: nat, ghost k1: nat)
    returns (table': seq<Element>)
    requires g.Abelian() && |table| == Area(size) && r < size && k < size && at == Cell(size, r, k)
    requires r1 <= r && k1 <= k
    requires a == Combination(g, k1, x, r1, y) && b == Combination(g, k - k1, x, r - r1, y)
    ensures |table'| == |table| && Filled(g, x, y, size, table', r, k)
    ensures forall s: nat, l: nat :: s < size && l < size && Filled(g, x, y, size, table, s, l) ==>
      Filled(g, x, y, size, table', s, l)
  {
    CellInside(size, r, k);
    CellsDiffer(size, r, k);
    CombinationSum(g, x, y, k1, r1, k - k1, r - r1);
    hide Cell, Combination, Group.Abelian;
    table' := table[at := g.add(a, b)];
  }

  lemma CellSteps(size: nat, r: nat, k: nat)
    ensures Cell(size, r + 1, k) == Cell(size, r, k) + size
    ensures Cell(size, r, k + 1) == Cell(size, r, k) + 1
    ensures Cell(size, 0, k) == k
  {
    Distribute(size, r, 1);
  }

  /** The odd entries of the first row. */
  method FillFirstRow(g: Group, size: nat, x: Element, ghost y: Element, table: seq<Element>)
    returns (powerTable: seq<Element>)
    requires g.Abelian() && size >= 4 && size % 2 == 0 && |table| == Area(size)
    requires Filled(g, x, y, size, table, 0, 1) && Filled(g, x, y, size, table, 0, 2)
    ensures |powerTable| == |table| && Keeps(g, x, y, size, table, powerTable)
    ensures forall k: nat :: k < size && k % 2 == 1 ==> Filled(g, x, y, size, powerTable, 0, k)
  {
    hide Area, Cell, Combination, Group.Abelian, Filled;
    powerTable := table;
    var i := 3;
    while i < size
      invariant i % 2 == 1 && 3 <= i <= size + 1 && |powerTable| == |table|
      invariant Keeps(g, x, y, size, table, powerTable)
      invariant forall k: nat :: k < i && k % 2 == 1 && k < size ==> Filled(g, x, y, size, powerTable, 0, k)
    {
      Entry(g, x, y, size, powerTable, 0, i - 2);
      Entry(g, x, y, size, powerTable, 0, 2);
      CellSteps(size, 0, i);
      CellSteps(size, 0, i - 2);
      CellSteps(size, 0, 2);
      CellInside(size, 0, i);
      powerTable := StoreSum(g, x, y, size, powerTable, i, powerTable[i - 2], powerTable[2], 0, i, 0, i - 2);
      i := i + 2;
    }
  }

  lemma Entry(g: Group, x: Element, y: Element, size: nat, table: seq<Element>, r: nat, k: nat)
    requires Filled(g, x, y, size, table, r, k)
    ensures Cell(size, r, k) < |table| && table[Cell(size, r, k)] == Combination(g, k, x, r, y)
  {
  }

  ghost predicate Keeps(g: Group, x: Element, y: Element, size: nat, table: seq<Element>, table': seq<Element>) {
    forall s: nat, l: nat :: s < size && l < size && Filled(g, x, y, size, table, s, l) ==>
      Filled(g, x, y, size, table', s, l)
  }

  /** Every column with an odd number, from its first entry down. */
  method FillOddColumns(g: Group, size: nat, ghost x: Element, y: Element, table: seq<Element>)
    returns (powerTable: seq<Element>)
    requires g.Abelian() && size >= 4 && size % 2 == 0 && |table| == Area(size)
    requires forall k: nat :: k < size && k % 2 == 1 ==> Filled(g, x, y, size, table, 0, k)
    ensures |powerTable| == |table| && Keeps(g, x, y, size, table, powerTable)
    ensures forall r: nat, k: nat :: r < size && k < size && k % 2 == 1 ==> Filled(g, x, y, size, powerTable, r, k)
  {
    hide Area, Cell, Combination, Group.Abelian, Filled;
    powerTable := table;
    CombinationUnits(g, x, y);
    var i := 1;
    while i < size
      invariant i % 2 == 1 && 1 <= i <= size + 1 && |powerTable| == |table|
      invariant Keeps(g, x, y, size, table, powerTable)
      invariant forall r: nat, k: nat :: r < size && k < i && k % 2 == 1 && k < size ==>
        Filled(g, x, y, size, powerTable, r, k)
    {
      powerTable := FillColumn(g, size, x, y, powerTable, i);
      i := i + 2;
    }
  }

  method FillColumn(g: Group, size: nat, ghost x: Element, y: Element, table: seq<Element>, i: nat)
    returns (powerTable: seq<Element>)
    requires g.Abelian() && size >= 4 && i < size && |table| == Area(size)
    requires Filled(g, x, y, size, table, 0, i)
    ensures |powerTable| == |table| && Keeps(g, x, y, size, table, powerTable)
    ensures forall r: nat :: r < size ==> Filled(g, x, y, size, powerTable, r, i)
  {
    hide Area, Combination, Group.Abelian, Filled;
    CombinationUnits(g, x, y);
    powerTable := table;
    ghost var r := 1;
    var j := i + size;
    CellSteps(size, 0, i);
    while j < Area(size)
      invariant 1 <= r <= size && j == Cell(size, r, i) && |powerTable| == |table|
      invariant Keeps(g, x, y, size, table, powerTable)
      invariant forall s: nat :: s < r ==> Filled(g, x, y, size, powerTable, s, i)
      decreases size - r
    {
      InsideOnlyIf(size, r, i);
      CellSteps(size, r - 1, i);
      CellSteps(size, r, i);
      Entry(g, x, y, size, powerTable, r - 1, i);
      powerTable := StoreSum(g, x, y, size, powerTable, j, powerTable[j - size], y, r, i, r - 1, i);
      j := j + size;
      r := r + 1;
    }
    if r < size { CellInside(size, r, i); }
  }

  lemma InsideOnlyIf(size: nat, r: nat, k: nat)
    requires Cell(size, r, k) < Area(size)
    ensures r < size
  {
    if r >= size { Monotone(size, r, size); }
  }

  /** The entries of the first column with an odd number. */
  method FillFirstColumn(g: Group, size: nat, ghost x: Element, y: Element, table: seq<Element>)
    returns (powerTable: seq<Element>)
    requires g.Abelian() && size >= 4 && size % 2 == 0 && |table| == Area(size)
    requires Filled(g, x, y, size, table, 1, 0) && Filled(g, x, y, size, table, 2, 0)
    ensures |powerTable| == |table| && Keeps(g, x, y, size, table, powerTable)
    ensures forall r: nat :: r < size && r % 2 == 1 ==> Filled(g, x, y, size, powerTable, r, 0)
  {
    hide Area, Cell, Combination, Group.Abelian, Filled;
    CellSteps(size, 0, 0);
    CellSteps(size, 1, 0);
    CellSteps(size, 2, 0);
    powerTable := table;
    ghost var r := 3;
    var i := 3 * size;
    while i < Area(size)
      invariant r % 2 == 1 && 3 <= r <= size + 1 && i == Cell(size, r, 0) && |powerTable| == |table|
      invariant Keeps(g, x, y, size, table, powerTable)
      invariant forall s: nat :: s < r && s % 2 == 1 && s < size ==> Filled(g, x, y, size, powerTable, s, 0)
      decreases size + 1 - r
    {
      InsideOnlyIf(size, r, 0);
      CellSteps(size, r - 2, 0);
      CellSteps(size, r - 1, 0);
      CellSteps(size, r, 0);
      CellSteps(size, r + 1, 0);
      Entry(g, x, y, size, powerTable, r - 2, 0);
      Entry(g, x, y, size, powerTable, 2, 0);
      powerTable := StoreSum(g, x, y, size, powerTable, i, powerTable[i - 2 * size], powerTable[2 * size],
                             r, 0, r - 2, 0);
      i := i + 2 * size;
      r := r + 2;
    }
    if r < size { CellInside(size, r, 0); }
  }

  /** The entries with an even column number in the rows with an odd number. */
  method FillOddRows(g: Group, size: nat, x: Element, ghost y: Element, table: seq<Element>)
    returns (powerTable: seq<Element>)
    requires g.Abelian() && size >= 4 && size % 2 == 0 && |table| == Area(size)
    requires forall r: nat, k: nat :: r < size && k < size && k % 2 == 1 ==> Filled(g, x, y, size, table, r, k)
    ensures |powerTable| == |table| && Keeps(g, x, y, size, table, powerTable)
    ensures forall r: nat, k: nat :: r < size && 0 < k < size && r % 2 == 1 && k % 2 == 0 ==>
      Filled(g, x, y, size, powerTable, r, k)
  {
    hide Area, Cell, Combination, Group.Abelian, Filled;
    CellSteps(size, 0, 0);
    powerTable := table;
    ghost var r := 1;
    var i := size;
    while i < Area(size)
      invariant r % 2 == 1 && 1 <= r <= size + 1 && i == Cell(size, r, 0) && |powerTable| == |table|
      invariant Keeps(g, x, y, size, table, powerTable)
      invariant forall s: nat, k: nat :: s < r && s < size && 0 < k < size && s % 2 == 1 && k % 2 == 0 ==>
        Filled(g, x, y, size, powerTable, s, k)
      decreases size + 1 - r
    {
      InsideOnlyIf(size, r, 0);
      powerTable := FillRow(g, size, x, y, powerTable, i, r);
      CellSteps(size, r, 0);
      CellSteps(size, r + 1, 0);
      i := i + 2 * size;
      r := r + 2;
    }
    if r < size { CellInside(size, r, 0); }
  }

  method FillRow(g: Group, size: nat, x: Element, ghost y: Element, table: seq<Element>, i: nat, ghost r: nat)
    returns (powerTable: seq<Element>)
    requires g.Abelian() && size >= 4 && size % 2 == 0 && |table| == Area(size) && r < size && i == Cell(size, r, 0)
    requires forall k: nat :: k < size && k % 2 == 1 ==> Filled(g, x, y, size, table, r, k)
    ensures |powerTable| == |table| && Keeps(g, x, y, size, table, powerTable)
    ensures forall k: nat :: 0 < k < size && k % 2 == 0 ==> Filled(g, x, y, size, powerTable, r, k)
  {
    hide Area, Combination, Group.Abelian, Filled, Cell;
    CombinationUnits(g, x, y);
    powerTable := table;
    var j := i + 2;
    while j < i + size
      invariant (j - i) % 2 == 0 && 2 <= j - i <= size && |powerTable| == |table|
      invariant Keeps(g, x, y, size, table, powerTable)
      invariant forall k: nat :: 0 < k < j - i && k % 2 == 0 ==> Filled(g, x, y, size, powerTable, r, k)
    {
      Entry(g, x, y, size, powerTable, r, j - i - 1);
      CellOffset(size, r, j - i);
      CellOffset(size, r, j - i - 1);
      powerTable := StoreSum(g, x, y, size, powerTable, j, powerTable[j - 1], x, r, j - i, r, j - i - 1);
      j := j + 2;
    }
  }

  lemma CellOffset(size: nat, r: nat, k: nat)
    ensures Cell(size, r, k) == Cell(size, r, 0) + k
  {
  }

  /** The table holds every combination in which at least one coefficient is odd. */
  ghost predicate TableComplete(g: Group, x: Element, y: Element, size: nat, table: seq<Element>) {
    && |table| == Area(size)
    && forall r: nat, k: nat :: r < size && k < size && (r % 2 == 1 || k % 2 == 1) ==>
      Filled(g, x, y, size, table, r, k)
  }

  /** The entries x, y, 2 x and 2 y. */
  method SeedTable(g: Group, size: nat, x: Element, y: Element, unset: Element) returns (powerTable: seq<Element>)
    requires g.Abelian() && size >= 4
    ensures |powerTable| == Area(size)
    ensures Filled(g, x, y, size, powerTable, 0, 1) && Filled(g, x, y, size, powerTable, 0, 2)
    ensures Filled(g, x, y, size, powerTable, 1, 0) && Filled(g, x, y, size, powerTable, 2, 0)
  {
    hide Combination, Group.Abelian;
    CombinationUnits(g, x, y);
    CombinationSum(g, x, y, 1, 0, 1, 0);
    CombinationSum(g, x, y, 0, 1, 0, 1);
    CellSteps(size, 0, 0);
    CellSteps(size, 0, 1);
    CellSteps(size, 1, 0);
    CellSteps(size, 2, 0);
    CellInside(size, 2, 0);
    hide Cell;
    powerTable := seq(Area(size), _ => unset);
    powerTable := powerTable[1 := x];
    powerTable := powerTable[size := y];
    powerTable := powerTable[2 := g.add(x, x)];
    powerTable := powerTable[2 * size := g.add(y, y)];
  }

  /** The table for windows of one bit. */
  method SmallTable(g: Group, x: Element, y: Element, unset: Element) returns (powerTable: seq<Element>)
    requires g.Abelian()
    ensures TableComplete(g, x, y, 2, powerTable)
  {
    hide Combination, Group.Abelian;
    CombinationUnits(g, x, y);
    CombinationSum(g, x, y, 1, 0, 0, 1);
    powerTable := seq(4, _ => unset);
    powerTable := powerTable[1 := x];
    powerTable := powerTable[2 := y];
    powerTable := powerTable[3 := g.add(x, y)];
  }

  /** The table for windows of more than one bit. */
  method LargeTable(g: Group, size: nat, x: Element, y: Element, unset: Element) returns (powerTable: seq<Element>)
    requires g.Abelian() && size >= 4 && size % 2 == 0
    ensures TableComplete(g, x, y, size, powerTable)
  {
    hide Combination, Group.Abelian, Filled, Cell, Keeps;
    var seeded := SeedTable(g, size, x, y, unset);
    powerTable := FillFirstRow(g, size, x, y, seeded);
    KeepsEntry(g, x, y, size, seeded, powerTable, 1, 0);
    KeepsEntry(g, x, y, size, seeded, powerTable, 2, 0);
    ghost var row := powerTable;
    powerTable := FillOddColumns(g, size, x, y, powerTable);
    KeepsEntry(g, x, y, size, row, powerTable, 1, 0);
    KeepsEntry(g, x, y, size, row, powerTable, 2, 0);
    ghost var columns := powerTable;
    powerTable := FillFirstColumn(g, size, x, y, powerTable);
    forall r: nat, k: nat | r < size && k < size && k % 2 == 1 ensures Filled(g, x, y, size, powerTable, r, k) {
      KeepsEntry(g, x, y, size, columns, powerTable, r, k);
    }
    ghost var first := powerTable;
    powerTable := FillOddRows(g, size, x, y, powerTable);
    forall r: nat, k: nat | r < size && k < size && (r % 2 == 1 || k % 2 == 1)
      ensures Filled(g, x, y, size, powerTable, r, k)
    {
      if k % 2 == 1 || k == 0 { KeepsEntry(g, x, y, size, first, powerTable, r, k); }
    }
  }

  lemma KeepsEntry(g: Group, x: Element, y: Element, size: nat, table: seq<Element>, table': seq<Element>,
                   r: nat, k: nat)
    requires r < size && k < size && Keeps(g, x, y, size, table, table') && Filled(g, x, y, size, table, r, k)
    ensures Filled(g, x, y, size, table', r, k)
  {
  }

  /** The table for windows of w bits; `unset` is whatever the vector's new elements hold. */
  method BuildTable(g: Group, w: nat, x: Element, y: Element, unset: Element) returns (powerTable: seq<Element>)
    requires g.Abelian() && 1 <= w <= 3
    ensures TableComplete(g, x, y, TwoTo(w), powerTable)
  {
    var tableSize := TwoTo(w);
    assert if w == 1 then tableSize == 2 else tableSize == 4 || tableSize == 8;
    hide Combination, Group.Abelian, Filled, Cell, TwoTo;
    if w == 1 {
      powerTable := SmallTable(g, x, y, unset);
    } else {
      powerTable := LargeTable(g, tableSize, x, y, unset);
    }
  }

  /** power consists of the digits of e from position i up to position top. */
  ghost predicate Window(e: nat, top: nat, i: nat, power: nat) {
    i <= top && Shr(e, i) == TwoTo(top - i) * Shr(e, top) + power && power < TwoTo(top - i)
  }

  lemma WindowStep(e: nat, top: nat, i: nat, power: nat)
    requires Window(e, top, i + 1, power)
    ensures Window(e, top, i, 2 * power + GetBit(e, i))
  {
    ShrSucc(e, i);
    assert TwoTo(top - i) == 2 * TwoTo(top - i - 1);
    Associate(2, TwoTo(top - i - 1), Shr(e, top));
    hide Shr, TwoTo;
  }

  lemma EmptyWindow(e: nat, i: nat)
    ensures Window(e, i, i, 0)
  {
  }

  lemma {:induction false} PowersOrdered(h: nat, n: nat)
    requires TwoTo(h) < TwoTo(n)
    ensures h < n
  {
    if h > 0 && n > 0 { PowersOrdered(h - 1, n - 1); }
  }

  /** Takes the common factors of two out of a window of at most n digits. */
  method Normalize(power1: nat, power2: nat, squares: nat, ghost n: nat)
    returns (p1: nat, p2: nat, squaresBefore: nat, squaresAfter: nat)
    requires power1 < TwoTo(n) && power2 < TwoTo(n) && squares + 1 >= n
    ensures power1 == TwoTo(squaresAfter) * p1 && power2 == TwoTo(squaresAfter) * p2
    ensures p1 <= power1 && p2 <= power2 && squaresBefore == squares - squaresAfter
    ensures p1 != 0 || p2 != 0 ==> p1 % 2 == 1 || p2 % 2 == 1
    ensures p1 == 0 && p2 == 0 ==> squaresAfter == 0
  {
    p1, p2, squaresBefore, squaresAfter := power1, power2, squares, 0;
    while (p1 != 0 || p2 != 0) && p1 % 2 == 0 && p2 % 2 == 0
      invariant power1 == TwoTo(squaresAfter) * p1 && power2 == TwoTo(squaresAfter) * p2
      invariant p1 <= power1 && p2 <= power2 && squaresBefore == squares - squaresAfter
      invariant p1 == 0 && p2 == 0 ==> squaresAfter == 0
      decreases p1 + p2
    {
      HalveFactor(squaresAfter, p1);
      HalveFactor(squaresAfter, p2);
      StillFits(squaresAfter, n, p1, p2);
      p1, p2 := p1 / 2, p2 / 2;
      squaresBefore := squaresBefore - 1;
      squaresAfter := squaresAfter + 1;
    }
  }

  lemma HalveFactor(h: nat, p: nat)
    requires p % 2 == 0
    ensures TwoTo(h) * p == TwoTo(h + 1) * (p / 2)
  {
    assert p == 2 * (p / 2);
  }

  lemma StillFits(h: nat, n: nat, p1: nat, p2: nat)
    requires TwoTo(h) * p1 < TwoTo(n) && TwoTo(h) * p2 < TwoTo(n)
    requires p1 % 2 == 0 && p2 % 2 == 0 && (p1 != 0 || p2 != 0)
    ensures h + 1 < n
  {
    TwiceBelow(TwoTo(h), if p1 != 0 then p1 else p2, TwoTo(n));
    PowersOrdered(h + 1, n);
  }

  lemma TwiceBelow(t: nat, p: nat, bound: nat)
    requires p >= 2 && t * p < bound
    ensures 2 * t < bound
  {
    Monotone(2, p, t);
  }

  /** n doublings */
  method Doubled(g: Group, start: Element, n: nat, ghost x: Element, ghost y: Element, ghost a: nat, ghost b: nat)
    returns (result: Element)
    requires g.Abelian() && start == Combination(g, a, x, b, y)
    ensures result == Combination(g, TwoTo(n) * a, x, TwoTo(n) * b, y)
  {
    hide Group.Abelian, Combination;
    result := start;
    var squares := n;
    ghost var k := 0;
    while squares > 0
      invariant k + squares == n
      invariant result == Combination(g, TwoTo(k) * a, x, TwoTo(k) * b, y)
    {
      CombinationSum(g, x, y, TwoTo(k) * a, TwoTo(k) * b, TwoTo(k) * a, TwoTo(k) * b);
      Associate(2, TwoTo(k), a);
      Associate(2, TwoTo(k), b);
      result := g.add(result, result);
      squares := squares - 1;
      k := k + 1;
    }
  }

  /** before doublings, an addition and after doublings place a window below the digits above it. */
  lemma WindowPlaced(high: nat, p: nat, before: nat, after: nat)
    ensures TwoTo(after) * (TwoTo(before) * high + p) == TwoTo(before + after) * high + TwoTo(after) * p
  {
    TwoToSum(after, before);
    Distribute(TwoTo(after), TwoTo(before) * high, p);
    Associate(TwoTo(after), TwoTo(before), high);
  }

  /** The window in its place, on top of what has been read before, if there was anything. */
  lemma WindowTotal(high: nat, p: nat, before: nat, after: nat, n: nat, power: nat)
    requires power == TwoTo(after) * p && (high == 0 || before + after == n)
    ensures TwoTo(after) * (TwoTo(before) * high + p) == TwoTo(n) * high + power
  {
    hide TwoTo;
    WindowPlaced(high, p, before, after);
    assert high == 0 ==> TwoTo(before + after) * high == 0 && TwoTo(n) * high == 0;
  }

  /** Appends a window of digits: what the loop body does when it has collected one. */
  method Flush(g: Group, w: nat, powerTable: seq<Element>, ghost x: Element, ghost y: Element, firstTime: bool,
               sofar: Element, ghost high1: nat, ghost high2: nat, power1: nat, power2: nat, squares: nat, ghost n: nat)
    returns (result: Element)
    requires g.Abelian() && w >= 1 && TableComplete(g, x, y, TwoTo(w), powerTable)
    requires power1 < TwoTo(w) && power2 < TwoTo(w) && power1 < TwoTo(n) && power2 < TwoTo(n)
    requires if firstTime then
        high1 == 0 && high2 == 0 && squares + 1 == n && (power1 != 0 || power2 != 0)
      else
        sofar == Combination(g, high1, x, high2, y) && squares == n
    ensures result == Combination(g, TwoTo(n) * high1 + power1, x, TwoTo(n) * high2 + power2, y)
  {
    hide Group.Abelian, Combination, TableComplete, TwoTo;
    var p1, p2, squaresBefore, squaresAfter := Normalize(power1, power2, squares, n);
    WindowTotal(high1, p1, squaresBefore, squaresAfter, n, power1);
    WindowTotal(high2, p2, squaresBefore, squaresAfter, n, power2);
    ghost var low1, low2 := TwoTo(squaresBefore) * high1, TwoTo(squaresBefore) * high2;
    if firstTime {
      assert low1 == low2 == TwoTo(squaresBefore) * 0 == 0;
      TableEntry(g, x, y, TwoTo(w), powerTable, p2, p1);
      result := powerTable[p2 * TwoTo(w) + p1];
    } else {
      result := Doubled(g, sofar, squaresBefore, x, y, high1, high2);
      result := AddEntry(g, TwoTo(w), powerTable, x, y, result, low1, low2, p1, p2);
    }
    result := Doubled(g, result, squaresAfter, x, y, low1 + p1, low2 + p2);
  }

  method AddEntry(g: Group, size: nat, powerTable: seq<Element>, ghost x: Element, ghost y: Element,
                  sofar: Element, ghost a: nat, ghost b: nat, p1: nat, p2: nat) returns (result: Element)
    requires g.Abelian() && TableComplete(g, x, y, size, powerTable) && p1 < size && p2 < size
    requires p1 != 0 || p2 != 0 ==> p1 % 2 == 1 || p2 % 2 == 1
    requires sofar == Combination(g, a, x, b, y)
    ensures result == Combination(g, a + p1, x, b + p2, y)
  {
    hide Group.Abelian, Combination, TableComplete;
    result := sofar;
    if p1 != 0 || p2 != 0 {
      TableEntry(g, x, y, size, powerTable, p2, p1);
      CombinationSum(g, x, y, a, b, p1, p2);
      result := g.add(result, powerTable[p2 * size + p1]);
    }
  }

  lemma TableEntry(g: Group, x: Element, y: Element, size: nat, table: seq<Element>, r: nat, k: nat)
    requires TableComplete(g, x, y, size, table) && r < size && k < size && (r % 2 == 1 || k % 2 == 1)
    ensures r * size + k < |table| && table[r * size + k] == Combination(g, k, x, r, y)
  {
    Entry(g, x, y, size, table, r, k);
  }

  lemma ShrZero(e: nat)
    ensures Shr(e, 0) == e
  {
  }

  /** The loop body of CascadeScalarMultiply once a window has been collected. */
  method FlushDigits(g: Group, w: nat, powerTable: seq<Element>, ghost x: Element, ghost y: Element, firstTime: bool,
                     sofar: Element, ghost e1: nat, ghost e2: nat, power1: nat, power2: nat, squares: nat,
                     ghost top: nat, ghost i: nat)
    returns (result: Element)
    requires g.Abelian() && w >= 1 && TableComplete(g, x, y, TwoTo(w), powerTable)
    requires Window(e1, top, i, power1) && Window(e2, top, i, power2) && power1 < TwoTo(w) && power2 < TwoTo(w)
    requires if firstTime then top == Longest(e1, e2) && i < top && squares + i == top - 1
             else squares + i == top && sofar == Combination(g, Shr(e1, top), x, Shr(e2, top), y)
    ensures result == Combination(g, Shr(e1, i), x, Shr(e2, i), y)
  {
    hide Group.Abelian, Combination, TableComplete, Window, TwoTo;
    WindowBounds(e1, top, i, power1);
    WindowBounds(e2, top, i, power2);
    if firstTime {
      FirstWindow(e1, e2, i, power1, power2);
      ShrSmall(e1, top);
      ShrSmall(e2, top);
    }
    hide Shr, Longest;
    result := Flush(g, w, powerTable, x, y, firstTime, sofar, Shr(e1, top), Shr(e2, top), power1, power2, squares,
                    top - i);
  }

  /** The bit count of the longer exponent. */
  function Longest(e1: nat, e2: nat): nat {
    if BitLength(e1) >= BitLength(e2) then BitLength(e1) else BitLength(e2)
  }

  /** Reads both exponents from the top, a window at a time. */
  method ConsumeDigits(g: Group, w: nat, powerTable: seq<Element>, x: Element, e1: nat, y: Element, e2: nat,
                       unset: Element)
    returns (result: Element)
    requires g.Abelian() && w >= 1 && TableComplete(g, x, y, TwoTo(w), powerTable) && Longest(e1, e2) > 0
    ensures result == Combination(g, e1, x, e2, y)
  {
    hide Group.Abelian, Combination, TableComplete, Window;
    var expLen, tableSize := Longest(e1, e2), TwoTo(w);
    assert tableSize % 2 == 0;
    result := unset;
    var power1: nat, power2: nat, prevPosition: nat, firstTime := 0, 0, expLen - 1, true;
    ghost var top: nat := expLen;
    ShrSmall(e1, expLen);
    ShrSmall(e2, expLen);
    EmptyWindow(e1, expLen);
    EmptyWindow(e2, expLen);
    ShrZero(e1);
    ShrZero(e2);
    hide TwoTo, Shr, BitLength, GetBit, Longest;
    for i := expLen downto 0
      invariant Window(e1, top, i, power1) && Window(e2, top, i, power2)
      invariant 2 * power1 < tableSize && 2 * power2 < tableSize
      invariant i <= top <= expLen && (i == 0 ==> top == 0)
      invariant if firstTime then top == expLen && prevPosition == expLen - 1
                else prevPosition == top && result == Combination(g, Shr(e1, top), x, Shr(e2, top), y)
    {
      WindowStep(e1, top, i, power1);
      WindowStep(e2, top, i, power2);
      power1 := 2 * power1 + GetBit(e1, i);
      power2 := 2 * power2 + GetBit(e2, i);
      if i == 0 || 2 * power1 >= tableSize || 2 * power2 >= tableSize {
        result := FlushDigits(g, w, powerTable, x, y, firstTime, result, e1, e2, power1, power2,
                              prevPosition - i, top, i);
        prevPosition, firstTime := i, false;
        power1, power2 := 0, 0;
        top := i;
        EmptyWindow(e1, i);
        EmptyWindow(e2, i);
      }
    }
  }

  /** AbstractGroup::CascadeScalarMultiply; `unset` is whatever the elements of a new vector hold. */
  method CascadeScalarMultiply(g: Group, x: Element, e1: nat, y: Element, e2: nat, unset: Element)
    returns (result: Element)
    requires g.Abelian()
    ensures result == Combination(g, e1, x, e2, y)
  {
    hide Group.Abelian, Combination, TableComplete;
    var expLen := Longest(e1, e2);
    if expLen == 0 {
      assert e1 == 0 && e2 == 0;
      CombinationUnits(g, x, y);
      return g.zero;
    }
    var w := if expLen <= 46 then 1 else if expLen <= 260 then 2 else 3;
    var powerTable := BuildTable(g, w, x, y, unset);
    result := ConsumeDigits(g, w, powerTable, x, e1, y, e2, unset);
  }

  lemma WindowBounds(e: nat, top: nat, i: nat, power: nat)
    requires Window(e, top, i, power)
    ensures power < TwoTo(top - i) && Shr(e, i) == TwoTo(top - i) * Shr(e, top) + power
  {
  }

  /** The first window starts with the leading one of the longer exponent. */
  lemma FirstWindow(e1: nat, e2: nat, i: nat, power1: nat, power2: nat)
    requires i < Longest(e1, e2)
    requires Window(e1, Longest(e1, e2), i, power1) && Window(e2, Longest(e1, e2), i, power2)
    ensures power1 != 0 || power2 != 0
  {
    hide Window;
    if BitLength(e1) >= BitLength(e2) { FirstOne(e1, i, power1); } else { FirstOne(e2, i, power2); }
  }

  lemma FirstOne(e: nat, i: nat, power: nat)
    requires i < BitLength(e) && Window(e, BitLength(e), i, power)
    ensures power != 0
  {
    hide Shr, TwoTo;
    ShrSmall(e, BitLength(e));
    LeadingDigits(e, i);
    assert TwoTo(BitLength(e) - i) * 0 == 0;
  }

  lemma {:induction false} LeadingDigits(e: nat, i: nat)
    requires i < BitLength(e)
    ensures Shr(e, i) > 0
  {
    if i > 0 { LeadingDigits(e / 2, i - 1); }
  }
}
