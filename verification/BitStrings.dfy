/** Strings of bits, the most significant first, and buffers of cells that hold them. */
module BitStrings {
  import opened Arithmetic
  import opened Bits
  import opened Bytes

  type bits = seq<bool>

  function Digit(b: bool): nat {
    if b then 1 else 0
  }

  function ToNat(s: bits): (x: nat)
    ensures x < TwoTo(|s|)
  {
    if s == [] then 0 else 2 * ToNat(s[..|s| - 1]) + Digit(s[|s| - 1])
  }

  function ToBits(x: nat, width: nat): (s: bits)
    ensures |s| == width
  {
    if width == 0 then [] else ToBits(x / 2, width - 1) + [x % 2 == 1]
  }

  function Blank(n: nat): (s: bits)
    ensures |s| == n
  {
    seq(n, _ => false)
  }

  lemma LastBit(s: bits, b: bool)
    ensures ToNat(s + [b]) == 2 * ToNat(s) + Digit(b)
    ensures ToNat(s + [b]) / 2 == ToNat(s) && ToNat(s + [b]) % 2 == Digit(b)
  {
    assert (s + [b])[..|s|] == s;
  }

  lemma {:induction false} ToBitsToNat(s: bits)
    ensures ToBits(ToNat(s), |s|) == s
  {
    if s != [] {
      var front, last := s[..|s| - 1], s[|s| - 1];
      ToBitsToNat(front);
      LastBit(front, last);
      assert s == front + [last];
    }
  }

  lemma {:induction false} ToNatToBits(x: nat, width: nat)
    requires x < TwoTo(width)
    ensures ToNat(ToBits(x, width)) == x
  {
    hide ToNat;
    if width == 0 {
      NoBits();
    } else {
      ToNatToBits(x / 2, width - 1);
      LastBit(ToBits(x / 2, width - 1), x % 2 == 1);
    }
  }

  lemma NoBits()
    ensures ToNat([]) == 0
  {
  }

  lemma Doubled(x: int, p: int, y: int)
    ensures 2 * (x * p + y) == x * (2 * p) + 2 * y
  {
  }

  lemma {:induction false} ToNatConcat(a: bits, b: bits)
    ensures ToNat(a + b) == ToNat(a) * TwoTo(|b|) + ToNat(b)
  {
    hide ToNat, Digit;
    if b == [] {
      NoBits();
      assert a + b == a;
    } else {
      var front, last := b[..|b| - 1], b[|b| - 1];
      ToNatConcat(a, front);
      LastBit(a + front, last);
      LastBit(front, last);
      assert a + b == a + front + [last] && b == front + [last];
      Doubled(ToNat(a), TwoTo(|front|), ToNat(front));
    }
  }

  lemma {:induction false} ToNatBlank(n: nat)
    ensures ToNat(Blank(n)) == 0
  {
    if n > 0 {
      ToNatBlank(n - 1);
      assert Blank(n) == Blank(n - 1) + [false];
      LastBit(Blank(n - 1), false);
    }
  }

  /** Shifting to the right drops the last bits. */
  lemma {:induction false} ShrConcat(a: bits, b: bits)
    ensures Shr(ToNat(a + b), |b|) == ToNat(a)
  {
    if b == [] {
      assert a + b == a;
    } else {
      var front, last := b[..|b| - 1], b[|b| - 1];
      assert a + b == a + front + [last];
      LastBit(a + front, last);
      ShrConcat(a, front);
    }
  }

  /** x << n, cut to a byte */
  function ShlByte(x: nat, n: nat): byte {
    x * TwoTo(n) % 256
  }

  /** Shifting a byte to the left drops the first bits and appends blank ones. */
  lemma ShlConcat(a: bits, b: bits, n: nat)
    requires |b| + n == 8
    ensures ShlByte(ToNat(a + b), n) == ToNat(b + Blank(n))
  {
    hide ToNat;
    ToNatConcat(a, b);
    ToNatConcat(b, Blank(n));
    ToNatBlank(n);
    TwoToSum(|b|, n);
    ByteWidth();
    var high, low := ToNat(a), ToNat(b + Blank(n));
    var p, q := TwoTo(|b|), TwoTo(n);
    Distributed(high, p, ToNat(b), q);
    Divided(ToNat(a + b) * q, 256, high, low);
  }

  lemma Distributed(high: int, p: int, low: int, q: int)
    requires p * q == 256
    ensures (high * p + low) * q == 256 * high + low * q
  {
    Associate(high, p, q);
    Distribute(q, high * p, low);
  }

  /** Inclusive or of the low `width` binary digits. */
  function OrDigits(a: nat, b: nat, width: nat): nat {
    if width == 0 then 0
    else 2 * OrDigits(a / 2, b / 2, width - 1) + (if a % 2 == 0 && b % 2 == 0 then 0 else 1)
  }

  lemma {:induction false} OrDigitsFit(a: nat, b: nat, width: nat)
    ensures OrDigits(a, b, width) < TwoTo(width)
  {
    if width > 0 { OrDigitsFit(a / 2, b / 2, width - 1); }
  }

  function Or(a: byte, b: byte): byte {
    OrDigitsFit(a, b, 8);
    ByteWidth();
    OrDigits(a, b, 8)
  }

  lemma OrStep(x: nat, a: bool, y: nat, b: bool, width: nat)
    requires width > 0
    ensures OrDigits(2 * x + Digit(a), 2 * y + Digit(b), width) == 2 * OrDigits(x, y, width - 1) + Digit(a || b)
  {
  }

  /** Blank bits take on those they are combined with. */
  lemma {:induction false} OrConcat(p: bits, y: bits, width: nat)
    requires |p| + |y| <= width
    ensures OrDigits(ToNat(p + Blank(|y|)), ToNat(y), width) == ToNat(p + y)
    decreases width
  {
    hide ToNat, OrDigits, Digit;
    NoBits();
    if y != [] {
      var front, last := y[..|y| - 1], y[|y| - 1];
      OrConcat(p, front, width - 1);
      assert p + Blank(|y|) == p + Blank(|front|) + [false] && p + y == p + front + [last] && y == front + [last];
      LastBit(p + Blank(|front|), false);
      LastBit(front, last);
      LastBit(p + front, last);
      OrStep(ToNat(p + Blank(|front|)), false, ToNat(front), last, width);
    } else if p != [] {
      var front, last := p[..|p| - 1], p[|p| - 1];
      OrConcat(front, [], width - 1);
      assert p + Blank(0) == front + [last] && p + y == front + [last];
      assert front + Blank(0) == front && front + [] == front;
      LastBit(front, last);
      OrStep(ToNat(front), last, 0, false, width);
      assert Digit(false) == 0 by { NoDigit(); }
    } else {
      assert p + Blank(0) == [] && p + y == [];
      OrNothing(width);
    }
  }

  lemma NoDigit()
    ensures Digit(false) == 0
  {
  }

  lemma {:induction false} OrNothing(width: nat)
    ensures OrDigits(0, 0, width) == 0
  {
    if width > 0 { OrNothing(width - 1); }
  }

  // ---- cells ----

  /** The bits that n cells hold. */
  function Span(n: nat, width: nat): nat {
    if n == 0 then 0 else width + Span(n - 1, width)
  }

  /** The first n bits, with blank ones if there are not so many. */
  function Cell(s: bits, width: nat): (r: bits)
    ensures |r| == width
  {
    if |s| >= width then s[..width] else s + Blank(width - |s|)
  }

  function Drop(s: bits, n: nat): bits {
    if |s| >= n then s[n..] else []
  }

  lemma CellFits(s: bits, width: nat)
    requires width <= 8
    ensures ToNat(Cell(s, width)) < 256
  {
    ByteWidth();
    TwoToSum(width, 8 - width);
    NonNegative(TwoTo(width), TwoTo(8 - width));
  }

  /** A buffer of n cells that holds the bits s from its start on. */
  function Layout(width: nat, n: nat, s: bits): (r: seq<byte>)
    requires 0 < width <= 8
    ensures |r| == n
    ensures forall i :: 0 <= i < n ==> r[i] < TwoTo(width)
    decreases n
  {
    if n == 0 then []
    else
      CellFits(s, width);
      [ToNat(Cell(s, width))] + Layout(width, n - 1, Drop(s, width))
  }

  lemma CellOfConcat(a: bits, b: bits, width: nat)
    requires width <= |a|
    ensures Cell(a + b, width) == Cell(a, width) && Drop(a + b, width) == Drop(a, width) + b
    ensures |Drop(a, width)| == |a| - width
  {
  }

  /** Appending bits that fit into the cell at hand combines them with that cell. */
  lemma {:induction false} LayoutAppend(width: nat, n: nat, s: bits, pos: nat, used: nat, y: bits, cell: byte)
    requires 0 < width <= 8 && pos < n
    requires |s| == Span(pos, width) + used && used < width && used + |y| <= width
    requires cell == ToNat(y + Blank(width - used - |y|))
    ensures Layout(width, n, s + y) == Layout(width, n, s)[pos := Or(Layout(width, n, s)[pos], cell)]
    decreases pos
  {
    hide ToNat, Or, Cell, Drop, Blank;
    if pos == 0 {
      LayoutAppendFirst(width, n, s, y, cell);
    } else {
      CellOfConcat(s, y, width);
      CellOfConcat(s, [], width);
      assert s + [] == s;
      var rest := Drop(s, width);
      LayoutAppend(width, n - 1, rest, pos - 1, used, y, cell);
      CellFits(s, width);
      UpdateBehind(ToNat(Cell(s, width)), Layout(width, n - 1, rest), pos,
                   Or(Layout(width, n - 1, rest)[pos - 1], cell));
    }
  }

  lemma UpdateBehind(first: byte, rest: seq<byte>, pos: nat, x: byte)
    requires 0 < pos <= |rest|
    ensures ([first] + rest)[pos] == rest[pos - 1]
    ensures ([first] + rest)[pos := x] == [first] + rest[pos - 1 := x]
  {
  }

  lemma LayoutHead(width: nat, n: nat, s: bits)
    requires 0 < width <= 8 && 0 < n
    ensures ToNat(Cell(s, width)) < 256
    ensures Layout(width, n, s) == [ToNat(Cell(s, width))] + Layout(width, n - 1, Drop(s, width))
  {
    CellFits(s, width);
    hide Cell, Drop, ToNat;
  }

  lemma HeadReplaced(before: seq<byte>, after: seq<byte>, a: byte, cell: byte, tail: seq<byte>)
    requires before == [a] + tail && after == [Or(a, cell)] + tail
    ensures after == before[0 := Or(before[0], cell)]
  {
    hide Or;
  }

  lemma ShortCell(s: bits, width: nat)
    requires |s| <= width
    ensures Cell(s, width) == s + Blank(width - |s|) && Drop(s, width) == []
  {
  }

  lemma LayoutAppendFirst(width: nat, n: nat, s: bits, y: bits, cell: byte)
    requires 0 < width <= 8 && 0 < n && |s| < width && |s| + |y| <= width
    requires cell == ToNat(y + Blank(width - |s| - |y|))
    ensures Layout(width, n, s + y) == Layout(width, n, s)[0 := Or(Layout(width, n, s)[0], cell)]
  {
    hide ToNat, Or, Cell, Drop, Layout;
    var rest := y + Blank(width - |s| - |y|);
    CellAppend(s, rest, cell);
    ShortCell(s, width);
    ShortCell(s + y, width);
    assert s + y + Blank(width - |s + y|) == s + rest;
    LayoutHead(width, n, s);
    LayoutHead(width, n, s + y);
    HeadReplaced(Layout(width, n, s), Layout(width, n, s + y), ToNat(Cell(s, width)), cell, Layout(width, n - 1, []));
  }

  lemma CellAppend(s: bits, rest: bits, cell: byte)
    requires |s| + |rest| <= 8 && cell == ToNat(rest)
    ensures ToNat(s + Blank(|rest|)) < 256 && ToNat(s + rest) == Or(ToNat(s + Blank(|rest|)), cell)
  {
    hide ToNat;
    CellFits(s + Blank(|rest|), |s| + |rest|);
    assert Cell(s + Blank(|rest|), |s| + |rest|) == s + Blank(|rest|);
    OrConcat(s, rest, 8);
  }

  lemma {:induction false} LayoutBlank(width: nat, n: nat)
    requires 0 < width <= 8
    ensures Layout(width, n, []) == seq(n, _ => 0)
  {
    if n > 0 {
      LayoutBlank(width, n - 1);
      assert Cell([], width) == Blank(width);
      ToNatBlank(width);
    }
  }

  // ---- groups ----

  /** The bits in groups of `width`, the last one filled up with blank bits. */
  function Groups(width: nat, s: bits): (r: seq<byte>)
    requires 0 < width <= 8
    ensures forall i :: 0 <= i < |r| ==> r[i] < TwoTo(width)
    decreases |s|
  {
    if s == [] then []
    else
      CellFits(s, width);
      [ToNat(Cell(s, width))] + Groups(width, Drop(s, width))
  }

  /** The whole groups only. */
  function WholeGroups(width: nat, s: bits): (r: seq<byte>)
    requires 0 < width <= 8
    decreases |s|
  {
    if |s| < width then []
    else
      CellFits(s, width);
      [ToNat(Cell(s, width))] + WholeGroups(width, Drop(s, width))
  }

  /** A multiple of the width, counted down. */
  predicate Multiple(n: nat, width: nat)
    requires 0 < width
  {
    n == 0 || (n >= width && Multiple(n - width, width))
  }

  lemma {:induction false} GroupsConcat(width: nat, a: bits, b: bits)
    requires 0 < width <= 8 && Multiple(|a|, width)
    ensures Groups(width, a + b) == Groups(width, a) + Groups(width, b)
    ensures WholeGroups(width, a + b) == WholeGroups(width, a) + WholeGroups(width, b)
    decreases |a|
  {
    hide ToNat, Cell, Drop;
    if a == [] {
      assert a + b == b;
    } else {
      CellOfConcat(a, b, width);
      CellOfConcat(a, [], width);
      assert a + [] == a;
      GroupsConcat(width, Drop(a, width), b);
    }
  }

  /** The full cells are the whole groups. */
  lemma {:induction false} LayoutWholeGroups(width: nat, n: nat, s: bits, pos: nat, used: nat)
    requires 0 < width <= 8 && used < width && |s| == Span(pos, width) + used && pos <= n
    ensures WholeGroups(width, s) == Layout(width, n, s)[..pos]
    decreases pos
  {
    hide ToNat, Cell, Drop;
    if pos > 0 {
      CellOfConcat(s, [], width);
      CellFits(s, width);
      var first, rest := ToNat(Cell(s, width)), Drop(s, width);
      LayoutWholeGroups(width, n - 1, rest, pos - 1, used);
      TakeBehind(first, Layout(width, n - 1, rest), pos);
    }
  }

  /** The cells in use are the groups. */
  lemma {:induction false} LayoutGroups(width: nat, n: nat, s: bits, pos: nat, used: nat)
    requires 0 < width <= 8 && used < width && |s| == Span(pos, width) + used
    requires pos + (if used > 0 then 1 else 0) <= n
    ensures Groups(width, s) == Layout(width, n, s)[..pos + (if used > 0 then 1 else 0)]
    decreases pos
  {
    hide ToNat, Cell, Drop;
    if pos > 0 {
      CellOfConcat(s, [], width);
      CellFits(s, width);
      var first, rest := ToNat(Cell(s, width)), Drop(s, width);
      LayoutGroups(width, n - 1, rest, pos - 1, used);
      TakeBehind(first, Layout(width, n - 1, rest), pos + (if used > 0 then 1 else 0));
    } else {
      FirstGroup(width, n, s);
    }
  }

  lemma TakeBehind(first: byte, rest: seq<byte>, pos: nat)
    requires 0 < pos <= |rest| + 1
    ensures ([first] + rest)[..pos] == [first] + rest[..pos - 1]
  {
  }

  lemma FirstGroup(width: nat, n: nat, s: bits)
    requires 0 < width <= 8 && |s| < width && (s != [] ==> 0 < n)
    ensures Groups(width, s) == Layout(width, n, s)[..if s == [] then 0 else 1]
  {
    hide ToNat;
    if s != [] {
      assert Drop(s, width) == [];
      CellFits(s, width);
      TakeBehind(ToNat(Cell(s, width)), Layout(width, n - 1, []), 1);
    }
  }

  // ---- strings of bytes ----

  function AllBits(data: seq<byte>, width: nat): (r: bits)
    ensures |r| == Span(|data|, width)
  {
    if data == [] then []
    else
      var front := AllBits(data[..|data| - 1], width);
      front + ToBits(data[|data| - 1], width)
  }

  lemma {:induction false} AllBitsConcat(a: seq<byte>, b: seq<byte>, width: nat)
    ensures AllBits(a + b, width) == AllBits(a, width) + AllBits(b, width)
  {
    hide ToBits, Span;
    if b == [] {
      assert a + b == a;
    } else {
      var front := b[..|b| - 1];
      AllBitsConcat(a, front, width);
      assert (a + b)[..|a + b| - 1] == a + front;
    }
  }

  /** How many blank bits fill up the last group. */
  function Filling(n: nat, width: nat): (r: nat)
    requires 0 < width
    ensures r < width
  {
    if n == 0 then 0 else if n < width then width - n else Filling(n - width, width)
  }

  /** Spelling out the groups gives the bits back, filled up with blank ones. */
  lemma {:induction false} GroupsSpellOut(width: nat, s: bits)
    requires 0 < width <= 8
    ensures AllBits(Groups(width, s), width) == s + Blank(Filling(|s|, width))
    decreases |s|
  {
    hide ToNat, ToBits, AllBits, Cell, Drop, Filling;
    NoBytes(width);
    if s == [] {
      NothingToFill(width);
    } else {
      var first, rest := Cell(s, width), Drop(s, width);
      CellFits(s, width);
      FirstCell(s, width);
      OneByte(ToNat(first), width);
      ToBitsToNat(first);
      GroupsSpellOut(width, rest);
      AllBitsConcat([ToNat(first)], Groups(width, rest), width);
      assert Groups(width, s) == [ToNat(first)] + Groups(width, rest);
    }
  }

  lemma NothingToFill(width: nat)
    requires 0 < width
    ensures [] + Blank(Filling(0, width)) == []
  {
  }

  /** The first cell and the rest, filled up, are the whole, filled up. */
  lemma FirstCell(s: bits, width: nat)
    requires s != [] && 0 < width
    ensures |Drop(s, width)| < |s|
    ensures Cell(s, width) + (Drop(s, width) + Blank(Filling(|Drop(s, width)|, width)))
         == s + Blank(Filling(|s|, width))
  {
    if |s| >= width {
      assert s == Cell(s, width) + Drop(s, width);
    }
  }

  lemma NoBytes(width: nat)
    ensures AllBits([], width) == []
  {
  }

  lemma OneByte(b: byte, width: nat)
    ensures AllBits([b], width) == ToBits(b, width)
  {
    assert [b][..0] == [];
  }

  /** The whole bytes of a spelled-out string are the string, whatever few bits follow. */
  lemma {:induction false} BytesReadBack(data: seq<byte>, extra: bits)
    requires |extra| < 8
    ensures WholeGroups(8, AllBits(data, 8) + extra) == data
  {
    hide ToNat, ToBits;
    if data == [] {
      assert AllBits(data, 8) + extra == extra;
    } else {
      var first, rest := data[0], data[1..];
      assert data == [first] + rest;
      AllBitsConcat([first], rest, 8);
      OneByte(first, 8);
      var s := AllBits(data, 8) + extra;
      assert s == ToBits(first, 8) + (AllBits(rest, 8) + extra);
      BytesReadBack(rest, extra);
      ByteWidth();
      ToNatToBits(first, 8);
      assert Cell(s, 8) == ToBits(first, 8) && Drop(s, 8) == AllBits(rest, 8) + extra;
    }
  }
}
