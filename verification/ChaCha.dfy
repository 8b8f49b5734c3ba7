/**
 * The ChaCha block function, one word at a time, and the keystream of consecutive
 * blocks. A state is kept as its four rows of four words.
 */
module ChaCha {
  import opened Arithmetic
  import opened Bits
  import opened Bytes

  type word = x: nat | x < 0x1_0000_0000

  function Add(a: word, b: word): word {
    (a + b) % 0x1_0000_0000
  }

  lemma WordWidth()
    ensures TwoTo(32) == 0x1_0000_0000
  {
    assert TwoTo(8) == 0x100 by { assert TwoTo(4) == 0x10; }
    TwoToSum(8, 8);
    TwoToSum(16, 16);
  }

  function Xor(a: word, b: word): word {
    XorDigitsFit(a, b, 32);
    WordWidth();
    XorDigits(a, b, 32)
  }

  lemma HighPartBound(low: nat, high: nat, m: nat, t: nat)
    requires m * high + low < m * t
    ensures high < t
  {
    if high >= t {
      Monotone(t, high, m);
      assert false;
    }
  }

  lemma RotationBound(low: nat, high: nat, m: nat, t: nat)
    requires low < m && high < t
    ensures low * t + high < m * t
  {
    Monotone(low, m - 1, t);
    Distribute(t, m, 1);
  }

  lemma RotationFits(x: word, k: nat)
    requires k <= 32
    ensures Low(x, 32 - k) * TwoTo(k) + Shr(x, 32 - k) < 0x1_0000_0000
  {
    hide TwoTo, Low, Shr;
    WordWidth();
    TwoToSum(32 - k, k);
    ShrSplit(x, 32 - k);
    HighPartBound(Low(x, 32 - k), Shr(x, 32 - k), TwoTo(32 - k), TwoTo(k));
    RotationBound(Low(x, 32 - k), Shr(x, 32 - k), TwoTo(32 - k), TwoTo(k));
  }

  /** Rotation to the left by k bits. */
  function Rotl(x: word, k: nat): word
    requires k <= 32
  {
    RotationFits(x, k);
    Low(x, 32 - k) * TwoTo(k) + Shr(x, 32 - k)
  }

  datatype Row = Row(a: word, b: word, c: word, d: word)

  datatype State = State(r0: Row, r1: Row, r2: Row, r3: Row)

  function QuarterRound(a: word, b: word, c: word, d: word): (word, word, word, word) {
    var a1 := Add(a, b);
    var d1 := Rotl(Xor(d, a1), 16);
    var c1 := Add(c, d1);
    var b1 := Rotl(Xor(b, c1), 12);
    var a2 := Add(a1, b1);
    var d2 := Rotl(Xor(d1, a2), 8);
    var c2 := Add(c1, d2);
    var b2 := Rotl(Xor(b1, c2), 7);
    (a2, b2, c2, d2)
  }

  function ColumnRound(s: State): State {
    var (a0, b0, c0, d0) := QuarterRound(s.r0.a, s.r1.a, s.r2.a, s.r3.a);
    var (a1, b1, c1, d1) := QuarterRound(s.r0.b, s.r1.b, s.r2.b, s.r3.b);
    var (a2, b2, c2, d2) := QuarterRound(s.r0.c, s.r1.c, s.r2.c, s.r3.c);
    var (a3, b3, c3, d3) := QuarterRound(s.r0.d, s.r1.d, s.r2.d, s.r3.d);
    State(Row(a0, a1, a2, a3), Row(b0, b1, b2, b3), Row(c0, c1, c2, c3), Row(d0, d1, d2, d3))
  }

  function DiagonalRound(s: State): State {
    var (a0, b1, c2, d3) := QuarterRound(s.r0.a, s.r1.b, s.r2.c, s.r3.d);
    var (a1, b2, c3, d0) := QuarterRound(s.r0.b, s.r1.c, s.r2.d, s.r3.a);
    var (a2, b3, c0, d1) := QuarterRound(s.r0.c, s.r1.d, s.r2.a, s.r3.b);
    var (a3, b0, c1, d2) := QuarterRound(s.r0.d, s.r1.a, s.r2.b, s.r3.c);
    State(Row(a0, a1, a2, a3), Row(b0, b1, b2, b3), Row(c0, c1, c2, c3), Row(d0, d1, d2, d3))
  }

  function DoubleRounds(s: State, n: nat): State {
    if n == 0 then s else DiagonalRound(ColumnRound(DoubleRounds(s, n - 1)))
  }

  function AddRows(x: Row, y: Row): Row {
    Row(Add(x.a, y.a), Add(x.b, y.b), Add(x.c, y.c), Add(x.d, y.d))
  }

  function AddStates(x: State, y: State): State {
    State(AddRows(x.r0, y.r0), AddRows(x.r1, y.r1), AddRows(x.r2, y.r2), AddRows(x.r3, y.r3))
  }

  function RowWords(r: Row): (w: seq<word>)
    ensures |w| == 4
  {
    [r.a, r.b, r.c, r.d]
  }

  function Words(s: State): (w: seq<word>)
    ensures |w| == 16
  {
    RowWords(s.r0) + RowWords(s.r1) + RowWords(s.r2) + RowWords(s.r3)
  }

  /** The loop counts the rounds down by two. */
  function Pairs(rounds: nat): nat {
    (rounds + 1) / 2
  }

  /** The block function of section 2.3 of RFC 8439, in words. */
  function Block(s: State, rounds: nat): (w: seq<word>)
    ensures |w| == 16
  {
    Words(AddStates(DoubleRounds(s, Pairs(rounds)), s))
  }

  // ---- counters ----

  function Counter(s: State): (c: nat)
    ensures c < 0x1_0000_0000_0000_0000
  {
    s.r3.b * 0x1_0000_0000 + s.r3.a
  }

  function WithCounter(s: State, c: nat): State
    requires c < 0x1_0000_0000_0000_0000
  {
    s.(r3 := s.r3.(a := c % 0x1_0000_0000, b := c / 0x1_0000_0000))
  }

  /**
   * The state k blocks on. With a wide counter that is a 64-bit addition; otherwise the
   * word after the counter belongs to the nonce and the counter wraps by itself.
   */
  function Skip(s: State, k: nat, wide: bool): State {
    if wide then WithCounter(s, (Counter(s) + k) % 0x1_0000_0000_0000_0000)
    else s.(r3 := s.r3.(a := (s.r3.a + k) % 0x1_0000_0000))
  }

  /**
   * The first counter word counts modulo 2^32; the second takes the carries when the counter is
   * wide and stays otherwise, as do all other words.
   */
  lemma SkipIs(s: State, k: nat, wide: bool, t: State)
    requires t == Skip(s, k, wide)
    ensures t.r0 == s.r0 && t.r1 == s.r1 && t.r2 == s.r2 && t.r3.c == s.r3.c && t.r3.d == s.r3.d
    ensures t.r3.a == (s.r3.a + k) % 0x1_0000_0000
    ensures t.r3.b == if wide then (s.r3.b + (s.r3.a + k) / 0x1_0000_0000) % 0x1_0000_0000 else s.r3.b
  {
    if wide { SplitCount(s.r3.a, s.r3.b, k); }
  }

  lemma SplitCount(a: nat, b: nat, k: nat)
    ensures var c := (b * 0x1_0000_0000 + a + k) % 0x1_0000_0000_0000_0000;
      c % 0x1_0000_0000 == (a + k) % 0x1_0000_0000
      && c / 0x1_0000_0000 == (b + (a + k) / 0x1_0000_0000) % 0x1_0000_0000
  {
    var w := 0x1_0000_0000;
    var low, carry := (a + k) % w, (a + k) / w;
    var high, more := (b + carry) % w, (b + carry) / w;
    assert b * w + a + k == w * w * more + (w * high + low);
    Divided(b * w + a + k, w * w, more, w * high + low);
    Divided(w * high + low, w, high, low);
  }

  lemma CounterOf(s: State, c: nat)
    requires c < 0x1_0000_0000_0000_0000
    ensures Counter(WithCounter(s, c)) == c
  {
  }

  lemma CarryOver(c: nat, k: nat)
    ensures (c % 0x1_0000_0000_0000_0000 + k) % 0x1_0000_0000_0000_0000 == (c + k) % 0x1_0000_0000_0000_0000
    ensures (c % 0x1_0000_0000 + k) % 0x1_0000_0000 == (c + k) % 0x1_0000_0000
  {
    RemainderAdds(c, k, 0x1_0000_0000_0000_0000);
    RemainderAdds(c, k, 0x1_0000_0000);
  }

  lemma SkipSkip(s: State, j: nat, k: nat, wide: bool)
    ensures Skip(Skip(s, j, wide), k, wide) == Skip(s, j + k, wide)
  {
    hide Counter;
    if wide {
      CounterOf(s, (Counter(s) + j) % 0x1_0000_0000_0000_0000);
      CarryOver(Counter(s) + j, k);
    } else {
      CarryOver(s.r3.a + j, k);
    }
  }

  lemma SkipNone(s: State, wide: bool)
    ensures Skip(s, 0, wide) == s
  {
  }

  /** The blocks of n consecutive counters. */
  function Stream(s: State, n: nat, rounds: nat, wide: bool): (w: seq<word>)
    ensures |w| == 16 * n
  {
    if n == 0 then [] else Stream(s, n - 1, rounds, wide) + Block(Skip(s, n - 1, wide), rounds)
  }

  lemma {:induction false} StreamBlock(s: State, n: nat, i: nat, rounds: nat, wide: bool)
    requires i < n
    ensures Stream(s, n, rounds, wide)[16 * i..16 * i + 16] == Block(Skip(s, i, wide), rounds)
  {
    hide Block, Skip;
    if i < n - 1 {
      StreamBlock(s, n - 1, i, rounds, wide);
      var w := Stream(s, n - 1, rounds, wide);
      assert (w + Block(Skip(s, n - 1, wide), rounds))[16 * i..16 * i + 16] == w[16 * i..16 * i + 16];
    }
  }

  /**
   * Where every word of a block stands: the state after the rounds is added to the state word
   * by word, row after row.
   */
  lemma BlockWords(s: State, rounds: nat)
    ensures var x, w := DoubleRounds(s, Pairs(rounds)), Block(s, rounds);
      && w[0] == Add(x.r0.a, s.r0.a) && w[1] == Add(x.r0.b, s.r0.b)
      && w[2] == Add(x.r0.c, s.r0.c) && w[3] == Add(x.r0.d, s.r0.d)
      && w[4] == Add(x.r1.a, s.r1.a) && w[5] == Add(x.r1.b, s.r1.b)
      && w[6] == Add(x.r1.c, s.r1.c) && w[7] == Add(x.r1.d, s.r1.d)
      && w[8] == Add(x.r2.a, s.r2.a) && w[9] == Add(x.r2.b, s.r2.b)
      && w[10] == Add(x.r2.c, s.r2.c) && w[11] == Add(x.r2.d, s.r2.d)
      && w[12] == Add(x.r3.a, s.r3.a) && w[13] == Add(x.r3.b, s.r3.b)
      && w[14] == Add(x.r3.c, s.r3.c) && w[15] == Add(x.r3.d, s.r3.d)
  {
    hide DoubleRounds, Add;
  }

  /** Word i of a state, counted row by row. */
  function WordOf(s: State, i: nat): word
    requires i < 16
  {
    var r := if i < 4 then s.r0 else if i < 8 then s.r1 else if i < 12 then s.r2 else s.r3;
    if i % 4 == 0 then r.a else if i % 4 == 1 then r.b else if i % 4 == 2 then r.c else r.d
  }

  lemma BlockWord(s: State, rounds: nat, i: nat)
    requires i < 16
    ensures Block(s, rounds)[i] == Add(WordOf(DoubleRounds(s, Pairs(rounds)), i), WordOf(s, i))
  {
    hide DoubleRounds, Add, Block;
    BlockWords(s, rounds);
  }

  /** Word i of block k of the stream. */
  lemma StreamWord(s: State, n: nat, k: nat, i: nat, rounds: nat, wide: bool)
    requires k < n && i < 16
    ensures var t := Skip(s, k, wide);
      Stream(s, n, rounds, wide)[16 * k + i] == Add(WordOf(DoubleRounds(t, Pairs(rounds)), i), WordOf(t, i))
  {
    hide Block, Skip, DoubleRounds, Add, WordOf, Stream;
    StreamBlock(s, n, k, rounds, wide);
    BlockWord(Skip(s, k, wide), rounds, i);
    assert Stream(s, n, rounds, wide)[16 * k..16 * k + 16][i] == Stream(s, n, rounds, wide)[16 * k + i];
  }

  lemma {:induction false} StreamSplit(s: State, m: nat, n: nat, rounds: nat, wide: bool)
    ensures Stream(s, m + n, rounds, wide) == Stream(s, m, rounds, wide) + Stream(Skip(s, m, wide), n, rounds, wide)
  {
    hide Block, Skip;
    if n > 0 {
      StreamSplit(s, m, n - 1, rounds, wide);
      SkipSkip(s, m, n - 1, wide);
    }
  }

  /** As long as the low word does not wrap, the two kinds of counter agree. */
  lemma NarrowIsWide(s: State, k: nat)
    requires s.r3.a + k < 0x1_0000_0000
    ensures Skip(s, k, false) == Skip(s, k, true)
    ensures Skip(s, k, true) == s.(r3 := s.r3.(a := Add(s.r3.a, k)))
  {
  }

  lemma {:induction false} NarrowStreamIsWide(s: State, n: nat, rounds: nat)
    requires s.r3.a + n <= 0x1_0000_0000
    ensures Stream(s, n, rounds, false) == Stream(s, n, rounds, true)
  {
    if n > 0 {
      NarrowStreamIsWide(s, n - 1, rounds);
      NarrowIsWide(s, n - 1);
    }
  }
}
