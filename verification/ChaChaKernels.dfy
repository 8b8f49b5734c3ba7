/**
 * The ways a run of ChaCha blocks is computed: one block in sixteen scalars, four
 * blocks in 128-bit registers and eight blocks in 256-bit registers.
 */
module ChaChaKernels {
  import opened ChaCha
  import opened Bits
  import Bytes

  // ---- output ----

  /** What is stored for keystream words w: the words, or the input mixed with them. */
  function Mixed(source: seq<word>, w: seq<word>): (r: seq<word>)
    requires source == [] || |w| <= |source|
    ensures |r| == |w|
  {
    if source == [] then w else seq(|w|, i requires 0 <= i < |w| => Xor(source[i], w[i]))
  }

  function Source(input: array?<word>): seq<word>
    reads input
  {
    if input == null then [] else input[..]
  }

  /** The buffer starts with the stored keystream words w and is otherwise untouched. */
  ghost predicate Emitted(before: seq<word>, source: seq<word>, w: seq<word>, after: seq<word>) {
    && |w| <= |before| == |after|
    && (source == [] || |source| == |before|)
    && after == Mixed(source, w) + before[|w|..]
  }

  /** Word by word: past w nothing changes, and with input binary digit k is set where the two differ. */
  lemma EmittedWord(before: seq<word>, source: seq<word>, w: seq<word>, after: seq<word>, i: nat, k: nat)
    requires Emitted(before, source, w, after) && i < |before| && k < 32
    ensures i >= |w| ==> after[i] == before[i]
    ensures i < |w| && source == [] ==> after[i] == w[i]
    ensures i < |w| && source != [] ==>
      GetBit(after[i], k) == if GetBit(source[i], k) == GetBit(w[i], k) then 0 else 1
  {
    hide GetBit;
    if i < |w| && source != [] { Bytes.XorDigitAt(source[i], w[i], 32, k); }
  }

  /** The input may be the output buffer itself; `source` is the input as it was at first. */
  ghost predicate Feeds(input: array?<word>, output: array<word>, before: seq<word>, source: seq<word>)
    reads input
  {
    && |before| == output.Length
    && (input == null ==> source == [])
    && (input != null ==> input.Length == output.Length)
    && (input != null && input == output ==> source == before)
    && (input != null && input != output ==> source == input[..])
  }

  method Emit(w: seq<word>, input: array?<word>, output: array<word>, at: nat,
              ghost before: seq<word>, ghost source: seq<word>, ghost done: seq<word>)
    requires Feeds(input, output, before, source)
    requires Emitted(before, source, done, output[..])
    requires at == |done| && at + |w| <= output.Length
    modifies output
    ensures Feeds(input, output, before, source)
    ensures Emitted(before, source, done + w, output[..])
  {
    hide Xor;
    forall i | 0 <= i < |w| {
      output[at + i] := if input == null then w[i] else Xor(input[at + i], w[i]);
    }
    var all := done + w;
    var mixed := Mixed(source, all);
    assert forall j :: 0 <= j < at ==> output[j] == mixed[j];
    assert forall j :: at <= j < at + |w| ==> output[j] == mixed[j];
    assert output[..] == mixed + before[|all|..];
  }

  // ---- one block ----

  method QuarterRoundInPlace(a0: word, b0: word, c0: word, d0: word)
    returns (a: word, b: word, c: word, d: word)
    ensures (a, b, c, d) == QuarterRound(a0, b0, c0, d0)
  {
    hide Add, Xor, Rotl;
    a, b, c, d := a0, b0, c0, d0;
    a := Add(a, b); d := Xor(d, a); d := Rotl(d, 16);
    c := Add(c, d); b := Xor(b, c); b := Rotl(b, 12);
    a := Add(a, b); d := Xor(d, a); d := Rotl(d, 8);
    c := Add(c, d); b := Xor(b, c); b := Rotl(b, 7);
  }

  method ScalarBlock(s: State, rounds: nat) returns (w: seq<word>)
    ensures w == Block(s, rounds)
  {
    hide QuarterRound, Add, AddRows, RowWords;
    var x0, x1, x2, x3 := s.r0.a, s.r0.b, s.r0.c, s.r0.d;
    var x4, x5, x6, x7 := s.r1.a, s.r1.b, s.r1.c, s.r1.d;
    var x8, x9, x10, x11 := s.r2.a, s.r2.b, s.r2.c, s.r2.d;
    var x12, x13, x14, x15 := s.r3.a, s.r3.b, s.r3.c, s.r3.d;
    var i: int := rounds;
    ghost var done: nat := 0;
    while i > 0
      invariant i == rounds - 2 * done && i >= -1
      invariant State(Row(x0, x1, x2, x3), Row(x4, x5, x6, x7), Row(x8, x9, x10, x11), Row(x12, x13, x14, x15))
             == DoubleRounds(s, done)
    {
      x0, x4, x8, x12 := QuarterRoundInPlace(x0, x4, x8, x12);
      x1, x5, x9, x13 := QuarterRoundInPlace(x1, x5, x9, x13);
      x2, x6, x10, x14 := QuarterRoundInPlace(x2, x6, x10, x14);
      x3, x7, x11, x15 := QuarterRoundInPlace(x3, x7, x11, x15);
      assert State(Row(x0, x1, x2, x3), Row(x4, x5, x6, x7), Row(x8, x9, x10, x11), Row(x12, x13, x14, x15))
          == ColumnRound(DoubleRounds(s, done));

      x0, x5, x10, x15 := QuarterRoundInPlace(x0, x5, x10, x15);
      x1, x6, x11, x12 := QuarterRoundInPlace(x1, x6, x11, x12);
      x2, x7, x8, x13 := QuarterRoundInPlace(x2, x7, x8, x13);
      x3, x4, x9, x14 := QuarterRoundInPlace(x3, x4, x9, x14);
      i := i - 2;
      done := done + 1;
    }
    var x := State(Row(x0, x1, x2, x3), Row(x4, x5, x6, x7), Row(x8, x9, x10, x11), Row(x12, x13, x14, x15));
    w := Words(AddStates(x, s));
  }

  // ---- registers ----

  function XorRows(x: Row, y: Row): Row {
    Row(Xor(x.a, y.a), Xor(x.b, y.b), Xor(x.c, y.c), Xor(x.d, y.d))
  }

  function RotateLeft(x: Row, k: nat): Row
    requires k <= 32
  {
    Row(Rotl(x.a, k), Rotl(x.b, k), Rotl(x.c, k), Rotl(x.d, k))
  }

  function Pick(x: Row, i: nat): word
    requires i < 4
  {
    if i == 0 then x.a else if i == 1 then x.b else if i == 2 then x.c else x.d
  }

  /** The selectors come highest word first. */
  function Shuffle(x: Row, i3: nat, i2: nat, i1: nat, i0: nat): Row
    requires i3 < 4 && i2 < 4 && i1 < 4 && i0 < 4
  {
    Row(Pick(x, i0), Pick(x, i1), Pick(x, i2), Pick(x, i3))
  }

  /** Two 64-bit additions, each without a carry into the other. */
  function AddWide(x: Row, y: Row): Row {
    var low := (x.b * 0x1_0000_0000 + x.a + y.b * 0x1_0000_0000 + y.a) % 0x1_0000_0000_0000_0000;
    var high := (x.d * 0x1_0000_0000 + x.c + y.d * 0x1_0000_0000 + y.c) % 0x1_0000_0000_0000_0000;
    Row(low % 0x1_0000_0000, low / 0x1_0000_0000, high % 0x1_0000_0000, high / 0x1_0000_0000)
  }

  /** Four quarter rounds at once, one in each word of the registers. */
  method RowRounds(p0: Row, p1: Row, p2: Row, p3: Row) returns (r0: Row, r1: Row, r2: Row, r3: Row)
    ensures State(r0, r1, r2, r3) == ColumnRound(State(p0, p1, p2, p3))
  {
    hide Add, Xor, Rotl;
    r0, r1, r2, r3 := p0, p1, p2, p3;
    r0 := AddRows(r0, r1); r3 := XorRows(r3, r0); r3 := RotateLeft(r3, 16);
    r2 := AddRows(r2, r3); r1 := XorRows(r1, r2); r1 := RotateLeft(r1, 12);
    r0 := AddRows(r0, r1); r3 := XorRows(r3, r0); r3 := RotateLeft(r3, 8);
    r2 := AddRows(r2, r3); r1 := XorRows(r1, r2); r1 := RotateLeft(r1, 7);
  }

  /** Turning the rows brings the diagonals into columns. */
  method RowDoubleRound(p0: Row, p1: Row, p2: Row, p3: Row) returns (r0: Row, r1: Row, r2: Row, r3: Row)
    ensures State(r0, r1, r2, r3) == DiagonalRound(ColumnRound(State(p0, p1, p2, p3)))
  {
    hide QuarterRound;
    r0, r1, r2, r3 := RowRounds(p0, p1, p2, p3);
    r1 := Shuffle(r1, 0, 3, 2, 1);
    r2 := Shuffle(r2, 1, 0, 3, 2);
    r3 := Shuffle(r3, 2, 1, 0, 3);
    r0, r1, r2, r3 := RowRounds(r0, r1, r2, r3);
    r1 := Shuffle(r1, 2, 1, 0, 3);
    r2 := Shuffle(r2, 1, 0, 3, 2);
    r3 := Shuffle(r3, 0, 3, 2, 1);
  }

  // ---- four blocks in 128-bit registers ----

  /** What the 128-bit code makes of the block k after s: the counter is added last, 64 bits wide. */
  function RegisterBlock(s: State, k: word, rounds: nat): (w: seq<word>)
    ensures |w| == 16
  {
    var x := DoubleRounds(State(s.r0, s.r1, s.r2, AddWide(s.r3, Row(k, 0, 0, 0))), Pairs(rounds));
    Words(AddStates(x, s).(r3 := AddWide(AddRows(x.r3, s.r3), Row(k, 0, 0, 0))))
  }

  function RegisterBlocks(s: State, rounds: nat): (w: seq<word>)
    ensures |w| == 64
  {
    Block(s, rounds) + RegisterBlock(s, 1, rounds) + RegisterBlock(s, 2, rounds) + RegisterBlock(s, 3, rounds)
  }

  method FourBlocks(s: State, rounds: nat, input: array?<word>, output: array<word>, at: nat,
                    ghost before: seq<word>, ghost source: seq<word>, ghost done: seq<word>)
    requires Feeds(input, output, before, source)
    requires Emitted(before, source, done, output[..])
    requires at == |done| && at + 64 <= output.Length
    modifies output
    ensures Feeds(input, output, before, source)
    ensures Emitted(before, source, done + RegisterBlocks(s, rounds), output[..])
  {
    hide Emitted, Feeds, ColumnRound, DiagonalRound, AddWide, AddRows, RowWords;
    var w00, w01, w02, w03 := s.r0, s.r1, s.r2, s.r3;
    var w10, w11, w12, w13 := s.r0, s.r1, s.r2, AddWide(s.r3, Row(1, 0, 0, 0));
    var w20, w21, w22, w23 := s.r0, s.r1, s.r2, AddWide(s.r3, Row(2, 0, 0, 0));
    var w30, w31, w32, w33 := s.r0, s.r1, s.r2, AddWide(s.r3, Row(3, 0, 0, 0));
    var s0, s1 := State(w00, w01, w02, w03), State(w10, w11, w12, w13);
    var s2, s3 := State(w20, w21, w22, w23), State(w30, w31, w32, w33);
    var i: int := rounds;
    ghost var n: nat := 0;
    while i > 0
      invariant i == rounds - 2 * n && i >= -1
      modifies {}
      invariant Emitted(before, source, done, output[..])
      invariant State(w00, w01, w02, w03) == DoubleRounds(s0, n)
      invariant State(w10, w11, w12, w13) == DoubleRounds(s1, n)
      invariant State(w20, w21, w22, w23) == DoubleRounds(s2, n)
      invariant State(w30, w31, w32, w33) == DoubleRounds(s3, n)
    {
      w00, w01, w02, w03 := RowDoubleRound(w00, w01, w02, w03);
      w10, w11, w12, w13 := RowDoubleRound(w10, w11, w12, w13);
      w20, w21, w22, w23 := RowDoubleRound(w20, w21, w22, w23);
      w30, w31, w32, w33 := RowDoubleRound(w30, w31, w32, w33);
      i := i - 2;
      n := n + 1;
    }
    w00, w01, w02, w03 := AddRows(w00, s.r0), AddRows(w01, s.r1), AddRows(w02, s.r2), AddRows(w03, s.r3);
    w10, w11, w12, w13 := AddRows(w10, s.r0), AddRows(w11, s.r1), AddRows(w12, s.r2), AddRows(w13, s.r3);
    w13 := AddWide(w13, Row(1, 0, 0, 0));
    w20, w21, w22, w23 := AddRows(w20, s.r0), AddRows(w21, s.r1), AddRows(w22, s.r2), AddRows(w23, s.r3);
    w23 := AddWide(w23, Row(2, 0, 0, 0));
    w30, w31, w32, w33 := AddRows(w30, s.r0), AddRows(w31, s.r1), AddRows(w32, s.r2), AddRows(w33, s.r3);
    w33 := AddWide(w33, Row(3, 0, 0, 0));
    ghost var b0, b1 := Words(State(w00, w01, w02, w03)), Words(State(w10, w11, w12, w13));
    ghost var b2, b3 := Words(State(w20, w21, w22, w23)), Words(State(w30, w31, w32, w33));
    EmitRows(w00, w01, w02, w03, input, output, at, before, source, done);
    EmitRows(w10, w11, w12, w13, input, output, at + 16, before, source, done + b0);
    EmitRows(w20, w21, w22, w23, input, output, at + 32, before, source, done + b0 + b1);
    EmitRows(w30, w31, w32, w33, input, output, at + 48, before, source, done + b0 + b1 + b2);
    assert done + b0 + b1 + b2 + b3 == done + (b0 + b1 + b2 + b3);
  }

  method EmitRows(r0: Row, r1: Row, r2: Row, r3: Row, input: array?<word>, output: array<word>, at: nat,
                  ghost before: seq<word>, ghost source: seq<word>, ghost done: seq<word>)
    requires Feeds(input, output, before, source)
    requires Emitted(before, source, done, output[..])
    requires at == |done| && at + 16 <= output.Length
    modifies output
    ensures Feeds(input, output, before, source)
    ensures Emitted(before, source, done + Words(State(r0, r1, r2, r3)), output[..])
  {
    hide Emitted, Feeds, RowWords;
    var w0, w1, w2, w3 := RowWords(r0), RowWords(r1), RowWords(r2), RowWords(r3);
    Emit(w0, input, output, at, before, source, done);
    Emit(w1, input, output, at + 4, before, source, done + w0);
    Emit(w2, input, output, at + 8, before, source, done + w0 + w1);
    Emit(w3, input, output, at + 12, before, source, done + w0 + w1 + w2);
    assert done + w0 + w1 + w2 + w3 == done + (w0 + w1 + w2 + w3);
  }

  /**
   * The last addition of k must carry into the upper counter word exactly when the
   * counter itself does.
   */
  predicate CarriesAgree(s: State, k: word, rounds: nat) {
    var x := DoubleRounds(Skip(s, k, true), Pairs(rounds));
    Add(x.r3.a, s.r3.a) + k >= 0x1_0000_0000 <==> s.r3.a + k >= 0x1_0000_0000
  }

  predicate CarriesThroughout(s: State, rounds: nat) {
    CarriesAgree(s, 1, rounds) && CarriesAgree(s, 2, rounds) && CarriesAgree(s, 3, rounds)
  }

  lemma WideCounter(s: State, k: word)
    ensures AddWide(s.r3, Row(k, 0, 0, 0)) == Skip(s, k, true).r3
  {
  }

  function Carry(low: word, k: word): word {
    if low + k >= 0x1_0000_0000 then 1 else 0
  }

  lemma Halves(high: nat, low: word)
    requires high <= 0x1_0000_0000
    ensures (high * 0x1_0000_0000 + low) % 0x1_0000_0000_0000_0000 % 0x1_0000_0000 == low
    ensures (high * 0x1_0000_0000 + low) % 0x1_0000_0000_0000_0000 / 0x1_0000_0000 == high % 0x1_0000_0000
  {
  }

  lemma AddWideCarries(r: Row, k: word)
    ensures AddWide(r, Row(k, 0, 0, 0)) == Row(Add(r.a, k), Add(r.b, Carry(r.a, k)), r.c, r.d)
  {
    var carry := Carry(r.a, k);
    Halves(r.b + carry, Add(r.a, k));
    assert r.b * 0x1_0000_0000 + r.a + k == (r.b + carry) * 0x1_0000_0000 + Add(r.a, k);
    Halves(r.d, r.c);
  }

  lemma AddAssociates(x: word, y: word, z: word)
    ensures Add(Add(x, y), z) == Add(x, Add(y, z))
  {
    CarryOver(x + y, z);
    CarryOver(y + z, x);
  }

  lemma SameCarry(x: word, y: word, c: word, d: word)
    requires c < 2 && d < 2
    ensures Add(Add(x, y), c) == Add(x, Add(y, d)) <==> c == d
  {
  }

  lemma LastAddition(x: Row, y: Row, k: word)
    ensures AddWide(AddRows(x, y), Row(k, 0, 0, 0)) == AddRows(x, AddWide(y, Row(k, 0, 0, 0)))
       <==> (Add(x.a, y.a) + k >= 0x1_0000_0000 <==> y.a + k >= 0x1_0000_0000)
  {
    hide Add, AddWide;
    AddWideCarries(AddRows(x, y), k);
    AddWideCarries(y, k);
    AddAssociates(x.a, y.a, k);
    SameCarry(x.b, y.b, Carry(Add(x.a, y.a), k), Carry(y.a, k));
  }

  lemma SameWords(x: State, y: State)
    ensures Words(x) == Words(y) <==> x == y
  {
    if Words(x) == Words(y) {
      forall i: nat | i < 16 ensures Words(x)[i] == Words(y)[i] {}
      assert x.r0 == y.r0 by {
        assert Words(x)[0] == x.r0.a && Words(x)[1] == x.r0.b && Words(x)[2] == x.r0.c && Words(x)[3] == x.r0.d;
      }
      assert x.r1 == y.r1 by {
        assert Words(x)[4] == x.r1.a && Words(x)[5] == x.r1.b && Words(x)[6] == x.r1.c && Words(x)[7] == x.r1.d;
      }
      assert x.r2 == y.r2 by {
        assert Words(x)[8] == x.r2.a && Words(x)[9] == x.r2.b && Words(x)[10] == x.r2.c && Words(x)[11] == x.r2.d;
      }
      assert x.r3 == y.r3 by {
        assert Words(x)[12] == x.r3.a && Words(x)[13] == x.r3.b && Words(x)[14] == x.r3.c && Words(x)[15] == x.r3.d;
      }
    }
  }

  lemma RegisterBlockExact(s: State, k: word, rounds: nat)
    requires k < 4
    ensures RegisterBlock(s, k, rounds) == Block(Skip(s, k, true), rounds) <==> CarriesAgree(s, k, rounds)
  {
    hide DoubleRounds, AddWide, AddRows, Words, Add;
    WideCounter(s, k);
    var t := Skip(s, k, true);
    assert State(s.r0, s.r1, s.r2, t.r3) == t;
    var x := DoubleRounds(t, Pairs(rounds));
    LastAddition(x.r3, s.r3, k);
    SameWords(AddStates(x, s).(r3 := AddWide(AddRows(x.r3, s.r3), Row(k, 0, 0, 0))), AddStates(x, t));
  }

  lemma SamePieces(a: seq<word>, b: seq<word>, c: seq<word>, d: seq<word>)
    requires |a| == |c|
    ensures a + b == c + d <==> a == c && b == d
  {
    if a + b == c + d {
      assert (a + b)[..|a|] == a && (c + d)[..|a|] == c;
      assert (a + b)[|a|..] == b && (c + d)[|a|..] == d;
    }
  }

  lemma FourInStream(s: State, rounds: nat)
    ensures Stream(s, 4, rounds, true)
         == Block(s, rounds) + Block(Skip(s, 1, true), rounds)
            + Block(Skip(s, 2, true), rounds) + Block(Skip(s, 3, true), rounds)
  {
    hide Block, Skip;
    SkipNone(s, true);
    assert Stream(s, 1, rounds, true) == Block(s, rounds);
    assert Stream(s, 2, rounds, true) == Block(s, rounds) + Block(Skip(s, 1, true), rounds);
    assert Stream(s, 3, rounds, true) == Stream(s, 2, rounds, true) + Block(Skip(s, 2, true), rounds);
  }

  /** The 128-bit code yields the next four blocks exactly when no addition carries astray. */
  lemma RegisterBlocksExact(s: State, rounds: nat)
    ensures RegisterBlocks(s, rounds) == Stream(s, 4, rounds, true)
       <==> CarriesThroughout(s, rounds)
  {
    hide RegisterBlock, Block, CarriesAgree, Skip, Stream;
    FourInStream(s, rounds);
    RegisterBlockExact(s, 1, rounds);
    RegisterBlockExact(s, 2, rounds);
    RegisterBlockExact(s, 3, rounds);
    var a, c := Block(s, rounds), Block(s, rounds);
    var a1, c1 := RegisterBlock(s, 1, rounds), Block(Skip(s, 1, true), rounds);
    var a2, c2 := RegisterBlock(s, 2, rounds), Block(Skip(s, 2, true), rounds);
    var a3, c3 := RegisterBlock(s, 3, rounds), Block(Skip(s, 3, true), rounds);
    SamePieces(a + a1 + a2, a3, c + c1 + c2, c3);
    SamePieces(a + a1, a2, c + c1, c2);
    SamePieces(a, a1, c, c1);
  }

  /** The counter addition of the previous blocks: 32 bits wide, the carry worked out beforehand. */
  function CounterRow(s: State, k: word): Row {
    var room: word := 0xFFFF_FFFF - s.r3.a;
    Row(k, if room < k then 1 else 0, 0, 0)
  }

  lemma NoCounterRow(s: State)
    ensures CounterRow(s, 0) == Row(0, 0, 0, 0)
  {
  }

  /** Whether so many blocks can follow without the low counter word wrapping. */
  predicate MultiBlockSafe(low: word, blocks: nat) {
    0xFFFF_FFFF - low > blocks
  }

  // ---- eight blocks in 256-bit registers ----

  datatype Lanes = Lanes(low: Row, high: Row)

  function Broadcast(r: Row): Lanes {
    Lanes(r, r)
  }

  function AddLanes(x: Lanes, y: Lanes): Lanes {
    Lanes(AddRows(x.low, y.low), AddRows(x.high, y.high))
  }

  function XorLanes(x: Lanes, y: Lanes): Lanes {
    Lanes(XorRows(x.low, y.low), XorRows(x.high, y.high))
  }

  function RotateLanes(x: Lanes, k: nat): Lanes
    requires k <= 32
  {
    Lanes(RotateLeft(x.low, k), RotateLeft(x.high, k))
  }

  function ShuffleLanes(x: Lanes, i3: nat, i2: nat, i1: nat, i0: nat): Lanes
    requires i3 < 4 && i2 < 4 && i1 < 4 && i0 < 4
  {
    Lanes(Shuffle(x.low, i3, i2, i1, i0), Shuffle(x.high, i3, i2, i1, i0))
  }

  /** One of the four 128-bit halves of two registers. */
  function Half(x: Lanes, y: Lanes, selector: nat): Row
    requires selector < 4
  {
    if selector == 0 then x.low else if selector == 1 then x.high else if selector == 2 then y.low else y.high
  }

  function Permute(x: Lanes, y: Lanes, first: nat, second: nat): Lanes
    requires first < 4 && second < 4
  {
    Lanes(Half(x, y, first), Half(x, y, second))
  }

  function LaneWords(x: Lanes): seq<word> {
    RowWords(x.low) + RowWords(x.high)
  }

  method LaneRounds(p0: Lanes, p1: Lanes, p2: Lanes, p3: Lanes) returns (r0: Lanes, r1: Lanes, r2: Lanes, r3: Lanes)
    ensures State(r0.low, r1.low, r2.low, r3.low) == ColumnRound(State(p0.low, p1.low, p2.low, p3.low))
    ensures State(r0.high, r1.high, r2.high, r3.high) == ColumnRound(State(p0.high, p1.high, p2.high, p3.high))
  {
    hide Add, Xor, Rotl;
    r0, r1, r2, r3 := p0, p1, p2, p3;
    r0 := AddLanes(r0, r1); r3 := XorLanes(r3, r0); r3 := RotateLanes(r3, 16);
    r2 := AddLanes(r2, r3); r1 := XorLanes(r1, r2); r1 := RotateLanes(r1, 12);
    r0 := AddLanes(r0, r1); r3 := XorLanes(r3, r0); r3 := RotateLanes(r3, 8);
    r2 := AddLanes(r2, r3); r1 := XorLanes(r1, r2); r1 := RotateLanes(r1, 7);
  }

  method LaneDoubleRound(p0: Lanes, p1: Lanes, p2: Lanes, p3: Lanes)
    returns (r0: Lanes, r1: Lanes, r2: Lanes, r3: Lanes)
    ensures State(r0.low, r1.low, r2.low, r3.low)
         == DiagonalRound(ColumnRound(State(p0.low, p1.low, p2.low, p3.low)))
    ensures State(r0.high, r1.high, r2.high, r3.high)
         == DiagonalRound(ColumnRound(State(p0.high, p1.high, p2.high, p3.high)))
  {
    hide QuarterRound;
    r0, r1, r2, r3 := LaneRounds(p0, p1, p2, p3);
    r1 := ShuffleLanes(r1, 0, 3, 2, 1);
    r2 := ShuffleLanes(r2, 1, 0, 3, 2);
    r3 := ShuffleLanes(r3, 2, 1, 0, 3);
    r0, r1, r2, r3 := LaneRounds(r0, r1, r2, r3);
    r1 := ShuffleLanes(r1, 2, 1, 0, 3);
    r2 := ShuffleLanes(r2, 1, 0, 3, 2);
    r3 := ShuffleLanes(r3, 0, 3, 2, 1);
  }

  /** The carry worked out beforehand is that of the 64-bit counter. */
  lemma CounterRowSkips(s: State, k: word)
    ensures AddRows(s.r3, CounterRow(s, k)) == Skip(s, k, true).r3
  {
    WideCounter(s, k);
    AddWideCarries(s.r3, k);
  }

  lemma AddRowsAssociates(x: Row, y: Row, z: Row)
    ensures AddRows(AddRows(x, y), z) == AddRows(x, AddRows(y, z))
  {
    hide Add;
    AddAssociates(x.a, y.a, z.a);
    AddAssociates(x.b, y.b, z.b);
    AddAssociates(x.c, y.c, z.c);
    AddAssociates(x.d, y.d, z.d);
  }

  function Start(s: State, counters: Row): State {
    State(s.r0, s.r1, s.r2, AddRows(s.r3, counters))
  }

  /** Adding the state and then the counter row again finishes the block of counter k. */
  lemma FinishedBlock(s: State, k: word, rounds: nat, x: State)
    requires x == DoubleRounds(Start(s, CounterRow(s, k)), Pairs(rounds))
    ensures Words(State(AddRows(x.r0, s.r0), AddRows(x.r1, s.r1), AddRows(x.r2, s.r2),
                        AddRows(AddRows(x.r3, s.r3), CounterRow(s, k))))
         == Block(Skip(s, k, true), rounds)
  {
    hide DoubleRounds, AddRows, CounterRow, Words;
    CounterRowSkips(s, k);
    var t := Skip(s, k, true);
    assert t == State(s.r0, s.r1, s.r2, t.r3);
    AddRowsAssociates(x.r3, s.r3, CounterRow(s, k));
  }

  method Finish(s: State, p0: Lanes, p1: Lanes, p2: Lanes, p3: Lanes, counters: Lanes,
                ghost high: word, ghost low: word, ghost rounds: nat)
    returns (x0: Lanes, x1: Lanes, x2: Lanes, x3: Lanes)
    requires counters == Lanes(CounterRow(s, low), CounterRow(s, high))
    requires State(p0.low, p1.low, p2.low, p3.low) == DoubleRounds(Start(s, counters.low), Pairs(rounds))
    requires State(p0.high, p1.high, p2.high, p3.high) == DoubleRounds(Start(s, counters.high), Pairs(rounds))
    ensures Words(State(x0.low, x1.low, x2.low, x3.low)) == Block(Skip(s, low, true), rounds)
    ensures Words(State(x0.high, x1.high, x2.high, x3.high)) == Block(Skip(s, high, true), rounds)
  {
    hide DoubleRounds, AddRows, CounterRow, Words, Skip, Block, Start;
    x0, x1, x2 := AddLanes(p0, Broadcast(s.r0)), AddLanes(p1, Broadcast(s.r1)), AddLanes(p2, Broadcast(s.r2));
    x3 := AddLanes(p3, Broadcast(s.r3));
    x3 := AddLanes(x3, counters);
    FinishedBlock(s, low, rounds, State(p0.low, p1.low, p2.low, p3.low));
    FinishedBlock(s, high, rounds, State(p0.high, p1.high, p2.high, p3.high));
  }

  lemma StreamExtends(s: State, n: nat, rounds: nat)
    ensures Stream(s, n, rounds, true) + Block(Skip(s, n, true), rounds) == Stream(s, n + 1, rounds, true)
  {
    hide Block, Skip;
  }

  /** Stores one block: the chosen halves of the first two registers, then of the other two. */
  method EmitHalves(x0: Lanes, x1: Lanes, x2: Lanes, x3: Lanes, high: bool,
                    input: array?<word>, output: array<word>, at: nat,
                    ghost s: State, ghost k: nat, ghost rounds: nat,
                    ghost before: seq<word>, ghost source: seq<word>, ghost done: seq<word>)
    requires Feeds(input, output, before, source)
    requires Emitted(before, source, done + Stream(s, k, rounds, true), output[..])
    requires at == |done| + 16 * k && at + 16 <= output.Length
    requires high ==> Words(State(x0.high, x1.high, x2.high, x3.high)) == Block(Skip(s, k, true), rounds)
    requires !high ==> Words(State(x0.low, x1.low, x2.low, x3.low)) == Block(Skip(s, k, true), rounds)
    modifies output
    ensures Feeds(input, output, before, source)
    ensures Emitted(before, source, done + Stream(s, k + 1, rounds, true), output[..])
  {
    hide Emitted, Feeds, RowWords, Skip, Block, Stream;
    var first, second := if high then 1 else 0, if high then 3 else 2;
    var w0, w1 := LaneWords(Permute(x0, x1, first, second)), LaneWords(Permute(x2, x3, first, second));
    ghost var sofar := done + Stream(s, k, rounds, true);
    Emit(w0, input, output, at, before, source, sofar);
    Emit(w1, input, output, at + 8, before, source, sofar + w0);
    StreamExtends(s, k, rounds);
    assert w0 + w1 == Block(Skip(s, k, true), rounds);
    assert sofar + w0 + w1 == done + (Stream(s, k, rounds, true) + (w0 + w1));
  }

  /** Eight consecutive blocks, whatever the counter. */
  method EightBlocks(s: State, rounds: nat, input: array?<word>, output: array<word>, at: nat,
                     ghost before: seq<word>, ghost source: seq<word>, ghost done: seq<word>)
    requires Feeds(input, output, before, source)
    requires Emitted(before, source, done, output[..])
    requires at == |done| && at + 128 <= output.Length
    modifies output
    ensures Feeds(input, output, before, source)
    ensures Emitted(before, source, done + Stream(s, 8, rounds, true), output[..])
  {
    hide Emitted, Feeds, ColumnRound, DiagonalRound, AddRows, RowWords, CounterRow, Block, Skip, Stream, Words;
    var state0, state1, state2, state3 := Broadcast(s.r0), Broadcast(s.r1), Broadcast(s.r2), Broadcast(s.r3);
    var ctr0 := Lanes(CounterRow(s, 4), Row(0, 0, 0, 0));
    NoCounterRow(s);
    var ctr1 := Lanes(CounterRow(s, 5), CounterRow(s, 1));
    var ctr2 := Lanes(CounterRow(s, 6), CounterRow(s, 2));
    var ctr3 := Lanes(CounterRow(s, 7), CounterRow(s, 3));
    var w00, w01, w02, w03 := state0, state1, state2, AddLanes(state3, ctr0);
    var w10, w11, w12, w13 := state0, state1, state2, AddLanes(state3, ctr1);
    var w20, w21, w22, w23 := state0, state1, state2, AddLanes(state3, ctr2);
    var w30, w31, w32, w33 := state0, state1, state2, AddLanes(state3, ctr3);
    var i: int := rounds;
    ghost var n: nat := 0;
    while i > 0
      modifies {}
      invariant i == rounds - 2 * n && i >= -1
      invariant Emitted(before, source, done, output[..])
      invariant State(w00.high, w01.high, w02.high, w03.high) == DoubleRounds(Start(s, ctr0.high), n)
      invariant State(w10.high, w11.high, w12.high, w13.high) == DoubleRounds(Start(s, ctr1.high), n)
      invariant State(w20.high, w21.high, w22.high, w23.high) == DoubleRounds(Start(s, ctr2.high), n)
      invariant State(w30.high, w31.high, w32.high, w33.high) == DoubleRounds(Start(s, ctr3.high), n)
      invariant State(w00.low, w01.low, w02.low, w03.low) == DoubleRounds(Start(s, ctr0.low), n)
      invariant State(w10.low, w11.low, w12.low, w13.low) == DoubleRounds(Start(s, ctr1.low), n)
      invariant State(w20.low, w21.low, w22.low, w23.low) == DoubleRounds(Start(s, ctr2.low), n)
      invariant State(w30.low, w31.low, w32.low, w33.low) == DoubleRounds(Start(s, ctr3.low), n)
    {
      w00, w01, w02, w03 := LaneDoubleRound(w00, w01, w02, w03);
      w10, w11, w12, w13 := LaneDoubleRound(w10, w11, w12, w13);
      w20, w21, w22, w23 := LaneDoubleRound(w20, w21, w22, w23);
      w30, w31, w32, w33 := LaneDoubleRound(w30, w31, w32, w33);
      i := i - 2;
      n := n + 1;
    }
    w00, w01, w02, w03 := Finish(s, w00, w01, w02, w03, ctr0, 0, 4, rounds);
    w10, w11, w12, w13 := Finish(s, w10, w11, w12, w13, ctr1, 1, 5, rounds);
    w20, w21, w22, w23 := Finish(s, w20, w21, w22, w23, ctr2, 2, 6, rounds);
    w30, w31, w32, w33 := Finish(s, w30, w31, w32, w33, ctr3, 3, 7, rounds);
    assert done + Stream(s, 0, rounds, true) == done;
    EmitHalves(w00, w01, w02, w03, true, input, output, at, s, 0, rounds, before, source, done);
    EmitHalves(w10, w11, w12, w13, true, input, output, at + 16, s, 1, rounds, before, source, done);
    EmitHalves(w20, w21, w22, w23, true, input, output, at + 32, s, 2, rounds, before, source, done);
    EmitHalves(w30, w31, w32, w33, true, input, output, at + 48, s, 3, rounds, before, source, done);
    EmitHalves(w00, w01, w02, w03, false, input, output, at + 64, s, 4, rounds, before, source, done);
    EmitHalves(w10, w11, w12, w13, false, input, output, at + 80, s, 5, rounds, before, source, done);
    EmitHalves(w20, w21, w22, w23, false, input, output, at + 96, s, 6, rounds, before, source, done);
    EmitHalves(w30, w31, w32, w33, false, input, output, at + 112, s, 7, rounds, before, source, done);
  }
}
