/**
 * Runs of cipher blocks over one memory, in which the input, the operand of the
 * exclusive or and the output may overlap: one block after another, and in batches.
 */
module BlockBatches {
  import opened Arithmetic
  import opened Bytes
  import opened CbcMac

  /** How a pointer moves from block to block. */
  datatype Motion = Still | Up | Down

  function Move(at: int, motion: Motion, blocks: nat): int {
    match motion
    case Still => at
    case Up => at + 16 * blocks
    case Down => at - 16 * blocks
  }

  datatype Operand = NoOperand | Input | Output

  /** The pointers of a run, how they move, and what becomes of the third one. */
  datatype Walk = Walk(inAt: int, inMotion: Motion, xorAt: int, xorMotion: Motion, outAt: int, outMotion: Motion,
                       operand: Operand, counter: bool) {
    function In(i: nat): int {
      Move(inAt, inMotion, i)
    }

    function Xor(i: nat): int {
      Move(xorAt, xorMotion, i)
    }

    function Out(i: nat): int {
      Move(outAt, outMotion, i)
    }
  }

  predicate Inside(size: nat, at: int) {
    0 <= at && at + 16 <= size
  }

  predicate FitsAt(size: nat, w: Walk, i: nat) {
    Inside(size, w.In(i)) && Inside(size, w.Out(i)) && (!w.operand.NoOperand? ==> Inside(size, w.Xor(i)))
  }

  predicate Fits(size: nat, w: Walk, n: nat) {
    forall i: nat :: i < n ==> FitsAt(size, w, i)
  }

  function BlockAt(m: seq<byte>, at: int): Block
    requires Inside(|m|, at)
  {
    m[at..at + 16]
  }

  function Plus(b: byte, k: nat): byte {
    (b + k) % 256
  }

  /** The last byte counts on by k. */
  function Counted(block: Block, k: nat): Block {
    block[15 := Plus(block[15], k)]
  }

  function CountedAt(m: seq<byte>, at: int, k: nat): (r: seq<byte>)
    requires Inside(|m|, at)
    ensures |r| == |m|
  {
    m[at + 15 := Plus(m[at + 15], k)]
  }

  /** What is stored for an input block, with the operand's bytes. */
  function Result(cipher: Block -> Block, operand: Operand, block: Block, xor: Block): Block {
    match operand
    case NoOperand => cipher(block)
    case Input => cipher(XorSeq(block, xor))
    case Output => XorSeq(cipher(block), xor)
  }

  function OperandAt(m: seq<byte>, w: Walk, i: nat): Block
    requires FitsAt(|m|, w, i)
  {
    if w.operand.NoOperand? then Zeros(16) else BlockAt(m, w.Xor(i))
  }

  /** Block i: load, count, encipher and store. */
  function Step(cipher: Block -> Block, m: seq<byte>, w: Walk, i: nat): (r: seq<byte>)
    requires FitsAt(|m|, w, i)
    ensures |r| == |m|
  {
    var block := BlockAt(m, w.In(i));
    var counted := if w.counter then CountedAt(m, w.In(i), 1) else m;
    var xor := if w.operand.Input? then OperandAt(m, w, i) else OperandAt(counted, w, i);
    Written(counted, w.Out(i), Result(cipher, w.operand, block, xor))
  }

  /** The blocks i, ..., i + n - 1, one after another. */
  function Serial(cipher: Block -> Block, m: seq<byte>, w: Walk, i: nat, n: nat): (r: seq<byte>)
    requires Fits(|m|, w, i + n)
    ensures |r| == |m|
  {
    if n == 0 then m
    else
      assert FitsAt(|m|, w, i + n - 1);
      Step(cipher, Serial(cipher, m, w, i, n - 1), w, i + n - 1)
  }

  lemma {:induction false} SerialSerial(cipher: Block -> Block, m: seq<byte>, w: Walk, i: nat, j: nat, n: nat)
    requires Fits(|m|, w, i + j + n)
    ensures Serial(cipher, Serial(cipher, m, w, i, j), w, i + j, n) == Serial(cipher, m, w, i, j + n)
  {
    hide Step;
    if n > 0 {
      SerialSerial(cipher, m, w, i, j, n - 1);
      assert FitsAt(|m|, w, i + j + n - 1);
    }
  }

  predicate Apart(a: int, b: int) {
    a + 16 <= b || b + 16 <= a
  }

  /** Storing block j does not disturb what block i > j reads. */
  predicate Clear(w: Walk, j: nat, i: nat) {
    && Apart(w.Out(j), w.In(i))
    && (!w.operand.NoOperand? ==> Apart(w.Out(j), w.Xor(i)))
  }

  /** The counter block lies outside everything block i stores or mixes in. */
  predicate CounterApart(w: Walk, i: nat) {
    w.inMotion.Still? && Apart(w.inAt, w.Out(i)) && (!w.operand.NoOperand? ==> Apart(w.inAt, w.Xor(i)))
  }

  /** How many blocks are taken next when n are left. */
  function BatchSize(n: nat, parallel: bool): (k: nat)
    requires n > 0
    ensures 0 < k <= n && k <= 6
  {
    if parallel && n >= 6 then 6 else if parallel && n >= 2 then 2 else 1
  }

  /** No block of a batch needs what another one of the same batch stores. */
  ghost predicate BatchClear(w: Walk, i: nat, k: nat) {
    && (forall j: nat, l: nat :: i <= j < l < i + k ==> Clear(w, j, l))
    && (w.counter ==> forall l: nat :: i <= l < i + k ==> CounterApart(w, l))
  }

  /** That holds of each of the batches that are run for the n blocks from i on. */
  ghost predicate Undisturbed(w: Walk, i: nat, n: nat)
    decreases n
  {
    n == 0 || (var k := BatchSize(n, true); (k > 1 ==> BatchClear(w, i, k)) && Undisturbed(w, i + k, n - k))
  }

  lemma {:induction false} NeverDisturbed(w: Walk, i: nat, n: nat)
    requires forall j: nat, l: nat :: i <= j < l < i + n ==> Clear(w, j, l)
    requires w.counter ==> forall l: nat :: i <= l < i + n ==> CounterApart(w, l)
    ensures Undisturbed(w, i, n)
    decreases n
  {
    hide Clear, CounterApart;
    if n > 0 {
      var k := BatchSize(n, true);
      NeverDisturbed(w, i + k, n - k);
    }
  }

  // ---- slices of the memory during a run ----

  lemma WrittenElsewhere(m: seq<byte>, at: int, block: Block, other: int)
    requires Inside(|m|, at) && Inside(|m|, other) && Apart(at, other)
    ensures BlockAt(Written(m, at, block), other) == BlockAt(m, other)
  {
  }

  lemma CountedElsewhere(m: seq<byte>, at: int, k: nat, other: int)
    requires Inside(|m|, at) && Inside(|m|, other) && Apart(at, other)
    ensures BlockAt(CountedAt(m, at, k), other) == BlockAt(m, other)
  {
  }

  lemma CountedHere(m: seq<byte>, at: int, k: nat)
    requires Inside(|m|, at)
    ensures BlockAt(CountedAt(m, at, k), at) == Counted(BlockAt(m, at), k)
  {
  }

  lemma PlusPlus(b: byte, j: nat, k: nat)
    ensures Plus(Plus(b, j), k) == Plus(b, j + k)
  {
  }

  lemma CountedCounted(block: Block, j: nat, k: nat)
    ensures Counted(Counted(block, j), k) == Counted(block, j + k)
  {
    PlusPlus(block[15], j, k);
  }

  lemma CountedAtTwice(m: seq<byte>, at: int, j: nat, k: nat)
    requires Inside(|m|, at)
    ensures CountedAt(CountedAt(m, at, j), at, k) == CountedAt(m, at, j + k)
  {
    PlusPlus(m[at + 15], j, k);
  }

  lemma WriteThenCount(m: seq<byte>, at: int, block: Block, ctr: int, k: nat)
    requires Inside(|m|, at) && Inside(|m|, ctr) && Apart(at, ctr)
    ensures CountedAt(Written(m, at, block), ctr, k) == Written(CountedAt(m, ctr, k), at, block)
  {
  }

  /** A block survives a run that stores and counts elsewhere. */
  lemma {:induction false} Survives(cipher: Block -> Block, m: seq<byte>, w: Walk, i: nat, n: nat, at: int)
    requires Fits(|m|, w, i + n) && Inside(|m|, at)
    requires forall j: nat :: i <= j < i + n ==> Apart(w.Out(j), at)
    requires w.counter ==> w.inMotion.Still? && Apart(w.inAt, at)
    ensures BlockAt(Serial(cipher, m, w, i, n), at) == BlockAt(m, at)
  {
    hide BlockAt, CountedAt, Written, Result, OperandAt;
    if n > 0 {
      Survives(cipher, m, w, i, n - 1, at);
      var s, j := Serial(cipher, m, w, i, n - 1), i + n - 1;
      assert FitsAt(|m|, w, j);
      assert Apart(w.Out(j), at);
      StepElsewhere(cipher, s, w, j, at);
    }
  }

  lemma StepElsewhere(cipher: Block -> Block, m: seq<byte>, w: Walk, i: nat, at: int)
    requires FitsAt(|m|, w, i) && Inside(|m|, at) && Apart(w.Out(i), at)
    requires w.counter ==> Apart(w.In(i), at)
    ensures BlockAt(Step(cipher, m, w, i), at) == BlockAt(m, at)
  {
    hide BlockAt, CountedAt, Written, Result, OperandAt;
    var counted := if w.counter then CountedAt(m, w.In(i), 1) else m;
    if w.counter { CountedElsewhere(m, w.In(i), 1, at); }
    var xor := if w.operand.Input? then OperandAt(m, w, i) else OperandAt(counted, w, i);
    WrittenElsewhere(counted, w.Out(i), Result(cipher, w.operand, BlockAt(m, w.In(i)), xor), at);
  }

  /** The counter block after a run. */
  lemma {:induction false} CounterAdvances(cipher: Block -> Block, m: seq<byte>, w: Walk, i: nat, n: nat)
    requires Fits(|m|, w, i + n) && Inside(|m|, w.inAt)
    requires w.counter && w.inMotion.Still?
    requires forall j: nat :: i <= j < i + n ==> CounterApart(w, j)
    ensures BlockAt(Serial(cipher, m, w, i, n), w.inAt) == Counted(BlockAt(m, w.inAt), n)
  {
    hide CountedAt, Written, Result, OperandAt;
    if n > 0 {
      CounterAdvances(cipher, m, w, i, n - 1);
      var s, j := Serial(cipher, m, w, i, n - 1), i + n - 1;
      assert FitsAt(|m|, w, j) && CounterApart(w, j);
      CountedHere(s, w.inAt, 1);
      CountedCounted(BlockAt(m, w.inAt), n - 1, 1);
      var counted := CountedAt(s, w.inAt, 1);
      var xor := if w.operand.Input? then OperandAt(s, w, j) else OperandAt(counted, w, j);
      WrittenElsewhere(counted, w.Out(j), Result(cipher, w.operand, BlockAt(s, w.inAt), xor), w.inAt);
    } else {
      assert Counted(BlockAt(m, w.inAt), 0) == BlockAt(m, w.inAt);
    }
  }

  // ---- a batch ----

  function Lane(b0: byte, b1: byte, b2: byte, b3: byte): nat {
    b0 + 0x100 * b1 + 0x1_0000 * b2 + 0x100_0000 * b3
  }

  function LaneBytes(x: nat): seq<byte>
    requires x < 0x1_0000_0000
  {
    [x % 0x100, x / 0x100 % 0x100, x / 0x1_0000 % 0x100, x / 0x100_0000]
  }

  /** The last of four 32-bit additions adds 2^24; the others add nothing. */
  function AddOne(block: Block): Block {
    block[..12] + LaneBytes((Lane(block[12], block[13], block[14], block[15]) + 0x100_0000) % 0x1_0000_0000)
  }

  lemma LaneOfBytes(b0: byte, b1: byte, b2: byte, b3: byte)
    ensures Lane(b0, b1, b2, b3) < 0x1_0000_0000
    ensures LaneBytes(Lane(b0, b1, b2, b3)) == [b0, b1, b2, b3]
  {
    var x := Lane(b0, b1, b2, b3);
    Divided(x, 0x100, b1 + 0x100 * b2 + 0x1_0000 * b3, b0);
    Divided(x / 0x100, 0x100, b2 + 0x100 * b3, b1);
    Divided(x, 0x1_0000, b2 + 0x100 * b3, b0 + 0x100 * b1);
    Divided(x / 0x1_0000, 0x100, b3, b2);
    Divided(x, 0x100_0000, b3, b0 + 0x100 * b1 + 0x1_0000 * b2);
  }

  lemma TopByteWraps(low: nat, b: byte)
    requires low < 0x100_0000
    ensures (low + 0x100_0000 * b + 0x100_0000) % 0x1_0000_0000 == low + 0x100_0000 * Plus(b, 1)
  {
    if b == 255 {
      assert low + 0x100_0000 * 255 + 0x100_0000 == 0x1_0000_0000 + low;
    }
  }

  lemma LaneCounts(b0: byte, b1: byte, b2: byte, b3: byte)
    ensures (Lane(b0, b1, b2, b3) + 0x100_0000) % 0x1_0000_0000 == Lane(b0, b1, b2, Plus(b3, 1))
  {
    TopByteWraps(Lane(b0, b1, b2, 0), b3);
  }

  lemma AddOneCounts(block: Block)
    ensures AddOne(block) == Counted(block, 1)
  {
    hide Lane, LaneBytes, Plus;
    var last := Plus(block[15], 1);
    LaneCounts(block[12], block[13], block[14], block[15]);
    LaneOfBytes(block[12], block[13], block[14], last);
    assert Counted(block, 1) == block[..12] + [block[12], block[13], block[14], last];
  }

  /** The memory once the batch has counted its k blocks. */
  function AfterCounting(m: seq<byte>, w: Walk, k: nat): (r: seq<byte>)
    requires w.counter ==> Inside(|m|, w.inAt)
    ensures |r| == |m|
  {
    if w.counter then CountedAt(m, w.inAt, k) else m
  }

  function InputOf(m: seq<byte>, w: Walk, i: nat, t: nat): Block
    requires FitsAt(|m|, w, i + t)
    requires w.counter ==> Inside(|m|, w.inAt)
  {
    if w.counter then Counted(BlockAt(m, w.inAt), t) else BlockAt(m, w.In(i + t))
  }

  /** What block i + t of a batch stores. */
  function BatchResult(cipher: Block -> Block, m: seq<byte>, w: Walk, i: nat, k: nat, t: nat): Block
    requires FitsAt(|m|, w, i + t)
    requires w.counter ==> Inside(|m|, w.inAt)
  {
    Result(cipher, w.operand, InputOf(m, w, i, t), OperandAt(AfterCounting(m, w, k), w, i + t))
  }

  /** The block that step t loads in the serial run is the one the batch loaded before. */
  lemma SameInput(cipher: Block -> Block, m: seq<byte>, w: Walk, i: nat, k: nat, t: nat)
    requires t < k <= 6 && Fits(|m|, w, i + k) && BatchClear(w, i, k)
    ensures FitsAt(|m|, w, i + t) && (w.counter ==> Inside(|m|, w.inAt))
    ensures BlockAt(Serial(cipher, m, w, i, t), w.In(i + t)) == InputOf(m, w, i, t)
  {
    hide Serial, BlockAt, Counted;
    assert FitsAt(|m|, w, i + t);
    if w.counter {
      assert CounterApart(w, i + t);
      CounterAdvances(cipher, m, w, i, t);
    } else {
      forall j: nat | i <= j < i + t ensures Apart(w.Out(j), w.In(i + t)) {
        assert Clear(w, j, i + t);
      }
      Survives(cipher, m, w, i, t, w.In(i + t));
    }
  }

  /** So is the operand, whether it is loaded before or after counting. */
  lemma SameOperand(cipher: Block -> Block, m: seq<byte>, w: Walk, i: nat, k: nat, t: nat)
    requires t < k <= 6 && Fits(|m|, w, i + k) && BatchClear(w, i, k)
    ensures FitsAt(|m|, w, i + t) && (w.counter ==> Inside(|m|, w.inAt))
    ensures OperandAt(Serial(cipher, m, w, i, t), w, i + t) == OperandAt(AfterCounting(m, w, k), w, i + t)
    ensures OperandAt(AfterCounting(Serial(cipher, m, w, i, t), w, 1), w, i + t)
         == OperandAt(AfterCounting(m, w, k), w, i + t)
  {
    hide Serial, BlockAt, CountedAt;
    assert FitsAt(|m|, w, i + t);
    if w.counter { assert CounterApart(w, i + t); }
    if !w.operand.NoOperand? {
      var at := w.Xor(i + t);
      forall j: nat | i <= j < i + t ensures Apart(w.Out(j), at) {
        assert Clear(w, j, i + t);
      }
      Survives(cipher, m, w, i, t, at);
      if w.counter {
        CountedElsewhere(m, w.inAt, k, at);
        CountedElsewhere(Serial(cipher, m, w, i, t), w.inAt, 1, at);
      }
    }
  }

  /** Storing the result of block i + t leaves the serial memory, with the counter already at its end. */
  lemma BatchStores(cipher: Block -> Block, m: seq<byte>, w: Walk, i: nat, k: nat, t: nat)
    requires t < k <= 6 && Fits(|m|, w, i + k) && BatchClear(w, i, k)
    ensures FitsAt(|m|, w, i + t) && (w.counter ==> Inside(|m|, w.inAt))
    ensures Written(AfterCounting(Serial(cipher, m, w, i, t), w, k - t), w.Out(i + t),
                    BatchResult(cipher, m, w, i, k, t))
         == AfterCounting(Serial(cipher, m, w, i, t + 1), w, k - t - 1)
  {
    hide BlockAt, CountedAt, Written, Result, OperandAt, InputOf, BatchClear, Fits;
    SameInput(cipher, m, w, i, k, t);
    SameOperand(cipher, m, w, i, k, t);
    StillApart(m, w, i, k, t);
    var s := Serial(cipher, m, w, i, t);
    var result := BatchResult(cipher, m, w, i, k, t);
    assert Serial(cipher, m, w, i, t + 1) == Step(cipher, s, w, i + t);
    assert Step(cipher, s, w, i + t) == Written(AfterCounting(s, w, 1), w.Out(i + t), result);
    if w.counter {
      WriteThenCount(AfterCounting(s, w, 1), w.Out(i + t), result, w.inAt, k - t - 1);
      CountedAtTwice(s, w.inAt, 1, k - t - 1);
    }
  }

  lemma StillApart(m: seq<byte>, w: Walk, i: nat, k: nat, t: nat)
    requires t < k && Fits(|m|, w, i + k) && BatchClear(w, i, k)
    ensures FitsAt(|m|, w, i + t)
    ensures w.counter ==> w.inMotion.Still? && w.In(i + t) == w.inAt && Apart(w.Out(i + t), w.inAt)
    ensures Fits(|m|, w, i + t + 1) && Fits(|m|, w, i + t)
  {
    assert FitsAt(|m|, w, i + t);
    if w.counter { assert CounterApart(w, i + t); }
  }

  /** The memory when a batch of k blocks has stored the first t of them. */
  function Stored(cipher: Block -> Block, m: seq<byte>, w: Walk, i: nat, k: nat, t: nat): (r: seq<byte>)
    requires t <= k && Fits(|m|, w, i + k) && (w.counter ==> Inside(|m|, w.inAt))
    ensures |r| == |m|
  {
    if t == 0 then AfterCounting(m, w, k)
    else
      assert FitsAt(|m|, w, i + t - 1);
      Written(Stored(cipher, m, w, i, k, t - 1), w.Out(i + t - 1), BatchResult(cipher, m, w, i, k, t - 1))
  }

  /** A batch that keeps clear of itself does what one block after another does. */
  lemma {:induction false} BatchIsSerial(cipher: Block -> Block, m: seq<byte>, w: Walk, i: nat, k: nat, t: nat)
    requires t <= k <= 6 && Fits(|m|, w, i + k) && BatchClear(w, i, k) && (w.counter ==> Inside(|m|, w.inAt))
    ensures Fits(|m|, w, i + t)
    ensures Stored(cipher, m, w, i, k, t) == AfterCounting(Serial(cipher, m, w, i, t), w, k - t)
  {
    hide BlockAt, CountedAt, Written, BatchResult, BatchClear, Step;
    FitsFewer(|m|, w, i + k);
    if t > 0 {
      BatchIsSerial(cipher, m, w, i, k, t - 1);
      BatchStores(cipher, m, w, i, k, t - 1);
    }
  }

  /** The n blocks from i on, in batches of six and of two and one by one. */
  function Batched(cipher: Block -> Block, m: seq<byte>, w: Walk, i: nat, n: nat, parallel: bool): (r: seq<byte>)
    requires Fits(|m|, w, i + n) && (w.counter ==> w.inMotion.Still?)
    ensures |r| == |m|
    decreases n
  {
    if n == 0 then m
    else
      var k := BatchSize(n, parallel);
      assert FitsAt(|m|, w, i);
      var next := if k == 1 then Step(cipher, m, w, i) else Stored(cipher, m, w, i, k, k);
      Batched(cipher, next, w, i + k, n - k, parallel)
  }

  lemma BatchFits(size: nat, w: Walk, i: nat, k: nat, n: nat)
    requires 0 < k <= n && Fits(size, w, i + n) && (w.counter ==> w.inMotion.Still?)
    ensures Fits(size, w, i + k) && FitsAt(size, w, i) && (w.counter ==> Inside(size, w.inAt))
  {
    assert FitsAt(size, w, i);
  }

  lemma OneIsSerial(cipher: Block -> Block, m: seq<byte>, w: Walk, i: nat)
    requires Fits(|m|, w, i + 1)
    ensures FitsAt(|m|, w, i) && Step(cipher, m, w, i) == Serial(cipher, m, w, i, 1)
  {
    hide Step;
    assert FitsAt(|m|, w, i);
    assert Serial(cipher, m, w, i, 0) == m;
  }

  /** Batches leave the memory that one block after another leaves, unless one disturbs itself. */
  lemma {:induction false} BatchedIsSerial(cipher: Block -> Block, m: seq<byte>, w: Walk, i: nat, n: nat,
                                           parallel: bool)
    requires Fits(|m|, w, i + n) && (w.counter ==> w.inMotion.Still?)
    requires parallel ==> Undisturbed(w, i, n)
    ensures Batched(cipher, m, w, i, n, parallel) == Serial(cipher, m, w, i, n)
    decreases n
  {
    hide Step, Stored, BatchClear, Fits, AfterCounting;
    if n > 0 {
      var k := BatchSize(n, parallel);
      BatchFits(|m|, w, i, k, n);
      OneBatchIsSerial(cipher, m, w, i, k);
      var next := Serial(cipher, m, w, i, k);
      BatchedIsSerial(cipher, next, w, i + k, n - k, parallel);
      SerialSerial(cipher, m, w, i, k, n - k);
    }
  }

  lemma OneBatchIsSerial(cipher: Block -> Block, m: seq<byte>, w: Walk, i: nat, k: nat)
    requires 0 < k <= 6 && Fits(|m|, w, i + k) && (w.counter ==> w.inMotion.Still? && Inside(|m|, w.inAt))
    requires FitsAt(|m|, w, i) && (k > 1 ==> BatchClear(w, i, k))
    ensures (if k == 1 then Step(cipher, m, w, i) else Stored(cipher, m, w, i, k, k)) == Serial(cipher, m, w, i, k)
  {
    hide Step, Stored, Fits, BatchClear, Serial;
    if k == 1 {
      OneIsSerial(cipher, m, w, i);
    } else {
      BatchIsSerial(cipher, m, w, i, k, k);
      var s := Serial(cipher, m, w, i, k);
      if w.counter { CountedAtNone(s, w.inAt); }
    }
  }

  /** Loads and enciphers k blocks before it stores the first. */
  method ProcessBatch(cipher: Block -> Block, mem: array<byte>, w: Walk, k: nat,
                      inFrom: int, xorFrom: int, outFrom: int, ghost i: nat)
    returns (inAt: int, xorAt: int, outAt: int)
    requires 0 < k <= 6 && Fits(mem.Length, w, i + k) && (w.counter ==> w.inMotion.Still? && Inside(mem.Length, w.inAt))
    requires w.operand.NoOperand? ==> w.xorMotion.Still?
    requires inFrom == w.In(i) && xorFrom == w.Xor(i) && outFrom == w.Out(i)
    modifies mem
    ensures mem[..] == Stored(cipher, old(mem[..]), w, i, k, k)
    ensures inAt == w.In(i + k) && xorAt == w.Xor(i + k) && outAt == w.Out(i + k)
  {
    ghost var m := mem[..];
    var blocks;
    blocks, inAt := LoadInputs(cipher, mem, w, k, inFrom, i);
    blocks, xorAt := MixAndEncipher(cipher, mem, w, k, xorFrom, blocks, m, i);
    outAt := StoreResults(cipher, mem, w, k, outFrom, blocks, m, i);
  }

  ghost predicate Loaded(m: seq<byte>, w: Walk, i: nat, k: nat, blocks: seq<Block>) {
    && |blocks| <= k
    && Fits(|m|, w, i + k)
    && (w.counter ==> Inside(|m|, w.inAt))
    && forall t: nat :: t < |blocks| ==> blocks[t] == InputOf(m, w, i, t)
  }

  lemma LoadedNext(m: seq<byte>, w: Walk, i: nat, k: nat, blocks: seq<Block>, block: Block)
    requires Loaded(m, w, i, k, blocks) && |blocks| < k
    requires block == InputOf(m, w, i, |blocks|)
    ensures Loaded(m, w, i, k, blocks + [block])
  {
    hide InputOf;
  }

  method LoadInputs(cipher: Block -> Block, mem: array<byte>, w: Walk, k: nat, inFrom: int, ghost i: nat)
    returns (blocks: seq<Block>, inAt: int)
    requires 0 < k <= 6 && Fits(mem.Length, w, i + k) && (w.counter ==> w.inMotion.Still? && Inside(mem.Length, w.inAt))
    requires inFrom == w.In(i)
    modifies mem
    ensures |blocks| == k && Loaded(old(mem[..]), w, i, k, blocks)
    ensures mem[..] == AfterCounting(old(mem[..]), w, k)
    ensures inAt == w.In(i + k)
  {
    hide BlockAt, CountedAt, Counted, Fits, Loaded, InputOf;
    if w.counter {
      inAt := inFrom;
      blocks := LoadCounters(mem, w, k, inAt, i);
    } else {
      blocks, inAt := LoadBlocks(mem, w, k, inFrom, i);
    }
  }

  method LoadCounters(mem: array<byte>, w: Walk, k: nat, inAt: int, ghost i: nat) returns (blocks: seq<Block>)
    requires w.counter && 0 < k && Fits(mem.Length, w, i + k) && inAt == w.inAt && Inside(mem.Length, inAt)
    modifies mem
    ensures |blocks| == k && Loaded(old(mem[..]), w, i, k, blocks)
    ensures mem[..] == CountedAt(old(mem[..]), w.inAt, k)
  {
    hide BlockAt, CountedAt, Counted, Fits, Written;
    ghost var m := mem[..];
    blocks := [];
    var block := BlockAt(mem[..], inAt);
    ghost var first := block;
    CountedNone(block);
    for t := 0 to k
      invariant |blocks| == t && mem[..] == m
      invariant block == Counted(first, t)
      invariant Loaded(m, w, i, k, blocks)
    {
      FitsFewer(mem.Length, w, i + k);
      LoadedNext(m, w, i, k, blocks, block);
      blocks := blocks + [block];
      AddOneCounts(block);
      CountedCounted(first, t, 1);
      block := AddOne(block);
    }
    StoreCounted(m, w.inAt, k);
    Store(mem, inAt, block);
  }

  method LoadBlocks(mem: array<byte>, w: Walk, k: nat, inFrom: int, ghost i: nat)
    returns (blocks: seq<Block>, inAt: int)
    requires !w.counter && 0 < k && Fits(mem.Length, w, i + k) && inFrom == w.In(i)
    ensures |blocks| == k && Loaded(mem[..], w, i, k, blocks)
    ensures inAt == w.In(i + k)
  {
    hide BlockAt, Fits;
    blocks, inAt := [], inFrom;
    for t := 0 to k
      invariant |blocks| == t && inAt == w.In(i + t)
      invariant Loaded(mem[..], w, i, k, blocks)
    {
      FitsFewer(mem.Length, w, i + k);
      assert FitsAt(mem.Length, w, i + t);
      LoadedNext(mem[..], w, i, k, blocks, BlockAt(mem[..], inAt));
      blocks := blocks + [BlockAt(mem[..], inAt)];
      inAt := Move(inAt, w.inMotion, 1);
    }
  }

  lemma CountedNone(block: Block)
    ensures Counted(block, 0) == block
  {
  }

  lemma StoreCounted(m: seq<byte>, at: int, k: nat)
    requires Inside(|m|, at)
    ensures Written(m, at, Counted(BlockAt(m, at), k)) == CountedAt(m, at, k)
  {
  }

  ghost predicate Waiting(m: seq<byte>, w: Walk, i: nat, k: nat) {
    Fits(|m|, w, i + k) && (w.counter ==> Inside(|m|, w.inAt)) && (w.operand.NoOperand? ==> w.xorMotion.Still?)
  }

  method MixAndEncipher(cipher: Block -> Block, mem: array<byte>, w: Walk, k: nat, xorFrom: int, inputs: seq<Block>,
                        ghost m: seq<byte>, ghost i: nat)
    returns (blocks: seq<Block>, xorAt: int)
    requires Waiting(m, w, i, k) && |inputs| == k && Loaded(m, w, i, k, inputs)
    requires mem[..] == AfterCounting(m, w, k) && xorFrom == w.Xor(i)
    ensures |blocks| == k && forall t: nat :: t < k ==> blocks[t] == BatchResult(cipher, m, w, i, k, t)
    ensures xorAt == w.Xor(i + k)
  {
    hide BlockAt, CountedAt, InputOf;
    ghost var m1 := mem[..];
    blocks, xorAt := inputs, xorFrom;
    if w.operand.Input? {
      for t := 0 to k
        invariant |blocks| == k && xorAt == w.Xor(i + t)
        invariant forall u: nat :: t <= u < k ==> blocks[u] == InputOf(m, w, i, u)
        invariant forall u: nat :: u < t ==> blocks[u] == XorSeq(InputOf(m, w, i, u), OperandAt(m1, w, i + u))
      {
        assert FitsAt(|m|, w, i + t);
        blocks := blocks[t := XorSeq(blocks[t], BlockAt(mem[..], xorAt))];
        xorAt := Move(xorAt, w.xorMotion, 1);
      }
    }
    ghost var mixed := blocks;
    for t := 0 to k
      invariant |blocks| == k
      invariant forall u: nat :: t <= u < k ==> blocks[u] == mixed[u]
      invariant forall u: nat :: u < t ==> blocks[u] == cipher(mixed[u])
    {
      blocks := blocks[t := cipher(blocks[t])];
    }
    if w.operand.Output? {
      for t := 0 to k
        invariant |blocks| == k && xorAt == w.Xor(i + t)
        invariant forall u: nat :: t <= u < k ==> blocks[u] == cipher(mixed[u])
        invariant forall u: nat :: u < t ==> blocks[u] == XorSeq(cipher(mixed[u]), OperandAt(m1, w, i + u))
      {
        assert FitsAt(|m|, w, i + t);
        blocks := blocks[t := XorSeq(blocks[t], BlockAt(mem[..], xorAt))];
        xorAt := Move(xorAt, w.xorMotion, 1);
      }
    }
  }

  method StoreResults(cipher: Block -> Block, mem: array<byte>, w: Walk, k: nat, outFrom: int, blocks: seq<Block>,
                      ghost m: seq<byte>, ghost i: nat)
    returns (outAt: int)
    requires 0 < k <= 6 && Fits(|m|, w, i + k) && |m| == mem.Length
    requires w.counter ==> Inside(|m|, w.inAt)
    requires mem[..] == AfterCounting(m, w, k) && outFrom == w.Out(i)
    requires |blocks| == k && forall t: nat :: t < k ==> blocks[t] == BatchResult(cipher, m, w, i, k, t)
    modifies mem
    ensures mem[..] == Stored(cipher, m, w, i, k, k)
    ensures outAt == w.Out(i + k)
  {
    hide CountedAt, BatchResult, Fits, Written;
    outAt := outFrom;
    FitsFewer(|m|, w, i + k);
    for t := 0 to k
      invariant outAt == w.Out(i + t)
      invariant mem[..] == Stored(cipher, m, w, i, k, t)
    {
      assert FitsAt(|m|, w, i + t);
      Store(mem, outAt, blocks[t]);
      outAt := Move(outAt, w.outMotion, 1);
    }
  }

  lemma CountedAtNone(m: seq<byte>, at: int)
    requires Inside(|m|, at)
    ensures CountedAt(m, at, 0) == m
  {
  }

  // ---- the whole run ----

  datatype Flags = Flags(inBlockIsCounter: bool, dontIncrementInOutPointers: bool, xorInput: bool,
                         reverseDirection: bool, allowParallel: bool)

  function Turned(motion: Motion, reverse: bool): Motion {
    if !reverse || motion.Still? then motion else if motion.Up? then Down else Up
  }

  /** The pointers and motions the flags ask for; reversed, each pointer starts at the last block. */
  function WalkOf(inBlocks: int, xorBlocks: int, hasXor: bool, outBlocks: int, length: nat, flags: Flags): Walk {
    var back := if flags.reverseDirection then length - 16 else 0;
    Walk(inBlocks + back,
         Turned(if flags.inBlockIsCounter || flags.dontIncrementInOutPointers then Still else Up,
                flags.reverseDirection),
         xorBlocks + back,
         Turned(if hasXor then Up else Still, flags.reverseDirection),
         outBlocks + back,
         Turned(if flags.dontIncrementInOutPointers then Still else Up, flags.reverseDirection),
         if !hasXor then NoOperand else if flags.xorInput then Input else Output,
         flags.inBlockIsCounter)
  }

  lemma BatchNext(cipher: Block -> Block, m: seq<byte>, w: Walk, i: nat, n: nat, k: nat, parallel: bool)
    requires n > 0 && Fits(|m|, w, i + n) && (w.counter ==> w.inMotion.Still?) && k == BatchSize(n, parallel)
    ensures Fits(|m|, w, i + k) && FitsAt(|m|, w, i) && (w.counter ==> Inside(|m|, w.inAt))
    ensures k == 1 ==>
      Batched(cipher, m, w, i, n, parallel) == Batched(cipher, Step(cipher, m, w, i), w, i + 1, n - 1, parallel)
    ensures k > 1 ==>
      Batched(cipher, m, w, i, n, parallel) == Batched(cipher, Stored(cipher, m, w, i, k, k), w, i + k, n - k, parallel)
  {
    hide Step, Stored;
    BatchFits(|m|, w, i, k, n);
  }

  /** Where the pointers are before block i. */
  predicate AtBlock(w: Walk, i: nat, inAt: int, xorAt: int, outAt: int) {
    inAt == w.In(i) && xorAt == w.Xor(i) && outAt == w.Out(i)
  }

  /** Batches of k blocks as long as there are so many. */
  method ProcessBatches(cipher: Block -> Block, mem: array<byte>, w: Walk, k: nat,
                        inFrom: int, xorFrom: int, outFrom: int, length: nat, ghost first: nat, ghost n: nat)
    returns (inAt: int, xorAt: int, outAt: int, rest: nat, ghost i: nat)
    requires k == 6 || (k == 2 && length < 6 * 16)
    requires first <= n && length / 16 == n - first && AtBlock(w, first, inFrom, xorFrom, outFrom)
    requires Fits(mem.Length, w, n) && (w.counter ==> w.inMotion.Still?)
    requires w.operand.NoOperand? ==> w.xorMotion.Still?
    modifies mem
    ensures rest < 16 * k && length - rest == 16 * (i - first) && first <= i <= n && AtBlock(w, i, inAt, xorAt, outAt)
    ensures Batched(cipher, mem[..], w, i, n - i, true) == Batched(cipher, old(mem[..]), w, first, n - first, true)
  {
    hide Fits, Step, Stored, Batched;
    inAt, xorAt, outAt, rest, i := inFrom, xorFrom, outFrom, length, first;
    while rest >= k * 16
      invariant length - rest == 16 * (i - first) && first <= i && rest / 16 == n - i
        && AtBlock(w, i, inAt, xorAt, outAt)
      invariant Batched(cipher, mem[..], w, i, n - i, true) == Batched(cipher, old(mem[..]), w, first, n - first, true)
    {
      BatchNext(cipher, mem[..], w, i, n - i, k, true);
      inAt, xorAt, outAt := ProcessBatch(cipher, mem, w, k, inAt, xorAt, outAt, i);
      rest := rest - k * 16;
      i := i + k;
    }
  }

  /** Batches of six and of two where they are allowed, and single blocks. */
  method AdvancedProcessBlocks(cipher: Block -> Block, mem: array<byte>, inBlocks: int, xorBlocks: int, hasXor: bool,
                               outBlocks: int, length: nat, flags: Flags)
    returns (rest: nat)
    requires length >= 16
    requires Fits(mem.Length, WalkOf(inBlocks, xorBlocks, hasXor, outBlocks, length, flags), length / 16)
    modifies mem
    ensures var w := WalkOf(inBlocks, xorBlocks, hasXor, outBlocks, length, flags);
      mem[..] == Batched(cipher, old(mem[..]), w, 0, length / 16, flags.allowParallel)
    ensures rest == length % 16
  {
    hide Fits, Step, Stored, Batched, WalkOf, FitsAt;
    var w := WalkOf(inBlocks, xorBlocks, hasXor, outBlocks, length, flags);
    WalkStarts(inBlocks, xorBlocks, hasXor, outBlocks, length, flags);
    ghost var n, parallel := length / 16, flags.allowParallel;
    ghost var all := Batched(cipher, mem[..], w, 0, n, parallel);
    ghost var i: nat := 0;
    var inAt, xorAt, outAt := w.inAt, w.xorAt, w.outAt;
    rest := length;
    if flags.allowParallel {
      inAt, xorAt, outAt, rest, i := ProcessBatches(cipher, mem, w, 6, inAt, xorAt, outAt, rest, i, n);
      inAt, xorAt, outAt, rest, i := ProcessBatches(cipher, mem, w, 2, inAt, xorAt, outAt, rest, i, n);
    }
    while rest >= 16
      invariant length == rest + 16 * i && (parallel ==> rest < 2 * 16) && AtBlock(w, i, inAt, xorAt, outAt)
      invariant Batched(cipher, mem[..], w, i, n - i, parallel) == all
    {
      BatchNext(cipher, mem[..], w, i, n - i, 1, parallel);
      ProcessOne(cipher, mem, w, inAt, xorAt, outAt, i);
      inAt, xorAt, outAt := Move(inAt, w.inMotion, 1), Move(xorAt, w.xorMotion, 1), Move(outAt, w.outMotion, 1);
      rest := rest - 16;
      i := i + 1;
    }
    NoneLeft(cipher, mem[..], w, n, parallel);
  }

  lemma WalkStarts(inBlocks: int, xorBlocks: int, hasXor: bool, outBlocks: int, length: nat, flags: Flags)
    ensures var w := WalkOf(inBlocks, xorBlocks, hasXor, outBlocks, length, flags);
      && AtBlock(w, 0, w.inAt, w.xorAt, w.outAt) && (w.counter ==> w.inMotion.Still?)
      && (w.operand.NoOperand? ==> w.xorMotion.Still?)
  {
  }

  lemma NoneLeft(cipher: Block -> Block, m: seq<byte>, w: Walk, i: nat, parallel: bool)
    requires Fits(|m|, w, i) && (w.counter ==> w.inMotion.Still?)
    ensures Batched(cipher, m, w, i, 0, parallel) == m
  {
  }

  lemma FitsFewer(size: nat, w: Walk, n: nat)
    requires Fits(size, w, n)
    ensures forall j: nat :: j <= n ==> Fits(size, w, j)
    ensures forall j: nat :: j < n ==> FitsAt(size, w, j)
  {
  }

  method ProcessOne(cipher: Block -> Block, mem: array<byte>, w: Walk, inAt: int, xorAt: int, outAt: int, ghost i: nat)
    requires FitsAt(mem.Length, w, i)
    requires inAt == w.In(i) && xorAt == w.Xor(i) && outAt == w.Out(i)
    modifies mem
    ensures mem[..] == Step(cipher, old(mem[..]), w, i)
  {
    var block := BlockAt(mem[..], inAt);
    if w.operand.Input? { block := XorSeq(block, BlockAt(mem[..], xorAt)); }
    if w.counter { mem[inAt + 15] := Plus(mem[inAt + 15], 1); }
    assert mem[..] == if w.counter then CountedAt(old(mem[..]), inAt, 1) else old(mem[..]);
    block := cipher(block);
    if w.operand.Output? { block := XorSeq(block, BlockAt(mem[..], xorAt)); }
    Store(mem, outAt, block);
  }
}
