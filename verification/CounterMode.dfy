/** Counter mode on batches that count in the last byte of the counter block only. */
module CounterMode {
  import opened Arithmetic
  import opened Bytes
  import opened CbcMac
  import opened BlockBatches
  import opened CipherModes

  /** The counter block of v, which counts modulo 2^128. */
  function CounterBlock(v: nat): Block {
    BigEndian(v, 16)
  }

  /** The keystream of the counters v, ..., v + n - 1. */
  ghost function KeyStream(cipher: Block -> Block, v: nat, n: nat): (r: seq<byte>)
    ensures |r| == 16 * n
  {
    if n == 0 then [] else KeyStream(cipher, v, n - 1) + cipher(CounterBlock(v + n - 1))
  }

  /** The input mixed with the keystream, or the keystream by itself. */
  function Masked(hasInput: bool, input: seq<byte>, stream: seq<byte>): (r: seq<byte>)
    requires hasInput ==> |input| == |stream|
    ensures |r| == |stream|
  {
    if hasInput then XorSeq(stream, input) else stream
  }

  lemma MaskedAppend(hasInput: bool, a: seq<byte>, b: seq<byte>, s: seq<byte>, t: seq<byte>)
    requires hasInput ==> |a| == |s| && |b| == |t|
    ensures Masked(hasInput, a + b, s + t) == Masked(hasInput, a, s) + Masked(hasInput, b, t)
  {
  }

  // ---- counting ----

  function Increment(b: seq<byte>): (r: seq<byte>)
    ensures |r| == |b|
  {
    if b == [] then []
    else
      var rest, last := b[..|b| - 1], b[|b| - 1];
      if last == 255 then Increment(rest) + [0] else rest + [last + 1]
  }

  lemma {:induction false} IncrementCounts(v: nat, n: nat)
    ensures Increment(BigEndian(v, n)) == BigEndian(v + 1, n)
  {
    if n > 0 {
      var b := BigEndian(v, n);
      assert b[..n - 1] == BigEndian(v / 256, n - 1) && b[n - 1] == v % 256;
      IncrementCounts(v / 256, n - 1);
      if v % 256 == 255 {
        Divided(v + 1, 256, v / 256 + 1, 0);
      } else {
        Divided(v + 1, 256, v / 256, v % 256 + 1);
      }
    }
  }

  /** Counting in the last byte alone is right as long as it does not overflow. */
  lemma CountedBlock(v: nat, k: nat)
    requires v % 256 + k < 256
    ensures Counted(CounterBlock(v), k) == CounterBlock(v + k)
  {
    Divided(v + k, 256, v / 256, v % 256 + k);
    var b := CounterBlock(v);
    assert b == BigEndian(v / 256, 15) + [v % 256];
    assert Counted(b, k) == BigEndian(v / 256, 15) + [v % 256 + k];
  }

  /** When it overflows, the bytes before it count on by one. */
  lemma CountedOver(v: nat, k: nat)
    requires v % 256 + k == 256
    ensures var b := Counted(CounterBlock(v), k);
      b[15] == 0 && Increment(b[..15]) + [0] == CounterBlock(v + k)
  {
    Divided(v + k, 256, v / 256 + 1, 0);
    var b := CounterBlock(v);
    assert b == BigEndian(v / 256, 15) + [v % 256];
    assert Counted(b, k)[..15] == BigEndian(v / 256, 15);
    IncrementCounts(v / 256, 15);
  }

  // ---- the run over one batch ----

  function CounterWalk(ctrAt: int, inAt: int, hasInput: bool, outAt: int, length: nat): Walk {
    WalkOf(ctrAt, inAt, hasInput, outAt, length, Flags(true, false, false, false, true))
  }

  /** The counter block is clear of input and output, and no input is overwritten before its turn. */
  predicate Placed(size: nat, ctrAt: int, inAt: int, hasInput: bool, outAt: int, length: nat) {
    && Region(size, ctrAt, 16) && Region(size, outAt, length) && AwayFrom(ctrAt, outAt, length)
    && (hasInput ==> Region(size, inAt, length) && AwayFrom(ctrAt, inAt, length) && NotAhead(inAt, outAt, length))
  }

  predicate AwayFrom(at: int, from: int, length: nat) {
    at + 16 <= from || from + length <= at
  }

  lemma CounterWalkFits(size: nat, ctrAt: int, inAt: int, hasInput: bool, outAt: int, n: nat)
    requires Placed(size, ctrAt, inAt, hasInput, outAt, 16 * n) && n > 0
    ensures Fits(size, CounterWalk(ctrAt, inAt, hasInput, outAt, 16 * n), n)
    ensures Undisturbed(CounterWalk(ctrAt, inAt, hasInput, outAt, 16 * n), 0, n)
  {
    NeverDisturbed(CounterWalk(ctrAt, inAt, hasInput, outAt, 16 * n), 0, n);
  }

  /** The memory with the given counter block and output. */
  function CounterMemory(m: seq<byte>, ctrAt: nat, ctr: Block, outAt: nat, output: seq<byte>): (r: seq<byte>)
    requires ctrAt + 16 <= |m| && outAt + |output| <= |m|
    ensures |r| == |m|
  {
    Written(Written(m, ctrAt, ctr), outAt, output)
  }

  lemma CountedIsWritten(m: seq<byte>, at: nat)
    requires at + 16 <= |m|
    ensures CountedAt(m, at, 1) == Written(m, at, Counted(BlockAt(m, at), 1))
  {
  }

  lemma WrittenSwap(m: seq<byte>, at: nat, a: seq<byte>, from: nat, b: seq<byte>)
    requires at + |a| <= |m| && from + |b| <= |m| && (at + |a| <= from || from + |b| <= at)
    ensures Written(Written(m, at, a), from, b) == Written(Written(m, from, b), at, a)
  {
  }

  lemma CountMemory(m: seq<byte>, ctrAt: nat, ctr: Block, outAt: nat, output: seq<byte>)
    requires ctrAt + 16 <= |m| && outAt + |output| <= |m| && AwayFrom(ctrAt, outAt, |output|)
    ensures BlockAt(CounterMemory(m, ctrAt, ctr, outAt, output), ctrAt) == ctr
    ensures CountedAt(CounterMemory(m, ctrAt, ctr, outAt, output), ctrAt, 1)
         == CounterMemory(m, ctrAt, Counted(ctr, 1), outAt, output)
  {
    hide Written, CountedAt, Counted;
    var s := CounterMemory(m, ctrAt, ctr, outAt, output);
    WrittenAside(Written(m, ctrAt, ctr), outAt, output, ctrAt, 16);
    WrittenBack(m, ctrAt, ctr);
    CountedIsWritten(s, ctrAt);
    WrittenSwap(Written(m, ctrAt, ctr), outAt, output, ctrAt, Counted(ctr, 1));
    Overwritten(m, ctrAt, ctr, Counted(ctr, 1));
  }

  /** One block of a batch. */
  lemma CounterStep(cipher: Block -> Block, m: seq<byte>, w: Walk, i: nat, ctr: Block, outAt: nat, output: seq<byte>)
    requires FitsAt(|m|, w, i) && w.counter && !w.operand.Input? && w.inMotion.Still?
    requires outAt + |output| == w.Out(i) && AwayFrom(w.inAt, outAt, |output|)
    requires w.operand.Output? ==>
      Apart(w.inAt, w.Xor(i)) && (w.Xor(i) + 16 <= outAt || outAt + |output| <= w.Xor(i))
    ensures Step(cipher, CounterMemory(m, w.inAt, ctr, outAt, output), w, i)
         == CounterMemory(m, w.inAt, Counted(ctr, 1), outAt,
                          output + Masked(w.operand.Output?, if w.operand.Output? then BlockAt(m, w.Xor(i)) else [],
                                          cipher(ctr)))
  {
    hide Written, CountedAt, Counted, XorSeq;
    CountMemory(m, w.inAt, ctr, outAt, output);
    var next := Written(m, w.inAt, Counted(ctr, 1));
    if w.operand.Output? {
      WrittenAside(next, outAt, output, w.Xor(i), 16);
      WrittenAside(m, w.inAt, Counted(ctr, 1), w.Xor(i), 16);
    }
    WrittenTwice(next, outAt, output,
                 Masked(w.operand.Output?, if w.operand.Output? then BlockAt(m, w.Xor(i)) else [], cipher(ctr)));
  }

  /** What the first k blocks of output hold. */
  ghost function OutputAfter(cipher: Block -> Block, v: nat, m: seq<byte>, inAt: int, hasInput: bool,
                             k: nat)
    : (r: seq<byte>)
    requires hasInput ==> Region(|m|, inAt, 16 * k)
    ensures |r| == 16 * k
  {
    Masked(hasInput, if hasInput then m[inAt..inAt + 16 * k] else [], KeyStream(cipher, v, k))
  }

  lemma OutputNext(cipher: Block -> Block, v: nat, m: seq<byte>, inAt: int, hasInput: bool, k: nat)
    requires hasInput ==> Region(|m|, inAt, 16 * k + 16)
    ensures OutputAfter(cipher, v, m, inAt, hasInput, k + 1)
         == OutputAfter(cipher, v, m, inAt, hasInput, k)
            + Masked(hasInput, if hasInput then BlockAt(m, inAt + 16 * k) else [], cipher(CounterBlock(v + k)))
  {
    hide XorSeq, Masked, CounterBlock;
    if hasInput {
      assert m[inAt..inAt + 16 * k + 16] == m[inAt..inAt + 16 * k] + BlockAt(m, inAt + 16 * k);
      MaskedAppend(true, m[inAt..inAt + 16 * k], BlockAt(m, inAt + 16 * k), KeyStream(cipher, v, k),
                   cipher(CounterBlock(v + k)));
    } else {
      var none: seq<byte> := [];
      assert none + none == none;
      MaskedAppend(false, none, none, KeyStream(cipher, v, k), cipher(CounterBlock(v + k)));
    }
  }

  lemma {:induction false} CounterRun(cipher: Block -> Block, v: nat, m: seq<byte>, ctrAt: int, inAt: int,
                                      hasInput: bool, outAt: int, n: nat, done: nat, blocks: nat, j: nat)
    requires Placed(|m|, ctrAt, inAt, hasInput, outAt, 16 * n) && done + blocks <= n && j <= blocks && 0 < blocks
    requires (v + done) % 256 + blocks <= 256
    requires Fits(|m|, CounterWalk(ctrAt, inAt + 16 * done, hasInput, outAt + 16 * done, 16 * blocks), j)
    ensures Serial(cipher, CounterMemory(m, ctrAt, CounterBlock(v + done), outAt,
                                         OutputAfter(cipher, v, m, inAt, hasInput, done)),
                   CounterWalk(ctrAt, inAt + 16 * done, hasInput, outAt + 16 * done, 16 * blocks), 0, j)
         == CounterMemory(m, ctrAt, Counted(CounterBlock(v + done), j), outAt,
                          OutputAfter(cipher, v, m, inAt, hasInput, done + j))
  {
    hide CounterMemory, OutputAfter, Counted, CounterBlock, Step, Masked;
    if j == 0 {
      CountedNone(CounterBlock(v + done));
    } else {
      CounterRun(cipher, v, m, ctrAt, inAt, hasInput, outAt, n, done, blocks, j - 1);
      var w := CounterWalk(ctrAt, inAt + 16 * done, hasInput, outAt + 16 * done, 16 * blocks);
      var k := done + j - 1;
      assert FitsAt(|m|, w, j - 1);
      assert w.Out(j - 1) == outAt + 16 * k && w.Xor(j - 1) == (if hasInput then inAt + 16 * k else w.xorAt);
      CountedBlock(v + done, j - 1);
      CounterStep(cipher, m, w, j - 1, CounterBlock(v + k), outAt, OutputAfter(cipher, v, m, inAt, hasInput, k));
      OutputNext(cipher, v, m, inAt, hasInput, k);
      CountedCounted(CounterBlock(v + done), j - 1, 1);
    }
  }

  lemma WrittenFurtherBack(m: seq<byte>, at: nat, x: byte, tail: seq<byte>)
    requires 0 < at && at + |tail| <= |m|
    ensures Written(m, at, tail)[at - 1] == m[at - 1]
    ensures Written(m, at, tail)[at - 1 := x] == Written(m, at - 1, [x] + tail)
  {
  }

  lemma WrittenUnchanged(m: seq<byte>, at: nat, same: seq<byte>, tail: seq<byte>)
    requires at + |same| + |tail| <= |m| && m[at..at + |same|] == same
    ensures Written(m, at + |same|, tail) == Written(m, at, same + tail)
  {
  }

  lemma IncrementFront(b: seq<byte>, left: nat, tail: seq<byte>)
    requires 0 < left <= |b|
    ensures b[left - 1] == 255 ==> Increment(b[..left]) + tail == Increment(b[..left - 1]) + ([0] + tail)
    ensures b[left - 1] != 255 ==> Increment(b[..left]) + tail == b[..left - 1] + ([Plus(b[left - 1], 1)] + tail)
  {
    var front := b[..left];
    assert front[..left - 1] == b[..left - 1] && front[left - 1] == b[left - 1];
  }

  /** Counts the `size` bytes at `at` on by one, from the last byte back while they overflow. */
  method IncrementCounterByOne(mem: array<byte>, at: nat, size: nat)
    requires at + size <= mem.Length
    modifies mem
    ensures mem[..] == Written(old(mem[..]), at, Increment(old(mem[at..at + size])))
  {
    hide Written, Increment;
    ghost var m, b := mem[..], mem[at..at + size];
    ghost var tail: seq<byte> := [];
    var carry := true;
    var left: nat := size;
    WholeFront(b);
    NothingWritten(m, at + size);
    while carry && left != 0
      invariant left <= size && |tail| == size - left
      invariant mem[..] == Written(m, at + left, tail)
      invariant Increment(b) == (if carry then Increment(b[..left]) else b[..left]) + tail
      decreases left
    {
      IncrementFront(b, left, tail);
      WrittenFurtherBack(m, at + left, Plus(b[left - 1], 1), tail);
      assert mem[at + left - 1] == b[left - 1];
      mem[at + left - 1] := Plus(mem[at + left - 1], 1);
      tail := [mem[at + left - 1]] + tail;
      carry := mem[at + left - 1] == 0;
      left := left - 1;
    }
    WrittenUnchanged(m, at, b[..left], tail);
    assert left == 0 ==> Increment(b[..left]) + tail == b[..left] + tail;
  }

  lemma WholeFront(b: seq<byte>)
    ensures Increment(b[..|b|]) + [] == Increment(b)
  {
    assert b[..|b|] == b;
  }

  /** Byte j of output block i is covered by byte j of the enciphered block whose number is v + i modulo 2^128. */
  lemma OutputByte(cipher: Block -> Block, v: nat, m: seq<byte>, inAt: int, hasInput: bool, n: nat,
                   i: nat, j: nat, counter: Block)
    requires hasInput ==> Region(|m|, inAt, 16 * n)
    requires i < n && j < 16 && Value(counter) == (v + i) % Power256(16)
    ensures OutputAfter(cipher, v, m, inAt, hasInput, n)[16 * i + j]
         == if hasInput then Xor(cipher(counter)[j], m[inAt + 16 * i + j]) else cipher(counter)[j]
  {
    hide KeyStream, Value, BigEndian, Power256, Xor;
    ValueOfLowBytes(v + i, 16);
    ValueCounts(counter);
    ValueCounts(CounterBlock(v + i));
    KeyStreamByte(cipher, v, n, i, j);
  }

  lemma {:induction false} KeyStreamByte(cipher: Block -> Block, v: nat, n: nat, i: nat, j: nat)
    requires i < n && j < 16
    ensures KeyStream(cipher, v, n)[16 * i + j] == cipher(CounterBlock(v + i))[j]
  {
    hide CounterBlock;
    if i < n - 1 { KeyStreamByte(cipher, v, n - 1, i, j); }
  }

  class CounterModePolicy {
    const cipher: Block -> Block

    constructor (c: Block -> Block)
      ensures cipher == c
    {
      cipher := c;
    }

    /** The next blocks of the keystream of counter v, which the counter block holds at first. */
    method OperateKeystream(mem: array<byte>, ctrAt: int, outAt: int, inAt: int, hasInput: bool, iterationCount: nat,
                            ghost v: nat)
      requires Placed(mem.Length, ctrAt, inAt, hasInput, outAt, 16 * iterationCount)
      requires BlockAt(mem[..], ctrAt) == CounterBlock(v)
      modifies mem
      ensures var m := old(mem[..]);
        mem[..] == CounterMemory(m, ctrAt, CounterBlock(v + iterationCount), outAt,
                                 OutputAfter(cipher, v, m, inAt, hasInput, iterationCount))
    {
      hide CounterMemory, OutputAfter, CounterBlock;
      ghost var m := mem[..];
      ghost var n := iterationCount;
      var count := iterationCount;
      var done: nat := 0;
      NoOutputYet(cipher, v, m, ctrAt, inAt, hasInput, outAt);
      while count != 0
        invariant done + count == n
        invariant mem[..] == CounterMemory(m, ctrAt, CounterBlock(v + done), outAt,
                                           OutputAfter(cipher, v, m, inAt, hasInput, done))
      {
        var blocks := NextBatch(mem, ctrAt, inAt, hasInput, outAt, count, done, n, m, v);
        done := done + blocks;
        count := count - blocks;
      }
    }

    /** As many blocks as the last counter byte has room for, and the carry when it is full. */
    method NextBatch(mem: array<byte>, ctrAt: int, inAt: int, hasInput: bool, outAt: int, count: nat, done: nat,
                     ghost n: nat, ghost m: seq<byte>, ghost v: nat)
      returns (blocks: nat)
      requires |m| == mem.Length && Placed(|m|, ctrAt, inAt, hasInput, outAt, 16 * n) && done + count == n && count > 0
      requires mem[..] == CounterMemory(m, ctrAt, CounterBlock(v + done), outAt,
                                        OutputAfter(cipher, v, m, inAt, hasInput, done))
      modifies mem
      ensures 0 < blocks <= count
      ensures mem[..] == CounterMemory(m, ctrAt, CounterBlock(v + done + blocks), outAt,
                                       OutputAfter(cipher, v, m, inAt, hasInput, done + blocks))
    {
      hide CounterMemory, OutputAfter, CounterBlock, Serial, Batched, Fits, Undisturbed, Counted;
      ghost var before := OutputAfter(cipher, v, m, inAt, hasInput, done);
      CounterAt(m, ctrAt, CounterBlock(v + done), outAt, before);
      LastByte(v + done);
      var lsb := mem[ctrAt + 15];
      blocks := if count <= 256 - (lsb as int) then count else 256 - (lsb as int);
      CounterWalkFits(mem.Length, ctrAt, inAt + 16 * done, hasInput, outAt + 16 * done, blocks);
      CounterRun(cipher, v, m, ctrAt, inAt, hasInput, outAt, n, done, blocks, blocks);
      BatchedIsSerial(cipher, mem[..], CounterWalk(ctrAt, inAt + 16 * done, hasInput, outAt + 16 * done, 16 * blocks),
                      0, blocks, true);
      var left := AdvancedProcessBlocks(cipher, mem, ctrAt, inAt + 16 * done, hasInput, outAt + 16 * done, 16 * blocks,
                                        Flags(true, false, false, false, true));
      ghost var after := OutputAfter(cipher, v, m, inAt, hasInput, done + blocks);
      SettleCounter(mem, ctrAt, lsb, blocks, m, v + done, outAt, after);
    }

    method SettleCounter(mem: array<byte>, ctrAt: int, lsb: byte, blocks: nat, ghost m: seq<byte>, ghost v: nat,
                         ghost outAt: int, ghost output: seq<byte>)
      requires |m| == mem.Length && Region(|m|, ctrAt, 16) && Region(|m|, outAt, |output|)
        && AwayFrom(ctrAt, outAt, |output|)
      requires lsb == v % 256 && 0 < blocks && lsb as int + blocks <= 256
      requires mem[..] == CounterMemory(m, ctrAt, Counted(CounterBlock(v), blocks), outAt, output)
      modifies mem
      ensures mem[..] == CounterMemory(m, ctrAt, CounterBlock(v + blocks), outAt, output)
    {
      hide CounterMemory, CounterBlock, Written, Increment;
      ghost var s := mem[..];
      ghost var ctr := Counted(CounterBlock(v), blocks);
      CounterAt(m, ctrAt, ctr, outAt, output);
      LastByte(v);
      mem[ctrAt + 15] := Plus(lsb, blocks);
      assert mem[..] == s;
      if mem[ctrAt + 15] == 0 {
        CountedOver(v, blocks);
        assert s[ctrAt..ctrAt + 15] == BlockAt(s, ctrAt)[..15] == ctr[..15];
        IncrementCounterByOne(mem, ctrAt, 15);
        Carried(m, ctrAt, ctr, outAt, output, Increment(ctr[..15]));
      } else {
        CountedBlock(v, blocks);
      }
    }
  }

  lemma NoOutputYet(cipher: Block -> Block, v: nat, m: seq<byte>, ctrAt: int, inAt: int, hasInput: bool, outAt: int)
    requires Region(|m|, ctrAt, 16) && Region(|m|, outAt, 0) && (hasInput ==> Region(|m|, inAt, 0))
    requires BlockAt(m, ctrAt) == CounterBlock(v)
    ensures CounterMemory(m, ctrAt, CounterBlock(v), outAt, OutputAfter(cipher, v, m, inAt, hasInput, 0)) == m
  {
    hide CounterBlock;
    assert OutputAfter(cipher, v, m, inAt, hasInput, 0) == [];
  }

  lemma CounterAt(m: seq<byte>, ctrAt: nat, ctr: Block, outAt: nat, output: seq<byte>)
    requires ctrAt + 16 <= |m| && outAt + |output| <= |m| && AwayFrom(ctrAt, outAt, |output|)
    ensures var s := CounterMemory(m, ctrAt, ctr, outAt, output); BlockAt(s, ctrAt) == ctr && s[ctrAt + 15] == ctr[15]
  {
    CountMemory(m, ctrAt, ctr, outAt, output);
    var s := CounterMemory(m, ctrAt, ctr, outAt, output);
    assert BlockAt(s, ctrAt)[15] == s[ctrAt + 15];
  }

  lemma LastByte(v: nat)
    ensures CounterBlock(v)[15] == v % 256
  {
  }

  /** Writing the front of the counter block leaves its last byte. */
  lemma Carried(m: seq<byte>, ctrAt: nat, ctr: Block, outAt: nat, output: seq<byte>, front: seq<byte>)
    requires ctrAt + 16 <= |m| && outAt + |output| <= |m| && AwayFrom(ctrAt, outAt, |output|) && |front| == 15
    ensures Written(CounterMemory(m, ctrAt, ctr, outAt, output), ctrAt, front)
         == CounterMemory(m, ctrAt, front + [ctr[15]], outAt, output)
  {
    hide Written;
    WrittenSwap(Written(m, ctrAt, ctr), outAt, output, ctrAt, front);
    FrontWritten(m, ctrAt, ctr, front);
  }

  lemma FrontWritten(m: seq<byte>, at: nat, ctr: Block, front: seq<byte>)
    requires at + 16 <= |m| && |front| == 15
    ensures Written(Written(m, at, ctr), at, front) == Written(m, at, front + [ctr[15]])
  {
  }
}
