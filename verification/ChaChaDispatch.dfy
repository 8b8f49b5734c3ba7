/** Which of the ways of computing blocks runs when, and how the counter follows. */
module ChaChaDispatch {
  import opened ChaCha
  import opened ChaChaKernels
  import Bytes

  /** The size of the next batch for n blocks from the low counter word on. */
  function NextBatch(low: word, n: nat, has256: bool, has128: bool, tryEight: bool): (b: word)
    ensures b <= n && (b == 0 ==> n == 0) && (b == 0 || b == 1 || MultiBlockSafe(low, b))
  {
    if tryEight && has256 && n >= 8 && MultiBlockSafe(low, 8) then 8
    else if has128 && n >= 4 && MultiBlockSafe(low, 4) then 4
    else if n > 0 then 1
    else 0
  }

  /** After a batch of four none of eight is tried before the next single block. */
  function Batches(low: word, n: nat, has256: bool, has128: bool, tryEight: bool): seq<word>
    decreases n
  {
    var b := NextBatch(low, n, has256, has128, tryEight);
    if b == 0 then [] else [b] + Batches(Add(low, b), n - b, has256, has128, b != 4)
  }

  /** What each kind of code makes of the blocks from s on. */
  function BatchWords(s: State, batch: nat, rounds: nat): seq<word> {
    if batch == 4 then RegisterBlocks(s, rounds) else Stream(s, batch, rounds, true)
  }

  function Written(s: State, batches: seq<word>, rounds: nat, wide: bool): seq<word>
    decreases |batches|
  {
    if batches == [] then []
    else BatchWords(s, batches[0], rounds) + Written(Skip(s, batches[0], wide), batches[1..], rounds, wide)
  }

  /** No addition carries astray in the batches of four. */
  predicate CarriesInBatches(s: State, batches: seq<word>, rounds: nat, wide: bool)
    decreases |batches|
  {
    batches == []
    || (&& (batches[0] == 4 ==> CarriesThroughout(s, rounds))
        && CarriesInBatches(Skip(s, batches[0], wide), batches[1..], rounds, wide))
  }

  /** What is written for the next n blocks. */
  function Keystream(s: State, n: nat, rounds: nat, wide: bool, has256: bool, has128: bool, tryEight: bool)
    : seq<word>
  {
    Written(s, Batches(s.r3.a, n, has256, has128, tryEight), rounds, wide)
  }

  predicate KeystreamCarries(s: State, n: nat, rounds: nat, wide: bool, has256: bool, has128: bool, tryEight: bool) {
    CarriesInBatches(s, Batches(s.r3.a, n, has256, has128, tryEight), rounds, wide)
  }

  lemma LowOfSkip(s: State, k: word, wide: bool)
    ensures Skip(s, k, wide).r3.a == Add(s.r3.a, k)
  {
    WideCounter(s, k);
    AddWideCarries(s.r3, k);
    if wide { hide Skip; }
  }

  lemma FirstBatch(s: State, batch: word, rest: seq<word>, rounds: nat, wide: bool)
    ensures Written(s, [batch] + rest, rounds, wide)
         == BatchWords(s, batch, rounds) + Written(Skip(s, batch, wide), rest, rounds, wide)
    ensures CarriesInBatches(s, [batch] + rest, rounds, wide)
       <==> (batch == 4 ==> CarriesThroughout(s, rounds))
            && CarriesInBatches(Skip(s, batch, wide), rest, rounds, wide)
  {
    hide CarriesThroughout, BatchWords, Skip;
    assert ([batch] + rest)[1..] == rest;
  }

  lemma BatchExact(s: State, batch: word, rounds: nat, wide: bool)
    requires batch == 1 || MultiBlockSafe(s.r3.a, batch)
    ensures BatchWords(s, batch, rounds) == Stream(s, batch, rounds, wide)
       <==> (batch == 4 ==> CarriesThroughout(s, rounds))
    ensures |BatchWords(s, batch, rounds)| == |Stream(s, batch, rounds, wide)|
  {
    hide RegisterBlocks, CarriesThroughout, Stream;
    if !wide { NarrowStreamIsWide(s, batch, rounds); }
    if batch == 4 { RegisterBlocksExact(s, rounds); }
  }

  /** One batch more: right exactly if the batch is right and what follows is. */
  lemma BatchThenRest(s: State, batch: word, rest: seq<word>, n: nat, rounds: nat, wide: bool)
    requires batch == 1 || MultiBlockSafe(s.r3.a, batch)
    requires Written(Skip(s, batch, wide), rest, rounds, wide) == Stream(Skip(s, batch, wide), n, rounds, wide)
        <==> CarriesInBatches(Skip(s, batch, wide), rest, rounds, wide)
    ensures Written(s, [batch] + rest, rounds, wide) == Stream(s, batch + n, rounds, wide)
       <==> CarriesInBatches(s, [batch] + rest, rounds, wide)
  {
    hide BatchWords, CarriesThroughout, Stream, Skip, Written, CarriesInBatches, MultiBlockSafe;
    FirstBatch(s, batch, rest, rounds, wide);
    BatchExact(s, batch, rounds, wide);
    StreamSplit(s, batch, n, rounds, wide);
    SamePieces(BatchWords(s, batch, rounds), Written(Skip(s, batch, wide), rest, rounds, wide),
               Stream(s, batch, rounds, wide), Stream(Skip(s, batch, wide), n, rounds, wide));
  }

  lemma KeystreamNext(s: State, n: nat, rounds: nat, wide: bool, has256: bool, has128: bool, tryEight: bool)
    requires n > 0
    ensures var b := NextBatch(s.r3.a, n, has256, has128, tryEight);
            var next := Skip(s, b, wide);
            var rest := Batches(next.r3.a, n - b, has256, has128, b != 4);
            && Keystream(s, n, rounds, wide, has256, has128, tryEight) == Written(s, [b] + rest, rounds, wide)
            && KeystreamCarries(s, n, rounds, wide, has256, has128, tryEight)
               == CarriesInBatches(s, [b] + rest, rounds, wide)
  {
    hide Written, CarriesInBatches, Skip, NextBatch, Add;
    LowOfSkip(s, NextBatch(s.r3.a, n, has256, has128, tryEight), wide);
  }

  lemma KeystreamStep(s: State, b: word, n: nat, rounds: nat, wide: bool,
                      has256: bool, has128: bool, tryEight: bool)
    requires n > 0 && b == NextBatch(s.r3.a, n, has256, has128, tryEight)
    requires Keystream(Skip(s, b, wide), n - b, rounds, wide, has256, has128, b != 4)
             == Stream(Skip(s, b, wide), n - b, rounds, wide)
        <==> KeystreamCarries(Skip(s, b, wide), n - b, rounds, wide, has256, has128, b != 4)
    ensures Keystream(s, n, rounds, wide, has256, has128, tryEight) == Stream(s, n, rounds, wide)
       <==> KeystreamCarries(s, n, rounds, wide, has256, has128, tryEight)
  {
    hide NextBatch, Skip, Written, CarriesInBatches, Stream, Batches;
    var next := Skip(s, b, wide);
    var rest := Batches(next.r3.a, n - b, has256, has128, b != 4);
    KeystreamNext(s, n, rounds, wide, has256, has128, tryEight);
    hide MultiBlockSafe, Keystream, KeystreamCarries;
    KeystreamIs(next, n - b, rounds, wide, has256, has128, b != 4);
    BatchThenRest(s, b, rest, n - b, rounds, wide);
  }

  lemma KeystreamIs(s: State, n: nat, rounds: nat, wide: bool, has256: bool, has128: bool, tryEight: bool)
    ensures var batches := Batches(s.r3.a, n, has256, has128, tryEight);
            && Keystream(s, n, rounds, wide, has256, has128, tryEight) == Written(s, batches, rounds, wide)
            && KeystreamCarries(s, n, rounds, wide, has256, has128, tryEight)
               == CarriesInBatches(s, batches, rounds, wide)
  {
    hide Written, CarriesInBatches, Batches;
  }

  lemma NothingExact(s: State, rounds: nat, wide: bool, has256: bool, has128: bool, tryEight: bool)
    ensures Keystream(s, 0, rounds, wide, has256, has128, tryEight) == Stream(s, 0, rounds, wide)
    ensures KeystreamCarries(s, 0, rounds, wide, has256, has128, tryEight)
  {
  }

  /**
   * The blocks written are the next n blocks of the keystream exactly when no addition
   * carries astray in the batches of four that are run.
   */
  lemma {:induction false} KeystreamExact(s: State, n: nat, rounds: nat, wide: bool,
                                          has256: bool, has128: bool, tryEight: bool)
    ensures Keystream(s, n, rounds, wide, has256, has128, tryEight) == Stream(s, n, rounds, wide)
       <==> KeystreamCarries(s, n, rounds, wide, has256, has128, tryEight)
    decreases n
  {
    hide Keystream, KeystreamCarries, Stream, NextBatch, Skip;
    if n == 0 {
      NothingExact(s, rounds, wide, has256, has128, tryEight);
    } else {
      var b := NextBatch(s.r3.a, n, has256, has128, tryEight);
      KeystreamExact(Skip(s, b, wide), n - b, rounds, wide, has256, has128, b != 4);
      KeystreamStep(s, b, n, rounds, wide, has256, has128, tryEight);
    }
  }

  lemma {:induction false} NoBatchOfFour(s: State, n: nat, rounds: nat, wide: bool, has256: bool, tryEight: bool)
    ensures KeystreamCarries(s, n, rounds, wide, has256, false, tryEight)
    decreases n
  {
    hide Skip, CarriesThroughout;
    if n > 0 {
      var b := NextBatch(s.r3.a, n, has256, false, tryEight);
      hide NextBatch, CarriesInBatches, Batches;
      var next := Skip(s, b, wide);
      NoBatchOfFour(next, n - b, rounds, wide, has256, b != 4);
      KeystreamNext(s, n, rounds, wide, has256, false, tryEight);
      FirstBatch(s, b, Batches(next.r3.a, n - b, has256, false, b != 4), rounds, wide);
    }
  }

  /** Without 128-bit registers the keystream is always right. */
  lemma WithoutRegistersOf128(s: State, n: nat, rounds: nat, wide: bool, has256: bool)
    ensures Keystream(s, n, rounds, wide, has256, false, true) == Stream(s, n, rounds, wide)
  {
    hide Keystream, KeystreamCarries, Stream;
    NoBatchOfFour(s, n, rounds, wide, has256, true);
    KeystreamExact(s, n, rounds, wide, has256, false, true);
  }

  /** Four blocks that go astray in 128-bit registers are what the dispatcher writes. */
  lemma FourAstray(s: State, rounds: nat, wide: bool, has256: bool)
    requires MultiBlockSafe(s.r3.a, 4) && !CarriesThroughout(s, rounds)
    ensures Keystream(s, 4, rounds, wide, has256, true, true) != Stream(s, 4, rounds, wide)
  {
    assert NextBatch(s.r3.a, 4, has256, true, true) == 4;
    hide CarriesThroughout, Stream, Skip, NextBatch, CarriesInBatches, KeystreamCarries, Batches;
    KeystreamNext(s, 4, rounds, wide, has256, true, true);
    FirstBatch(s, 4, Batches(Skip(s, 4, wide).r3.a, 0, has256, true, false), rounds, wide);
    KeystreamExact(s, 4, rounds, wide, has256, true, true);
  }

  lemma IncrementIsSkip(s: State, wide: bool)
    ensures var low := Add(s.r3.a, 1);
            var t := s.(r3 := s.r3.(a := low));
            (if low == 0 && wide then t.(r3 := t.r3.(b := Add(t.r3.b, 1))) else t) == Skip(s, 1, wide)
  {
    WideCounter(s, 1);
    AddWideCarries(s.r3, 1);
  }

  class KeystreamPolicy {
    var state: State
    const rounds: nat
    /** Whether the counter has 64 bits; otherwise its carry goes to a discarded variable. */
    const wide: bool

    constructor (s: State, r: nat, w: bool)
      ensures state == s && rounds == r && wide == w
    {
      state, rounds, wide := s, r, w;
    }

    /** The increment after a single block, with its carry unless the carry is discarded. */
    method Increment()
      modifies `state
      ensures state == Skip(old(state), 1, wide)
    {
      IncrementIsSkip(state, wide);
      hide Skip, Add;
      state := state.(r3 := state.r3.(a := Add(state.r3.a, 1)));
      if state.r3.a == 0 && wide {
        state := state.(r3 := state.r3.(b := Add(state.r3.b, 1)));
      }
    }

    /** The counter after a batch, whose low word cannot wrap. */
    method Advance(batch: word)
      requires MultiBlockSafe(state.r3.a, batch)
      modifies `state
      ensures state == Skip(old(state), batch, wide)
    {
      NarrowIsWide(state, batch);
      hide Skip;
      state := state.(r3 := state.r3.(a := Add(state.r3.a, batch)));
    }

    /** Batches of eight as long as eight blocks are left and the low counter word does not wrap. */
    method EightAtATime(has128: bool, input: array?<word>, output: array<word>, first: nat, n: nat,
                       ghost before: seq<word>, ghost source: seq<word>, ghost words0: seq<word>)
      returns (count: nat, at: nat, ghost words: seq<word>)
      requires Feeds(input, output, before, source)
      requires Emitted(before, source, words0, output[..])
      requires first == |words0| && first + 16 * n <= output.Length
      modifies `state, output
      ensures count <= n && (count < 8 || !MultiBlockSafe(state.r3.a, 8))
      ensures at == |words| == first + 16 * (n - count) && state == Skip(old(state), n - count, wide)
      ensures Feeds(input, output, before, source)
      ensures Emitted(before, source, words, output[..])
      ensures words + Keystream(state, count, rounds, wide, true, has128, true)
           == words0 + Keystream(old(state), n, rounds, wide, true, has128, true)
    {
      hide Emitted, Feeds, Keystream, Skip, Stream, MultiBlockSafe, Add;
      ghost var s0 := state;
      count, at, words := n, first, words0;
      SkipNone(s0, wide);
      while count >= 8 && MultiBlockSafe(state.r3.a, 8)
        invariant count <= n
        invariant at == |words| == first + 16 * (n - count) && state == Skip(s0, n - count, wide)
        invariant Feeds(input, output, before, source)
        invariant Emitted(before, source, words, output[..])
        invariant words + Keystream(state, count, rounds, wide, true, has128, true)
               == words0 + Keystream(s0, n, rounds, wide, true, has128, true)
        decreases count
      {
        EightBlocks(state, rounds, input, output, at, before, source, words);
        BatchNext(state, 8, count, rounds, wide, true, has128, true, words);
        SkipSkip(s0, n - count, 8, wide);
        words := words + Stream(state, 8, rounds, true);
        Advance(8);
        at := at + 8 * 16;
        count := count - 8;
      }
    }

    /** Batches of four as long as four blocks are left and the low counter word does not wrap. */
    method FourAtATime(has256: bool, input: array?<word>, output: array<word>, first: nat, n: nat,
                       ghost before: seq<word>, ghost source: seq<word>, ghost words0: seq<word>)
      returns (count: nat, at: nat, ghost words: seq<word>)
      requires Feeds(input, output, before, source)
      requires Emitted(before, source, words0, output[..])
      requires first == |words0| && first + 16 * n <= output.Length
      modifies `state, output
      ensures count <= n && (count < 4 || !MultiBlockSafe(state.r3.a, 4))
      ensures at == |words| == first + 16 * (n - count) && state == Skip(old(state), n - count, wide)
      ensures Feeds(input, output, before, source)
      ensures Emitted(before, source, words, output[..])
      ensures words + Keystream(state, count, rounds, wide, has256, true, false)
           == words0 + Keystream(old(state), n, rounds, wide, has256, true, false)
    {
      hide Emitted, Feeds, Keystream, Skip, RegisterBlocks, MultiBlockSafe, Add;
      ghost var s0 := state;
      count, at, words := n, first, words0;
      SkipNone(s0, wide);
      while count >= 4 && MultiBlockSafe(state.r3.a, 4)
        invariant count <= n
        invariant at == |words| == first + 16 * (n - count) && state == Skip(s0, n - count, wide)
        invariant Feeds(input, output, before, source)
        invariant Emitted(before, source, words, output[..])
        invariant words + Keystream(state, count, rounds, wide, has256, true, false)
               == words0 + Keystream(s0, n, rounds, wide, has256, true, false)
        decreases count
      {
        FourBlocks(state, rounds, input, output, at, before, source, words);
        BatchNext(state, 4, count, rounds, wide, has256, true, false, words);
        SkipSkip(s0, n - count, 4, wide);
        words := words + RegisterBlocks(state, rounds);
        Advance(4);
        at := at + 4 * 16;
        count := count - 4;
      }
    }

    method OneBlock(input: array?<word>, output: array<word>, at: nat,
                    ghost before: seq<word>, ghost source: seq<word>, ghost words0: seq<word>)
      returns (ghost words: seq<word>)
      requires Feeds(input, output, before, source)
      requires Emitted(before, source, words0, output[..])
      requires at == |words0| && at + 16 <= output.Length
      modifies `state, output
      ensures state == Skip(old(state), 1, wide)
      ensures words == words0 + BatchWords(old(state), 1, rounds) && |words| == at + 16
      ensures Feeds(input, output, before, source)
      ensures Emitted(before, source, words, output[..])
    {
      hide Emitted, Feeds, Skip, Block, Add;
      OneInStream(state, rounds);
      var w := ScalarBlock(state, rounds);
      Emit(w, input, output, at, before, source, words0);
      words := words0 + w;
      Increment();
    }

    /**
     * The words that the batches give for the next `iterationCount` blocks, stored or mixed
     * into the input. The counter goes on by as many blocks, whatever they contain.
     */
    method OperateKeystream(has256: bool, has128: bool, input: array?<word>, output: array<word>, iterationCount: nat)
      requires input != null ==> input.Length == output.Length
      requires 16 * iterationCount <= output.Length
      modifies `state, output
      ensures Emitted(old(output[..]), old(Source(input)),
                      Keystream(old(state), iterationCount, rounds, wide, has256, has128, true), output[..])
      ensures state == Skip(old(state), iterationCount, wide)
    {
      hide Emitted, Keystream, Skip, MultiBlockSafe, Add, BatchWords;
      ghost var s0, before, source := state, output[..], Source(input);
      ghost var words: seq<word> := [];
      var count: nat, at: nat := iterationCount, 0;
      var again := true;
      Begin(s0, before, source, input, output, wide);
      hide Feeds;
      while again
        invariant count <= iterationCount && (!again ==> count == 0)
        invariant words + Keystream(state, count, rounds, wide, has256, has128, true)
               == Keystream(s0, iterationCount, rounds, wide, has256, has128, true)
        invariant Feeds(input, output, before, source)
        invariant at == |words| == 16 * (iterationCount - count) && state == Skip(s0, iterationCount - count, wide)
        invariant Emitted(before, source, words, output[..])
        decreases again, count
      {
        ghost var done := iterationCount - count;
        if has256 {
          count, at, words := EightAtATime(has128, input, output, at, count, before, source, words);
          SkipSkip(s0, done, iterationCount - count - done, wide);
        }
        NoneOfEight(state, count, rounds, wide, has256, has128);
        done := iterationCount - count;
        if has128 {
          count, at, words := FourAtATime(has256, input, output, at, count, before, source, words);
          SkipSkip(s0, done, iterationCount - count - done, wide);
        }
        Nothing(state, rounds, wide, has256, has128);
        if count == 0 {
          again := false;
        } else {
          BatchNext(state, 1, count, rounds, wide, has256, has128, false, words);
          SkipSkip(s0, iterationCount - count, 1, wide);
          words := OneBlock(input, output, at, before, source, words);
          at := at + 16;
          count := count - 1;
        }
      }
      Nothing(state, rounds, wide, has256, has128);
      assert words + [] == words;
    }
  }

  lemma Begin(s: State, before: seq<word>, source: seq<word>, input: array?<word>, output: array<word>, wide: bool)
    requires before == output[..] && source == Source(input) && (input != null ==> input.Length == output.Length)
    ensures Feeds(input, output, before, source)
    ensures Emitted(before, source, [], output[..])
    ensures Skip(s, 0, wide) == s
  {
    assert Mixed(source, []) == [];
  }

  /** The words of the next batch and of the others. */
  lemma BatchNext(s: State, b: word, n: nat, rounds: nat, wide: bool, has256: bool, has128: bool, tryEight: bool,
                  words: seq<word>)
    requires n > 0 && b == NextBatch(s.r3.a, n, has256, has128, tryEight)
    ensures words + Keystream(s, n, rounds, wide, has256, has128, tryEight)
         == words + BatchWords(s, b, rounds)
            + Keystream(Skip(s, b, wide), n - b, rounds, wide, has256, has128, b != 4)
  {
    hide Skip, BatchWords, Written, NextBatch, Batches;
    KeystreamNext(s, n, rounds, wide, has256, has128, tryEight);
    hide Keystream;
    var next := Skip(s, b, wide);
    var rest := Batches(next.r3.a, n - b, has256, has128, b != 4);
    FirstBatch(s, b, rest, rounds, wide);
    KeystreamIs(next, n - b, rounds, wide, has256, has128, b != 4);
    ThreePieces(words, BatchWords(s, b, rounds), Written(next, rest, rounds, wide));
  }

  lemma ThreePieces(a: seq<word>, b: seq<word>, c: seq<word>)
    ensures a + (b + c) == a + b + c
  {
  }

  lemma NoneOfEight(s: State, n: nat, rounds: nat, wide: bool, has256: bool, has128: bool)
    requires !has256 || n < 8 || !MultiBlockSafe(s.r3.a, 8)
    ensures Keystream(s, n, rounds, wide, has256, has128, true) == Keystream(s, n, rounds, wide, has256, has128, false)
  {
    hide MultiBlockSafe, Written;
  }

  lemma Nothing(s: State, rounds: nat, wide: bool, has256: bool, has128: bool)
    ensures Keystream(s, 0, rounds, wide, has256, has128, false) == []
    ensures Keystream(s, 0, rounds, wide, has256, has128, true) == []
  {
  }

  lemma OneInStream(s: State, rounds: nat)
    ensures BatchWords(s, 1, rounds) == Block(s, rounds)
  {
    hide Block, Skip;
    SkipNone(s, true);
    assert Stream(s, 0, rounds, true) == [];
  }

  /** Mixing the same keystream in again gives the input back. */
  lemma MixedTwice(source: seq<word>, w: seq<word>)
    requires source != [] && |w| <= |source|
    ensures Mixed(Mixed(source, w), w) == source[..|w|]
  {
    if w != [] {
      forall i | 0 <= i < |w| ensures Mixed(Mixed(source, w), w)[i] == source[i] {
        XorWordCancels(source[i], w[i]);
      }
    }
  }

  lemma XorWordCancels(a: word, b: word)
    ensures Xor(Xor(a, b), b) == a
  {
    WordWidth();
    Bytes.XorDigitsCancel(a, b, 32);
  }
}
