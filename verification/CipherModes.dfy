/** Cipher block chaining and counter mode, in place where the caller wants it. */
module CipherModes {
  import opened Bytes
  import opened CbcMac
  import opened BlockBatches

  // ---- chaining as functions of the whole text ----

  ghost function CbcEncrypted(cipher: Block -> Block, iv: Block, plain: seq<byte>): (r: seq<byte>)
    requires |plain| % 16 == 0
    ensures |r| == |plain|
    decreases |plain|
  {
    if plain == [] then []
    else
      var c := cipher(XorSeq(plain[..16], iv));
      c + CbcEncrypted(cipher, c, plain[16..])
  }

  ghost function CbcDecrypted(decipher: Block -> Block, iv: Block, c: seq<byte>): (r: seq<byte>)
    requires |c| % 16 == 0
    ensures |r| == |c|
    decreases |c|
  {
    if c == [] then []
    else XorSeq(decipher(c[..16]), iv) + CbcDecrypted(decipher, c[..16], c[16..])
  }

  lemma Unrolled(decipher: Block -> Block, iv: Block, c: seq<byte>, first: Block, rest: seq<byte>)
    requires c == first + rest && |rest| % 16 == 0
    ensures CbcDecrypted(decipher, iv, c) == XorSeq(decipher(first), iv) + CbcDecrypted(decipher, first, rest)
  {
    assert c[..16] == first && c[16..] == rest;
  }

  lemma XorSeqTwice(a: Block, b: Block)
    ensures XorSeq(XorSeq(a, b), b) == a
  {
    forall i | 0 <= i < 16 ensures XorSeq(XorSeq(a, b), b)[i] == a[i] {
      XorCancels(a[i], b[i]);
    }
  }

  lemma {:induction false} CbcRoundTrip(cipher: Block -> Block, decipher: Block -> Block, iv: Block, plain: seq<byte>)
    requires |plain| % 16 == 0
    requires forall b: Block :: decipher(cipher(b)) == b
    ensures CbcDecrypted(decipher, iv, CbcEncrypted(cipher, iv, plain)) == plain
    decreases |plain|
  {
    if plain != [] {
      var block := XorSeq(plain[..16], iv);
      var c := cipher(block);
      var rest := CbcEncrypted(cipher, c, plain[16..]);
      CbcRoundTrip(cipher, decipher, c, plain[16..]);
      Unrolled(decipher, iv, CbcEncrypted(cipher, iv, plain), c, rest);
      assert decipher(c) == block;
      XorSeqTwice(plain[..16], iv);
      assert plain == plain[..16] + plain[16..];
    }
  }

  /** The register after a text: its last ciphertext block. */
  function LastBlock(iv: Block, c: seq<byte>): Block
    requires |c| % 16 == 0
  {
    if c == [] then iv else c[|c| - 16..]
  }

  lemma NothingEncrypted(cipher: Block -> Block, iv: Block)
    ensures CbcEncrypted(cipher, iv, []) == []
  {
  }

  lemma UnrolledEncryption(cipher: Block -> Block, iv: Block, plain: seq<byte>, first: Block, rest: seq<byte>)
    requires plain == first + rest && |rest| % 16 == 0
    ensures var c := cipher(XorSeq(first, iv));
      CbcEncrypted(cipher, iv, plain) == c + CbcEncrypted(cipher, c, rest)
  {
    assert plain[..16] == first && plain[16..] == rest;
  }

  lemma {:induction false} CbcEncryptedConcat(cipher: Block -> Block, iv: Block, a: seq<byte>, b: seq<byte>)
    requires |a| % 16 == 0 && |b| % 16 == 0
    ensures var c := CbcEncrypted(cipher, iv, a);
      CbcEncrypted(cipher, iv, a + b) == c + CbcEncrypted(cipher, LastBlock(iv, c), b)
    decreases |a|
  {
    hide XorSeq, CbcEncrypted, LastBlock;
    if a == [] {
      NothingEncrypted(cipher, iv);
      assert a + b == b;
      LastOfAppended(iv, [], []);
    } else {
      var first, rest := a[..16], a[16..];
      var c := cipher(XorSeq(first, iv));
      CbcEncryptedConcat(cipher, c, rest, b);
      assert a + b == first + (rest + b) && a == first + rest;
      UnrolledEncryption(cipher, iv, a + b, first, rest + b);
      UnrolledEncryption(cipher, iv, a, first, rest);
      LastOfAppended(iv, c, CbcEncrypted(cipher, c, rest));
    }
  }

  lemma LastOfAppended(iv: Block, first: seq<byte>, rest: seq<byte>)
    requires |first| == 16 || first == []
    requires |rest| % 16 == 0
    ensures first == [] ==> LastBlock(iv, []) == iv
    ensures first != [] ==> LastBlock(iv, first + rest) == LastBlock(first, rest)
  {
  }

  lemma NothingDecrypted(decipher: Block -> Block, iv: Block)
    ensures CbcDecrypted(decipher, iv, []) == []
  {
  }

  lemma {:induction false} CbcDecryptedConcat(decipher: Block -> Block, iv: Block, a: seq<byte>, b: seq<byte>)
    requires |a| % 16 == 0 && |b| % 16 == 0
    ensures CbcDecrypted(decipher, iv, a + b)
         == CbcDecrypted(decipher, iv, a) + CbcDecrypted(decipher, LastBlock(iv, a), b)
    decreases |a|
  {
    hide XorSeq, CbcDecrypted, LastBlock;
    if a == [] {
      NothingDecrypted(decipher, iv);
      LastOfAppended(iv, [], []);
      assert a + b == b;
    } else {
      var first, rest := a[..16], a[16..];
      CbcDecryptedConcat(decipher, first, rest, b);
      assert a + b == first + (rest + b) && a == first + rest;
      Unrolled(decipher, iv, a + b, first, rest + b);
      Unrolled(decipher, iv, a, first, rest);
      LastOfAppended(iv, first, rest);
    }
  }

  // ---- the blocks by their places ----

  /** Ciphertext block i is the enciphered exclusive or of plaintext block i and the block before, byte by byte. */
  lemma {:induction false} CbcCipherBlock(cipher: Block -> Block, iv: Block, plain: seq<byte>, c: seq<byte>,
                                          i: nat, previous: Block, mixed: Block)
    requires |plain| % 16 == 0 && 16 * i + 16 <= |plain| && c == CbcEncrypted(cipher, iv, plain)
    requires previous == if i == 0 then iv else c[16 * i - 16..16 * i]
    requires forall k :: 0 <= k < 16 ==> mixed[k] == Xor(plain[16 * i + k], previous[k])
    ensures c[16 * i..16 * i + 16] == cipher(mixed)
    decreases i
  {
    hide CbcEncrypted, Xor;
    var first, rest := plain[..16], plain[16..];
    var top: Block := cipher(XorSeq(first, iv));
    var tail: seq<byte> := CbcEncrypted(cipher, top, rest);
    assert plain == first + rest;
    UnrolledEncryption(cipher, iv, plain, first, rest);
    if i == 0 {
      assert mixed == XorSeq(first, iv);
      assert (top + tail)[..16] == top;
    } else {
      CutAfter(top, tail, i);
      forall k | 0 <= k < 16 ensures mixed[k] == Xor(rest[16 * (i - 1) + k], previous[k]) {
        assert rest[16 * (i - 1) + k] == plain[16 * i + k];
      }
      CbcCipherBlock(cipher, top, rest, tail, i - 1, previous, mixed);
    }
  }

  /** Plaintext block i is the exclusive or of deciphered block i and the ciphertext block before, byte by byte. */
  lemma {:induction false} CbcPlainBlock(decipher: Block -> Block, iv: Block, c: seq<byte>, i: nat, previous: Block,
                                         k: nat)
    requires |c| % 16 == 0 && 16 * i + 16 <= |c| && k < 16
    requires previous == if i == 0 then iv else c[16 * i - 16..16 * i]
    ensures CbcDecrypted(decipher, iv, c)[16 * i + k] == Xor(decipher(c[16 * i..16 * i + 16])[k], previous[k])
    decreases i
  {
    hide CbcDecrypted, Xor;
    var first, rest := c[..16], c[16..];
    assert c == first + rest;
    Unrolled(decipher, iv, c, first, rest);
    if i > 0 {
      CutAfter(first, rest, i);
      CbcPlainBlock(decipher, first, rest, i - 1, previous, k);
    }
  }

  lemma CutAfter(top: Block, tail: seq<byte>, i: nat)
    requires i > 0 && 16 * i <= |tail|
    ensures (top + tail)[16 * i..16 * i + 16] == tail[16 * (i - 1)..16 * (i - 1) + 16]
    ensures (top + tail)[16 * i - 16..16 * i] == if i == 1 then top else tail[16 * (i - 1) - 16..16 * (i - 1)]
  {
  }

  // ---- regions of the memory ----

  predicate Region(size: nat, at: int, length: nat) {
    0 <= at && at + length <= size
  }

  lemma WrittenTwice(m: seq<byte>, at: nat, a: seq<byte>, b: seq<byte>)
    requires at + |a| + |b| <= |m|
    ensures Written(Written(m, at + |a|, b), at, a) == Written(m, at, a + b)
    ensures Written(Written(m, at, a), at + |a|, b) == Written(m, at, a + b)
  {
  }

  lemma WrittenAside(m: seq<byte>, at: nat, data: seq<byte>, from: nat, length: nat)
    requires at + |data| <= |m| && from + length <= |m|
    requires at + |data| <= from || from + length <= at
    ensures Written(m, at, data)[from..from + length] == m[from..from + length]
  {
  }

  // ---- decryption, from the last block back ----

  function DecryptionWalk(inAt: int, outAt: int, length: nat): Walk {
    WalkOf(inAt + 16, inAt, true, outAt + 16, length, Flags(false, false, false, true, true))
  }

  /** A block is only overwritten once the blocks that need it have been deciphered. */
  predicate NotBelow(inAt: int, outAt: int, length: nat) {
    inAt <= outAt || outAt + length <= inAt
  }

  lemma DecryptionWalkFits(size: nat, inAt: int, outAt: int, n: nat)
    requires n > 1 && Region(size, inAt, 16 * n) && Region(size, outAt, 16 * n) && NotBelow(inAt, outAt, 16 * n)
    ensures Fits(size, DecryptionWalk(inAt, outAt, 16 * n - 16), n - 1)
    ensures Undisturbed(DecryptionWalk(inAt, outAt, 16 * n - 16), 0, n - 1)
  {
    NeverDisturbed(DecryptionWalk(inAt, outAt, 16 * n - 16), 0, n - 1);
  }

  /** Storing a block in front of what is already there, which lies clear of the block's operands. */
  lemma StepBefore(cipher: Block -> Block, m: seq<byte>, w: Walk, i: nat, tail: seq<byte>)
    requires FitsAt(|m|, w, i) && w.operand.Output? && !w.counter
    requires w.Out(i) + 16 + |tail| <= |m|
    requires w.In(i) + 16 <= w.Out(i) + 16 || w.Out(i) + 16 + |tail| <= w.In(i)
    requires w.Xor(i) + 16 <= w.Out(i) + 16 || w.Out(i) + 16 + |tail| <= w.Xor(i)
    ensures Step(cipher, Written(m, w.Out(i) + 16, tail), w, i)
         == Written(m, w.Out(i), XorSeq(cipher(BlockAt(m, w.In(i))), BlockAt(m, w.Xor(i))) + tail)
  {
    hide Written;
    var block := XorSeq(cipher(BlockAt(m, w.In(i))), BlockAt(m, w.Xor(i)));
    WrittenAside(m, w.Out(i) + 16, tail, w.In(i), 16);
    WrittenAside(m, w.Out(i) + 16, tail, w.Xor(i), 16);
    WrittenTwice(m, w.Out(i), block, tail);
  }

  /** The plaintext of the blocks from block b on. */
  ghost function PlainTail(decipher: Block -> Block, m: seq<byte>, inAt: int, n: nat, b: nat): (r: seq<byte>)
    requires 0 < b <= n && Region(|m|, inAt, 16 * n)
    ensures |r| == 16 * (n - b)
  {
    CbcDecrypted(decipher, m[inAt + 16 * b - 16..inAt + 16 * b], m[inAt + 16 * b..inAt + 16 * n])
  }

  lemma PlainTailNext(decipher: Block -> Block, m: seq<byte>, inAt: int, n: nat, b: nat)
    requires 0 < b < n && Region(|m|, inAt, 16 * n)
    ensures PlainTail(decipher, m, inAt, n, b)
         == XorSeq(decipher(BlockAt(m, inAt + 16 * b)), BlockAt(m, inAt + 16 * b - 16))
            + PlainTail(decipher, m, inAt, n, b + 1)
  {
    hide CbcDecrypted, XorSeq;
    var c, rest := m[inAt + 16 * b..inAt + 16 * b + 16], m[inAt + 16 * b + 16..inAt + 16 * n];
    Unrolled(decipher, m[inAt + 16 * b - 16..inAt + 16 * b], m[inAt + 16 * b..inAt + 16 * n], c, rest);
  }

  lemma NoPlainTail(decipher: Block -> Block, m: seq<byte>, inAt: int, n: nat)
    requires 0 < n && Region(|m|, inAt, 16 * n)
    ensures PlainTail(decipher, m, inAt, n, n) == []
  {
  }

  lemma DecryptionWalkAt(inAt: int, outAt: int, n: nat, j: nat)
    requires j < n
    ensures var w := DecryptionWalk(inAt, outAt, 16 * n - 16);
      && w.In(j) == inAt + 16 * (n - j - 1) && w.Xor(j) == inAt + 16 * (n - j - 1) - 16
      && w.Out(j) == outAt + 16 * (n - j - 1) && w.operand.Output? && !w.counter
  {
  }

  /** After j blocks the end of the output holds the last j plaintext blocks. */
  lemma {:induction false} DecryptsBackwards(decipher: Block -> Block, m: seq<byte>, inAt: int, outAt: int,
                                             n: nat, j: nat)
    requires j < n && Region(|m|, inAt, 16 * n) && Region(|m|, outAt, 16 * n) && NotBelow(inAt, outAt, 16 * n)
    requires Fits(|m|, DecryptionWalk(inAt, outAt, 16 * n - 16), j)
    ensures Serial(decipher, m, DecryptionWalk(inAt, outAt, 16 * n - 16), 0, j)
         == Written(m, outAt + 16 * (n - j), PlainTail(decipher, m, inAt, n, n - j))
  {
    hide Written, Step, XorSeq, CbcDecrypted, PlainTail, BlockAt;
    if j == 0 {
      NoPlainTail(decipher, m, inAt, n);
      NothingWritten(m, outAt + 16 * n);
    } else {
      DecryptsBackwards(decipher, m, inAt, outAt, n, j - 1);
      var w := DecryptionWalk(inAt, outAt, 16 * n - 16);
      assert FitsAt(|m|, w, j - 1);
      hide DecryptionWalk;
      DecryptionWalkAt(inAt, outAt, n, j - 1);
      StepBefore(decipher, m, w, j - 1, PlainTail(decipher, m, inAt, n, n - j + 1));
      PlainTailNext(decipher, m, inAt, n, n - j);
    }
  }

  lemma NothingWritten(m: seq<byte>, at: nat)
    requires at <= |m|
    ensures Written(m, at, []) == m
  {
  }

  class CbcDecryption {
    const decipher: Block -> Block
    var register: Block

    constructor (d: Block -> Block, iv: Block)
      ensures decipher == d && register == iv
    {
      decipher, register := d, iv;
    }

    method ProcessData(mem: array<byte>, outAt: int, inAt: int, length: nat)
      requires length % 16 == 0
      requires Region(mem.Length, inAt, length) && Region(mem.Length, outAt, length) && NotBelow(inAt, outAt, length)
      modifies `register, mem
      ensures mem[..] == Written(old(mem[..]), outAt,
                                 CbcDecrypted(decipher, old(register), old(mem[inAt..inAt + length])))
      ensures register == LastBlock(old(register), old(mem[inAt..inAt + length]))
    {
      hide Written, CbcDecrypted, XorSeq;
      ghost var m := mem[..];
      ghost var c := m[inAt..inAt + length];
      if length == 0 {
        NothingDecrypted(decipher, register);
        NothingWritten(m, outAt);
        return;
      }
      var temp := mem[inAt + length - 16..inAt + length];
      ghost var first, rest := m[inAt..inAt + 16], m[inAt + 16..inAt + length];
      ghost var tail := CbcDecrypted(decipher, first, rest);
      if length > 16 {
        DecipherTail(mem, outAt, inAt, length);
      } else {
        NothingDecrypted(decipher, first);
        NothingWritten(m, outAt + 16);
      }
      DecipherFirst(mem, outAt, inAt, m, tail);
      assert c == first + rest;
      Unrolled(decipher, register, c, first, rest);
      register := temp;
    }

    method DecipherFirst(mem: array<byte>, outAt: int, inAt: int, ghost m: seq<byte>, ghost tail: seq<byte>)
      requires |m| == mem.Length && Region(|m|, inAt, 16) && Region(|m|, outAt, 16 + |tail|)
      requires inAt <= outAt || outAt + 16 + |tail| <= inAt
      requires mem[..] == Written(m, outAt + 16, tail)
      modifies mem
      ensures mem[..] == Written(m, outAt, XorSeq(decipher(m[inAt..inAt + 16]), register) + tail)
    {
      hide Written, XorSeq;
      WrittenAside(m, outAt + 16, tail, inAt, 16);
      var block := XorSeq(decipher(mem[inAt..inAt + 16]), register);
      Store(mem, outAt, block);
      WrittenTwice(m, outAt, block, tail);
    }

    /** All blocks but the first, of which there are some. */
    method DecipherTail(mem: array<byte>, outAt: int, inAt: int, length: nat)
      requires length % 16 == 0 && length > 16
      requires Region(mem.Length, inAt, length) && Region(mem.Length, outAt, length) && NotBelow(inAt, outAt, length)
      modifies mem
      ensures var m := old(mem[..]);
        mem[..] == Written(m, outAt + 16, CbcDecrypted(decipher, m[inAt..inAt + 16], m[inAt + 16..inAt + length]))
    {
      hide Written, Serial, Batched, Step, Fits, Undisturbed, CbcDecrypted;
      ghost var m, n := mem[..], length / 16;
      DecryptionWalkFits(mem.Length, inAt, outAt, n);
      DecryptsBackwards(decipher, m, inAt, outAt, n, n - 1);
      BatchedIsSerial(decipher, m, DecryptionWalk(inAt, outAt, length - 16), 0, n - 1, true);
      var left := AdvancedProcessBlocks(decipher, mem, inAt + 16, inAt, true, outAt + 16, length - 16,
                                        Flags(false, false, false, true, true));
    }
  }

  // ---- encryption, each block chained to the one stored before it ----

  function EncryptionWalk(inAt: int, outAt: int, length: nat): Walk {
    WalkOf(inAt + 16, outAt, true, outAt + 16, length, Flags(false, false, true, false, false))
  }

  /** The output stays behind the input or clear of it. */
  predicate NotAhead(inAt: int, outAt: int, length: nat) {
    outAt <= inAt || inAt + length <= outAt
  }

  lemma EncryptionWalkFits(size: nat, inAt: int, outAt: int, n: nat)
    requires n > 1 && Region(size, inAt, 16 * n) && Region(size, outAt, 16 * n)
    ensures Fits(size, EncryptionWalk(inAt, outAt, 16 * n - 16), n - 1)
  {
  }

  lemma OneEncrypted(cipher: Block -> Block, iv: Block, block: Block)
    ensures CbcEncrypted(cipher, iv, block) == cipher(XorSeq(block, iv))
  {
    assert block[..16] == block && block[16..] == [];
  }

  lemma EncryptsNext(cipher: Block -> Block, iv: Block, plain: seq<byte>, block: Block)
    requires |plain| % 16 == 0
    ensures var c := CbcEncrypted(cipher, iv, plain);
      CbcEncrypted(cipher, iv, plain + block) == c + cipher(XorSeq(block, LastBlock(iv, c)))
  {
    hide XorSeq;
    var c := CbcEncrypted(cipher, iv, plain);
    CbcEncryptedConcat(cipher, iv, plain, block);
    OneEncrypted(cipher, LastBlock(iv, c), block);
  }

  /** Storing the next block behind a prefix whose last block is the operand. */
  lemma StepBehind(cipher: Block -> Block, m: seq<byte>, w: Walk, i: nat, at: nat, prefix: seq<byte>)
    requires FitsAt(|m|, w, i) && w.operand.Input? && !w.counter
    requires 16 <= |prefix| && w.Out(i) == at + |prefix| && w.Xor(i) == w.Out(i) - 16
    requires at + |prefix| <= w.In(i) || w.In(i) + 16 <= at
    ensures Step(cipher, Written(m, at, prefix), w, i)
         == Written(m, at, prefix + cipher(XorSeq(BlockAt(m, w.In(i)), prefix[|prefix| - 16..])))
  {
    hide Written, XorSeq;
    var last: Block := prefix[|prefix| - 16..];
    WrittenAside(m, at, prefix, w.In(i), 16);
    EndOfWritten(m, at, prefix, w.Xor(i), last);
    WrittenTwice(m, at, prefix, cipher(XorSeq(BlockAt(m, w.In(i)), last)));
  }

  lemma EndOfWritten(m: seq<byte>, at: nat, prefix: seq<byte>, from: nat, last: Block)
    requires at + |prefix| <= |m| && 16 <= |prefix| && from + 16 == at + |prefix|
    requires last == prefix[|prefix| - 16..]
    ensures Written(m, at, prefix)[from..from + 16] == last
  {
  }

  lemma LastStored(iv: Block, m: seq<byte>, at: nat, c: seq<byte>)
    requires at + |c| <= |m| && |c| % 16 == 0 && c != []
    ensures Written(m, at, c)[at + |c| - 16..at + |c|] == LastBlock(iv, c)
  {
    EndOfWritten(m, at, c, at + |c| - 16, c[|c| - 16..]);
  }

  lemma {:induction false} EncryptsForwards(cipher: Block -> Block, iv: Block, m: seq<byte>, inAt: int, outAt: int,
                                            n: nat, j: nat)
    requires j < n && Region(|m|, inAt, 16 * n) && Region(|m|, outAt, 16 * n) && NotAhead(inAt, outAt, 16 * n)
    requires Fits(|m|, EncryptionWalk(inAt, outAt, 16 * n - 16), j)
    ensures Serial(cipher, Written(m, outAt, CbcEncrypted(cipher, iv, m[inAt..inAt + 16])),
                   EncryptionWalk(inAt, outAt, 16 * n - 16), 0, j)
         == Written(m, outAt, CbcEncrypted(cipher, iv, m[inAt..inAt + 16 * j + 16]))
  {
    hide Written, Step, XorSeq, CbcEncrypted;
    if j > 0 {
      var w := EncryptionWalk(inAt, outAt, 16 * n - 16);
      EncryptsForwards(cipher, iv, m, inAt, outAt, n, j - 1);
      var plain, block := m[inAt..inAt + 16 * j], m[inAt + 16 * j..inAt + 16 * j + 16];
      assert plain + block == m[inAt..inAt + 16 * j + 16];
      assert FitsAt(|m|, w, j - 1);
      assert w.In(j - 1) == inAt + 16 * j && w.Xor(j - 1) == outAt + 16 * j - 16 && w.Out(j - 1) == outAt + 16 * j;
      StepBehind(cipher, m, w, j - 1, outAt, CbcEncrypted(cipher, iv, plain));
      EncryptsNext(cipher, iv, plain, block);
    }
  }

  class CbcEncryption {
    const cipher: Block -> Block
    var register: Block

    constructor (c: Block -> Block, iv: Block)
      ensures cipher == c && register == iv
    {
      cipher, register := c, iv;
    }

    /** The first block is chained to the register, which is not part of the memory. */
    method ProcessData(mem: array<byte>, outAt: int, inAt: int, length: nat)
      requires length % 16 == 0
      requires Region(mem.Length, inAt, length) && Region(mem.Length, outAt, length) && NotAhead(inAt, outAt, length)
      modifies `register, mem
      ensures mem[..] == Written(old(mem[..]), outAt,
                                 CbcEncrypted(cipher, old(register), old(mem[inAt..inAt + length])))
      ensures register == LastBlock(old(register), CbcEncrypted(cipher, old(register), old(mem[inAt..inAt + length])))
    {
      hide Written, CbcEncrypted, XorSeq, LastBlock;
      ghost var m := mem[..];
      ghost var c := CbcEncrypted(cipher, register, m[inAt..inAt + length]);
      if length == 0 {
        NothingEncrypted(cipher, register);
        LastOfAppended(register, [], []);
        NothingWritten(m, outAt);
        return;
      }
      EncipherFirst(mem, outAt, inAt);
      if length > 16 { EncipherRest(mem, outAt, inAt, length, m); }
      LastStored(register, m, outAt, c);
      register := mem[outAt + length - 16..outAt + length];
    }

    method EncipherFirst(mem: array<byte>, outAt: int, inAt: int)
      requires Region(mem.Length, inAt, 16) && Region(mem.Length, outAt, 16)
      modifies mem
      ensures mem[..] == Written(old(mem[..]), outAt, CbcEncrypted(cipher, register, old(mem[inAt..inAt + 16])))
    {
      hide Written, CbcEncrypted, XorSeq;
      OneEncrypted(cipher, register, mem[inAt..inAt + 16]);
      Store(mem, outAt, cipher(XorSeq(mem[inAt..inAt + 16], register)));
    }

    method EncipherRest(mem: array<byte>, outAt: int, inAt: int, length: nat, ghost m: seq<byte>)
      requires length % 16 == 0 && length > 16 && |m| == mem.Length
      requires Region(mem.Length, inAt, length) && Region(mem.Length, outAt, length) && NotAhead(inAt, outAt, length)
      requires mem[..] == Written(m, outAt, CbcEncrypted(cipher, register, m[inAt..inAt + 16]))
      modifies mem
      ensures mem[..] == Written(m, outAt, CbcEncrypted(cipher, register, m[inAt..inAt + length]))
    {
      hide Written, Serial, Batched, Step, Fits, CbcEncrypted;
      ghost var n := length / 16;
      EncryptionWalkFits(mem.Length, inAt, outAt, n);
      EncryptsForwards(cipher, register, m, inAt, outAt, n, n - 1);
      BatchedIsSerial(cipher, mem[..], EncryptionWalk(inAt, outAt, length - 16), 0, n - 1, false);
      var left := AdvancedProcessBlocks(cipher, mem, inAt + 16, outAt, true, outAt + 16, length - 16,
                                        Flags(false, false, true, false, false));
    }
  }

  /** What one object enciphers in place in two pieces, another deciphers in place in one. */
  method EncryptThenDecrypt(e: CbcEncryption, d: CbcDecryption, mem: array<byte>, at: int, first: nat, second: nat)
    requires forall b: Block :: d.decipher(e.cipher(b)) == b
    requires e.register == d.register
    requires first % 16 == 0 && second % 16 == 0 && Region(mem.Length, at, first + second)
    modifies e, d, mem
    ensures mem[..] == old(mem[..])
    ensures e.register == d.register
  {
    hide Written, CbcEncrypted, CbcDecrypted, LastBlock;
    ghost var m, iv := mem[..], e.register;
    ghost var a, b := m[at..at + first], m[at + first..at + first + second];
    ghost var c := CbcEncrypted(e.cipher, iv, a);
    e.ProcessData(mem, at, at, first);
    WrittenAside(m, at, c, at + first, second);
    ghost var c2 := CbcEncrypted(e.cipher, e.register, b);
    e.ProcessData(mem, at + first, at + first, second);
    WrittenTwice(m, at, c, c2);
    CbcEncryptedConcat(e.cipher, iv, a, b);
    WrittenBack(m, at, c + c2);
    LastOfBoth(iv, c, c2);
    d.ProcessData(mem, at, at, first + second);
    SliceSum(m, at, first, second);
    CbcRoundTrip(e.cipher, d.decipher, iv, a + b);
    Rewritten(m, at, c + c2, a + b);
  }

  lemma SliceSum(m: seq<byte>, at: nat, j: nat, k: nat)
    requires at + j + k <= |m|
    ensures m[at..at + j + k] == m[at..at + j] + m[at + j..at + j + k]
  {
  }

  lemma WrittenBack(m: seq<byte>, at: nat, data: seq<byte>)
    requires at + |data| <= |m|
    ensures Written(m, at, data)[at..at + |data|] == data
  {
  }

  lemma Rewritten(m: seq<byte>, at: nat, data: seq<byte>, was: seq<byte>)
    requires at + |data| <= |m| && |was| == |data| && m[at..at + |data|] == was
    ensures Written(Written(m, at, data), at, was) == m
  {
  }

  lemma LastOfBoth(iv: Block, c: seq<byte>, c2: seq<byte>)
    requires |c| % 16 == 0 && |c2| % 16 == 0
    ensures LastBlock(iv, c + c2) == LastBlock(LastBlock(iv, c), c2)
  {
  }

  // ---- chaining into one block that stays where it is ----

  function ChainingWalk(at: int, from: int, length: nat, parallel: bool): Walk {
    WalkOf(at, from, true, at, length, Flags(false, true, true, false, parallel))
  }

  /** With still input and output pointers a run absorbs the data into the block, as CCM wants it. */
  lemma {:induction false} ChainingRun(cipher: Block -> Block, m: seq<byte>, at: int, from: int, length: nat, j: nat)
    requires 16 * j <= length && Region(|m|, at, 16) && Region(|m|, from, 16 * j)
    requires at + 16 <= from || from + 16 * j <= at
    requires Fits(|m|, ChainingWalk(at, from, length, false), j)
    ensures Serial(cipher, m, ChainingWalk(at, from, length, false), 0, j)
         == Written(m, at, Absorb(cipher, m[at..at + 16], m[from..from + 16 * j]))
  {
    hide Written, Absorb, XorSeq, BlockAt;
    if j == 0 {
      NothingChained(cipher, m, at, from);
    } else {
      var w := ChainingWalk(at, from, length, false);
      ChainingRun(cipher, m, at, from, length, j - 1);
      assert FitsAt(|m|, w, j - 1);
      ChainingWalkAt(at, from, length, j - 1);
      hide Fits, ChainingWalk;
      ChainStep(cipher, m, w, j - 1, at, Absorb(cipher, m[at..at + 16], m[from..from + 16 * j - 16]));
      AbsorbSlice(cipher, m[at..at + 16], m, from, j);
    }
  }

  lemma NothingChained(cipher: Block -> Block, m: seq<byte>, at: int, from: int)
    requires Region(|m|, at, 16) && Region(|m|, from, 0)
    ensures m == Written(m, at, Absorb(cipher, m[at..at + 16], m[from..from]))
  {
    assert m[from..from] == [];
    AbsorbNothing(cipher, m[at..at + 16]);
    WrittenAgain(m, at);
  }

  lemma AbsorbSlice(cipher: Block -> Block, start: Block, m: seq<byte>, from: int, j: nat)
    requires 0 < j && Region(|m|, from, 16 * j)
    ensures Absorb(cipher, start, m[from..from + 16 * j])
         == cipher(XorSeq(Absorb(cipher, start, m[from..from + 16 * j - 16]), BlockAt(m, from + 16 * j - 16)))
  {
    hide Absorb, XorSeq;
    AbsorbBlock(cipher, start, m[from..from + 16 * j - 16], BlockAt(m, from + 16 * j - 16));
    assert m[from..from + 16 * j] == m[from..from + 16 * j - 16] + BlockAt(m, from + 16 * j - 16);
  }

  lemma ChainingWalkAt(at: int, from: int, length: nat, i: nat)
    ensures var w := ChainingWalk(at, from, length, false);
      w.In(i) == w.Out(i) == at && w.Xor(i) == from + 16 * i && w.operand.Input? && !w.counter
  {
  }

  /** One block chained to what the output block holds. */
  lemma ChainStep(cipher: Block -> Block, m: seq<byte>, w: Walk, i: nat, at: nat, acc: Block)
    requires FitsAt(|m|, w, i) && w.operand.Input? && !w.counter && w.In(i) == w.Out(i) == at
    requires Apart(at, w.Xor(i))
    ensures Step(cipher, Written(m, at, acc), w, i) == Written(m, at, cipher(XorSeq(acc, BlockAt(m, w.Xor(i)))))
  {
    hide Written, XorSeq;
    WrittenBack(m, at, acc);
    WrittenAside(m, at, acc, w.Xor(i), 16);
    Overwritten(m, at, acc, cipher(XorSeq(acc, BlockAt(m, w.Xor(i)))));
  }

  lemma WrittenAgain(m: seq<byte>, at: nat)
    requires at + 16 <= |m|
    ensures Written(m, at, m[at..at + 16]) == m
  {
  }

  lemma Overwritten(m: seq<byte>, at: nat, a: seq<byte>, b: seq<byte>)
    requires at + |a| <= |m| && |b| == |a|
    ensures Written(Written(m, at, a), at, b) == Written(m, at, b)
  {
  }

  lemma ChainingFits(size: nat, at: int, from: int, length: nat, n: nat)
    requires Region(size, at, 16) && Region(size, from, 16 * n)
    ensures Fits(size, ChainingWalk(at, from, length, true), n)
    ensures forall i: nat :: i < n ==> FitsAt(size, ChainingWalk(at, from, length, true), i)
  {
  }

  lemma ChainedResult(cipher: Block -> Block, m: seq<byte>, at: int, from: int, length: nat, t: nat)
    requires Region(|m|, at, 16) && Region(|m|, from, 32) && t < 2
    ensures FitsAt(|m|, ChainingWalk(at, from, length, true), t)
    ensures BatchResult(cipher, m, ChainingWalk(at, from, length, true), 0, 2, t)
         == cipher(XorSeq(m[at..at + 16], m[from + 16 * t..from + 16 * t + 16]))
  {
    hide XorSeq;
  }

  lemma TwoStored(cipher: Block -> Block, m: seq<byte>, w: Walk, at: nat, a: Block, b: Block)
    requires Fits(|m|, w, 2) && FitsAt(|m|, w, 0) && FitsAt(|m|, w, 1) && !w.counter && at + 16 <= |m|
    requires w.Out(0) == w.Out(1) == at
    requires a == BatchResult(cipher, m, w, 0, 2, 0) && b == BatchResult(cipher, m, w, 0, 2, 1)
    ensures Stored(cipher, m, w, 0, 2, 2) == Written(m, at, b)
  {
    hide Written, BatchResult, Fits;
    assert Stored(cipher, m, w, 0, 2, 0) == m;
    assert Stored(cipher, m, w, 0, 2, 1) == Written(m, at, a);
    Overwritten(m, at, a, b);
  }

  /** Two blocks as one batch: both are mixed with the chained block before either is stored. */
  lemma ChainedPair(cipher: Block -> Block, m: seq<byte>, at: int, from: int, length: nat)
    requires Region(|m|, at, 16) && Region(|m|, from, 32)
    ensures Fits(|m|, ChainingWalk(at, from, length, true), 2)
    ensures Batched(cipher, m, ChainingWalk(at, from, length, true), 0, 2, true)
         == Written(m, at, cipher(XorSeq(m[at..at + 16], m[from + 16..from + 32])))
  {
    hide Written, XorSeq, Stored, Batched, BatchResult;
    var w := ChainingWalk(at, from, length, true);
    ChainingFits(|m|, at, from, length, 2);
    ChainedResult(cipher, m, at, from, length, 0);
    ChainedResult(cipher, m, at, from, length, 1);
    BatchNext(cipher, m, w, 0, 2, 2, true);
    NoneLeft(cipher, Stored(cipher, m, w, 0, 2, 2), w, 2, true);
    TwoStored(cipher, m, w, at, BatchResult(cipher, m, w, 0, 2, 0), BatchResult(cipher, m, w, 0, 2, 1));
  }

  lemma ChainedSerially(cipher: Block -> Block, m: seq<byte>, at: int, from: int, length: nat)
    requires length >= 32 && Region(|m|, at, 16) && Region(|m|, from, 32) && (at + 16 <= from || from + 32 <= at)
    ensures Fits(|m|, ChainingWalk(at, from, length, true), 2)
    ensures Serial(cipher, m, ChainingWalk(at, from, length, true), 0, 2)
         == Written(m, at, cipher(XorSeq(cipher(XorSeq(m[at..at + 16], m[from..from + 16])), m[from + 16..from + 32])))
  {
    hide Written, XorSeq, Absorb, Serial, ChainingWalk, Fits;
    ChainingFits(|m|, at, from, length, 2);
    SameWalk(at, from, length);
    ChainingRun(cipher, m, at, from, length, 2);
    AbsorbTwo(cipher, m[at..at + 16], m, from);
  }

  lemma SameWalk(at: int, from: int, length: nat)
    ensures ChainingWalk(at, from, length, true) == ChainingWalk(at, from, length, false)
  {
  }

  lemma AbsorbTwo(cipher: Block -> Block, start: Block, m: seq<byte>, from: int)
    requires Region(|m|, from, 32)
    ensures Absorb(cipher, start, m[from..from + 32])
         == cipher(XorSeq(cipher(XorSeq(start, m[from..from + 16])), m[from + 16..from + 32]))
  {
    hide Absorb, XorSeq;
    AbsorbSlice(cipher, start, m, from, 2);
    AbsorbSlice(cipher, start, m, from, 1);
    assert m[from..from] == [];
    AbsorbNothing(cipher, start);
  }

  lemma SameWritten(m: seq<byte>, at: nat, a: Block, b: Block)
    requires at + 16 <= |m|
    ensures Written(m, at, a) == Written(m, at, b) <==> a == b
  {
    WrittenBack(m, at, a);
    WrittenBack(m, at, b);
  }

  /**
   * Done in a batch of two, such a run leaves what it leaves block by block only if the cipher
   * happens to turn the first block back into what it was chained to.
   */
  lemma ChainingNeedsSerial(cipher: Block -> Block, m: seq<byte>, at: int, from: int, length: nat)
    requires length >= 32 && Region(|m|, at, 16) && Region(|m|, from, 32) && (at + 16 <= from || from + 32 <= at)
    requires Injective(cipher)
    ensures var w := ChainingWalk(at, from, length, true);
      && Fits(|m|, w, 2)
      && (Batched(cipher, m, w, 0, 2, true) == Serial(cipher, m, w, 0, 2)
          <==> cipher(XorSeq(m[at..at + 16], m[from..from + 16])) == m[at..at + 16])
  {
    hide Written, XorSeq, Serial, Batched, Fits, ChainingWalk, Injective;
    ChainedPair(cipher, m, at, from, length);
    ChainedSerially(cipher, m, at, from, length);
    SameAfterMixing(cipher, m, at, m[at..at + 16], cipher(XorSeq(m[at..at + 16], m[from..from + 16])),
                    m[from + 16..from + 32]);
  }

  ghost predicate Injective(cipher: Block -> Block) {
    forall a: Block, b: Block :: cipher(a) == cipher(b) ==> a == b
  }

  lemma SameAfterMixing(cipher: Block -> Block, m: seq<byte>, at: nat, a: Block, b: Block, d: Block)
    requires at + 16 <= |m| && Injective(cipher)
    ensures Written(m, at, cipher(XorSeq(a, d))) == Written(m, at, cipher(XorSeq(b, d))) <==> a == b
  {
    hide Written, XorSeq;
    SameWritten(m, at, cipher(XorSeq(a, d)), cipher(XorSeq(b, d)));
    XorSeqTwice(a, d);
    XorSeqTwice(b, d);
  }

  /** For the cipher that changes nothing, only if the first block is blank. */
  lemma ChainingWithIdentity(m: seq<byte>, at: int, from: int, length: nat)
    requires length >= 32 && Region(|m|, at, 16) && Region(|m|, from, 32) && (at + 16 <= from || from + 32 <= at)
    ensures var w, same := ChainingWalk(at, from, length, true), (b: Block) => b;
      && Fits(|m|, w, 2)
      && (Batched(same, m, w, 0, 2, true) == Serial(same, m, w, 0, 2) <==> m[from..from + 16] == Zeros(16))
  {
    hide XorSeq, Serial, Batched, Fits;
    var acc, d0 := m[at..at + 16], m[from..from + 16];
    ChainingNeedsSerial((b: Block) => b, m, at, from, length);
    MixedWithBlank(acc, d0);
  }

  lemma MixedWithBlank(a: Block, d: Block)
    ensures XorSeq(a, d) == a <==> d == Zeros(16)
  {
    if XorSeq(a, d) == a {
      forall i | 0 <= i < 16 ensures d[i] == 0 {
        assert XorSeq(a, d)[i] == a[i];
        OnlyZeroKeeps(a[i], d[i]);
      }
    } else {
      forall i | 0 <= i < 16 ensures d == Zeros(16) ==> XorSeq(a, d)[i] == a[i] {
        XorZero(a[i]);
      }
    }
  }

  lemma OnlyZeroKeeps(a: byte, d: byte)
    requires Bytes.Xor(a, d) == a
    ensures d == 0
  {
    XorDigitsSymmetric(a, d, 8);
    XorCancels(d, a);
    XorDigitsSymmetric(a, a, 8);
    SelfXor(a, 8);
  }

  lemma {:induction false} SelfXor(a: nat, width: nat)
    ensures XorDigits(a, a, width) == 0
  {
    if width > 0 { SelfXor(a / 2, width - 1); }
  }
}
