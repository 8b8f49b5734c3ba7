/** Block chaining as a function of the byte sequence, and memory operations on byte arrays. */
module CbcMac {
  import opened Arithmetic
  import opened Bytes

  type Block = s: seq<byte> | |s| == 16 witness seq(16, _ => 0)

  /** The exclusive or of two sequences of the same length. */
  function XorSeq(a: seq<byte>, b: seq<byte>): (r: seq<byte>)
    requires |a| == |b|
    ensures |r| == |a|
  {
    seq(|a|, i requires 0 <= i < |a| => Xor(a[i], b[i]))
  }

  function Zeros(n: nat): (r: seq<byte>)
    ensures |r| == n
  {
    seq(n, _ => 0)
  }

  /** Chains whole blocks of data onto acc. */
  ghost function Absorb(cipher: Block -> Block, acc: Block, data: seq<byte>): Block
    requires |data| % 16 == 0
  {
    if data == [] then acc
    else
      var n := |data| - 16;
      cipher(XorSeq(Absorb(cipher, acc, data[..n]), data[n..]))
  }

  lemma AbsorbNothing(cipher: Block -> Block, acc: Block)
    ensures Absorb(cipher, acc, []) == acc
  {
  }

  lemma AbsorbBlock(cipher: Block -> Block, acc: Block, data: seq<byte>, block: Block)
    requires |data| % 16 == 0
    ensures Absorb(cipher, acc, data + block) == cipher(XorSeq(Absorb(cipher, acc, data), block))
  {
    assert (data + block)[..|data|] == data && (data + block)[|data|..] == block;
  }

  lemma {:induction false} AbsorbConcat(cipher: Block -> Block, acc: Block, a: seq<byte>, b: seq<byte>)
    requires |a| % 16 == 0 && |b| % 16 == 0
    ensures Absorb(cipher, acc, a + b) == Absorb(cipher, Absorb(cipher, acc, a), b)
  {
    hide Absorb, XorSeq;
    if b == [] {
      AbsorbNothing(cipher, Absorb(cipher, acc, a));
      assert a + b == a;
    } else {
      var n := |b| - 16;
      AbsorbConcat(cipher, acc, a, b[..n]);
      assert a + b == (a + b[..n]) + b[n..];
      AbsorbBlock(cipher, acc, a + b[..n], b[n..]);
      AbsorbBlock(cipher, Absorb(cipher, acc, a), b[..n], b[n..]);
      assert b == b[..n] + b[n..];
    }
  }

  /** Zero bytes up to a whole number of blocks. */
  function Pad(data: seq<byte>): (r: seq<byte>)
    ensures |r| % 16 == 0
  {
    data + Zeros((16 - |data| % 16) % 16)
  }

  /** Nothing but zeros, and less than a block of them, comes behind the data. */
  lemma PadIs(data: seq<byte>)
    ensures |data| <= |Pad(data)| < |data| + 16 && Pad(data)[..|data|] == data
    ensures forall i :: |data| <= i < |Pad(data)| ==> Pad(data)[i] == 0
  {
  }

  /** The state of a chain that has been fed `fed` since it held `start`: whole blocks are absorbed and
      the rest, less than a block, is waiting. */
  ghost predicate Chained(cipher: Block -> Block, start: Block, fed: seq<byte>, acc: Block, waiting: seq<byte>) {
    && |waiting| == |fed| % 16
    && waiting == fed[|fed| - |waiting|..]
    && acc == Absorb(cipher, start, fed[..|fed| - |waiting|])
  }

  /** Absorbing the whole blocks of the waiting bytes and the new ones leaves a chain fed with both. */
  lemma ChainedExtend(cipher: Block -> Block, start: Block, fed: seq<byte>, acc: Block, waiting: seq<byte>,
                      input: seq<byte>)
    requires Chained(cipher, start, fed, acc, waiting)
    ensures var all := waiting + input;
      var k := |all| - |all| % 16;
      Chained(cipher, start, fed + input, Absorb(cipher, acc, all[..k]), all[k..])
  {
    hide Absorb, XorSeq;
    var all := waiting + input;
    var k := |all| - |all| % 16;
    var whole := fed[..|fed| - |waiting|];
    assert fed + input == whole + all;
    SameRest(|fed|, |waiting|, |input|);
    AbsorbConcat(cipher, start, whole, all[..k]);
    SplitWhole(whole, all, k);
  }

  lemma SameRest(fed: nat, waiting: nat, more: nat)
    requires waiting == fed % 16
    ensures (waiting + more) % 16 == (fed + more) % 16 && (fed - waiting) % 16 == 0
  {
    RemainderAdds(fed, more, 16);
    Divided(fed - waiting, 16, fed / 16, 0);
  }

  lemma SplitWhole(whole: seq<byte>, all: seq<byte>, k: nat)
    requires k <= |all|
    ensures (whole + all)[..|whole| + k] == whole + all[..k]
    ensures (whole + all)[|whole| + k..] == all[k..]
  {
  }

  /** Absorbing the waiting bytes, padded with zeros, completes the chain over the padded input. */
  lemma ChainedFinish(cipher: Block -> Block, start: Block, fed: seq<byte>, acc: Block, waiting: seq<byte>)
    requires Chained(cipher, start, fed, acc, waiting)
    ensures |waiting| == 0 ==> acc == Absorb(cipher, start, Pad(fed))
    ensures |waiting| > 0 ==>
      cipher(XorSeq(acc, waiting + Zeros(16 - |waiting|))) == Absorb(cipher, start, Pad(fed))
  {
    var whole := fed[..|fed| - |waiting|];
    if |waiting| == 0 {
      assert Pad(fed) == fed == whole;
    } else {
      assert Pad(fed) == whole + (waiting + Zeros(16 - |waiting|));
      AbsorbBlock(cipher, start, whole, waiting + Zeros(16 - |waiting|));
    }
  }

  function Written(s: seq<byte>, at: nat, data: seq<byte>): (r: seq<byte>)
    requires at + |data| <= |s|
    ensures |r| == |s|
  {
    s[..at] + data + s[at + |data|..]
  }

  lemma WrittenStep(s: seq<byte>, at: nat, data: seq<byte>, i: nat)
    requires at + |data| <= |s| && i < |data|
    ensures Written(s, at, data[..i + 1]) == Written(s, at, data[..i])[at + i := data[i]]
  {
  }

  lemma WrittenNone(s: seq<byte>, at: nat, data: seq<byte>)
    requires at <= |s|
    ensures Written(s, at, data[..0]) == s
  {
  }

  /** memcpy */
  method Store(a: array<byte>, at: nat, data: seq<byte>)
    requires at + |data| <= a.Length
    modifies a
    ensures a[..] == Written(old(a[..]), at, data)
  {
    hide Written;
    ghost var s := a[..];
    WrittenNone(s, at, data);
    for i := 0 to |data|
      invariant a[..] == Written(s, at, data[..i])
    {
      WrittenStep(s, at, data, i);
      a[at + i] := data[i];
    }
    assert data[..|data|] == data;
  }
}
