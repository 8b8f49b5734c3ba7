/** Externals/CryptoPP/blake2.cpp: buffering, counting and finishing around the compression function. */
module Blake2 {
  import opened Arithmetic
  import opened Bytes
  import opened BitStrings

  type Hash(!new)

  datatype Variant = Blake2s | Blake2b {
    function BlockSize(): (b: nat)
      ensures b > 0
    {
      if Blake2s? then 64 else 128
    }

    function WordSize(): (w: nat)
      ensures w > BlockSize()
    {
      if Blake2s? then 0x1_0000_0000 else 0x1_0000_0000_0000_0000
    }
  }

  /**
   * A variant with its compression function, which takes the byte count in two words and
   * the flags for the last block and the last node, and with its first chaining value.
   */
  datatype Suite = Suite(variant: Variant, compress: (Hash, seq<byte>, (nat, nat), (bool, bool)) -> Hash,
                         initial: Hash, output: Hash -> seq<byte>)

  // ---- section 3.3 of RFC 7693 ----

  /** The byte count in two words. */
  function Count(v: Variant, n: nat): (nat, nat) {
    (n % v.WordSize(), n / v.WordSize() % v.WordSize())
  }

  /** The chaining value after whole blocks, none of them the last. */
  ghost function Chain(s: Suite, data: seq<byte>): Hash
    requires Multiple(|data|, s.variant.BlockSize())
    decreases |data|
  {
    if data == [] then s.initial
    else
      var k := |data| - s.variant.BlockSize();
      s.compress(Chain(s, data[..k]), data[k..], Count(s.variant, |data|), (false, false))
  }

  /** Where the last block starts: it is never empty unless the data is. */
  function LastStart(n: nat, b: nat): (k: nat)
    requires b > 0
    ensures k <= n && n - k <= b && (n > 0 ==> k < n) && Multiple(k, b)
  {
    if n <= b then 0 else b + LastStart(n - b, b)
  }

  function Padded(data: seq<byte>, b: nat): (r: seq<byte>)
    requires |data| <= b
    ensures |r| == b
  {
    data + seq(b - |data|, _ => 0)
  }

  ghost function Digest(s: Suite, lastNode: bool, data: seq<byte>): Hash {
    var b := s.variant.BlockSize();
    var k := LastStart(|data|, b);
    s.compress(Chain(s, data[..k]), Padded(data[k..], b), Count(s.variant, |data|), (true, lastNode))
  }

  /** A key counts as a first block of data, padded with zeros. */
  function KeyBlock(v: Variant, key: seq<byte>): seq<byte>
    requires |key| <= v.BlockSize()
  {
    if key == [] then [] else Padded(key, v.BlockSize())
  }

  // ---- laws ----

  lemma {:induction false} LastStartAfter(k: nat, r: nat, b: nat)
    requires 0 < b && Multiple(k, b) && 0 < r <= b
    ensures LastStart(k + r, b) == k
  {
    if k > 0 { LastStartAfter(k - b, r, b); }
  }

  lemma {:induction false} NextMultiple(k: nat, b: nat)
    requires 0 < b && Multiple(k, b)
    ensures Multiple(k + b, b)
  {
  }

  lemma ChainNext(s: Suite, data: seq<byte>, block: seq<byte>)
    requires Multiple(|data|, s.variant.BlockSize()) && |block| == s.variant.BlockSize()
    ensures Multiple(|data + block|, s.variant.BlockSize())
    ensures Chain(s, data + block) == s.compress(Chain(s, data), block, Count(s.variant, |data| + |block|),
                                                 (false, false))
  {
    assert (data + block)[..|data|] == data && (data + block)[|data|..] == block;
  }

  lemma {:induction false} MultipleOf(i: nat, b: nat)
    requires 0 < b
    ensures Multiple(i * b, b)
  {
    if i == 0 {
      assert 0 * b == 0;
    } else {
      MultipleOf(i - 1, b);
      Distribute(b, i, 1);
      assert i * b - b == (i - 1) * b && i * b >= b;
    }
  }

  /** The parameters b and w of section 2.1 of RFC 7693: bytes in a block, and 2 to the bits in a word. */
  predicate Sizes(v: Variant, b: nat, w: nat) {
    if v.Blake2s? then b == 64 && w == 0x1_0000_0000 else b == 128 && w == 0x1_0000_0000_0000_0000
  }

  /** Block i, which is not the last, enters with the number of bytes up to its end and without a flag. */
  lemma ChainBlock(s: Suite, data: seq<byte>, i: nat, k: nat, b: nat, w: nat)
    requires Sizes(s.variant, b, w) && k == i * b && |data| == k + b
    ensures Multiple(|data|, s.variant.BlockSize()) && Multiple(k, s.variant.BlockSize())
    ensures Chain(s, data) == s.compress(Chain(s, data[..k]), data[k..], (|data| % w, |data| / w % w), (false, false))
  {
    MultipleOf(i, b);
    NextMultiple(k, b);
    hide Multiple;
  }

  /**
   * The last block is filled up with zeros; it enters with the number of all bytes and with the flag
   * for the last block, and that for the last node if it is asked for.
   */
  lemma LastBlockIs(s: Suite, lastNode: bool, data: seq<byte>, i: nat, k: nat, last: seq<byte>, b: nat, w: nat)
    requires Sizes(s.variant, b, w) && k == i * b && k <= |data| <= k + b && (|data| == k ==> k == 0)
    requires |last| == b && forall j :: 0 <= j < b ==> last[j] == if k + j < |data| then data[k + j] else 0
    ensures Multiple(k, s.variant.BlockSize())
    ensures Digest(s, lastNode, data)
         == s.compress(Chain(s, data[..k]), last, (|data| % w, |data| / w % w), (true, lastNode))
  {
    MultipleOf(i, b);
    LastStartIs(|data|, k, b);
    hide Chain, Multiple, LastStart;
    PaddedIs(data[k..], last, b);
  }

  lemma LastStartIs(n: nat, k: nat, b: nat)
    requires 0 < b && Multiple(k, b) && k <= n <= k + b && (n == k ==> k == 0)
    ensures LastStart(n, b) == k
  {
    if n > k { LastStartAfter(k, n - k, b); }
  }

  lemma PaddedIs(data: seq<byte>, last: seq<byte>, b: nat)
    requires |data| <= b == |last| && forall j :: 0 <= j < b ==> last[j] == if j < |data| then data[j] else 0
    ensures last == Padded(data, b)
  {
  }

  /** A key is a block of its own, filled up with zeros. */
  lemma KeyBlockIs(v: Variant, key: seq<byte>, b: nat, w: nat)
    requires Sizes(v, b, w) && |key| <= b
    ensures |KeyBlock(v, key)| == if key == [] then 0 else b
    ensures key != [] ==> forall j :: 0 <= j < b ==> KeyBlock(v, key)[j] == if j < |key| then key[j] else 0
  {
  }

  /** The second word takes the carry when the first one has wrapped. */
  lemma CountNext(v: Variant, n: nat, count: nat)
    requires count <= v.BlockSize()
    ensures var (t0, t1) := Count(v, n);
      var t0' := (t0 + count) % v.WordSize();
      Count(v, n + count) == (t0', (t1 + if t0' < count then 1 else 0) % v.WordSize())
  {
    CarryDigits(n, count, v.WordSize());
  }

  /** A number written with two digits to the base m, when less than m is added. */
  lemma CarryDigits(n: nat, count: nat, m: nat)
    requires count < m
    ensures var t0 := (n % m + count) % m;
      && (n + count) % m == t0
      && (n + count) / m % m == (n / m % m + if t0 < count then 1 else 0) % m
  {
    var q, r := n / m, n % m;
    if r + count < m {
      Divided(r + count, m, 0, r + count);
      Divided(n + count, m, q, r + count);
      Divided(q % m, m, 0, q % m);
    } else {
      Distribute(m, q, 1);
      Divided(r + count, m, 1, r + count - m);
      Divided(n + count, m, q + 1, r + count - m);
      RemainderAdds(q, 1, m);
    }
  }

  lemma Slice(fed: seq<byte>, from: nat, input: seq<byte>, i: nat, j: nat)
    requires from <= |fed| && input == fed[from..] && i <= j <= |input|
    ensures fed[from + i..from + j] == input[i..j]
  {
  }

  class Blake2Hash {
    const suite: Suite
    const key: seq<byte>
    const digestSize: nat
    const treeMode: bool
    var h: Hash
    var t0: nat
    var t1: nat
    var f: (bool, bool)
    const buf: array<byte>
    var len: nat
    /** What has been fed since the restart, the key block included. */
    ghost var fed: seq<byte>

    ghost predicate Configured() {
      && buf.Length == suite.variant.BlockSize() && |key| <= buf.Length
      && forall hash :: digestSize <= |suite.output(hash)|
    }

    /** The blocks before `done` are compressed and counted. */
    ghost predicate Chained(done: nat)
      requires Configured()
      reads this
    {
      && done <= |fed| && Multiple(done, buf.Length)
      && h == Chain(suite, fed[..done]) && (t0, t1) == Count(suite.variant, done) && f == (false, false)
    }

    /** The last block waits in the buffer even when it is complete. */
    ghost predicate Valid()
      reads this, buf
    {
      && Configured() && len <= buf.Length && len <= |fed| && (fed != [] ==> 0 < len)
      && Chained(|fed| - len) && buf[..len] == fed[|fed| - len..]
    }

    constructor (s: Suite, k: seq<byte>, size: nat, tree: bool)
      requires |k| <= s.variant.BlockSize() && forall hash :: size <= |s.output(hash)|
      ensures Valid() && fresh(buf) && suite == s && key == k && digestSize == size && treeMode == tree
      ensures fed == KeyBlock(s.variant, k)
    {
      suite, key, digestSize, treeMode := s, k, size, tree;
      h, t0, t1, f, len, fed := s.initial, 0, 0, (false, false), 0, [];
      buf := new byte[s.variant.BlockSize()];
      new;
      Restart();
    }

    method Restart()
      requires Configured()
      modifies this, buf
      ensures Valid() && fed == KeyBlock(suite.variant, key)
      ensures h == suite.initial && t0 == t1 == 0 && f == (false, false) && len == |KeyBlock(suite.variant, key)|
    {
      hide Blake2Hash.Chained, Padded, Multiple, Chain, Count;
      h, t0, t1, f, len, fed := suite.initial, 0, 0, (false, false), 0, [];
      NothingChained();
      assert buf[..0] == [] == fed[0..];
      if key != [] {
        ghost var block := Padded(key, buf.Length);
        assert [] + block == block;
        Update(Padded(key, buf.Length));
        OneBlockWaits();
      }
    }

    /** A single block is not compressed before it is known not to be the last. */
    lemma OneBlockWaits()
      requires Valid() && |fed| == buf.Length
      ensures len == |fed|
    {
      hide Chain, Count;
    }

    lemma NothingChained()
      requires Configured() && fed == [] && h == suite.initial && t0 == t1 == 0 && f == (false, false)
      ensures Chained(0)
    {
    }

    method IncrementCounter(count: nat, ghost n: nat)
      requires count <= suite.variant.BlockSize() && (t0, t1) == Count(suite.variant, n)
      modifies `t0, `t1
      ensures (t0, t1) == Count(suite.variant, n + count)
    {
      CountNext(suite.variant, n, count);
      t0 := (t0 + count) % suite.variant.WordSize();
      t1 := (t1 + if t0 < count then 1 else 0) % suite.variant.WordSize();
    }

    method CompressBlock(block: seq<byte>, ghost done: nat)
      requires Configured() && Chained(done) && done + buf.Length <= |fed| && block == fed[done..done + buf.Length]
      modifies `h, `t0, `t1
      ensures Chained(done + buf.Length)
    {
      hide Chain, Count;
      IncrementCounter(buf.Length, done);
      NextMultiple(done, buf.Length);
      ChainNext(suite, fed[..done], block);
      assert fed[..done] + block == fed[..done + buf.Length];
      h := suite.compress(h, block, (t0, t1), f);
    }

    method Update(input: seq<byte>)
      requires Valid()
      modifies this, buf
      ensures Valid() && fed == old(fed) + input
      ensures old(fed) == [] && |input| <= buf.Length ==> h == old(h) && t0 == old(t0) && t1 == old(t1)
      ensures f == (false, false)
    {
      hide Chain, Count, Multiple, Blake2Hash.Chained, Blake2Hash.Configured;
      var at: nat := 0;
      ghost var done := |fed| - len;
      Announce(input);
      if |input| > buf.Length - len {
        at := CompressAllButLast(input, done);
        done := |fed| - (|input| - at);
      }
      if |input| - at != 0 {
        KeepTail(input[at..], done);
      } else {
        assert fed == old(fed);
      }
    }

    /** The bytes about to be fed; nothing has been compressed or copied yet. */
    ghost method Announce(input: seq<byte>)
      requires Valid()
      modifies `fed
      ensures fed == old(fed) + input && Configured() && len <= buf.Length && len <= |old(fed)|
      ensures (old(fed) != [] ==> 0 < len) && f == (false, false)
      ensures var done := |old(fed)| - len;
        Chained(done) && buf[..len] == fed[done..done + len] && input == fed[done + len..]
    {
      hide Chain, Count, Multiple;
      ghost var was := fed[..|fed| - len];
      fed := fed + input;
      assert fed[..|was|] == was;
    }

    method KeepTail(tail: seq<byte>, ghost done: nat)
      requires Configured() && Chained(done) && len + |tail| <= buf.Length && done + len + |tail| == |fed|
      requires tail != [] && buf[..len] == fed[done..done + len] && tail == fed[done + len..]
      modifies `len, buf
      ensures Valid()
    {
      hide Chain, Count, Multiple;
      Slice(fed, done + len, tail, 0, |tail|);
      assert tail[0..|tail|] == tail;
      Fill(tail, done);
      len := len + |tail|;
      assert fed[done..done + len] == fed[done..];
    }

    /** Compresses what is waiting and all blocks of the input that are not the last. */
    method CompressAllButLast(input: seq<byte>, ghost done: nat) returns (at: nat)
      requires Configured() && Chained(done) && len <= buf.Length && done + len + |input| == |fed|
      requires (done + len > 0 ==> 0 < len) && |input| > buf.Length - len
      requires buf[..len] == fed[done..done + len] && input == fed[done + len..]
      modifies `h, `t0, `t1, `len, buf
      ensures len == 0 && at < |input| && |input| - at <= buf.Length && Chained(|fed| - (|input| - at))
    {
      hide Chain, Count, Multiple;
      var b := buf.Length;
      ghost var from, n := done + len, done;
      at := 0;
      if len != 0 {
        at := b - len;
        Slice(fed, from, input, 0, at);
        Fill(input[..at], done);
        assert buf[..] == fed[done..done + b];
        CompressBlock(buf[..], done);
        n := done + b;
        len := 0;
      }
      while |input| - at > b
        invariant at < |input| && n == from + at && len == 0 && Chained(n)
        decreases |input| - at
      {
        Slice(fed, from, input, at, at + b);
        CompressBlock(input[at..at + b], n);
        n := n + b;
        at := at + b;
      }
    }

    /** Copies bytes behind those in the buffer. */
    method Fill(data: seq<byte>, ghost done: nat)
      requires len + |data| <= buf.Length && done + len + |data| <= |fed|
      requires buf[..len] == fed[done..done + len] && data == fed[done + len..done + len + |data|]
      modifies buf
      ensures buf[..len + |data|] == fed[done..done + len + |data|]
    {
      forall i | 0 <= i < |data| { buf[len + i] := data[i]; }
      assert fed[done..done + len + |data|] == fed[done..done + len] + data;
      assert buf[..len + |data|] == buf[..len] + data;
    }

    /** The digest of everything fed, and a fresh start; fails if more is asked for than the digest has. */
    method TruncatedFinal(size: nat) returns (ok: bool, hash: seq<byte>)
      requires Valid()
      modifies this, buf
      ensures ok <==> size <= digestSize
      ensures !ok ==> unchanged(this, buf)
      ensures ok ==> hash == suite.output(Digest(suite, treeMode, old(fed)))[..size]
      ensures ok ==> Valid() && fed == KeyBlock(suite.variant, key)
      ensures ok ==> h == suite.initial && t0 == t1 == 0 && f == (false, false) && len == |fed|
    {
      hide Blake2Hash.Valid, Blake2Hash.Configured, Digest, KeyBlock;
      ok, hash := size <= digestSize, [];
      if !ok { return; }
      Finish();
      HasDigest();
      hash := suite.output(h)[..size];
      Restart();
    }

    lemma HasDigest()
      requires Configured()
      ensures digestSize <= |suite.output(h)|
    {
    }

    method Finish()
      requires Valid()
      modifies `h, `t0, `t1, `f, buf
      ensures Configured() && h == Digest(suite, treeMode, fed)
    {
      hide Chain, Count, Multiple, Digest;
      f := (true, f.1);
      if treeMode { f := (true, true); }
      FinishBlock();
    }

    method FinishBlock()
      requires Configured() && len <= buf.Length && len <= |fed| && (fed != [] ==> 0 < len)
      requires Multiple(|fed| - len, buf.Length) && f == (true, treeMode)
      requires h == Chain(suite, fed[..|fed| - len]) && (t0, t1) == Count(suite.variant, |fed| - len)
      requires buf[..len] == fed[|fed| - len..]
      modifies `h, `t0, `t1, buf
      ensures h == Digest(suite, treeMode, fed)
    {
      hide Chain, Count, Multiple;
      ghost var k := |fed| - len;
      if len > 0 { LastStartAfter(k, len, buf.Length); }
      IncrementCounter(len, k);
      forall i | len <= i < buf.Length { buf[i] := 0; }
      assert buf[..] == Padded(fed[k..], buf.Length);
      h := suite.compress(h, buf[..], (t0, t1), f);
    }
  }

  /** The digest does not depend on how the message is split, and the object can start over with the next. */
  method HashPieces(hasher: Blake2Hash, pieces: seq<seq<byte>>, size: nat) returns (hash: seq<byte>)
    requires hasher.Valid() && hasher.fed == KeyBlock(hasher.suite.variant, hasher.key) && size <= hasher.digestSize
    modifies hasher, hasher.buf
    ensures hasher.Valid() && hasher.fed == KeyBlock(hasher.suite.variant, hasher.key)
    ensures var data := KeyBlock(hasher.suite.variant, hasher.key) + Flatten(pieces);
      hash == hasher.suite.output(Digest(hasher.suite, hasher.treeMode, data))[..size]
  {
    hide Blake2Hash.Valid, Digest, KeyBlock;
    ghost var first := hasher.fed;
    assert first + Flatten(pieces[..0]) == first;
    for i := 0 to |pieces|
      invariant hasher.Valid() && hasher.fed == first + Flatten(pieces[..i])
    {
      FlattenNext(pieces, i);
      assert first + Flatten(pieces[..i]) + pieces[i] == first + (Flatten(pieces[..i]) + pieces[i]);
      hasher.Update(pieces[i]);
    }
    assert pieces[..|pieces|] == pieces;
    var ok;
    ok, hash := hasher.TruncatedFinal(size);
  }
}
