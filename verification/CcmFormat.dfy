/**
 * The blocks of CCM as section 2 of RFC 3610 lays them out: every parameter can be read back
 * from its place, and the key stream consists of the enciphered blocks A_0, A_1, ...
 */
module CcmFormat {
  import opened Arithmetic
  import opened Bits
  import opened Bytes
  import opened CbcMac
  import opened Ccm
  import CounterMode

  // ---- powers ----

  lemma {:induction false} PowerOfBytes(n: nat)
    ensures Power256(n) == TwoTo(8 * n)
  {
    if n == 0 {
      assert TwoTo(0) == 1;
    } else {
      PowerOfBytes(n - 1);
      TwoToSum(8, 8 * (n - 1));
      ByteWidth();
      hide TwoTo;
    }
  }

  /** A message is short enough exactly when its length fits into the bytes the nonce leaves. */
  lemma MaxMessageLengthIs(size: nat)
    requires size <= 8
    ensures MaxMessageLength(size) + 1 == Power256(size)
  {
    PowerOfBytes(size);
    assert Power256(4) == 0x1_0000_0000;
    assert Power256(8) == 0x1_0000_0000_0000_0000;
    hide TwoTo, Power256;
  }

  // ---- the first block (section 2.2) ----

  lemma FlagsRead(adata: nat, m: nat, l: nat, flags: nat)
    requires adata <= 1 && m < 8 && l < 8 && flags == 64 * adata + 8 * m + l
    ensures flags % 8 == l && flags / 8 % 8 == m && flags / 64 == adata
  {
  }

  lemma Halved(size: nat)
    requires ValidDigest(size)
    ensures (size - 2) / 2 < 8 && (size - 2) / 2 * 2 + 2 == size
  {
  }

  lemma ThreeParts(x: byte, nonce: seq<byte>, rest: seq<byte>, b: seq<byte>)
    requires b == [x] + nonce + rest
    ensures b[0] == x && b[1..1 + |nonce|] == nonce && b[1 + |nonce|..] == rest
  {
  }

  /** All that the first block tells: sizes, whether there is a header, nonce and message length. */
  lemma FirstBlockReads(nonce: seq<byte>, digestSize: nat, aadLength: nat, messageLength: nat)
    requires ValidNonce(nonce) && ValidDigest(digestSize) && messageLength <= MaxMessageLength(15 - |nonce|)
    ensures var b := FirstBlock(nonce, digestSize, aadLength, messageLength);
      && b[0] % 8 + 1 == 15 - |nonce|
      && b[0] / 8 % 8 * 2 + 2 == digestSize
      && b[0] / 64 == (if aadLength > 0 then 1 else 0)
      && b[1..1 + |nonce|] == nonce
      && Value(b[1 + |nonce|..]) == messageLength
  {
    var l := 15 - |nonce|;
    var flags := Flags(nonce, digestSize, aadLength);
    Halved(digestSize);
    FlagsRead(if aadLength > 0 then 1 else 0, (digestSize - 2) / 2, l - 1, flags);
    hide Flags, BigEndian, MaxMessageLength, Power256, Value;
    MaxMessageLengthIs(l);
    ValueOfBigEndian(messageLength, l);
    ThreeParts(flags, nonce, BigEndian(messageLength, l), FirstBlock(nonce, digestSize, aadLength, messageLength));
  }

  /** Two sets of parameters never share a first block. */
  lemma FirstBlockOnce(nonce: seq<byte>, digestSize: nat, aadLength: nat, messageLength: nat,
                       nonce': seq<byte>, digestSize': nat, aadLength': nat, messageLength': nat)
    requires ValidNonce(nonce) && ValidDigest(digestSize) && messageLength <= MaxMessageLength(15 - |nonce|)
    requires ValidNonce(nonce') && ValidDigest(digestSize') && messageLength' <= MaxMessageLength(15 - |nonce'|)
    requires FirstBlock(nonce, digestSize, aadLength, messageLength)
          == FirstBlock(nonce', digestSize', aadLength', messageLength')
    ensures nonce == nonce' && digestSize == digestSize' && messageLength == messageLength'
    ensures aadLength > 0 <==> aadLength' > 0
  {
    hide FirstBlock, MaxMessageLength, Value;
    FirstBlockReads(nonce, digestSize, aadLength, messageLength);
    FirstBlockReads(nonce', digestSize', aadLength', messageLength');
  }

  // ---- the length of the header (section 2.2) ----

  lemma SmallPowers()
    ensures Power256(2) == 0x1_0000 && Power256(4) == 0x1_0000_0000 && Power256(8) == 0x1_0000_0000_0000_0000
  {
    assert Power256(1) == 256;
    assert Power256(4) == 0x1_0000_0000;
  }

  /** Three forms, told apart by their first two bytes, each with the length behind them. */
  lemma AadPrefixReads(length: nat)
    requires length < 0x1_0000_0000_0000_0000
    ensures var p := AadPrefix(length);
      && (length == 0 ==> p == [])
      && (0 < length < 0xff00 ==> |p| == 2 && p[0] < 0xff && Value(p) == length)
      && (0xff00 <= length < 0x1_0000_0000 ==>
            |p| == 6 && p[0] == 0xff && p[1] == 0xfe && Value(p[2..]) == length)
      && (0x1_0000_0000 <= length ==> |p| == 10 && p[0] == 0xff && p[1] == 0xff && Value(p[2..]) == length)
  {
    hide BigEndian, Power256, Value;
    SmallPowers();
    if length == 0 {
    } else if length < 0xff00 {
      ValueOfBigEndian(length, 2);
      FirstOfTwo(length);
    } else {
      var k := if length < 0x1_0000_0000 then 4 else 8;
      ValueOfBigEndian(length, k);
      assert AadPrefix(length)[2..] == BigEndian(length, k);
    }
  }

  lemma FirstOfTwo(v: nat)
    requires v < 0xff00
    ensures BigEndian(v, 2)[0] < 0xff
  {
    BigEndianAt(v, 2, 0);
    assert Power256(1) == 256;
  }

  // ---- the key stream (section 2.3) ----

  /** A_i: flags with the size of the length only, the nonce and the number i. */
  function KeyBlock(nonce: seq<byte>, i: nat): Block
    requires ValidNonce(nonce)
  {
    [14 - |nonce|] + nonce + BigEndian(i, 15 - |nonce|)
  }

  /** The key stream is that of counter mode, counting modulo 2^128. */
  ghost predicate CountsOn(suite: Suite) {
    forall ctr: Block, pos: nat ::
      suite.keystream(ctr, pos) == suite.cipher(CounterMode.CounterBlock(Value(ctr) + pos / 16))[pos % 16]
  }

  lemma {:induction false} ZerosAreZero(n: nat)
    ensures Value(Zeros(n)) == 0
  {
    if n > 0 {
      ZerosAreZero(n - 1);
      assert Zeros(n)[..n - 1] == Zeros(n - 1);
    }
  }

  /** What the counter block of a nonce holds. */
  lemma CounterBlockReads(nonce: seq<byte>)
    requires ValidNonce(nonce)
    ensures var b := CounterBlock(nonce);
      && b[0] + 1 == 15 - |nonce| && b[1..1 + |nonce|] == nonce && Value(b[1 + |nonce|..]) == 0
      && b == KeyBlock(nonce, 0)
  {
    var l := 15 - |nonce|;
    ZerosAreZero(l);
    ValueCounts(Zeros(l));
    ThreeParts(14 - |nonce|, nonce, Zeros(l), CounterBlock(nonce));
  }

  /** Counting the counter block on by i gives A_i, as long as i fits behind the nonce. */
  lemma CountsToKeyBlock(nonce: seq<byte>, i: nat)
    requires ValidNonce(nonce) && i < Power256(15 - |nonce|)
    ensures CounterMode.CounterBlock(Value(CounterBlock(nonce)) + i) == KeyBlock(nonce, i)
  {
    hide BigEndian, Power256, Value, Zeros;
    var l := 15 - |nonce|;
    var front := [14 - |nonce|] + nonce;
    ZerosAreZero(l);
    ValueConcat(front, Zeros(l));
    ValueConcat(front, BigEndian(i, l));
    ValueOfBigEndian(i, l);
    ValueCounts(KeyBlock(nonce, i));
  }

  lemma KeyStreamAt(suite: Suite, nonce: seq<byte>, i: nat, j: nat)
    requires ValidNonce(nonce) && CountsOn(suite) && i < Power256(15 - |nonce|) && j < 16
    ensures suite.keystream(CounterBlock(nonce), 16 * i + j) == suite.cipher(KeyBlock(nonce, i))[j]
  {
    hide CounterBlock, KeyBlock, Power256, Value, BigEndian, CounterMode.CounterBlock, CountsOn;
    CountsToKeyBlock(nonce, i);
    KeyStreamOf(suite, CounterBlock(nonce), i, j);
  }

  lemma KeyStreamOf(suite: Suite, ctr: Block, i: nat, j: nat)
    requires CountsOn(suite) && j < 16
    ensures suite.keystream(ctr, 16 * i + j) == suite.cipher(CounterMode.CounterBlock(Value(ctr) + i))[j]
  {
    hide Value, CounterMode.CounterBlock;
    Divided(16 * i + j, 16, i, j);
  }

  /** Block i of the text is covered by the enciphered block A_(i+1), byte by byte. */
  lemma TextUnderKeyBlocks(suite: Suite, nonce: seq<byte>, message: seq<byte>, i: nat, j: nat)
    requires ValidNonce(nonce) && CountsOn(suite) && |message| <= MaxMessageLength(15 - |nonce|)
    requires j < 16 && 16 * i + j < |message|
    ensures CipherText(suite, nonce, message)[16 * i + j]
         == Xor(message[16 * i + j], suite.cipher(KeyBlock(nonce, i + 1))[j])
  {
    hide CounterBlock, KeyBlock, Power256, MaxMessageLength, CountsOn, Xor;
    MaxMessageLengthIs(15 - |nonce|);
    KeyStreamAt(suite, nonce, i + 1, j);
  }

  lemma FirstKeyBlockCovers(suite: Suite, nonce: seq<byte>, data: seq<byte>)
    requires ValidNonce(nonce) && |data| <= 16 && CountsOn(suite)
    ensures Masked(suite, nonce, 0, data) == XorSeq(data, suite.cipher(KeyBlock(nonce, 0))[..|data|])
  {
    hide CounterBlock, KeyBlock, CountsOn, Xor;
    PositivePower(15 - |nonce|);
    forall j | 0 <= j < |data|
      ensures Masked(suite, nonce, 0, data)[j] == XorSeq(data, suite.cipher(KeyBlock(nonce, 0))[..|data|])[j]
    {
      KeyStreamAt(suite, nonce, 0, j);
    }
  }

  /** The tag is the chaining value under the enciphered block A_0. */
  lemma TagUnderKeyBlock(suite: Suite, nonce: seq<byte>, digestSize: nat, header: seq<byte>, message: seq<byte>,
                         macSize: nat)
    requires ValidNonce(nonce) && ValidDigest(digestSize) && macSize <= 16 && CountsOn(suite)
    ensures Tag(suite, nonce, digestSize, header, message, macSize)
         == XorSeq(Mac(suite.cipher, nonce, digestSize, header, message)[..macSize],
                   suite.cipher(KeyBlock(nonce, 0))[..macSize])
  {
    hide KeyBlock, CountsOn, Mac, Masked, XorSeq;
    FirstKeyBlockCovers(suite, nonce, Mac(suite.cipher, nonce, digestSize, header, message)[..macSize]);
  }

  lemma PositivePower(n: nat)
    ensures 0 < Power256(n)
  {
  }
}
