/** Externals/CryptoPP/authenc.cpp and ccm.cpp: CCM authenticated encryption over a streaming interface. */
module Ccm {
  import opened Bits
  import opened Bytes
  import opened CbcMac

  /** A keyed block cipher, and the key stream its counter mode produces from an initial counter block. */
  datatype Suite = Suite(cipher: Block -> Block, keystream: (Block, nat) -> byte)

  datatype State = Start | KeySet | IVSet | AuthUntransformed | AuthTransformed | AuthFooter {
    predicate Resynchronized() {
      !Start? && !KeySet?
    }

    predicate Authenticating() {
      AuthUntransformed? || AuthTransformed?
    }
  }

  /** The longest message whose length fits into lengthSize bytes. */
  function MaxMessageLength(lengthSize: nat): nat {
    if lengthSize < 8 then TwoTo(8 * lengthSize) - 1 else 0xffff_ffff_ffff_ffff
  }

  datatype Status = Done | BadState | InvalidArgument

  // ---- The mode as a function of whole strings (sections 2.2 and 2.3 of RFC 3610)

  /** The encoded length in front of the additional data. */
  function AadPrefix(length: nat): seq<byte> {
    if length == 0 then []
    else if length < 0x1_0000 - 0x100 then BigEndian(length, 2)
    else if length < 0x1_0000_0000 then [0xff, 0xfe] + BigEndian(length, 4)
    else [0xff, 0xff] + BigEndian(length, 8)
  }

  predicate ValidNonce(nonce: seq<byte>) {
    7 <= |nonce| <= 13
  }

  predicate ValidDigest(size: nat) {
    4 <= size <= 16 && size % 2 == 0
  }

  /** The block that starts the counter. */
  function CounterBlock(nonce: seq<byte>): Block
    requires ValidNonce(nonce)
  {
    [14 - |nonce|] + nonce + Zeros(15 - |nonce|)
  }

  /** The first block of the authentication: flags, nonce and message length. */
  function FirstBlock(nonce: seq<byte>, digestSize: nat, aadLength: nat, messageLength: nat): Block
    requires ValidNonce(nonce) && ValidDigest(digestSize)
  {
    [Flags(nonce, digestSize, aadLength)] + nonce + BigEndian(messageLength, 15 - |nonce|)
  }

  function Flags(nonce: seq<byte>, digestSize: nat, aadLength: nat): byte
    requires ValidNonce(nonce) && ValidDigest(digestSize)
  {
    (if aadLength > 0 then 64 else 0) + 8 * ((digestSize - 2) / 2) + (14 - |nonce|)
  }

  /** The chaining value after the first block. */
  ghost function HeaderStart(cipher: Block -> Block, nonce: seq<byte>, digestSize: nat, aadLength: nat,
                             messageLength: nat): Block
    requires ValidNonce(nonce) && ValidDigest(digestSize)
  {
    Absorb(cipher, Zeros(16), FirstBlock(nonce, digestSize, aadLength, messageLength))
  }

  /** The chaining value after the additional data. */
  ghost function MessageStart(cipher: Block -> Block, nonce: seq<byte>, digestSize: nat, header: seq<byte>,
                              messageLength: nat): Block
    requires ValidNonce(nonce) && ValidDigest(digestSize)
  {
    Absorb(cipher, HeaderStart(cipher, nonce, digestSize, |header|, messageLength),
           Pad(AadPrefix(|header|) + header))
  }

  /** The chaining value after the message. */
  ghost function Mac(cipher: Block -> Block, nonce: seq<byte>, digestSize: nat, header: seq<byte>,
                     message: seq<byte>): Block
    requires ValidNonce(nonce) && ValidDigest(digestSize)
  {
    Absorb(cipher, MessageStart(cipher, nonce, digestSize, header, |message|), Pad(message))
  }

  /** All the bytes that are authenticated, in order, block by block. */
  ghost function Authenticated(nonce: seq<byte>, digestSize: nat, header: seq<byte>, message: seq<byte>): (r: seq<byte>)
    requires ValidNonce(nonce) && ValidDigest(digestSize)
    ensures |r| % 16 == 0
  {
    Blocks3(FirstBlock(nonce, digestSize, |header|, |message|), Pad(AadPrefix(|header|) + header), Pad(message))
  }

  ghost function Blocks3(a: seq<byte>, b: seq<byte>, c: seq<byte>): (r: seq<byte>)
    requires |a| % 16 == 0 && |b| % 16 == 0 && |c| % 16 == 0
    ensures |r| % 16 == 0
  {
    a + b + c
  }

  lemma AbsorbBlocks3(cipher: Block -> Block, acc: Block, a: seq<byte>, b: seq<byte>, c: seq<byte>)
    requires |a| % 16 == 0 && |b| % 16 == 0 && |c| % 16 == 0
    ensures Absorb(cipher, acc, Blocks3(a, b, c)) == Absorb(cipher, Absorb(cipher, Absorb(cipher, acc, a), b), c)
  {
    hide Absorb;
    AbsorbConcat(cipher, acc, a, b);
    AbsorbConcat(cipher, acc, a + b, c);
  }

  /** The chaining value is that of one chain over all the blocks in order. */
  lemma MacIsOneChain(cipher: Block -> Block, nonce: seq<byte>, digestSize: nat, header: seq<byte>,
                      message: seq<byte>)
    requires ValidNonce(nonce) && ValidDigest(digestSize)
    ensures Mac(cipher, nonce, digestSize, header, message)
      == Absorb(cipher, Zeros(16), Authenticated(nonce, digestSize, header, message))
  {
    hide Absorb, Pad, FirstBlock, AadPrefix, Blocks3;
    AbsorbBlocks3(cipher, Zeros(16), FirstBlock(nonce, digestSize, |header|, |message|),
                  Pad(AadPrefix(|header|) + header), Pad(message));
  }

  /** Data under the key stream from position pos on. */
  function Masked(suite: Suite, nonce: seq<byte>, pos: nat, data: seq<byte>): (r: seq<byte>)
    requires ValidNonce(nonce)
    ensures |r| == |data|
  {
    seq(|data|, i requires 0 <= i < |data| => Xor(data[i], suite.keystream(CounterBlock(nonce), pos + i)))
  }

  lemma MaskedConcat(suite: Suite, nonce: seq<byte>, pos: nat, a: seq<byte>, b: seq<byte>)
    requires ValidNonce(nonce)
    ensures Masked(suite, nonce, pos, a + b) == Masked(suite, nonce, pos, a) + Masked(suite, nonce, pos + |a|, b)
  {
    hide Xor, CounterBlock;
  }

  lemma MaskedTwice(suite: Suite, nonce: seq<byte>, pos: nat, a: seq<byte>)
    requires ValidNonce(nonce)
    ensures Masked(suite, nonce, pos, Masked(suite, nonce, pos, a)) == a
  {
    hide Xor, CounterBlock;
    forall i | 0 <= i < |a| ensures Masked(suite, nonce, pos, Masked(suite, nonce, pos, a))[i] == a[i] {
      XorCancels(a[i], suite.keystream(CounterBlock(nonce), pos + i));
    }
  }

  ghost function CipherText(suite: Suite, nonce: seq<byte>, message: seq<byte>): seq<byte>
    requires ValidNonce(nonce)
  {
    Masked(suite, nonce, 16, message)
  }

  ghost function Tag(suite: Suite, nonce: seq<byte>, digestSize: nat, header: seq<byte>, message: seq<byte>,
                     macSize: nat): seq<byte>
    requires ValidNonce(nonce) && ValidDigest(digestSize) && macSize <= 16
  {
    Masked(suite, nonce, 0, Mac(suite.cipher, nonce, digestSize, header, message)[..macSize])
  }

  // ---- The object

  class CcmCipher {
    const suite: Suite
    const digestSize: nat
    const forward: bool
    /** The first 16 bytes collect input, the next 16 hold the chaining value. */
    const buffer: array<byte>
    var state: State
    var bufferedDataLength: nat
    var totalHeaderLength: nat
    var totalMessageLength: nat
    var totalFooterLength: nat
    var aadLength: nat
    var messageLength: nat
    var lengthSize: nat
    var ctrIv: Block
    var ctrPosition: nat
    ghost var nonce: seq<byte>
    ghost var header: seq<byte>
    ghost var message: seq<byte>
    /** The buffer no longer holds the counter block it got with the nonce. */
    ghost var touched: bool
    /** The lengths are known and no call has failed since the nonce was set. */
    ghost var intact: bool

    ghost predicate Valid()
      reads this, buffer
    {
      && Sound() && (state.IVSet? && !touched ==> Untouched())
      && (intact && state.Resynchronized() ==> InStep() && (!state.AuthFooter? ==> ChainOk()))
    }

    /** What holds even after a call has failed. */
    ghost predicate Sound()
      reads this
    {
      && buffer.Length == 32 && ValidDigest(digestSize) && bufferedDataLength < 16 && !state.Start?
      && (state.Resynchronized() ==>
            ValidNonce(nonce) && lengthSize == 15 - |nonce| && ctrIv == CounterBlock(nonce) &&
            totalMessageLength <= MaxMessageLength(lengthSize))
    }

    ghost predicate Untouched()
      requires buffer.Length == 32
      reads this, buffer
    {
      && bufferedDataLength == 0 && totalHeaderLength == 0 && header == []
      && totalMessageLength == 0 && message == [] && totalFooterLength == 0 && ctrPosition == 16
      && buffer[..16] == ctrIv
    }

    ghost predicate Ready()
      reads `bufferedDataLength, `nonce
    {
      buffer.Length == 32 && ValidDigest(digestSize) && bufferedDataLength < 16 && ValidNonce(nonce)
    }

    /** The counters agree with what has been fed. */
    ghost predicate InStep()
      reads this
    {
      && totalHeaderLength == |header| && totalMessageLength == |message| && ctrPosition == 16 + |message|
      && (state.IVSet? ==> message == [])
      && (state.AuthFooter? <==> totalFooterLength > 0)
      && (!state.IVSet? ==> aadLength == |header|)
      && (state.Authenticating() ==> (state.AuthUntransformed? <==> forward))
    }

    /** The chaining value at the start of the current phase. */
    ghost function PhaseStart(): Block
      requires ValidDigest(digestSize) && ValidNonce(nonce)
      reads `state, `nonce, `header, `aadLength, `messageLength
    {
      if state.IVSet? then HeaderStart(suite.cipher, nonce, digestSize, aadLength, messageLength)
      else MessageStart(suite.cipher, nonce, digestSize, header, messageLength)
    }

    /** What has been fed in the current phase. */
    ghost function Fed(): seq<byte>
      reads `state, `header, `message, `aadLength
    {
      if state.IVSet? then AadPrefix(aadLength) + header else message
    }

    /** The chaining value stands for what has been fed in the current phase. */
    ghost predicate ChainOk()
      requires Ready()
      reads `state, `nonce, `header, `message, `aadLength, `messageLength, `bufferedDataLength, buffer
    {
      Chained(suite.cipher, PhaseStart(), Fed(), Accumulated(), Waiting())
    }

    ghost function Accumulated(): Block
      requires buffer.Length == 32
      reads buffer
    {
      buffer[16..]
    }

    ghost function Waiting(): seq<byte>
      requires buffer.Length == 32 && bufferedDataLength < 16
      reads `bufferedDataLength, buffer
    {
      buffer[..bufferedDataLength]
    }

    constructor (suite: Suite, digestSize: nat, forward: bool)
      requires ValidDigest(digestSize)
      ensures Valid() && state == KeySet && fresh(buffer)
      ensures this.suite == suite && this.digestSize == digestSize && this.forward == forward
    {
      this.suite, this.digestSize, this.forward := suite, digestSize, forward;
      buffer := new byte[32](_ => 0);
      state, bufferedDataLength := KeySet, 0;
      totalHeaderLength, totalMessageLength, totalFooterLength := 0, 0, 0;
      aadLength, messageLength, lengthSize := 0, 0, 8;
      ctrIv, ctrPosition := Zeros(16), 0;
      nonce, header, message, touched, intact := [], [], [], false, false;
    }

    method AuthenticateBlocks(data: seq<byte>) returns (leftOver: nat)
      requires buffer.Length == 32
      modifies buffer
      ensures leftOver == |data| % 16
      ensures buffer[..16] == old(buffer[..16])
      ensures buffer[16..] == Absorb(suite.cipher, old(buffer[16..]), data[..|data| - leftOver])
    {
      hide Absorb;
      ghost var start, kept := buffer[16..], buffer[..16];
      leftOver := |data|;
      ghost var done := 0;
      AbsorbNothing(suite.cipher, start);
      while leftOver >= 16
        invariant leftOver + done == |data| && done % 16 == 0
        invariant buffer[..16] == kept
        invariant buffer[16..] == Absorb(suite.cipher, start, data[..done])
      {
        var block := data[|data| - leftOver..|data| - leftOver + 16];
        AbsorbBlock(suite.cipher, start, data[..done], block);
        assert data[..done + 16] == data[..done] + block;
        Store(buffer, 16, suite.cipher(XorSeq(buffer[16..], block)));
        leftOver := leftOver - 16;
        done := done + 16;
      }
      assert data[..done] == data[..|data| - leftOver];
    }

    /** Completes the waiting bytes to a block and absorbs it. */
    method FillBuffer(input: seq<byte>)
      requires buffer.Length == 32 && bufferedDataLength < 16 && bufferedDataLength + |input| == 16
      modifies this`bufferedDataLength, buffer
      ensures bufferedDataLength == 0
      ensures buffer[16..] == Absorb(suite.cipher, old(buffer[16..]), old(buffer[..bufferedDataLength]) + input)
    {
      hide Absorb;
      ghost var start, all := buffer[16..], buffer[..bufferedDataLength] + input;
      Store(buffer, bufferedDataLength, input);
      assert buffer[..16] == all && buffer[16..] == start;
      var left := AuthenticateBlocks(buffer[..16]);
      assert all[..16] == all;
      bufferedDataLength := 0;
    }

    /** Absorbs the whole blocks and keeps the rest. */
    method AbsorbRest(input: seq<byte>)
      requires buffer.Length == 32
      modifies this`bufferedDataLength, buffer
      ensures var k := |input| - |input| % 16;
        bufferedDataLength == |input| % 16 && buffer[..bufferedDataLength] == input[k..]
        && buffer[16..] == Absorb(suite.cipher, old(buffer[16..]), input[..k])
    {
      hide Absorb;
      ghost var start := buffer[16..];
      AbsorbNothing(suite.cipher, start);
      var rest := input;
      if |rest| >= 16 {
        var leftOver := AuthenticateBlocks(rest);
        rest := rest[|rest| - leftOver..];
      } else {
        assert input[..0] == [];
      }
      Store(buffer, 0, rest);
      bufferedDataLength := |rest|;
    }

    /** Feeds bytes to the chain, whole blocks at once and the rest into the buffer. */
    method AuthenticateData(input: seq<byte>)
      requires buffer.Length == 32 && bufferedDataLength < 16
      modifies this`bufferedDataLength, buffer
      ensures bufferedDataLength < 16
      ensures forall start: Block, fed ::
        Chained(suite.cipher, start, fed, old(Accumulated()), old(Waiting())) ==>
        Chained(suite.cipher, start, fed + input, Accumulated(), Waiting())
    {
      hide Absorb, Chained;
      if |input| == 0 {
        assert forall fed: seq<byte> :: fed + input == fed;
        return;
      }
      ghost var acc, waiting := buffer[16..], buffer[..bufferedDataLength];
      var rest := input;
      if bufferedDataLength != 0 {
        if bufferedDataLength + |rest| >= 16 {
          var fill := 16 - bufferedDataLength;
          FillBuffer(rest[..fill]);
          rest := rest[fill..];
        } else {
          Store(buffer, bufferedDataLength, rest);
          bufferedDataLength := bufferedDataLength + |rest|;
          assert buffer[..bufferedDataLength] == waiting + input && buffer[16..] == acc;
          KeepWaiting(suite.cipher, acc, waiting, input);
          return;
        }
      }
      ghost var middle := buffer[16..];
      AbsorbRest(rest);
      if waiting == [] {
        assert waiting + input == input;
        ExtendAll(suite.cipher, acc, waiting, input);
      } else {
        FillThenRest(suite.cipher, acc, waiting, input);
        ExtendAll(suite.cipher, acc, waiting, input);
      }
    }

    /** Pads the waiting bytes with zeros and absorbs them. */
    method FinishChain()
      requires buffer.Length == 32 && bufferedDataLength < 16
      modifies this`bufferedDataLength, buffer
      ensures bufferedDataLength == 0
      ensures Finished(suite.cipher, old(Accumulated()), old(Waiting()), Accumulated())
    {
      hide Absorb, Chained, Pad, XorSeq, Zeros;
      ghost var acc, waiting := buffer[16..], buffer[..bufferedDataLength];
      FinishAll(suite.cipher, acc, waiting);
      if bufferedDataLength > 0 {
        XorPrefixPads(acc, waiting);
        Store(buffer, 16, suite.cipher(XorPrefix(buffer[16..], buffer[..bufferedDataLength])));
        bufferedDataLength := 0;
      }
    }

    method StoreCounterBlock(iv: seq<byte>)
      requires buffer.Length == 32 && ValidNonce(iv)
      modifies buffer
      ensures buffer[..16] == CounterBlock(iv)
    {
      Store(buffer, 0, [14 - |iv|]);
      Store(buffer, 1, iv);
      Store(buffer, 1 + |iv|, Zeros(15 - |iv|));
    }

    /** Forgets the text and the nonce. */
    method Forget()
      requires buffer.Length == 32 && ValidDigest(digestSize)
      modifies this
      ensures Valid() && state == KeySet && !touched && !intact
      ensures bufferedDataLength == totalHeaderLength == totalMessageLength == totalFooterLength == 0
      ensures header == [] && message == [] && ctrPosition == 16
    {
      hide Untouched, InStep, ChainOk, CounterBlock, MaxMessageLength;
      bufferedDataLength, ctrPosition := 0, 16;
      totalHeaderLength, totalMessageLength, totalFooterLength := 0, 0, 0;
      aadLength, messageLength := 0, 0;
      state, header, message, touched, intact := KeySet, [], [], false, false;
    }

    method Resynchronize(iv: seq<byte>) returns (status: Status)
      requires Valid()
      modifies this, buffer
      ensures Valid()
      ensures status == if ValidNonce(iv) then Done else InvalidArgument
      ensures status.Done? ==> state.IVSet? && nonce == iv && !touched
      ensures status.InvalidArgument? ==> state.KeySet?
    {
      hide Absorb, Zeros, CounterBlock, MaxMessageLength, TwoTo, ChainOk, InStep;
      Forget();
      if !(7 <= |iv| <= 13) { return InvalidArgument; }
      lengthSize, nonce, ctrIv, state := 15 - |iv|, iv, CounterBlock(iv), IVSet;
      StoreCounterBlock(iv);
      status := Done;
    }

    /** The chaining value after the first block, made from the nonce that the buffer still holds. */
    method StoreFirstBlock(headerLength: nat, length: nat)
      requires buffer.Length == 32 && ValidDigest(digestSize) && ValidNonce(nonce) && lengthSize == 15 - |nonce|
      modifies buffer
      ensures old(buffer[..16]) == CounterBlock(nonce) ==>
        Accumulated() == HeaderStart(suite.cipher, nonce, digestSize, headerLength, length)
    {
      hide Absorb, CounterBlock, FirstBlock;
      FillFirstBlock(headerLength, length);
      AbsorbFirst(suite.cipher, buffer[16..]);
      Store(buffer, 16, suite.cipher(buffer[16..]));
    }

    method FillFirstBlock(headerLength: nat, length: nat)
      requires buffer.Length == 32 && ValidDigest(digestSize) && ValidNonce(nonce) && lengthSize == 15 - |nonce|
      modifies buffer
      ensures old(buffer[..16]) == CounterBlock(nonce) ==>
        buffer[16..] == FirstBlock(nonce, digestSize, headerLength, length)
    {
      hide Absorb, BigEndian, CounterBlock;
      ghost var s, flags := buffer[..], Flags(nonce, digestSize, headerLength);
      Store(buffer, 16, [(if headerLength > 0 then 64 else 0) + 8 * ((digestSize - 2) / 2) + (lengthSize - 1)]);
      Store(buffer, 24, BigEndian(length, 8));
      ghost var t := buffer[..];
      Store(buffer, 17, buffer[1..16 - lengthSize]);
      NonceInside(s, t, nonce);
      FirstBlockWritten(s, nonce, flags, length);
      assert buffer[16..] == buffer[..][16..];
    }

    /** SpecifyDataLengths. The nonce is read back from the buffer, which input has overwritten by then or not. */
    method SpecifyDataLengths(headerLength: nat, length: nat) returns (status: Status)
      requires Valid()
      requires headerLength < 0x1_0000_0000_0000_0000 && length < 0x1_0000_0000_0000_0000
      modifies this, buffer
      ensures Valid() && nonce == old(nonce) && state == old(state) && header == old(header) && message == old(message)
      ensures status == if length > old(MaxMessageLength(lengthSize)) then InvalidArgument
                        else if !state.IVSet? then BadState else Done
      ensures status.Done? ==> aadLength == headerLength && messageLength == length
      ensures status.Done? ==> (intact <==> !old(touched))
      ensures status.Done? && intact ==> header == [] && message == []
    {
      hide Absorb, Chained, FirstBlock, AadPrefix, HeaderStart, MessageStart, CounterBlock, MaxMessageLength;
      if length > MaxMessageLength(lengthSize) { return InvalidArgument; }
      if !state.IVSet? { return BadState; }
      aadLength, messageLength := headerLength, length;
      StartHeader(headerLength, length);
      StartChain(suite.cipher, PhaseStart(), AadPrefix(headerLength));
      intact := !touched;
      touched := true;
      assert intact ==> Fed() == AadPrefix(headerLength);
      status := Done;
    }

    /** The first block, and the length in front of the additional data, which waits in the buffer. */
    method StartHeader(headerLength: nat, length: nat)
      requires buffer.Length == 32 && ValidDigest(digestSize) && ValidNonce(nonce) && lengthSize == 15 - |nonce|
      requires bufferedDataLength < 16
      modifies this`bufferedDataLength, buffer
      ensures bufferedDataLength < 16 && |AadPrefix(headerLength)| < 16
      ensures old(buffer[..16]) == CounterBlock(nonce) && old(bufferedDataLength) == 0 ==>
        && Accumulated() == HeaderStart(suite.cipher, nonce, digestSize, headerLength, length)
        && Waiting() == AadPrefix(headerLength)
    {
      hide FirstBlock, AadPrefix, HeaderStart, CounterBlock;
      StoreFirstBlock(headerLength, length);
      AadPrefixFits(headerLength);
      if headerLength > 0 {
        Store(buffer, 0, AadPrefix(headerLength));
        bufferedDataLength := |AadPrefix(headerLength)|;
      }
    }

    /** Everything the object remembers about the text except the text itself. */
    twostate predicate SameSession()
      reads this
    {
      nonce == old(nonce) && aadLength == old(aadLength) && messageLength == old(messageLength)
      && lengthSize == old(lengthSize) && ctrIv == old(ctrIv)
    }

    /** AuthenticateLastHeaderBlock: fails if the additional data has not the announced length. */
    method AuthenticateLastHeaderBlock() returns (ok: bool)
      requires buffer.Length == 32 && bufferedDataLength < 16
      modifies this`bufferedDataLength, buffer
      ensures ok <==> aadLength == totalHeaderLength
      ensures ok ==>
        bufferedDataLength == 0 && Finished(suite.cipher, old(Accumulated()), old(Waiting()), Accumulated())
      ensures !ok ==> bufferedDataLength == old(bufferedDataLength) && unchanged(buffer)
    {
      ok := aadLength == totalHeaderLength;
      if ok { FinishChain(); }
    }

    /** AuthenticateLastConfidentialBlock: fails if the message has not the announced length. */
    method AuthenticateLastConfidentialBlock() returns (ok: bool)
      requires buffer.Length == 32 && bufferedDataLength < 16
      modifies this`bufferedDataLength, buffer
      ensures ok <==> messageLength == totalMessageLength
      ensures ok ==>
        bufferedDataLength == 0 && Finished(suite.cipher, old(Accumulated()), old(Waiting()), Accumulated())
      ensures !ok ==> bufferedDataLength == old(bufferedDataLength) && unchanged(buffer)
    {
      ok := messageLength == totalMessageLength;
      if ok { FinishChain(); }
    }

    /** Update: more additional data, or, after message data, footer data, which CCM cannot finish with. */
    method Update(input: seq<byte>) returns (status: Status)
      requires Valid()
      modifies this, buffer
      ensures Valid() && SameSession()
      ensures status.BadState? <==> input != [] && !old(state).Resynchronized()
      ensures status.InvalidArgument? <==>
        input != [] && old(state).Authenticating() && messageLength != old(totalMessageLength)
      ensures !status.Done? ==> state == old(state)
      ensures status.Done? && old(state.IVSet?) ==>
        state.IVSet? && header == old(header) + input && message == old(message) && intact == old(intact)
      ensures status.Done? && input != [] && !old(state.IVSet?) ==> state.AuthFooter?
    {
      hide Absorb, Chained, Pad, AadPrefix, FirstBlock, HeaderStart, MessageStart, CounterBlock, MaxMessageLength;
      if input == [] { return Done; }
      if !state.Resynchronized() { return BadState; }
      if state.IVSet? {
        UpdateHeader(input);
        return Done;
      }
      if state.Authenticating() {
        var ok := AuthenticateLastConfidentialBlock();
        if !ok { intact := false; return InvalidArgument; }
        bufferedDataLength := 0;
        state := AuthFooter;
      }
      UpdateFooter(input);
      status := Done;
    }

    method UpdateHeader(input: seq<byte>)
      requires Valid() && state.IVSet?
      modifies this`bufferedDataLength, this`totalHeaderLength, this`header, this`touched, buffer
      ensures Valid() && header == old(header) + input
    {
      hide Absorb, Chained, Pad, AadPrefix, FirstBlock, HeaderStart, MessageStart, CounterBlock, MaxMessageLength;
      AuthenticateData(input);
      totalHeaderLength := totalHeaderLength + |input|;
      header, touched := header + input, true;
      assert old(Fed()) + input == Fed();
    }

    method UpdateFooter(input: seq<byte>)
      requires input != [] && state.AuthFooter? && buffer.Length == 32 && bufferedDataLength < 16
      modifies this`bufferedDataLength, this`totalFooterLength, buffer
      ensures bufferedDataLength < 16 && totalFooterLength == old(totalFooterLength) + |input|
    {
      AuthenticateData(input);
      totalFooterLength := totalFooterLength + |input|;
    }

    /** The counter mode cipher: covers or uncovers data with the key stream. */
    method CtrProcessData(outString: array<byte>, inString: array<byte>)
      requires outString.Length == inString.Length && ValidNonce(nonce) && ctrIv == CounterBlock(nonce)
      requires outString != buffer
      modifies this`ctrPosition, outString
      ensures ctrPosition == old(ctrPosition) + inString.Length
      ensures outString[..] == Masked(suite, nonce, old(ctrPosition), old(inString[..]))
    {
      hide Xor, CounterBlock;
      ghost var data := inString[..];
      for j := 0 to inString.Length
        invariant ctrPosition == old(ctrPosition)
        invariant forall k :: j <= k < inString.Length ==> inString[k] == data[k]
        invariant forall k :: 0 <= k < j ==> outString[k] == Masked(suite, nonce, ctrPosition, data)[k]
      {
        outString[j] := Xor(inString[j], suite.keystream(ctrIv, ctrPosition + j));
      }
      assert outString[..] == Masked(suite, nonce, ctrPosition, data);
      ctrPosition := ctrPosition + inString.Length;
    }

    /** The first data ends the additional data. */
    method EnterMessage() returns (ok: bool)
      requires buffer.Length == 32 && bufferedDataLength < 16
      modifies this`state, this`bufferedDataLength, buffer
      ensures ok <==> aadLength == totalHeaderLength
      ensures !ok ==> state == old(state) && bufferedDataLength == old(bufferedDataLength) && unchanged(buffer)
      ensures ok ==> state == (if forward then AuthUntransformed else AuthTransformed) && bufferedDataLength == 0
      ensures ok ==> Finished(suite.cipher, old(Accumulated()), old(Waiting()), Accumulated())
    {
      ok := AuthenticateLastHeaderBlock();
      if ok {
        bufferedDataLength := 0;
        state := if forward then AuthUntransformed else AuthTransformed;
      }
    }

    /** The text that is authenticated when data is processed: what is to be hidden, or what comes to light. */
    ghost function Plain(data: seq<byte>): seq<byte>
      requires ValidNonce(nonce)
      reads this
    {
      if forward then data else Masked(suite, nonce, 16 + |message|, data)
    }

    /** Authenticates the plain text, before it is covered or after it has been uncovered. */
    method Transform(outString: array<byte>, inString: array<byte>)
      requires Ready() && ctrIv == CounterBlock(nonce) && state.Authenticating()
      requires outString.Length == inString.Length && outString != buffer && inString != buffer
      modifies this`bufferedDataLength, this`ctrPosition, buffer, outString
      ensures bufferedDataLength < 16 && ctrPosition == old(ctrPosition) + inString.Length
      ensures outString[..] == Masked(suite, nonce, old(ctrPosition), old(inString[..]))
      ensures var plain := if state.AuthUntransformed? then old(inString[..]) else outString[..];
        forall start: Block, fed ::
          Chained(suite.cipher, start, fed, old(Accumulated()), old(Waiting())) ==>
          Chained(suite.cipher, start, fed + plain, Accumulated(), Waiting())
    {
      hide Chained, CounterBlock, Masked;
      if state.AuthUntransformed? {
        AuthenticateData(inString[..]);
        ghost var acc, waiting := Accumulated(), Waiting();
        CtrProcessData(outString, inString);
        assert Accumulated() == acc && Waiting() == waiting;
      } else {
        ghost var acc, waiting := Accumulated(), Waiting();
        CtrProcessData(outString, inString);
        assert Accumulated() == acc && Waiting() == waiting;
        AuthenticateData(outString[..]);
      }
    }

    /** Transform, with what it means for a chain that is in order. */
    method TransformNext(outString: array<byte>, inString: array<byte>)
      requires Ready() && ctrIv == CounterBlock(nonce) && state.Authenticating()
      requires outString.Length == inString.Length && outString != buffer && inString != buffer
      requires intact ==> ChainOk() && ctrPosition == 16 + |message| && (state.AuthUntransformed? <==> forward)
      modifies this`bufferedDataLength, this`ctrPosition, buffer, outString
      ensures bufferedDataLength < 16 && ctrPosition == old(ctrPosition) + inString.Length
      ensures outString[..] == Masked(suite, nonce, old(ctrPosition), old(inString[..]))
      ensures intact ==>
        Chained(suite.cipher, PhaseStart(), message + old(Plain(inString[..])), Accumulated(), Waiting())
    {
      hide Absorb, Chained, Pad, AadPrefix, FirstBlock, HeaderStart, CounterBlock, Masked;
      ghost var start := PhaseStart();
      assert intact ==> Chained(suite.cipher, start, message, Accumulated(), Waiting());
      Transform(outString, inString);
    }

    /** Whether so many bytes more would exceed the longest message. */
    ghost predicate TooLong(length: nat)
      reads this
    {
      length > MaxMessageLength(lengthSize) - totalMessageLength
    }

    /** The output of the next message bytes, and what they add to the message. */
    ghost predicate Took(before: seq<byte>, input: seq<byte>, output: seq<byte>)
      reads this
    {
      && ValidNonce(nonce)
      && output == Masked(suite, nonce, 16 + |before|, input)
      && message == before + if forward then input else Masked(suite, nonce, 16 + |before|, input)
    }

    /** ProcessData; outString and inString may be the same array. */
    method ProcessData(outString: array<byte>, inString: array<byte>) returns (status: Status)
      requires Valid() && outString.Length == inString.Length && outString != buffer && inString != buffer
      modifies this, buffer, outString
      ensures Valid() && SameSession() && header == old(header)
      ensures status.InvalidArgument? <==>
        && old(state).Resynchronized()
        && (old(TooLong(inString.Length)) || old(state.IVSet? && aadLength != totalHeaderLength))
      ensures status.BadState? <==>
        !old(state).Resynchronized() || (old(state).AuthFooter? && !old(TooLong(inString.Length)))
      ensures if status.Done? then state.Authenticating() else state == old(state)
      ensures status.Done? && old(intact) ==> intact && Took(old(message), old(inString[..]), outString[..])
    {
      hide Absorb, Chained, Pad, AadPrefix, FirstBlock, HeaderStart, CounterBlock, MaxMessageLength,
        MessageStart, Masked, TwoTo, ValidNonce, Took, Untouched, ChainOk;
      if state.Resynchronized() && inString.Length > MaxMessageLength(lengthSize) - totalMessageLength {
        return InvalidArgument;
      }
      totalMessageLength := totalMessageLength + inString.Length;
      if !state.Resynchronized() || state.AuthFooter? {
        intact := false;
        return BadState;
      }
      if state.IVSet? {
        touched := true;
        var ok := BeginMessage();
        if !ok {
          intact := false;
          return InvalidArgument;
        }
      }
      TakeText(outString, inString);
      status := Done;
    }

    /** The text of a call whose length has been counted already. */
    method TakeText(outString: array<byte>, inString: array<byte>)
      requires Sound() && state.Authenticating()
      requires outString.Length == inString.Length && outString != buffer && inString != buffer
      requires intact ==>
        && ChainOk() && totalHeaderLength == |header| == aadLength && totalFooterLength == 0
        && totalMessageLength == |message| + inString.Length && ctrPosition == 16 + |message|
        && (state.AuthUntransformed? <==> forward)
      modifies this`bufferedDataLength, this`ctrPosition, this`message, buffer, outString
      ensures Valid()
      ensures intact ==> Took(old(message), old(inString[..]), outString[..])
    {
      hide Absorb, Chained, Pad, AadPrefix, FirstBlock, HeaderStart, CounterBlock, MaxMessageLength, Masked;
      ghost var plain := Plain(inString[..]);
      TransformNext(outString, inString);
      message := message + plain;
    }

    /** EnterMessage, with what it means for a chain that is in order. */
    method BeginMessage() returns (ok: bool)
      requires Ready() && state.IVSet?
      modifies this`state, this`bufferedDataLength, buffer
      ensures ok <==> aadLength == totalHeaderLength
      ensures !ok ==> state == old(state) && bufferedDataLength == old(bufferedDataLength) && unchanged(buffer)
      ensures ok ==> state == (if forward then AuthUntransformed else AuthTransformed) && bufferedDataLength == 0
      ensures ok && old(ChainOk()) && totalHeaderLength == |header| && message == [] ==> Ready() && ChainOk()
    {
      hide Absorb, Chained, Pad, AadPrefix, FirstBlock, HeaderStart;
      ghost var chained, start, fed, acc, waiting := ChainOk(), PhaseStart(), Fed(), Accumulated(), Waiting();
      ok := EnterMessage();
      if ok && chained {
        assert Waiting() == [];
        FinishedChain(suite.cipher, start, fed, acc, waiting, Accumulated());
      }
    }

    /** The chaining value under the start of the key stream. */
    method AuthenticateLastFooterBlock(macSize: nat) returns (mac: seq<byte>)
      requires Ready() && ctrIv == CounterBlock(nonce) && macSize <= 16
      modifies this`ctrPosition
      ensures mac == Masked(suite, nonce, 0, Accumulated()[..macSize])
    {
      hide CounterBlock, Masked;
      var out, chain := new byte[macSize], new byte[macSize];
      Store(chain, 0, buffer[16..16 + macSize]);
      assert chain[..] == buffer[16..][..macSize];
      ctrPosition := 0;
      CtrProcessData(out, chain);
      mac := out[..];
    }

    /** Completes the chain from whatever phase the object is in, which it does not leave yet. */
    method FinishMac() returns (ok: bool)
      requires Valid() && state.Resynchronized()
      modifies this`bufferedDataLength, this`touched, buffer
      ensures Ready() && (state.IVSet? ==> touched)
      ensures ok <==> (state.IVSet? ==> aadLength == totalHeaderLength)
                      && (!state.AuthFooter? ==> messageLength == totalMessageLength)
      ensures ok && intact && !state.AuthFooter? ==>
        aadLength == |header| && messageLength == |message| &&
        Accumulated() == Mac(suite.cipher, nonce, digestSize, header, message)
    {
      hide Absorb, Chained, Pad, AadPrefix, FirstBlock, HeaderStart, CounterBlock, MaxMessageLength, Masked, TwoTo;
      ghost var start := PhaseStart();
      if state.IVSet? {
        ghost var fed, acc, waiting := Fed(), Accumulated(), Waiting();
        touched := true;
        ok := AuthenticateLastHeaderBlock();
        if !ok { return; }
        start := Accumulated();
        assert Waiting() == [];
        if intact { FinishedChain(suite.cipher, PhaseStart(), fed, acc, waiting, Accumulated()); }
      }
      ok := true;
      if !state.AuthFooter? {
        ghost var acc, waiting := Accumulated(), Waiting();
        ok := AuthenticateLastConfidentialBlock();
        if ok && intact { FinishedChain(suite.cipher, start, message, acc, waiting, Accumulated()); }
      }
    }

    /** TruncatedFinal: the tag, if all the announced data has been fed and no footer. */
    method TruncatedFinal(macSize: nat) returns (status: Status, mac: seq<byte>)
      requires Valid()
      modifies this, buffer
      ensures Valid()
      ensures status.Done? <==>
        && macSize <= digestSize && old(totalFooterLength) == 0 && old(state).Resynchronized()
        && (old(state.IVSet?) ==> old(aadLength == totalHeaderLength))
        && (!old(state.AuthFooter?) ==> old(messageLength == totalMessageLength))
      ensures status.Done? && old(intact) ==> old(aadLength == |header| && messageLength == |message|)
      ensures status.Done? && old(intact) ==>
        mac == old(Tag(suite, nonce, digestSize, header, message, macSize))
      ensures state == if status.Done? then KeySet else old(state)
      ensures status.BadState? <==>
        macSize <= digestSize && old(totalFooterLength) == 0 && !old(state).Resynchronized()
    {
      hide Absorb, Chained, Pad, AadPrefix, FirstBlock, HeaderStart, CounterBlock, MaxMessageLength, Masked, TwoTo;
      mac := [];
      if macSize > digestSize || totalFooterLength > 0 { return InvalidArgument, []; }
      if !state.Resynchronized() { return BadState, []; }
      var ok := FinishMac();
      if !ok { intact := false; return InvalidArgument, []; }
      mac := AuthenticateLastFooterBlock(macSize);
      state, status := KeySet, Done;
    }
  }

  /** SetKeyWithoutResync: fails for a tag size that is not one of 4, 6, ..., 16. */
  method NewCipher(suite: Suite, digestSize: int, forward: bool) returns (ccm: CcmCipher?)
    ensures ccm == null <==> !(digestSize >= 0 && ValidDigest(digestSize))
    ensures ccm != null ==> fresh(ccm) && fresh(ccm.buffer) && ccm.Valid() && ccm.state == KeySet
    ensures ccm != null ==> ccm.suite == suite && ccm.digestSize == digestSize && ccm.forward == forward
  {
    if digestSize % 2 > 0 || digestSize < 4 || digestSize > 16 { return null; }
    ccm := new CcmCipher(suite, digestSize, forward);
  }

  /** The nonce is still where the counter block has it when the upper half has been written. */
  lemma NonceInside(s: seq<byte>, t: seq<byte>, nonce: seq<byte>)
    requires |s| == |t| == 32 && t[..16] == s[..16] && ValidNonce(nonce)
    ensures s[..16] == CounterBlock(nonce) ==> t[1..1 + |nonce|] == nonce
  {
    if s[..16] == CounterBlock(nonce) {
      assert t[1..1 + |nonce|] == t[..16][1..1 + |nonce|];
    }
  }

  /** Flags, then the length at the end, then the nonce over what is left make the first block. */
  lemma FirstBlockWritten(s: seq<byte>, nonce: seq<byte>, flags: byte, length: nat)
    requires |s| == 32 && ValidNonce(nonce)
    ensures Written(Written(Written(s, 16, [flags]), 24, BigEndian(length, 8)), 17, nonce)[16..]
      == [flags] + nonce + BigEndian(length, 15 - |nonce|)
  {
    hide BigEndian;
    assert Written(s, 16, [flags])[16] == flags;
    hide Written;
    BigEndianTail(length, 8, 15 - |nonce|);
    WrittenAtEnd(Written(s, 16, [flags]), BigEndian(length, 8), nonce, BigEndian(length, 15 - |nonce|), flags);
  }

  lemma WrittenAtEnd(s: seq<byte>, be: seq<byte>, nonce: seq<byte>, tail: seq<byte>, flags: byte)
    requires |s| == 32 && s[16] == flags && |be| == 8 && ValidNonce(nonce) && be[|nonce| - 7..] == tail
    ensures Written(Written(s, 24, be), 17, nonce)[16..] == [flags] + nonce + tail
  {
    var u := Written(s, 24, be);
    assert u == s[..24] + be;
    assert u[17 + |nonce|..] == be[|nonce| - 7..];
    assert u[16..17] == [flags];
  }

  lemma AadPrefixFits(length: nat)
    ensures |AadPrefix(length)| < 16 && (length == 0 ==> AadPrefix(length) == [])
  {
  }

  /** Less than a block, kept waiting, is a chain from the start. */
  lemma StartChain(cipher: Block -> Block, start: Block, data: seq<byte>)
    ensures |data| < 16 ==> Chained(cipher, start, data, start, data)
  {
  }

  lemma {:induction false} BigEndianTail(v: nat, n: nat, k: nat)
    requires k <= n
    ensures BigEndian(v, n)[n - k..] == BigEndian(v, k)
  {
    if k > 0 { BigEndianTail(v / 256, n - 1, k - 1); }
  }

  lemma AbsorbFirst(cipher: Block -> Block, block: Block)
    ensures Absorb(cipher, Zeros(16), block) == cipher(block)
  {
    AbsorbNothing(cipher, Zeros(16));
    assert block[..0] == [] && block[0..] == block;
    hide Absorb, Xor;
    forall i | 0 <= i < 16 ensures XorSeq(Zeros(16), block)[i] == block[i] { ZeroXor(block[i]); }
    assert XorSeq(Zeros(16), block) == block;
    AbsorbBlock(cipher, Zeros(16), [], block);
    assert [] + block == block;
  }

  /** Whatever chain was in the state (acc, waiting) is completed to result. */
  ghost predicate Finished(cipher: Block -> Block, acc: Block, waiting: seq<byte>, result: Block) {
    forall start: Block, fed :: Chained(cipher, start, fed, acc, waiting) ==> result == Absorb(cipher, start, Pad(fed))
  }

  lemma FinishedChain(cipher: Block -> Block, start: Block, fed: seq<byte>, acc: Block, waiting: seq<byte>,
                      result: Block)
    requires Finished(cipher, acc, waiting, result) && Chained(cipher, start, fed, acc, waiting)
    ensures result == Absorb(cipher, start, Pad(fed)) && Chained(cipher, result, [], result, [])
  {
    hide Absorb, Pad;
    AbsorbNothing(cipher, result);
  }

  function XorPrefix(acc: Block, data: seq<byte>): Block
    requires |data| <= 16
  {
    XorSeq(acc[..|data|], data) + acc[|data|..]
  }

  lemma XorPrefixPads(acc: Block, data: seq<byte>)
    requires |data| <= 16
    ensures XorPrefix(acc, data) == XorSeq(acc, data + Zeros(16 - |data|))
  {
    hide Xor;
    forall i | 0 <= i < 16 ensures XorPrefix(acc, data)[i] == XorSeq(acc, data + Zeros(16 - |data|))[i] {
      if i >= |data| { XorZero(acc[i]); }
    }
  }

  lemma FinishAll(cipher: Block -> Block, acc: Block, waiting: seq<byte>)
    requires |waiting| < 16
    ensures forall start: Block, fed :: Chained(cipher, start, fed, acc, waiting) ==>
      (if waiting == [] then acc else cipher(XorSeq(acc, waiting + Zeros(16 - |waiting|))))
        == Absorb(cipher, start, Pad(fed))
  {
    hide Absorb, Chained, Pad;
    forall start: Block, fed | Chained(cipher, start, fed, acc, waiting)
      ensures (if waiting == [] then acc else cipher(XorSeq(acc, waiting + Zeros(16 - |waiting|))))
        == Absorb(cipher, start, Pad(fed))
    {
      ChainedFinish(cipher, start, fed, acc, waiting);
    }
  }

  /** Every chain in the state (acc, waiting) is extended by absorbing what is complete. */
  lemma ExtendAll(cipher: Block -> Block, acc: Block, waiting: seq<byte>, input: seq<byte>)
    ensures var all := waiting + input;
      var k := |all| - |all| % 16;
      forall start: Block, fed :: Chained(cipher, start, fed, acc, waiting) ==>
        Chained(cipher, start, fed + input, Absorb(cipher, acc, all[..k]), all[k..])
  {
    hide Absorb, Chained;
    forall start: Block, fed | Chained(cipher, start, fed, acc, waiting)
      ensures var all := waiting + input;
        var k := |all| - |all| % 16;
        Chained(cipher, start, fed + input, Absorb(cipher, acc, all[..k]), all[k..])
    {
      ChainedExtend(cipher, start, fed, acc, waiting, input);
    }
  }

  lemma KeepWaiting(cipher: Block -> Block, acc: Block, waiting: seq<byte>, input: seq<byte>)
    requires |waiting| + |input| < 16
    ensures forall start: Block, fed :: Chained(cipher, start, fed, acc, waiting) ==>
      Chained(cipher, start, fed + input, acc, waiting + input)
  {
    hide Absorb, Chained;
    ExtendAll(cipher, acc, waiting, input);
    AbsorbNothing(cipher, acc);
    assert (waiting + input)[..0] == [] && (waiting + input)[0..] == waiting + input;
  }

  /** Filling the waiting block and then absorbing the rest is absorbing all at once. */
  lemma FillThenRest(cipher: Block -> Block, acc: Block, waiting: seq<byte>, input: seq<byte>)
    requires 0 < |waiting| < 16 <= |waiting| + |input|
    ensures var all := waiting + input;
      var k := |all| - |all| % 16;
      var rest := input[16 - |waiting|..];
      var j := |rest| - |rest| % 16;
      |rest| % 16 == |all| % 16 && rest[j..] == all[k..] &&
      Absorb(cipher, Absorb(cipher, acc, waiting + input[..16 - |waiting|]), rest[..j]) == Absorb(cipher, acc, all[..k])
  {
    hide Absorb;
    var all, rest := waiting + input, input[16 - |waiting|..];
    var j, k := |rest| - |rest| % 16, |all| - |all| % 16;
    var first := waiting + input[..16 - |waiting|];
    assert all == first + rest;
    SplitWhole(first, rest, j);
    AbsorbConcat(cipher, acc, first, rest[..j]);
  }
}
