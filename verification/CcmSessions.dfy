/** Whole encryptions and decryptions with the CCM object, under every way of splitting the input. */
module CcmSessions {
  import opened Bits
  import opened Bytes
  import opened CbcMac
  import opened Ccm

  lemma {:induction false} FlattenPrefix(chunks: seq<seq<byte>>, i: nat)
    requires i <= |chunks|
    ensures |Flatten(chunks[..i])| <= |Flatten(chunks)|
  {
    if i == |chunks| {
      assert chunks[..i] == chunks;
    } else {
      var n := |chunks| - 1;
      FlattenPrefix(chunks[..n], i);
      assert chunks[..n][..i] == chunks[..i];
    }
  }

  /** The text that is authenticated when the whole of data is processed. */
  ghost function PlainOf(suite: Suite, nonce: seq<byte>, forward: bool, data: seq<byte>): (r: seq<byte>)
    requires ValidNonce(nonce)
    ensures |r| == |data|
  {
    if forward then data else Masked(suite, nonce, 16, data)
  }

  lemma PlainOfConcat(suite: Suite, nonce: seq<byte>, forward: bool, a: seq<byte>, b: seq<byte>)
    requires ValidNonce(nonce)
    ensures PlainOf(suite, nonce, forward, a + b)
      == PlainOf(suite, nonce, forward, a) + if forward then b else Masked(suite, nonce, 16 + |a|, b)
  {
    hide Masked;
    MaskedConcat(suite, nonce, 16, a, b);
  }

  method FeedHeader(ccm: CcmCipher, chunks: seq<seq<byte>>)
    requires ccm.Valid() && ccm.state.IVSet? && ccm.intact && ccm.header == [] && ccm.message == []
    modifies ccm, ccm.buffer
    ensures ccm.Valid() && ccm.state.IVSet? && ccm.intact
    ensures ccm.header == Flatten(chunks) && ccm.message == []
    ensures ccm.nonce == old(ccm.nonce) && ccm.aadLength == old(ccm.aadLength)
    ensures ccm.messageLength == old(ccm.messageLength) && ccm.lengthSize == old(ccm.lengthSize)
  {
    hide CcmCipher.Valid, CcmCipher.InStep, MaxMessageLength;
    for i := 0 to |chunks|
      invariant ccm.Valid() && ccm.state.IVSet? && ccm.intact
      invariant ccm.header == Flatten(chunks[..i]) && ccm.message == []
      invariant ccm.nonce == old(ccm.nonce) && ccm.aadLength == old(ccm.aadLength)
      invariant ccm.messageLength == old(ccm.messageLength) && ccm.lengthSize == old(ccm.lengthSize)
    {
      FlattenNext(chunks, i);
      var status := ccm.Update(chunks[i]);
    }
    assert chunks[..|chunks|] == chunks;
  }

  /** The totals an object in order keeps. */
  lemma Totals(ccm: CcmCipher)
    requires ccm.Valid() && ccm.state.Resynchronized() && ccm.intact
    ensures ValidNonce(ccm.nonce) && ccm.totalMessageLength == |ccm.message| && ccm.totalHeaderLength == |ccm.header|
    ensures ccm.totalMessageLength <= MaxMessageLength(ccm.lengthSize) && ccm.lengthSize == 15 - |ccm.nonce|
    ensures !ccm.state.AuthFooter? ==> ccm.totalFooterLength == 0
  {
  }

  method FeedChunk(ccm: CcmCipher, chunk: seq<byte>) returns (text: seq<byte>)
    requires ccm.Valid() && (ccm.state.IVSet? || ccm.state.Authenticating()) && ccm.intact && ValidNonce(ccm.nonce)
    requires ccm.aadLength == |ccm.header| && |ccm.message| + |chunk| <= MaxMessageLength(ccm.lengthSize)
    modifies ccm, ccm.buffer
    ensures ccm.Valid() && ccm.state.Authenticating() && ccm.intact
    ensures ccm.nonce == old(ccm.nonce) && ccm.header == old(ccm.header) && ccm.aadLength == old(ccm.aadLength)
    ensures ccm.messageLength == old(ccm.messageLength) && ccm.lengthSize == old(ccm.lengthSize)
    ensures ccm.message == old(ccm.message) + old(ccm.Plain(chunk))
    ensures text == Masked(ccm.suite, ccm.nonce, 16 + |old(ccm.message)|, chunk)
  {
    hide CcmCipher.Valid, CcmCipher.InStep, MaxMessageLength, Masked;
    Totals(ccm);
    var a := new byte[|chunk|];
    Store(a, 0, chunk);
    assert a[..] == chunk;
    var status := ccm.ProcessData(a, a);
    text := a[..];
  }

  method FeedData(ccm: CcmCipher, chunks: seq<seq<byte>>) returns (output: seq<seq<byte>>)
    requires ccm.Valid() && ccm.state.IVSet? && ccm.intact && ccm.message == [] && ValidNonce(ccm.nonce)
    requires ccm.aadLength == |ccm.header| && |Flatten(chunks)| <= MaxMessageLength(ccm.lengthSize)
    modifies ccm, ccm.buffer
    ensures ccm.Valid() && (ccm.state.IVSet? || ccm.state.Authenticating()) && ccm.intact
    ensures ccm.nonce == old(ccm.nonce) && ccm.header == old(ccm.header) && ccm.aadLength == old(ccm.aadLength)
    ensures ccm.messageLength == old(ccm.messageLength)
    ensures ccm.message == PlainOf(ccm.suite, ccm.nonce, ccm.forward, Flatten(chunks))
    ensures Flatten(output) == Masked(ccm.suite, ccm.nonce, 16, Flatten(chunks))
  {
    hide CcmCipher.Valid, CcmCipher.InStep, MaxMessageLength, Masked, Xor;
    output := [];
    for i := 0 to |chunks|
      invariant ccm.Valid() && (ccm.state.IVSet? || ccm.state.Authenticating()) && ccm.intact
      invariant ccm.nonce == old(ccm.nonce) && ccm.header == old(ccm.header) && ccm.aadLength == old(ccm.aadLength)
      invariant ccm.messageLength == old(ccm.messageLength) && ccm.lengthSize == old(ccm.lengthSize)
      invariant ccm.message == PlainOf(ccm.suite, ccm.nonce, ccm.forward, Flatten(chunks[..i]))
      invariant Flatten(output) == Masked(ccm.suite, ccm.nonce, 16, Flatten(chunks[..i]))
    {
      ghost var done := Flatten(chunks[..i]);
      FlattenNext(chunks, i);
      FlattenPrefix(chunks, i + 1);
      PlainOfConcat(ccm.suite, ccm.nonce, ccm.forward, done, chunks[i]);
      MaskedConcat(ccm.suite, ccm.nonce, 16, done, chunks[i]);
      var text := FeedChunk(ccm, chunks[i]);
      assert (output + [text])[..|output|] == output;
      output := output + [text];
    }
    assert chunks[..|chunks|] == chunks;
  }

  /** A whole session with one object, in either direction. */
  method Session(suite: Suite, digestSize: nat, forward: bool, nonce: seq<byte>, header: seq<seq<byte>>,
                 data: seq<seq<byte>>, macSize: nat)
    returns (output: seq<seq<byte>>, mac: seq<byte>)
    requires ValidDigest(digestSize) && ValidNonce(nonce) && macSize <= digestSize
    requires |Flatten(header)| < 0x1_0000_0000_0000_0000 && |Flatten(data)| <= MaxMessageLength(15 - |nonce|)
    ensures Flatten(output) == Masked(suite, nonce, 16, Flatten(data))
    ensures mac == Tag(suite, nonce, digestSize, Flatten(header), PlainOf(suite, nonce, forward, Flatten(data)),
                       macSize)
  {
    hide CcmCipher.Valid, MaxMessageLength, Masked, Tag, CcmCipher.InStep;
    var ccm := new CcmCipher(suite, digestSize, forward);
    var status := ccm.Resynchronize(nonce);
    NonceSize(ccm);
    MaxFits(ccm.lengthSize);
    status := ccm.SpecifyDataLengths(|Flatten(header)|, |Flatten(data)|);
    NonceSize(ccm);
    FeedHeader(ccm, header);
    output := FeedData(ccm, data);
    Totals(ccm);
    status, mac := ccm.TruncatedFinal(macSize);
  }

  lemma NonceSize(ccm: CcmCipher)
    requires ccm.Valid() && ccm.state.Resynchronized()
    ensures ValidNonce(ccm.nonce) && ccm.lengthSize == 15 - |ccm.nonce|
  {
  }

  lemma MaxFits(size: nat)
    requires 2 <= size <= 8
    ensures MaxMessageLength(size) < 0x1_0000_0000_0000_0000
  {
    hide TwoTo;
    SmallPowers();
    if size < 8 { TwoToGrows(8 * size, 56); }
  }

  lemma SmallPowers()
    ensures TwoTo(56) == 0x100_0000_0000_0000
  {
    hide TwoTo;
    SevenBits();
    TwoToSum(7, 7);
    TwoToSum(14, 14);
    TwoToSum(28, 28);
  }

  lemma SevenBits()
    ensures TwoTo(7) == 128
  {
    assert TwoTo(4) == 16;
  }

  /** Encrypting under one split of header and message, and decrypting the cipher text under any other,
      gives the message back and the same tag, which is the one of the whole strings. */
  method SealThenOpen(suite: Suite, digestSize: nat, nonce: seq<byte>, header: seq<seq<byte>>,
                      message: seq<seq<byte>>, macSize: nat, header2: seq<seq<byte>>, cut: seq<seq<byte>>)
    returns (sealed: seq<seq<byte>>, mac: seq<byte>, text: seq<seq<byte>>, mac2: seq<byte>)
    requires ValidDigest(digestSize) && ValidNonce(nonce) && macSize <= digestSize
    requires |Flatten(header)| < 0x1_0000_0000_0000_0000 && |Flatten(message)| <= MaxMessageLength(15 - |nonce|)
    requires Flatten(header2) == Flatten(header)
    requires Flatten(cut) == CipherText(suite, nonce, Flatten(message))
    ensures Flatten(sealed) == Flatten(cut) && Flatten(text) == Flatten(message) && mac == mac2
    ensures mac == Tag(suite, nonce, digestSize, Flatten(header), Flatten(message), macSize)
  {
    hide Masked, Tag, MaxMessageLength;
    sealed, mac := Session(suite, digestSize, true, nonce, header, message, macSize);
    MaskedTwice(suite, nonce, 16, Flatten(message));
    text, mac2 := Session(suite, digestSize, false, nonce, header2, cut, macSize);
  }
}
