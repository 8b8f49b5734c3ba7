/** The encoder as a filter that is fed in pieces, and what encoder and decoder share. */
module BaseNFilters {
  import opened Bits
  import opened Bytes
  import opened BitStrings
  import opened BaseN

  // ---- counting bits and cells ----

  lemma {:induction false} SpanMonotone(a: nat, b: nat, width: nat)
    requires a <= b
    ensures Span(a, width) <= Span(b, width)
  {
    if a < b { SpanMonotone(a, b - 1, width); }
  }

  lemma {:induction false} SpanMultiple(n: nat, width: nat)
    requires 0 < width
    ensures Multiple(Span(n, width), width)
  {
    if n > 0 { SpanMultiple(n - 1, width); }
  }

  lemma {:induction false} MultipleSum(a: nat, b: nat, width: nat)
    requires 0 < width && Multiple(a, width) && Multiple(b, width)
    ensures Multiple(a + b, width)
  {
    if a > 0 { MultipleSum(a - width, b, width); }
  }

  /** The next multiple is a whole width on. */
  lemma {:induction false} MultipleGap(a: nat, b: nat, width: nat)
    requires 0 < width && Multiple(a, width) && Multiple(b, width) && a < b
    ensures a + width <= b
  {
    if a > 0 { MultipleGap(a - width, b - width, width); }
  }

  lemma {:induction false} FillingAfter(a: nat, b: nat, width: nat)
    requires 0 < width && Multiple(a, width)
    ensures Filling(a + b, width) == Filling(b, width)
  {
    if a > 0 { FillingAfter(a - width, b, width); }
  }

  /** The block has the bits of a whole number of characters and of bytes. */
  function BlockBits(k: nat): (n: nat)
    requires 0 < k < 8
    ensures n > 0
  {
    if k == 3 || k == 6 then 24 else if k == 5 then 40 else if k == 7 then 56 else 8
  }

  lemma {:induction false} MultipleOfLiteral(n: nat)
    requires n % 8 == 0
    ensures Multiple(n, 8)
  {
    if n > 0 { MultipleOfLiteral(n - 8); }
  }

  lemma BlockSpans(k: nat)
    requires 0 < k < 8
    ensures Span(BlockSize(k), k) == BlockBits(k) == Span(BlockBits(k) / 8, 8)
    ensures Multiple(BlockBits(k), 8) && Multiple(BlockBits(k), k)
  {
    SpanIsProduct(BlockSize(k), k);
    SpanIsProduct(BlockBits(k) / 8, 8);
    SpanMultiple(BlockSize(k), k);
    MultipleOfLiteral(BlockBits(k));
  }

  lemma WholeBlock(k: nat)
    requires 0 < k < 8
    ensures BlockBits(k) % k == 0 && BlockBits(k) % 8 == 0 && BlockBits(k) / k == BlockSize(k)
  {
  }

  /** No smaller number of whole bytes is a whole number of characters. */
  lemma LeastBlock(i: nat, k: nat)
    requires 0 < k < 8 && i % 8 == 0 && 0 < i <= BlockBits(k) && i % k == 0
    ensures i == BlockBits(k) && i / k == BlockSize(k)
  {
    if k == 3 {
      assert i % 3 == 0;
    } else if k == 5 {
      assert i % 5 == 0;
    } else if k == 6 {
      assert i % 6 == 0;
    } else if k == 7 {
      assert i % 7 == 0;
    }
    WholeBlock(k);
  }

  /** A block with a cell left has room for a whole further byte or character. */
  lemma Room(n: nat, width: nat, pos: nat, used: nat, p: nat, unit: nat)
    requires pos < n && used < width && p == Span(pos, width) + used
    requires 0 < unit && Multiple(p, unit) && Multiple(Span(n, width), unit)
    ensures p + unit <= Span(n, width)
  {
    SpanMonotone(pos + 1, n, width);
    MultipleGap(p, Span(n, width), unit);
  }

  lemma Inside(n: nat, width: nat, pos: nat, used: nat)
    requires Span(pos, width) + used <= Span(n, width) && 0 < width
    ensures pos <= n
    ensures Span(pos, width) + used < Span(n, width) ==> pos < n
    ensures pos == n ==> used == 0
  {
    if pos > n { SpanMonotone(n + 1, pos, width); }
  }

  /** The first bits of a byte's rest, shifted into place, and what is left of the byte. */
  lemma TopBits(rest: bits, t: nat, n: nat, b: byte)
    requires |rest| <= 8 && 0 < t <= 8 && n == (if |rest| < t then |rest| else t)
    requires b == ToNat(rest + Blank(8 - |rest|))
    ensures Shr(b, 8 - t) == ToNat(rest[..n] + Blank(t - n)) < 256
    ensures t <= |rest| ==> ShlByte(b, t) == ToNat(rest[t..] + Blank(8 - |rest[t..]|))
  {
    hide ToNat, ShlByte, Shr;
    var all := rest + Blank(8 - |rest|);
    var a, c := all[..t], all[t..];
    assert all == a + c && a == rest[..n] + Blank(t - n);
    ShrConcat(a, c);
    CellFits(a, t);
    assert Cell(a, t) == a;
    ShlConcat(a, c, t);
    if t <= |rest| { assert c + Blank(t) == rest[t..] + Blank(8 - |rest[t..]|); }
  }

  // ---- shared by both directions ----

  /** outBuf[pos] |= cell */
  method Combine(outBuf: array<byte>, pos: nat, cell: byte, ghost width: nat, ghost s: bits, ghost used: nat,
                 ghost y: bits)
    requires 0 < width <= 8 && pos < outBuf.Length
    requires outBuf[..] == Layout(width, outBuf.Length, s)
    requires |s| == Span(pos, width) + used && used < width && used + |y| <= width
    requires cell == ToNat(y + Blank(width - used - |y|))
    modifies outBuf
    ensures outBuf[..] == Layout(width, outBuf.Length, s + y)
  {
    hide Layout, Or, ToNat, Span;
    LayoutAppend(width, outBuf.Length, s, pos, used, y, cell);
    outBuf[pos] := Or(outBuf[pos], cell);
  }

  method Clear(outBuf: array<byte>, ghost width: nat)
    requires 0 < width <= 8
    modifies outBuf
    ensures outBuf[..] == Layout(width, outBuf.Length, [])
  {
    forall i | 0 <= i < outBuf.Length { outBuf[i] := 0; }
    LayoutBlank(width, outBuf.Length);
  }

  lemma Filled(pos: nat, width: nat)
    ensures Span(pos + 1, width) == Span(pos, width) + width
  {
  }

  function FirstByte(b: byte): (r: byte)
    ensures r == ToNat(ToBits(b, 8) + Blank(0))
  {
    ByteWidth();
    ToNatToBits(b, 8);
    assert ToBits(b, 8) + Blank(0) == ToBits(b, 8);
    b
  }

  lemma OneWidth(width: nat)
    requires 0 < width
    ensures Multiple(width, width) && Multiple(0, width)
  {
  }

  lemma NoSpan(width: nat)
    ensures Span(0, width) == 0
  {
  }

  lemma NoGroups(width: nat)
    requires 0 < width <= 8
    ensures Groups(width, []) == [] && AllBits([], width) == []
  {
  }

  lemma LastFilling(count: nat, width: nat)
    requires 0 < width && count <= width
    ensures Filling(count, width) == if count == 0 then 0 else width - count
  {
  }

  lemma MoreFlushed(alphabet: seq<byte>, k: nat, flushed: bits, pending: bits)
    requires 0 < k < 8 && |alphabet| == TwoTo(k)
    requires Multiple(|flushed|, k) && Multiple(|Groups(k, flushed)|, BlockSize(k))
    requires |pending| == Span(BlockSize(k), k) && |Groups(k, pending)| == BlockSize(k)
    ensures Multiple(|flushed + pending|, k) && Multiple(|Groups(k, flushed + pending)|, BlockSize(k))
    ensures Spelled(alphabet, Groups(k, flushed + pending))
         == Spelled(alphabet, Groups(k, flushed)) + Spelled(alphabet, Groups(k, pending))
  {
    hide Groups, Spelled, Multiple, Span;
    BlockSpans(k);
    OneWidth(BlockSize(k));
    GroupsConcat(k, flushed, pending);
    SpelledConcat(alphabet, Groups(k, flushed), Groups(k, pending));
    MultipleSum(|flushed|, |pending|, k);
    MultipleSum(|Groups(k, flushed)|, |Groups(k, pending)|, BlockSize(k));
  }

  /** The encoding of a message whose bits have been flushed up to the last block. */
  lemma EncodedInBlocks(alphabet: seq<byte>, k: nat, padding: int, data: seq<byte>, flushed: bits, pending: bits)
    requires 0 < k < 8 && |alphabet| == TwoTo(k) && -1 <= padding < 256
    requires flushed + pending == AllBits(data, 8)
    requires Multiple(|flushed|, k) && Multiple(|Groups(k, flushed)|, BlockSize(k))
    ensures var filling := if padding == -1 then [] else Repeat(padding, Filling(|Groups(k, pending)|, BlockSize(k)));
      Encoded(alphabet, k, padding, data)
      == Spelled(alphabet, Groups(k, flushed)) + Spelled(alphabet, Groups(k, pending)) + filling
  {
    hide Groups, AllBits, Spelled, Multiple, Filling;
    GroupsConcat(k, flushed, pending);
    SpelledConcat(alphabet, Groups(k, flushed), Groups(k, pending));
    FillingAfter(|Groups(k, flushed)|, |Groups(k, pending)|, BlockSize(k));
  }

  // ---- the encoder ----

  class Encoder {
    const alphabet: seq<byte>
    const bitsPerChar: nat
    const padding: int
    const outputBlockSize: nat
    const outBuf: array<byte>
    var bytePos: nat
    var bitPos: nat
    /** All that the attached filter has received. */
    var output: seq<byte>
    /** The current message so far, what had been output before it, and its bits inside and behind the buffer. */
    ghost var message: seq<byte>
    ghost var sent: seq<byte>
    ghost var flushed: bits
    ghost var pending: bits

    ghost predicate Configured() {
      && 0 < bitsPerChar < 8 && |alphabet| == TwoTo(bitsPerChar) && -1 <= padding < 256
      && outputBlockSize == BlockSize(bitsPerChar) && outBuf.Length == outputBlockSize
    }

    ghost predicate Held()
      requires Configured()
      reads this, outBuf
    {
      && bitPos < bitsPerChar && |pending| == Span(bytePos, bitsPerChar) + bitPos
      && outBuf[..] == Layout(bitsPerChar, outputBlockSize, pending)
    }

    ghost predicate Sent()
      requires Configured()
      reads this
    {
      && flushed + pending == AllBits(message, 8)
      && Multiple(|flushed|, bitsPerChar) && Multiple(|Groups(bitsPerChar, flushed)|, outputBlockSize)
      && output == sent + Spelled(alphabet, Groups(bitsPerChar, flushed))
    }

    /** An empty buffer may hold what was sent last. */
    ghost predicate Valid()
      reads this, outBuf
    {
      && Configured() && Sent() && bytePos < outputBlockSize && Multiple(|pending|, 8)
      && (bytePos == 0 ==> bitPos == 0 && pending == [])
      && (bytePos > 0 ==> Held())
    }

    constructor (a: seq<byte>, k: nat, pad: int)
      requires 0 < k < 8 && |a| == TwoTo(k) && -1 <= pad < 256
      ensures Valid() && alphabet == a && bitsPerChar == k && padding == pad
      ensures message == [] && sent == [] && output == [] && fresh(outBuf)
    {
      alphabet, bitsPerChar, padding := a, k, pad;
      var i: nat := 8;
      while i % k != 0
        invariant i % 8 == 0 && 0 < i <= BlockBits(k)
        decreases BlockBits(k) - i
      {
        WholeBlock(k);
        i := i + 8;
      }
      LeastBlock(i, k);
      outputBlockSize := i / k;
      outBuf := new byte[i / k];
      bytePos, bitPos, output := 0, 0, [];
      message, sent, flushed, pending := [], [], [], [];
    }

    /** Spreads the bits of a byte over the characters. */
    method PutByte(b0: byte)
      requires Configured() && Held() && Multiple(|pending|, 8) && bytePos < outputBlockSize
      modifies `bytePos, `bitPos, `pending, outBuf
      ensures Held() && bytePos <= outputBlockSize
      ensures pending == old(pending) + ToBits(b0, 8)
      ensures Multiple(|pending|, 8)
      ensures bytePos == outputBlockSize ==> bitPos == 0
    {
      hide Layout, ToNat, ToBits, Or, ShlByte, Shr, Span, Multiple, Blank, TwoTo;
      var n := outputBlockSize;
      BlockSpans(bitsPerChar);
      Room(n, bitsPerChar, bytePos, bitPos, |pending|, 8);
      var b: byte := FirstByte(b0);
      var bitsLeftInSource: nat := 8;
      ghost var before, all := pending, ToBits(b0, 8);
      ghost var rest := all;
      MultipleSum(|pending|, 8, 8) by { MultipleOfLiteral(8); }
      while true
        invariant |rest| == bitsLeftInSource && 0 < bitsLeftInSource <= 8
        invariant pending + rest == before + all
        invariant b == ToNat(rest + Blank(8 - |rest|))
        invariant Held()
        decreases bitsLeftInSource
      {
        Inside(n, bitsPerChar, bytePos, bitPos);
        var bitsLeftInTarget := bitsPerChar - bitPos;
        ghost var taken := if bitsLeftInSource < bitsLeftInTarget then bitsLeftInSource else bitsLeftInTarget;
        TopBits(rest, bitsLeftInTarget, taken, b);
        Combine(outBuf, bytePos, Shr(b, 8 - bitsLeftInTarget), bitsPerChar, pending, bitPos, rest[..taken]);
        pending := pending + rest[..taken];
        rest := rest[taken..];
        Filled(bytePos, bitsPerChar);
        if bitsLeftInSource >= bitsLeftInTarget {
          bitPos := 0;
          bytePos := bytePos + 1;
          bitsLeftInSource := bitsLeftInSource - bitsLeftInTarget;
          if bitsLeftInSource == 0 { break; }
          b := ShlByte(b, bitsLeftInTarget);
        } else {
          bitPos := bitPos + bitsLeftInSource;
          break;
        }
      }
      assert rest == [];
      assert pending == before + all;
      Inside(n, bitsPerChar, bytePos, bitPos);
    }

    /** Sends the characters of the first `count` cells. */
    method SpellOut(count: nat, ghost digits: seq<byte>)
      requires Configured() && count <= outputBlockSize && digits == outBuf[..count]
      requires forall i :: 0 <= i < count ==> digits[i] < |alphabet|
      modifies outBuf
      ensures outBuf[..count] == Spelled(alphabet, digits)
    {
      for i := 0 to count
        invariant forall j :: 0 <= j < i ==> outBuf[j] == alphabet[digits[j]]
        invariant forall j :: i <= j < count ==> outBuf[j] == digits[j]
      {
        outBuf[i] := alphabet[outBuf[i]];
      }
    }

    method FlushBlock()
      requires Configured() && Held() && Sent() && bytePos == outputBlockSize && bitPos == 0
      modifies this, outBuf
      ensures Valid() && message == old(message) && sent == old(sent)
    {
      hide Groups, AllBits, Layout, Spelled, Span, Multiple;
      ghost var digits := Groups(bitsPerChar, pending);
      LayoutGroups(bitsPerChar, outputBlockSize, pending, outputBlockSize, 0);
      SpellOut(bytePos, digits);
      MoreFlushed(alphabet, bitsPerChar, flushed, pending);
      OneWidth(8);
      output := output + outBuf[..outputBlockSize];
      bytePos, bitPos := 0, 0;
      flushed, pending := flushed + pending, [];
      assert flushed + pending == flushed;
    }

    method Put(begin: seq<byte>, messageEnd: bool)
      requires Valid()
      modifies this, outBuf
      ensures Valid()
      ensures !messageEnd ==> message == old(message) + begin && sent == old(sent)
      ensures messageEnd ==> message == [] && sent == output
      ensures messageEnd ==> output == old(sent) + Encoded(alphabet, bitsPerChar, padding, old(message) + begin)
    {
      hide AllBits, Valid;
      for i := 0 to |begin|
        invariant Valid() && message == old(message) + begin[..i] && sent == old(sent)
      {
        PutOne(begin[i]);
        assert begin[..i + 1] == begin[..i] + [begin[i]];
      }
      assert begin[..|begin|] == begin;
      if messageEnd { EndMessage(); }
    }

    method PutOne(b: byte)
      requires Valid()
      modifies this, outBuf
      ensures Valid() && message == old(message) + [b] && sent == old(sent)
    {
      hide Layout, Groups, AllBits, Spelled, Span, ToBits, Multiple;
      NoSpan(bitsPerChar);
      if bytePos == 0 { Clear(outBuf, bitsPerChar); }
      PutByte(b);
      AllBitsConcat(message, [b], 8);
      OneByte(b, 8);
      message := message + [b];
      assert flushed + pending == AllBits(message, 8);
      if bytePos == outputBlockSize { FlushBlock(); }
    }

    /** The characters of the last block, padded if they are to be. */
    method EndMessage()
      requires Valid()
      modifies this, outBuf
      ensures Valid() && message == [] && sent == output
      ensures output == old(sent) + Encoded(alphabet, bitsPerChar, padding, old(message))
    {
      hide Groups, Layout, AllBits, Spelled, Span, Multiple, Filling, Encoded;
      ghost var digits := Groups(bitsPerChar, pending);
      EncodedInBlocks(alphabet, bitsPerChar, padding, message, flushed, pending);
      if bytePos > 0 {
        LayoutGroups(bitsPerChar, outputBlockSize, pending, bytePos, bitPos);
      } else {
        NoGroups(bitsPerChar);
      }
      if bitPos > 0 { bytePos := bytePos + 1; }
      PadOut(digits);
      output := output + outBuf[..bytePos];
      bytePos, bitPos := 0, 0;
      StartOver();
    }

    method PadOut(ghost digits: seq<byte>)
      requires Configured() && bytePos <= outputBlockSize && digits == outBuf[..bytePos]
      requires forall i :: 0 <= i < |digits| ==> digits[i] < |alphabet|
      modifies `bytePos, outBuf
      ensures bytePos <= outputBlockSize
      ensures outBuf[..bytePos]
           == Spelled(alphabet, digits)
              + if padding == -1 then [] else Repeat(padding, Filling(|digits|, outputBlockSize))
    {
      hide Spelled, Filling;
      SpellOut(bytePos, digits);
      LastFilling(bytePos, outputBlockSize);
      if padding != -1 && bytePos > 0 {
        forall i | bytePos <= i < outputBlockSize { outBuf[i] := padding; }
        bytePos := outputBlockSize;
      }
    }

    ghost method StartOver()
      requires Configured() && bytePos == 0 && bitPos == 0
      modifies `message, `sent, `flushed, `pending
      ensures Valid() && message == [] && sent == output
    {
      message, sent, flushed, pending := [], output, [], [];
      NoGroups(bitsPerChar);
      assert sent + Spelled(alphabet, []) == sent;
    }
  }

  /** Fails for a number of bits outside 1 to 7. */
  method NewEncoder(alphabet: seq<byte>, log2Base: int, padding: int) returns (e: Encoder?)
    requires 0 < log2Base < 8 ==> |alphabet| == TwoTo(log2Base)
    requires -1 <= padding < 256
    ensures e == null <==> !(0 < log2Base < 8)
    ensures e != null ==> fresh(e) && fresh(e.outBuf) && e.Valid() && e.message == [] && e.sent == [] && e.output == []
    ensures e != null ==> e.alphabet == alphabet && e.bitsPerChar == log2Base && e.padding == padding
  {
    if log2Base <= 0 || log2Base >= 8 { return null; }
    e := new Encoder(alphabet, log2Base, padding);
  }
}
