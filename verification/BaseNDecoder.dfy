/** The decoder and the grouper as filters that are fed in pieces. */
module BaseNDecoder {
  import opened Bits
  import opened Bytes
  import opened BitStrings
  import opened BaseN
  import opened BaseNFilters

  lemma ShlShort(y: bits, n: nat)
    requires |y| + n <= 8
    ensures ShlByte(ToNat(y), n) == ToNat(y + Blank(n)) < 256
  {
    hide ToNat, TwoTo, Cell;
    ToNatConcat(y, Blank(n));
    ToNatBlank(n);
    CellFits(y + Blank(n), |y| + n);
    ShortCell(y + Blank(n), |y| + n);
    assert y + Blank(n) + Blank(0) == y + Blank(n);
  }

  /** A character's bits that do not fit into the byte at hand, split over it and the next. */
  lemma Straddles(y: bits, value: byte, room: nat)
    requires room < |y| <= 8 && value == ToNat(y)
    ensures Shr(value, |y| - room) == ToNat(y[..room] + Blank(0)) < 256
    ensures ShlByte(value, 8 - |y| + room) == ToNat(y[room..] + Blank(8 - |y| + room))
  {
    hide ToNat, ShlByte, Shr;
    var a, c := y[..room], y[room..];
    assert y == a + c && a + Blank(0) == a;
    ShrConcat(a, c);
    CellFits(a, room);
    assert Cell(a, room) == a;
    ShlConcat(a, c, 8 - |y| + room);
  }

  lemma WholeFlushed(flushed: bits, pending: bits)
    requires Multiple(|flushed|, 8)
    ensures WholeGroups(8, flushed + pending) == WholeGroups(8, flushed) + WholeGroups(8, pending)
  {
    GroupsConcat(8, flushed, pending);
  }

  lemma ValueAppend(lookup: seq<int>, chars: seq<byte>, c: byte)
    requires |lookup| == 256
    ensures Values(lookup, chars + [c]) == Values(lookup, chars) + if 0 <= lookup[c] < 256 then [lookup[c]] else []
  {
    assert (chars + [c])[..|chars|] == chars;
  }

  class Decoder {
    const lookup: seq<int>
    const bitsPerChar: nat
    const outputBlockSize: nat
    const outBuf: array<byte>
    var bytePos: nat
    var bitPos: nat
    var output: seq<byte>
    ghost var message: seq<byte>
    ghost var sent: seq<byte>
    ghost var flushed: bits
    ghost var pending: bits

    /** Every character that has a value has one of bitsPerChar bits. */
    ghost predicate Configured() {
      && 0 < bitsPerChar < 8 && |lookup| == 256
      && (forall c: byte :: 0 <= lookup[c] < 256 ==> lookup[c] < TwoTo(bitsPerChar))
      && 8 * outputBlockSize == BlockBits(bitsPerChar) && outBuf.Length == outputBlockSize
    }

    ghost predicate Held()
      requires Configured()
      reads this, outBuf
    {
      && bitPos < 8 && |pending| == Span(bytePos, 8) + bitPos
      && outBuf[..] == Layout(8, outputBlockSize, pending)
    }

    ghost predicate Sent()
      requires Configured()
      reads this
    {
      && flushed + pending == AllBits(Values(lookup, message), bitsPerChar)
      && Multiple(|flushed|, 8)
      && output == sent + WholeGroups(8, flushed)
    }

    /** An empty buffer may hold what was sent last. */
    ghost predicate Valid()
      reads this, outBuf
    {
      && Configured() && Sent() && bytePos < outputBlockSize && Multiple(|pending|, bitsPerChar)
      && (bytePos == 0 && bitPos == 0 ==> pending == [])
      && (bytePos > 0 || bitPos > 0 ==> Held())
    }

    constructor (table: seq<int>, k: nat)
      requires 0 < k < 8 && |table| == 256
      requires forall c: byte :: 0 <= table[c] < 256 ==> table[c] < TwoTo(k)
      ensures Valid() && lookup == table && bitsPerChar == k
      ensures message == [] && sent == [] && output == [] && fresh(outBuf)
    {
      lookup, bitsPerChar := table, k;
      var i: nat := k;
      ghost var n: nat := 1;
      while i % 8 != 0
        invariant i == n * k && 0 < i <= BlockBits(k)
        decreases BlockBits(k) - i
      {
        i := i + k;
        n := n + 1;
      }
      assert i == BlockBits(k);
      outputBlockSize := i / 8;
      outBuf := new byte[i / 8];
      bytePos, bitPos, output := 0, 0, [];
      message, sent, flushed, pending := [], [], [], [];
      new;
      NoGroups(bitsPerChar);
    }

    /** Adds the bits of a character's value, which may spill into the next byte. */
    method PutValue(value: byte)
      requires Configured() && Held() && Multiple(|pending|, bitsPerChar) && bytePos < outputBlockSize
      requires value < TwoTo(bitsPerChar)
      modifies `bytePos, `bitPos, `pending, outBuf
      ensures Held() && bytePos <= outputBlockSize
      ensures pending == old(pending) + ToBits(value, bitsPerChar)
      ensures Multiple(|pending|, bitsPerChar)
      ensures bytePos == outputBlockSize ==> bitPos == 0
    {
      hide Layout, ToNat, ToBits, Multiple, Span;
      ghost var n := outputBlockSize;
      Capacity(bitsPerChar, n);
      Room(n, 8, bytePos, bitPos, |pending|, bitsPerChar);
      OneWidth(bitsPerChar);
      MultipleSum(|pending|, bitsPerChar, bitsPerChar);
      CombineValue(value);
      Advance(bitPos + bitsPerChar);
      Inside(n, 8, bytePos, bitPos);
    }

    /** The value goes into the byte at hand, or into that and the next. */
    method CombineValue(value: byte)
      requires Configured() && Held() && bytePos < outputBlockSize && value < TwoTo(bitsPerChar)
      requires |pending| + bitsPerChar <= Span(outputBlockSize, 8)
      modifies `pending, outBuf
      ensures pending == old(pending) + ToBits(value, bitsPerChar)
      ensures outBuf[..] == Layout(8, outputBlockSize, pending)
    {
      hide Layout, ToNat, ToBits, Or, ShlByte, Shr, Blank, Span;
      ghost var y := ToBits(value, bitsPerChar);
      ToNatToBits(value, bitsPerChar);
      var newBitPos := bitPos + bitsPerChar;
      if newBitPos <= 8 {
        ShlShort(y, 8 - newBitPos);
        Combine(outBuf, bytePos, ShlByte(value, 8 - newBitPos), 8, pending, bitPos, y);
        pending := pending + y;
      } else {
        ghost var room := 8 - bitPos;
        Straddles(y, value, room);
        Combine(outBuf, bytePos, Shr(value, newBitPos - 8), 8, pending, bitPos, y[..room]);
        Filled(bytePos, 8);
        Inside(outputBlockSize, 8, bytePos + 1, newBitPos - 8);
        Combine(outBuf, bytePos + 1, ShlByte(value, 16 - newBitPos), 8, pending + y[..room], 0, y[room..]);
        assert pending + y[..room] + y[room..] == pending + y;
        pending := pending + y;
      }
    }

    method Advance(newBitPos: nat)
      requires |pending| == Span(bytePos, 8) + newBitPos
      modifies `bytePos, `bitPos
      ensures |pending| == Span(bytePos, 8) + bitPos && bitPos < 8
    {
      bitPos := newBitPos;
      while bitPos >= 8
        invariant |pending| == Span(bytePos, 8) + bitPos
        decreases bitPos
      {
        bitPos := bitPos - 8;
        bytePos := bytePos + 1;
      }
    }

    method FlushBlock()
      requires Configured() && Held() && Sent() && bytePos == outputBlockSize && bitPos == 0
      modifies this, outBuf
      ensures Valid() && message == old(message) && sent == old(sent)
    {
      hide WholeGroups, AllBits, Layout, Span, Multiple, Values;
      LayoutWholeGroups(8, outputBlockSize, pending, outputBlockSize, 0);
      WholeFlushed(flushed, pending);
      SpanMultiple(outputBlockSize, 8);
      MultipleSum(|flushed|, |pending|, 8);
      OneWidth(bitsPerChar);
      output := output + outBuf[..outputBlockSize];
      bytePos, bitPos := 0, 0;
      flushed, pending := flushed + pending, [];
      assert flushed + pending == flushed;
    }

    method PutOne(c: byte)
      requires Valid()
      modifies this, outBuf
      ensures Valid() && message == old(message) + [c] && sent == old(sent)
    {
      hide Layout, WholeGroups, AllBits, Span, ToBits, Multiple, Values;
      ValueAppend(lookup, message, c);
      ghost var values := Values(lookup, message);
      message := message + [c];
      var value := lookup[c];
      if value < 0 || value >= 256 {
        assert values + [] == values;
        return;
      }
      NoSpan(8);
      if bytePos == 0 && bitPos == 0 { Clear(outBuf, 8); }
      PutValue(value);
      AllBitsConcat(values, [value], bitsPerChar);
      OneByte(value, bitsPerChar);
      assert flushed + pending == AllBits(Values(lookup, message), bitsPerChar);
      if bytePos == outputBlockSize { FlushBlock(); }
    }

    method Put(begin: seq<byte>, messageEnd: bool)
      requires Valid()
      modifies this, outBuf
      ensures Valid()
      ensures !messageEnd ==> message == old(message) + begin && sent == old(sent)
      ensures messageEnd ==> message == [] && sent == output
      ensures messageEnd ==> output == old(sent) + Decoded(lookup, bitsPerChar, old(message) + begin)
    {
      hide AllBits, Valid, Decoded;
      for i := 0 to |begin|
        invariant Valid() && message == old(message) + begin[..i] && sent == old(sent)
      {
        PutOne(begin[i]);
        assert begin[..i + 1] == begin[..i] + [begin[i]];
      }
      assert begin[..|begin|] == begin;
      if messageEnd { EndMessage(); }
    }

    /** The whole bytes of the last block; the few bits behind them are dropped. */
    method EndMessage()
      requires Valid()
      modifies this, outBuf
      ensures Valid() && message == [] && sent == output
      ensures output == old(sent) + Decoded(lookup, bitsPerChar, old(message))
    {
      hide WholeGroups, Layout, AllBits, Span, Multiple, Values;
      WholeFlushed(flushed, pending);
      if bytePos > 0 || bitPos > 0 {
        LayoutWholeGroups(8, outputBlockSize, pending, bytePos, bitPos);
      } else {
        NoWholeGroups();
      }
      assert outBuf[..bytePos] == WholeGroups(8, pending);
      output := output + outBuf[..bytePos];
      bytePos, bitPos := 0, 0;
      StartOver();
    }

    ghost method StartOver()
      requires Configured() && bytePos == 0 && bitPos == 0
      modifies `message, `sent, `flushed, `pending
      ensures Valid() && message == [] && sent == output
    {
      message, sent, flushed, pending := [], output, [], [];
      NoGroups(bitsPerChar);
      NoWholeGroups();
      assert sent + [] == sent;
    }
  }

  /** Fails for a number of bits outside 1 to 7. */
  method NewDecoder(lookup: seq<int>, log2Base: int) returns (d: Decoder?)
    requires |lookup| == 256
    requires 0 < log2Base < 8 ==> forall c: byte :: 0 <= lookup[c] < 256 ==> lookup[c] < TwoTo(log2Base)
    ensures d == null <==> !(0 < log2Base < 8)
    ensures d != null ==> fresh(d) && fresh(d.outBuf) && d.Valid() && d.message == [] && d.sent == [] && d.output == []
    ensures d != null ==> d.lookup == lookup && d.bitsPerChar == log2Base
  {
    if log2Base <= 0 || log2Base >= 8 { return null; }
    d := new Decoder(lookup, log2Base);
  }

  lemma NoWholeGroups()
    ensures WholeGroups(8, []) == []
  {
  }

  lemma Capacity(k: nat, n: nat)
    requires 0 < k < 8 && 8 * n == BlockBits(k)
    ensures Multiple(Span(n, 8), k)
  {
    BlockSpans(k);
  }

  // ---- the grouper ----

  /** How many bytes the last group of n bytes has. */
  function LastGroup(n: nat, size: nat): (r: nat)
    requires 0 < size
    ensures r <= size && (n > 0 ==> r > 0)
  {
    if n <= size then n else LastGroup(n - size, size)
  }

  lemma GroupedStep(size: nat, separator: seq<byte>, data: seq<byte>, more: seq<byte>)
    requires 0 < size < |data|
    ensures Grouped(size, separator, data) == data[..size] + separator + Grouped(size, separator, data[size..])
    ensures Grouped(size, separator, data + more)
         == data[..size] + separator + Grouped(size, separator, data[size..] + more)
    ensures LastGroup(|data|, size) == LastGroup(|data[size..]|, size)
    ensures LastGroup(|data + more|, size) == LastGroup(|data[size..] + more|, size)
  {
    assert (data + more)[..size] == data[..size] && (data + more)[size..] == data[size..] + more;
  }

  /** Bytes that fit into the last group follow it directly. */
  lemma {:induction false} GroupedFits(size: nat, separator: seq<byte>, data: seq<byte>, more: seq<byte>)
    requires 0 < size && LastGroup(|data|, size) + |more| <= size
    ensures Grouped(size, separator, data + more) == Grouped(size, separator, data) + more
    ensures LastGroup(|data + more|, size) == LastGroup(|data|, size) + |more|
    decreases |data|
  {
    if |data| > size {
      hide Grouped, LastGroup;
      var front, rest := data[..size] + separator, data[size..];
      GroupedStep(size, separator, data, more);
      GroupedFits(size, separator, rest, more);
      assert front + (Grouped(size, separator, rest) + more) == front + Grouped(size, separator, rest) + more;
    }
  }

  lemma GroupedTwo(size: nat, separator: seq<byte>, data: seq<byte>, more: seq<byte>)
    requires |data| == size && 0 < |more| <= size
    ensures Grouped(size, separator, data + more) == Grouped(size, separator, data) + separator + more
    ensures LastGroup(|data + more|, size) == |more|
  {
    assert (data + more)[..size] == data && (data + more)[size..] == more;
  }

  /** Behind a full group a separator comes first. */
  lemma {:induction false} GroupedFull(size: nat, separator: seq<byte>, data: seq<byte>, more: seq<byte>)
    requires 0 < size && LastGroup(|data|, size) == size && 0 < |more| <= size
    ensures Grouped(size, separator, data + more) == Grouped(size, separator, data) + separator + more
    ensures LastGroup(|data + more|, size) == |more|
    decreases |data|
  {
    if |data| > size {
      hide Grouped, LastGroup;
      var front, rest := data[..size] + separator, data[size..];
      GroupedStep(size, separator, data, more);
      GroupedFull(size, separator, rest, more);
      assert front + (Grouped(size, separator, rest) + separator + more)
        == front + Grouped(size, separator, rest) + separator + more;
    } else {
      GroupedTwo(size, separator, data, more);
    }
  }

  class Grouper {
    const groupSize: nat
    const separator: seq<byte>
    const terminator: seq<byte>
    var counter: nat
    var output: seq<byte>
    ghost var message: seq<byte>
    ghost var sent: seq<byte>

    ghost predicate Valid()
      reads this
    {
      && output == sent + Grouped(groupSize, separator, message)
      && (groupSize > 0 ==> counter == LastGroup(|message|, groupSize))
    }

    constructor (size: nat, sep: seq<byte>, term: seq<byte>)
      ensures Valid() && groupSize == size && separator == sep && terminator == term
      ensures message == [] && sent == [] && output == []
    {
      groupSize, separator, terminator := size, sep, term;
      counter, output, message, sent := 0, [], [], [];
    }

    method Put(begin: seq<byte>, messageEnd: bool)
      requires Valid()
      modifies this
      ensures Valid()
      ensures !messageEnd ==> message == old(message) + begin && sent == old(sent)
      ensures messageEnd ==> message == [] && sent == output
      ensures messageEnd ==> output == old(sent) + Grouped(groupSize, separator, old(message) + begin) + terminator
    {
      hide Grouped, LastGroup;
      if groupSize != 0 {
        var at: nat := 0;
        assert message + begin[..0] == message;
        while at < |begin|
          invariant at <= |begin| && Valid()
          invariant message == old(message) + begin[..at] && sent == old(sent)
        {
          at := PutGroup(begin, at);
        }
        assert begin[..|begin|] == begin;
      } else {
        NoGrouping(separator, message);
        NoGrouping(separator, message + begin);
        output := output + begin;
        message := message + begin;
      }
      if messageEnd {
        output := output + terminator;
        counter := 0;
        message, sent := [], output;
        NothingGrouped(groupSize, separator);
        assert sent + [] == sent;
      }
    }

    /** As many bytes as complete the group, after a separator if the last one is complete. */
    method PutGroup(begin: seq<byte>, at: nat) returns (next: nat)
      requires Valid() && groupSize > 0 && at < |begin|
      modifies this
      ensures Valid() && at < next <= |begin|
      ensures message == old(message) + begin[at..next] && sent == old(sent)
      ensures old(message) + begin[at..next] == message
    {
      hide Grouped, LastGroup;
      var full := counter == groupSize;
      if full {
        output := output + separator;
        counter := 0;
      }
      var len := if |begin| - at <= groupSize - counter then |begin| - at else groupSize - counter;
      next := at + len;
      var more := begin[at..next];
      if full {
        GroupedFull(groupSize, separator, message, more);
      } else {
        GroupedFits(groupSize, separator, message, more);
      }
      output := output + more;
      counter := counter + len;
      message := message + more;
    }
  }

  lemma NoGrouping(separator: seq<byte>, data: seq<byte>)
    ensures Grouped(0, separator, data) == data
  {
  }

  lemma NothingGrouped(size: nat, separator: seq<byte>)
    ensures Grouped(size, separator, []) == []
    ensures size > 0 ==> LastGroup(0, size) == 0
  {
  }
}
