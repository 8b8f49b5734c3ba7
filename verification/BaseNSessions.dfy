/** A whole pipeline of encoder, grouper and decoder, each fed in its own pieces. */
module BaseNSessions {
  import opened Bits
  import opened Bytes
  import opened BaseN
  import opened BaseNFilters
  import opened BaseNDecoder

  method Encode(e: Encoder, pieces: seq<seq<byte>>)
    requires e.Valid() && e.message == []
    modifies e, e.outBuf
    ensures e.Valid() && e.message == [] && e.sent == e.output
    ensures e.output == old(e.sent) + Encoded(e.alphabet, e.bitsPerChar, e.padding, Flatten(pieces))
  {
    hide Encoder.Valid, Encoded;
    for i := 0 to |pieces|
      invariant e.Valid() && e.message == Flatten(pieces[..i]) && e.sent == old(e.sent)
    {
      e.Put(pieces[i], false);
      FlattenNext(pieces, i);
    }
    assert pieces[..|pieces|] == pieces;
    e.Put([], true);
    assert Flatten(pieces) + [] == Flatten(pieces);
  }

  /** Where the next piece ends; no piece reaches behind the end. */
  function PieceEnd(at: nat, cut: nat, length: nat): (r: nat)
    requires at <= length
    ensures at <= r <= length
  {
    if at + cut <= length then at + cut else length
  }

  /** The text in pieces of the lengths `cuts`, and what is left of it together with the end of the message. */
  method Group(g: Grouper, data: seq<byte>, cuts: seq<nat>)
    requires g.Valid() && g.message == []
    modifies g
    ensures g.Valid() && g.message == [] && g.sent == g.output
    ensures g.output == old(g.sent) + Grouped(g.groupSize, g.separator, data) + g.terminator
  {
    hide Grouper.Valid, Grouped;
    var at: nat := 0;
    for i := 0 to |cuts|
      invariant at <= |data| && g.Valid() && g.message == data[..at] && g.sent == old(g.sent)
    {
      var next := PieceEnd(at, cuts[i], |data|);
      g.Put(data[at..next], false);
      assert data[..next] == data[..at] + data[at..next];
      at := next;
    }
    assert data[..at] + data[at..] == data;
    g.Put(data[at..], true);
  }

  method Decode(d: Decoder, data: seq<byte>, cuts: seq<nat>)
    requires d.Valid() && d.message == []
    modifies d, d.outBuf
    ensures d.Valid() && d.message == [] && d.sent == d.output
    ensures d.output == old(d.sent) + Decoded(d.lookup, d.bitsPerChar, data)
  {
    hide Decoder.Valid, Decoded;
    var at: nat := 0;
    for i := 0 to |cuts|
      invariant at <= |data| && d.Valid() && d.message == data[..at] && d.sent == old(d.sent)
    {
      var next := PieceEnd(at, cuts[i], |data|);
      d.Put(data[at..next], false);
      assert data[..next] == data[..at] + data[at..next];
      at := next;
    }
    assert data[..at] + data[at..] == data;
    d.Put(data[at..], true);
  }

  /** The characters between and behind the letters are not taken for letters. */
  ghost predicate Legible(alphabet: seq<byte>, caseInsensitive: bool, padding: int,
                          separator: seq<byte>, terminator: seq<byte>)
    requires -1 <= padding < 256
  {
    && Unambiguous(alphabet, caseInsensitive)
    && NoLetters(alphabet, caseInsensitive, separator) && NoLetters(alphabet, caseInsensitive, terminator)
    && (padding != -1 ==> NoLetters(alphabet, caseInsensitive, [padding]))
  }

  /**
   * Encoder, grouper and decoder with the table made for the alphabet: however the three are
   * fed, the decoder returns what the encoder got, if the text is legible.
   */
  method PassThrough(alphabet: seq<byte>, log2Base: int, padding: int, caseInsensitive: bool, size: nat,
                     separator: seq<byte>, terminator: seq<byte>,
                     pieces: seq<seq<byte>>, groupCuts: seq<nat>, decodeCuts: seq<nat>)
    returns (ok: bool, result: seq<byte>)
    requires 0 < log2Base < 8 ==> |alphabet| == TwoTo(log2Base)
    requires -1 <= padding < 256
    ensures ok <==> 0 < log2Base < 8
    ensures ok && Legible(alphabet, caseInsensitive, padding, separator, terminator) ==> result == Flatten(pieces)
  {
    var e := NewEncoder(alphabet, log2Base, padding);
    if e == null { return false, []; }
    hide Encoded, Grouped, Decoded, Found, Legible, TwoTo;
    var table := new int[256];
    InitializeDecodingLookupArray(table, alphabet, |alphabet|, caseInsensitive);
    assert alphabet[..|alphabet|] == alphabet;
    TableFits(table[..], alphabet, caseInsensitive, log2Base);
    var d := NewDecoder(table[..], log2Base);
    var g := new Grouper(size, separator, terminator);
    Connect(e, g, d, pieces, groupCuts, decodeCuts);
    ok, result := true, d.output;
    if Legible(alphabet, caseInsensitive, padding, separator, terminator) {
      ReadBack(d.lookup, alphabet, log2Base, caseInsensitive, padding, size, separator, terminator, Flatten(pieces));
    }
  }

  method Connect(e: Encoder, g: Grouper, d: Decoder, pieces: seq<seq<byte>>, groupCuts: seq<nat>, decodeCuts: seq<nat>)
    requires e.Valid() && e.message == [] && e.output == [] && e.sent == []
    requires g.Valid() && g.message == [] && g.output == [] && g.sent == []
    requires d.Valid() && d.message == [] && d.output == [] && d.sent == [] && e.outBuf != d.outBuf
    modifies e, e.outBuf, g, d, d.outBuf
    ensures |d.lookup| == 256 && 0 < e.bitsPerChar < 8 && |e.alphabet| == TwoTo(e.bitsPerChar) && -1 <= e.padding < 256
    ensures var letters := Encoded(e.alphabet, e.bitsPerChar, e.padding, Flatten(pieces));
      d.output == Decoded(d.lookup, d.bitsPerChar, Grouped(g.groupSize, g.separator, letters) + g.terminator)
  {
    hide Encoded, Grouped, Decoded, TwoTo;
    Encode(e, pieces);
    NothingBefore(Encoded(e.alphabet, e.bitsPerChar, e.padding, Flatten(pieces)));
    Group(g, e.output, groupCuts);
    NothingBefore(Grouped(g.groupSize, g.separator, e.output));
    Decode(d, g.output, decodeCuts);
    NothingBefore(Decoded(d.lookup, d.bitsPerChar, g.output));
  }

  lemma NothingBefore(s: seq<byte>)
    ensures [] + s == s
  {
  }

  lemma ReadBack(lookup: seq<int>, alphabet: seq<byte>, k: nat, caseInsensitive: bool, padding: int, size: nat,
                 separator: seq<byte>, terminator: seq<byte>, data: seq<byte>)
    requires 0 < k < 8 && |alphabet| == TwoTo(k) && -1 <= padding < 256 && TableOf(lookup, alphabet, caseInsensitive)
    requires Legible(alphabet, caseInsensitive, padding, separator, terminator)
    ensures Decoded(lookup, k, Grouped(size, separator, Encoded(alphabet, k, padding, data)) + terminator) == data
  {
    assert |lookup| == 256;
    hide Encoded, Grouped, Decoded, Inverts, Ignored, Found, NoLetters, Unambiguous, TableOf;
    SmallAlphabet(k);
    TableInverts(lookup, alphabet, caseInsensitive);
    TableIgnores(lookup, alphabet, caseInsensitive, separator);
    TableIgnores(lookup, alphabet, caseInsensitive, terminator);
    if padding != -1 { TableIgnores(lookup, alphabet, caseInsensitive, [padding]); }
    RoundTrip(lookup, alphabet, k, padding, size, separator, terminator, data);
  }

  lemma SmallAlphabet(k: nat)
    requires k < 8
    ensures TwoTo(k) <= 128
  {
    assert TwoTo(3) == 8;
    assert TwoTo(7) == 16 * TwoTo(3);
  }
}
