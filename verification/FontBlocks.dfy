/** docs/gc-font-tool.cpp: the two-bit image format, which stores the pixels block by block. */
module FontBlocks {
  import opened Arithmetic
  import opened Bits
  import opened Bytes
  import FontImage

  /** The k-th of the four two-bit fields of a byte, the highest first. */
  function Field(x: byte, k: nat): nat
    requires k < 4
  {
    if k == 0 then x / 64 else if k == 1 then x / 16 % 4 else if k == 2 then x / 4 % 4 else x % 4
  }

  /** The highest two bits of four pixels. */
  function Pack(p0: byte, p1: byte, p2: byte, p3: byte): byte {
    (p0 / 64) * 64 + (p1 / 64) * 16 + (p2 / 64) * 4 + p3 / 64
  }

  lemma FieldsOfPack(p0: byte, p1: byte, p2: byte, p3: byte)
    ensures var x := Pack(p0, p1, p2, p3);
      Field(x, 0) == p0 / 64 && Field(x, 1) == p1 / 64 && Field(x, 2) == p2 / 64 && Field(x, 3) == p3 / 64
  {
    FieldsOfSum(p0 / 64, p1 / 64, p2 / 64, p3 / 64);
  }

  lemma FieldsOfSum(a: nat, b: nat, c: nat, d: nat)
    requires a < 4 && b < 4 && c < 4 && d < 4
    ensures var x: byte := a * 64 + b * 16 + c * 4 + d;
      Field(x, 0) == a && Field(x, 1) == b && Field(x, 2) == c && Field(x, 3) == d
  {
    var x := a * 64 + b * 16 + c * 4 + d;
    Divided(x, 64, a, b * 16 + c * 4 + d);
    Divided(x, 16, a * 4 + b, c * 4 + d);
    Divided(a * 4 + b, 4, a, b);
    Divided(x, 4, a * 16 + b * 4 + c, d);
    Divided(a * 16 + b * 4 + c, 4, a * 4 + b, c);
  }

  // ---- where the pixels go ----

  /** Row r of block b in row br of blocks, counted block by block, for images `wb` blocks wide. */
  function RowAt(wb: nat, br: nat, b: nat, r: nat): nat {
    (br * wb + b) * 8 + r
  }

  /** Its first pixel, counted line by line. */
  function FirstAt(wb: nat, br: nat, b: nat, r: nat): nat {
    ((br * 8 + r) * wb + b) * 8
  }

  /** The row that holds pixel p. */
  function RowOf(wb: nat, p: nat): nat
    requires wb > 0
  {
    var y := p / 8 / wb;
    RowAt(wb, y / 8, p / 8 % wb, y % 8)
  }

  /** The first pixel of row m. */
  function FirstOf(wb: nat, m: nat): nat
    requires wb > 0
  {
    FirstAt(wb, m / 8 / wb, m / 8 % wb, m % 8)
  }

  lemma Times(br: nat, r: nat, wb: nat)
    ensures (br * 8 + r) * wb == br * wb * 8 + r * wb
  {
  }

  lemma FirstAtSum(wb: nat, br: nat, b: nat, r: nat)
    ensures FirstAt(wb, br, b, r) == br * wb * 64 + b * 8 + r * wb * 8
  {
    Times(br, r, wb);
  }

  lemma Parts(x: nat, m: nat)
    requires m > 0
    ensures x == m * (x / m) + x % m
  {
  }

  /** The row and the coordinates of its first pixel determine each other. */
  lemma RowOfFirstAt(wb: nat, br: nat, b: nat, r: nat, c: nat)
    requires b < wb && r < 8 && c < 8
    ensures RowOf(wb, FirstAt(wb, br, b, r) + c) == RowAt(wb, br, b, r) && (FirstAt(wb, br, b, r) + c) % 8 == c
  {
    hide RowAt;
    var y := br * 8 + r;
    var q := y * wb + b;
    Divided(q * 8 + c, 8, q, c);
    Divided(q, wb, y, b);
    Divided(y, 8, br, r);
  }

  lemma FirstOfRowAt(wb: nat, br: nat, b: nat, r: nat)
    requires b < wb && r < 8
    ensures FirstOf(wb, RowAt(wb, br, b, r)) == FirstAt(wb, br, b, r)
  {
    hide FirstAt;
    var k := br * wb + b;
    Divided(k * 8 + r, 8, k, r);
    Divided(k, wb, br, b);
  }

  lemma RowOfFirst(wb: nat, m: nat, c: nat)
    requires wb > 0 && c < 8
    ensures RowOf(wb, FirstOf(wb, m) + c) == m && (FirstOf(wb, m) + c) % 8 == c
  {
    hide FirstAt, RowOf;
    var k := m / 8;
    RowOfFirstAt(wb, k / wb, k % wb, m % 8, c);
    Parts(k, wb);
  }

  lemma FirstOfRow(wb: nat, p: nat)
    requires wb > 0
    ensures FirstOf(wb, RowOf(wb, p)) + p % 8 == p
  {
    hide RowAt, FirstOf;
    var q := p / 8;
    var y := q / wb;
    FirstOfRowAt(wb, y / 8, q % wb, y % 8);
    Parts(q, wb);
    assert y / 8 * 8 + y % 8 == y;
  }

  // ---- the format by coordinates ----

  /** The byte of the pixel in column x and line y: block by block, line by line, two bytes a line. */
  function ByteOf(wb: nat, x: nat, y: nat): nat {
    ((y / 8 * wb + x / 8) * 8 + y % 8) * 2 + x % 8 / 4
  }

  lemma PixelPlace(wb: nat, x: nat, y: nat)
    requires x < 8 * wb
    ensures (y * wb + x / 8) * 8 + x % 8 == y * (8 * wb) + x
    ensures var p := (y * wb + x / 8) * 8 + x % 8;
      RowOf(wb, p) == (y / 8 * wb + x / 8) * 8 + y % 8 && p % 8 == x % 8 && p % 4 == x % 4
  {
    var q := y * wb + x / 8;
    Divided(q * 8 + x % 8, 8, q, x % 8);
    Divided(q, wb, y, x / 8);
    EightTimes(y, wb);
    Divided(q * 8 + x % 8, 4, 2 * q + x % 8 / 4, x % 4);
  }

  lemma EightTimes(y: nat, wb: nat)
    ensures y * (8 * wb) == y * wb * 8
  {
  }

  /** The first pixel of four stands in the highest two bits. */
  lemma FieldIs(b: byte, k: nat)
    requires k < 4
    ensures Field(b, k) == b / TwoTo(6 - 2 * k) % 4
  {
    assert TwoTo(2) == 4 && TwoTo(4) == 16;
    assert TwoTo(6) == 4 * TwoTo(4);
    assert TwoTo(0) == 1;
  }

  /** Where the encoder puts the two highest bits of a pixel. */
  lemma EncodedPixel(data: seq<byte>, out: seq<byte>, wb: nat, x: nat, y: nat)
    requires x < 8 * wb && Packed(data, out, wb, (y / 8 * wb + x / 8) * 8 + y % 8)
    ensures y * (8 * wb) + x < |data| && ByteOf(wb, x, y) < |out|
    ensures out[ByteOf(wb, x, y)] / TwoTo(6 - 2 * (x % 4)) % 4 == data[y * (8 * wb) + x] / 64
  {
    hide TwoTo, Field, Packed;
    var m := (y / 8 * wb + x / 8) * 8 + y % 8;
    PixelOfRow(wb, x, y, m);
    hide FirstOf;
    ColumnInRow(m, x);
    PackedField(data, out, wb, m, x % 8);
    FieldIs(out[2 * m + x % 8 / 4], x % 4);
  }

  lemma PixelOfRow(wb: nat, x: nat, y: nat, m: nat)
    requires x < 8 * wb && m == (y / 8 * wb + x / 8) * 8 + y % 8
    ensures FirstOf(wb, m) + x % 8 == y * (8 * wb) + x && ByteOf(wb, x, y) == 2 * m + x % 8 / 4
  {
    hide RowOf, FirstOf;
    PixelPlace(wb, x, y);
    FirstOfRow(wb, y * (8 * wb) + x);
  }

  lemma ColumnInRow(m: nat, x: nat)
    ensures x % 8 % 4 == x % 4 && x % 8 / 4 <= 1
  {
  }

  lemma PackedField(data: seq<byte>, out: seq<byte>, wb: nat, m: nat, c: nat)
    requires wb > 0 && c < 8 && Packed(data, out, wb, m)
    ensures FirstOf(wb, m) + 8 <= |data| && 2 * m + 1 < |out|
    ensures Field(out[2 * m + c / 4], c % 4) == data[FirstOf(wb, m) + c] / 64
  {
    hide FirstOf, Field, Pack;
    var src := FirstOf(wb, m);
    FieldsOfPack(data[src], data[src + 1], data[src + 2], data[src + 3]);
    FieldsOfPack(data[src + 4], data[src + 5], data[src + 6], data[src + 7]);
  }

  /** Where the decoder takes a pixel from. */
  lemma DecodedPixel(data: seq<byte>, out: seq<byte>, wb: nat, x: nat, y: nat)
    requires x < 8 * wb && Unpacked(data, out, wb, y * (8 * wb) + x)
    ensures y * (8 * wb) + x < |out| && ByteOf(wb, x, y) < |data|
    ensures out[y * (8 * wb) + x] == data[ByteOf(wb, x, y)] / TwoTo(6 - 2 * (x % 4)) % 4 * 0x55
  {
    hide TwoTo, Field, RowOf;
    PixelPlace(wb, x, y);
    FieldIs(data[ByteOf(wb, x, y)], x % 4);
  }

  lemma InsideMultiple(first: nat, p: nat, size: nat)
    requires first + p % 8 == p < 8 * size
    ensures first + 8 <= 8 * size
  {
  }

  lemma InsideImage(wb: nat, hb: nat, br: nat, b: nat, r: nat)
    requires b < wb && r < 8
    ensures br < hb <==> FirstAt(wb, br, b, r) + 8 <= hb * wb * 64
    ensures br < hb <==> RowAt(wb, br, b, r) < hb * wb * 8
    ensures br < hb ==> 2 * RowAt(wb, br, b, r) + 2 <= hb * wb * 16
  {
    FontImage.RowInside(br, b, wb, hb);
    FontImage.RowInside(br * 8 + r, b, wb, hb * 8);
    Times(hb, 0, wb);
  }

  /** How many rows of blocks there are. */
  function BlockRows(size: nat, rowSize: nat): nat
    requires rowSize > 0
  {
    size / rowSize
  }

  function Area(wb: nat, hb: nat): nat {
    NonNegative(hb, wb);
    hb * wb
  }

  // ---- encoding ----

  /** Block row m is packed into two bytes. */
  predicate Packed(data: seq<byte>, out: seq<byte>, wb: nat, m: nat)
    requires wb > 0
  {
    var src := FirstOf(wb, m);
    && src + 8 <= |data| && 2 * m + 1 < |out|
    && out[2 * m] == Pack(data[src], data[src + 1], data[src + 2], data[src + 3])
    && out[2 * m + 1] == Pack(data[src + 4], data[src + 5], data[src + 6], data[src + 7])
  }

  method PackRow(data: array<byte>, out: array<byte>, src: nat, dst: nat, ghost wb: nat, ghost m: nat)
    requires data != out && wb > 0 && src == FirstOf(wb, m) && dst == 2 * m
    requires src + 8 <= data.Length && dst + 2 <= out.Length
    requires forall i: nat :: i < m ==> Packed(data[..], out[..], wb, i)
    modifies out
    ensures forall i: nat :: i < m + 1 ==> Packed(data[..], out[..], wb, i)
  {
    hide Pack, FirstOf;
    out[dst] := Pack(data[src], data[src + 1], data[src + 2], data[src + 3]);
    out[dst + 1] := Pack(data[src + 4], data[src + 5], data[src + 6], data[src + 7]);
    forall i: nat | i < m ensures Packed(data[..], out[..], wb, i) {
      assert Packed(old(data[..]), old(out[..]), wb, i);
    }
  }

  method Encode(data: array<byte>, width: nat) returns (out: array<byte>, outWidth: nat)
    requires width >= 8
    ensures fresh(out) && outWidth == width / 8 * 8
    ensures var wb := width / 8; var hb := BlockRows(data.Length, wb * 64);
      out.Length == Area(wb, hb) * 16 && forall m: nat :: m < Area(wb, hb) * 8 ==> Packed(data[..], out[..], wb, m)
  {
    hide Packed, Area, BlockRows;
    var wb := width / 8;
    var hb := BlockRows(data.Length, wb * 64);
    Whole(data.Length, wb, hb);
    out := EncodeAll(data, wb, hb);
    outWidth := wb * 8;
  }

  method EncodeAll(data: array<byte>, wb: nat, hb: nat) returns (out: array<byte>)
    requires wb > 0 && Area(wb, hb) * 64 <= data.Length
    ensures fresh(out) && out.Length == Area(wb, hb) * 16
    ensures forall m: nat :: m < Area(wb, hb) * 8 ==> Packed(data[..], out[..], wb, m)
  {
    hide Packed, RowAt;
    out := new byte[Area(wb, hb) * 16];
    NextRows(wb, hb, 0);
    for blockRow := 0 to hb
      invariant forall i: nat :: i < RowAt(wb, blockRow, 0, 0) ==> Packed(data[..], out[..], wb, i)
    {
      EncodeBlocks(data, out, wb, hb, blockRow);
    }
  }

  /** The numbers of the rows follow each other through the blocks and the rows of blocks. */
  lemma NextRows(wb: nat, br: nat, b: nat)
    ensures RowAt(wb, br, b, 8) == RowAt(wb, br, b + 1, 0)
    ensures RowAt(wb, br, wb, 0) == RowAt(wb, br + 1, 0, 0)
    ensures RowAt(wb, 0, 0, 0) == 0 && RowAt(wb, br, 0, 0) == br * wb * 8
  {
    Distribute(wb, br, 1);
  }

  method EncodeBlocks(data: array<byte>, out: array<byte>, wb: nat, hb: nat, blockRow: nat)
    requires data != out && wb > 0 && blockRow < hb && hb * wb * 64 <= data.Length && out.Length == hb * wb * 16
    requires forall i: nat :: i < RowAt(wb, blockRow, 0, 0) ==> Packed(data[..], out[..], wb, i)
    modifies out
    ensures forall i: nat :: i < RowAt(wb, blockRow + 1, 0, 0) ==> Packed(data[..], out[..], wb, i)
  {
    hide Packed, RowAt;
    for block := 0 to wb
      invariant forall i: nat :: i < RowAt(wb, blockRow, block, 0) ==> Packed(data[..], out[..], wb, i)
    {
      EncodeBlock(data, out, wb, hb, blockRow, block);
      NextRows(wb, blockRow, block);
    }
    NextRows(wb, blockRow, wb);
  }

  lemma Whole(size: nat, wb: nat, hb: nat)
    requires wb > 0 && hb == BlockRows(size, wb * 64)
    ensures Area(wb, hb) * 64 <= size
  {
    FontImage.Divides(size, wb * 64);
    Associate(hb, wb, 64);
    NonNegative(hb, wb);
  }

  method EncodeBlock(data: array<byte>, out: array<byte>, wb: nat, hb: nat, blockRow: nat, block: nat)
    requires data != out && blockRow < hb && block < wb && hb * wb * 64 <= data.Length && out.Length == hb * wb * 16
    requires forall i: nat :: i < RowAt(wb, blockRow, block, 0) ==> Packed(data[..], out[..], wb, i)
    modifies out
    ensures forall i: nat :: i < RowAt(wb, blockRow, block, 8) ==> Packed(data[..], out[..], wb, i)
  {
    hide Packed, FirstAt, FirstOf;
    for row := 0 to 8
      invariant forall i: nat :: i < RowAt(wb, blockRow, block, row) ==> Packed(data[..], out[..], wb, i)
    {
      FirstAtSum(wb, blockRow, block, row);
      FirstOfRowAt(wb, blockRow, block, row);
      InsideImage(wb, hb, blockRow, block, row);
      PackRow(data, out, blockRow * wb * 64 + block * 8 + row * wb * 8, blockRow * wb * 16 + block * 16 + row * 2,
              wb, RowAt(wb, blockRow, block, row));
    }
  }

  // ---- decoding ----

  /** Pixel p is unpacked from its field. */
  predicate Unpacked(data: seq<byte>, out: seq<byte>, wb: nat, p: nat)
    requires wb > 0
  {
    var at := 2 * RowOf(wb, p) + p % 8 / 4;
    p < |out| && at < |data| && out[p] == Field(data[at], p % 4) * 0x55
  }

  method UnpackRow(data: array<byte>, out: array<byte>, src: nat, dst: nat, ghost wb: nat, ghost m: nat)
    requires data != out && wb > 0 && dst == FirstOf(wb, m) && src == 2 * m
    requires dst + 8 <= out.Length && src + 2 <= data.Length
    requires forall p: nat :: p < out.Length && RowOf(wb, p) < m ==> Unpacked(data[..], out[..], wb, p)
    modifies out
    ensures forall p: nat :: p < out.Length && RowOf(wb, p) < m + 1 ==> Unpacked(data[..], out[..], wb, p)
  {
    hide FirstOf, RowOf, Field;
    ghost var before := out[..];
    var src1, src2 := data[src], data[src + 1];
    forall c | 0 <= c < 4 { out[dst + c] := Field(src1, c) * 0x55; }
    forall c | 0 <= c < 4 { out[dst + 4 + c] := Field(src2, c) * 0x55; }
    forall p: nat | p < out.Length && RowOf(wb, p) < m + 1 ensures Unpacked(data[..], out[..], wb, p) {
      FirstOfRow(wb, p);
      if RowOf(wb, p) < m {
        assert Unpacked(data[..], before, wb, p);
        if dst <= p < dst + 8 {
          RowOfFirst(wb, m, p - dst);
          assert false;
        }
        assert out[p] == before[p];
      } else {
        RowPixel(data[..], out[..], wb, m, p, src1, src2);
      }
    }
  }

  /** The eight pixels of a row come from its two bytes. */
  lemma RowPixel(data: seq<byte>, out: seq<byte>, wb: nat, m: nat, p: nat, src1: byte, src2: byte)
    requires wb > 0 && RowOf(wb, p) == m && p == FirstOf(wb, m) + p % 8
    requires FirstOf(wb, m) + 8 <= |out| && 2 * m + 2 <= |data| && src1 == data[2 * m] && src2 == data[2 * m + 1]
    requires forall c :: 0 <= c < 4 ==> out[FirstOf(wb, m) + c] == Field(src1, c) * 0x55
    requires forall c :: 0 <= c < 4 ==> out[FirstOf(wb, m) + 4 + c] == Field(src2, c) * 0x55
    ensures Unpacked(data, out, wb, p)
  {
    hide FirstOf, RowOf, Field;
    var c := p % 8;
    if c < 4 {
      assert p % 4 == c && c / 4 == 0;
    } else {
      assert p % 4 == c - 4 && c / 4 == 1;
      assert out[FirstOf(wb, m) + 4 + (c - 4)] == Field(src2, c - 4) * 0x55;
    }
  }

  method Decode(data: array<byte>, width: nat) returns (out: array<byte>, outWidth: nat)
    requires width > 0
    ensures fresh(out) && outWidth == (width + 7) / 8 * 8
    ensures var wb := (width + 7) / 8; var hb := BlockRows(data.Length, wb * 16);
      out.Length == Area(wb, hb) * 64 && forall p: nat :: p < out.Length ==> Unpacked(data[..], out[..], wb, p)
  {
    hide Unpacked, Area, BlockRows;
    var wb := (width + 7) / 8;
    var hb := BlockRows(data.Length, wb * 16);
    WholeBlocks(data.Length, wb, hb);
    out := DecodeAll(data, wb, hb);
    outWidth := wb * 8;
  }

  method DecodeAll(data: array<byte>, wb: nat, hb: nat) returns (out: array<byte>)
    requires wb > 0 && Area(wb, hb) * 16 <= data.Length
    ensures fresh(out) && out.Length == Area(wb, hb) * 64
    ensures forall p: nat :: p < out.Length ==> Unpacked(data[..], out[..], wb, p)
  {
    hide Unpacked, RowAt, RowOf;
    out := new byte[Area(wb, hb) * 64];
    NextRows(wb, hb, 0);
    for blockRow := 0 to hb
      invariant forall p: nat :: p < out.Length && RowOf(wb, p) < RowAt(wb, blockRow, 0, 0) ==>
        Unpacked(data[..], out[..], wb, p)
    {
      DecodeBlocks(data, out, wb, hb, blockRow);
    }
    forall p: nat | p < out.Length ensures RowOf(wb, p) < RowAt(wb, hb, 0, 0) {
      RowInsideImage(wb, hb, p);
    }
  }

  lemma WholeBlocks(size: nat, wb: nat, hb: nat)
    requires wb > 0 && hb == BlockRows(size, wb * 16)
    ensures Area(wb, hb) * 16 <= size
  {
    FontImage.Divides(size, wb * 16);
    Associate(hb, wb, 16);
    NonNegative(hb, wb);
  }

  lemma RowInsideImage(wb: nat, hb: nat, p: nat)
    requires wb > 0 && p < hb * wb * 64
    ensures RowOf(wb, p) < hb * wb * 8
  {
    hide RowAt, FirstAt, FirstOf;
    FirstOfRow(wb, p);
    var q := p / 8;
    var y := q / wb;
    RowInsideAt(wb, hb, y / 8, q % wb, y % 8, p);
  }

  lemma RowInsideAt(wb: nat, hb: nat, br: nat, b: nat, r: nat, p: nat)
    requires b < wb && r < 8 && p < hb * wb * 64
    requires FirstOf(wb, RowAt(wb, br, b, r)) + p % 8 == p
    ensures RowAt(wb, br, b, r) < hb * wb * 8
  {
    hide RowAt, FirstAt, FirstOf;
    FirstOfRowAt(wb, br, b, r);
    InsideMultiple(FirstAt(wb, br, b, r), p, hb * wb * 8);
    InsideImage(wb, hb, br, b, r);
  }

  method DecodeBlocks(data: array<byte>, out: array<byte>, wb: nat, hb: nat, blockRow: nat)
    requires data != out && wb > 0 && blockRow < hb && hb * wb * 16 <= data.Length && out.Length == hb * wb * 64
    requires forall p: nat :: p < out.Length && RowOf(wb, p) < RowAt(wb, blockRow, 0, 0) ==>
      Unpacked(data[..], out[..], wb, p)
    modifies out
    ensures forall p: nat :: p < out.Length && RowOf(wb, p) < RowAt(wb, blockRow + 1, 0, 0) ==>
      Unpacked(data[..], out[..], wb, p)
  {
    hide Unpacked, RowAt, RowOf;
    for block := 0 to wb
      invariant forall p: nat :: p < out.Length && RowOf(wb, p) < RowAt(wb, blockRow, block, 0) ==>
        Unpacked(data[..], out[..], wb, p)
    {
      DecodeBlock(data, out, wb, hb, blockRow, block);
      NextRows(wb, blockRow, block);
    }
    NextRows(wb, blockRow, wb);
  }

  method DecodeBlock(data: array<byte>, out: array<byte>, wb: nat, hb: nat, blockRow: nat, block: nat)
    requires data != out && blockRow < hb && block < wb && hb * wb * 16 <= data.Length && out.Length == hb * wb * 64
    requires forall p: nat :: p < out.Length && RowOf(wb, p) < RowAt(wb, blockRow, block, 0) ==>
      Unpacked(data[..], out[..], wb, p)
    modifies out
    ensures forall p: nat :: p < out.Length && RowOf(wb, p) < RowAt(wb, blockRow, block, 8) ==>
      Unpacked(data[..], out[..], wb, p)
  {
    hide Unpacked, FirstAt, FirstOf, RowOf;
    for row := 0 to 8
      invariant forall p: nat :: p < out.Length && RowOf(wb, p) < RowAt(wb, blockRow, block, row) ==>
        Unpacked(data[..], out[..], wb, p)
    {
      FirstAtSum(wb, blockRow, block, row);
      FirstOfRowAt(wb, blockRow, block, row);
      InsideImage(wb, hb, blockRow, block, row);
      UnpackRow(data, out, blockRow * wb * 16 + block * 16 + row * 2, blockRow * wb * 64 + block * 8 + row * wb * 8,
                wb, RowAt(wb, blockRow, block, row));
    }
  }

  // ---- both ----

  /**
   * Decoding what was encoded keeps the place of every pixel of the whole blocks and
   * rounds its value to one of four levels.
   */
  method RoundTrip(data: array<byte>, width: nat) returns (out: array<byte>, outWidth: nat)
    requires width >= 8
    ensures outWidth == width / 8 * 8
    ensures out.Length == Area(width / 8, BlockRows(data.Length, width / 8 * 64)) * 64 <= data.Length
    ensures forall p :: 0 <= p < out.Length ==> out[p] == data[p] / 64 * 0x55
  {
    hide Packed, Unpacked, Area, BlockRows, RowOf;
    ghost var wb := width / 8;
    ghost var hb := BlockRows(data.Length, wb * 64);
    Whole(data.Length, wb, hb);
    var packed, packedWidth := Encode(data, width);
    BlocksBack(wb, hb);
    out, outWidth := Decode(packed, packedWidth);
    RowsInside(wb, hb);
    PixelsBack(data[..], packed[..], out[..], wb, Area(wb, hb) * 8);
  }

  lemma RowsInside(wb: nat, hb: nat)
    requires wb > 0
    ensures forall p: nat :: p < Area(wb, hb) * 64 ==> RowOf(wb, p) < Area(wb, hb) * 8
  {
    hide RowOf;
    forall p: nat | p < Area(wb, hb) * 64 ensures RowOf(wb, p) < Area(wb, hb) * 8 {
      RowInsideImage(wb, hb, p);
    }
  }

  lemma PixelsBack(data: seq<byte>, packed: seq<byte>, out: seq<byte>, wb: nat, rows: nat)
    requires wb > 0 && |out| <= |data|
    requires forall m: nat :: m < rows ==> Packed(data, packed, wb, m)
    requires forall p: nat :: p < |out| ==> RowOf(wb, p) < rows && Unpacked(packed, out, wb, p)
    ensures forall p :: 0 <= p < |out| ==> out[p] == data[p] / 64 * 0x55
  {
    hide Packed, Unpacked, RowOf;
    forall p: nat | p < |out| ensures out[p] == data[p] / 64 * 0x55 {
      PixelBack(data, packed, out, wb, p);
    }
  }

  lemma BlocksBack(wb: nat, hb: nat)
    requires wb > 0
    ensures (wb * 8 + 7) / 8 == wb && BlockRows(Area(wb, hb) * 16, wb * 16) == hb
  {
    Associate(hb, wb, 16);
    Divided(Area(wb, hb) * 16, wb * 16, hb, 0);
  }

  lemma PixelBack(data: seq<byte>, packed: seq<byte>, out: seq<byte>, wb: nat, p: nat)
    requires wb > 0 && Packed(data, packed, wb, RowOf(wb, p)) && Unpacked(packed, out, wb, p)
    ensures p < |data| && out[p] == data[p] / 64 * 0x55
  {
    hide RowOf, FirstOf, Pack, Field;
    FirstOfRow(wb, p);
    var src, c := FirstOf(wb, RowOf(wb, p)), p % 8;
    FieldsOfPack(data[src], data[src + 1], data[src + 2], data[src + 3]);
    FieldsOfPack(data[src + 4], data[src + 5], data[src + 6], data[src + 7]);
    assert p % 4 == c % 4;
  }

  /** An image comes back whole exactly when it consists of whole blocks. */
  lemma WholeBlocksOnly(size: nat, width: nat)
    requires width >= 8
    ensures width / 8 * 8 == width && Area(width / 8, BlockRows(size, width / 8 * 64)) * 64 == size
       <==> width % 8 == 0 && size % (width * 8) == 0
  {
    var wb := width / 8;
    var rowSize := wb * 64;
    Parts(size, rowSize);
    Associate(size / rowSize, wb, 64);
    assert width % 8 == 0 ==> width * 8 == rowSize;
  }
}
