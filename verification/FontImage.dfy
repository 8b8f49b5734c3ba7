/** docs/gc-font-tool.cpp: dithering an image to four levels in place. */
module FontImage {
  import opened Arithmetic
  import opened Bytes

  function Total(s: seq<byte>): nat {
    if s == [] then 0 else Total(s[..|s| - 1]) + s[|s| - 1]
  }

  lemma {:induction false} TotalUpdate(s: seq<byte>, i: nat, v: byte)
    requires i < |s|
    ensures Total(s[i := v]) == Total(s) - s[i] + v
  {
    var n := |s| - 1;
    if i < n {
      TotalUpdate(s[..n], i, v);
      assert s[i := v][..n] == s[..n][i := v];
    } else {
      assert s[i := v][..n] == s[..n];
    }
  }

  // ---- dithering as a function of the pixels ----

  function AddClamp(pixel: byte, error: int): byte {
    if pixel + error < 0 then 0 else if pixel + error > 255 then 255 else pixel + error
  }

  /** Whole rows only. */
  function Pixels(size: nat, width: nat): (n: nat)
    requires width > 0
    ensures n <= size
  {
    var height := size / width;
    Divides(size, width);
    height * width
  }

  lemma Divides(size: nat, width: nat)
    requires width > 0
    ensures size / width * width <= size
  {
  }

  /** Adds to a neighbour that is inside the image. */
  function AddIf(inside: bool, s: seq<byte>, at: int, error: int): (r: seq<byte>)
    requires inside ==> 0 <= at < |s|
    ensures |r| == |s|
  {
    if inside then s[at := AddClamp(s[at], error)] else s
  }

  function Share(error: nat, sixteenths: nat): nat {
    error * sixteenths / 16
  }

  /** The neighbours that pixel i has lie among the first n pixels. */
  predicate Neighbours(n: nat, i: nat, width: nat, left: bool, right: bool, below: bool) {
    && i < n && (right ==> i + 1 < n) && (below ==> i + width < n)
    && (below && right ==> i + width + 1 < n) && (left ==> width > 1) && width > 0
  }

  /** Seven sixteenths of the error of pixel i go to the right, the rest to the three pixels below. */
  function Spread(s: seq<byte>, i: nat, width: nat, left: bool, right: bool, below: bool): (r: seq<byte>)
    requires Neighbours(|s|, i, width, left, right, below)
    ensures |r| == |s|
  {
    var error: nat := s[i] % 64;
    Shared(s[i := s[i] - error], i, width, left, right, below, Share(error, 7), Share(error, 5), Share(error, 3),
           Share(error, 1))
  }

  function Shared(s: seq<byte>, i: nat, width: nat, left: bool, right: bool, below: bool,
                  e1: nat, e2: nat, e3: nat, e4: nat): (r: seq<byte>)
    requires Neighbours(|s|, i, width, left, right, below)
    ensures |r| == |s|
  {
    var s1 := AddIf(right, s, i + 1, e1);
    var s2 := AddIf(below, s1, i + width, e2);
    var s3 := AddIf(below && left, s2, i + width - 1, e3);
    AddIf(below && right, s3, i + width + 1, e4)
  }

  function Diffused(s: seq<byte>, width: nat, i: nat): (r: seq<byte>)
    requires width > 0 && i < Pixels(|s|, width)
    ensures |r| == |s|
  {
    InRows(|s|, width, i);
    Spread(s, i, width, i % width > 0, i % width + 1 < width, i + width < Pixels(|s|, width))
  }

  /** A pixel that is not the last of its row has a right neighbour, and so has the one below it. */
  lemma InRows(size: nat, width: nat, i: nat)
    requires width > 0 && i < Pixels(size, width)
    ensures i % width + 1 < width ==> i + 1 < Pixels(size, width)
    ensures i % width + 1 < width && i + width < Pixels(size, width) ==> i + width + 1 < Pixels(size, width)
    ensures i + width < Pixels(size, width) <==> i / width + 1 < size / width
    ensures i % width > 0 ==> width > 1
  {
    var y, x, height := i / width, i % width, size / width;
    assert i == y * width + x;
    RowInside(y, x, width, height);
    if x + 1 < width { RowInside(y, x + 1, width, height); }
    RowInside(y + 1, x, width, height);
    if x + 1 < width { RowInside(y + 1, x + 1, width, height); }
    assert (y + 1) * width == y * width + width;
  }

  lemma RowInside(y: nat, x: nat, width: nat, height: nat)
    requires x < width
    ensures y * width + x < height * width <==> y < height
  {
    if y < height { Monotone(y + 1, height, width); } else { Monotone(height, y, width); }
    Distribute(width, y, 1);
  }

  function Dithered(s: seq<byte>, width: nat, k: nat): (r: seq<byte>)
    requires width > 0 && k <= Pixels(|s|, width)
    ensures |r| == |s|
  {
    if k == 0 then s else Diffused(Dithered(s, width, k - 1), width, k - 1)
  }

  lemma AddIfLimits(inside: bool, s: seq<byte>, at: int, error: nat, lo: nat, hi: nat)
    requires inside ==> 0 <= at < |s| && lo <= at < hi
    requires lo <= |s| && hi <= |s|
    ensures var r := AddIf(inside, s, at, error);
      r[..lo] == s[..lo] && r[hi..] == s[hi..] && Total(r) <= Total(s) + if inside then error else 0
  {
    if inside { TotalUpdate(s, at, AddClamp(s[at], error)); }
  }

  lemma Shares(error: nat)
    ensures Share(error, 7) + Share(error, 5) + Share(error, 3) + Share(error, 1) <= error
  {
  }

  lemma TakeError(s: seq<byte>, i: nat, error: nat, n: nat)
    requires i < n <= |s| && error == s[i] % 64
    ensures var r := s[i := s[i] - error];
      r[..i + 1] == s[..i] + [s[i] / 64 * 64] && r[n..] == s[n..] && Total(r) == Total(s) - error
  {
    TotalUpdate(s, i, s[i] - error);
  }

  /** Outside of [lo, hi) nothing has changed, and the total has grown by no more than `more`. */
  predicate Limited(s: seq<byte>, r: seq<byte>, lo: nat, hi: nat, more: int) {
    |r| == |s| && lo <= |s| && hi <= |s| && r[..lo] == s[..lo] && r[hi..] == s[hi..] && Total(r) <= Total(s) + more
  }

  lemma AddIfLimited(before: seq<byte>, inside: bool, s: seq<byte>, at: int, error: nat, lo: nat, hi: nat, more: int)
    requires Limited(before, s, lo, hi, more) && (inside ==> 0 <= at < |s| && lo <= at < hi)
    ensures Limited(before, AddIf(inside, s, at, error), lo, hi, more + error)
  {
    AddIfLimits(inside, s, at, error, lo, hi);
  }

  lemma LimitedSelf(s: seq<byte>, lo: nat, hi: nat)
    requires lo <= |s| && hi <= |s|
    ensures Limited(s, s, lo, hi, 0)
  {
  }

  lemma SharedLimits(s: seq<byte>, i: nat, width: nat, left: bool, right: bool, below: bool,
                     e1: nat, e2: nat, e3: nat, e4: nat, n: nat)
    requires n <= |s| && Neighbours(n, i, width, left, right, below)
    ensures Limited(s, Shared(s, i, width, left, right, below, e1, e2, e3, e4), i + 1, n, e1 + e2 + e3 + e4)
  {
    hide Limited, AddIf, Total;
    LimitedSelf(s, i + 1, n);
    var s1 := AddIf(right, s, i + 1, e1);
    AddIfLimited(s, right, s, i + 1, e1, i + 1, n, 0);
    var s2 := AddIf(below, s1, i + width, e2);
    AddIfLimited(s, below, s1, i + width, e2, i + 1, n, e1);
    var s3 := AddIf(below && left, s2, i + width - 1, e3);
    AddIfLimited(s, below && left, s2, i + width - 1, e3, i + 1, n, e1 + e2);
    AddIfLimited(s, below && right, s3, i + width + 1, e4, i + 1, n, e1 + e2 + e3);
  }

  /** Pixel i is a multiple of 64, only pixels from i up to n have changed, and the total has not grown. */
  predicate Settled(s: seq<byte>, r: seq<byte>, i: nat, n: nat)
    requires i < n <= |s|
  {
    |r| == |s| && r[..i + 1] == s[..i] + [s[i] / 64 * 64] && r[n..] == s[n..] && Total(r) <= Total(s)
  }

  lemma TakeAndShare(s: seq<byte>, i: nat, width: nat, left: bool, right: bool, below: bool, n: nat,
                     error: nat, e1: nat, e2: nat, e3: nat, e4: nat)
    requires n <= |s| && Neighbours(n, i, width, left, right, below)
    requires error == s[i] % 64 && e1 + e2 + e3 + e4 <= error
    ensures Settled(s, Shared(s[i := s[i] - error], i, width, left, right, below, e1, e2, e3, e4), i, n)
  {
    hide Total, Shared, Limited;
    TakeError(s, i, error, n);
    var s0 := s[i := s[i] - error];
    SharedLimits(s0, i, width, left, right, below, e1, e2, e3, e4, n);
    TakenAndShared(s, s0, Shared(s0, i, width, left, right, below, e1, e2, e3, e4), i, n, error, e1 + e2 + e3 + e4);
  }

  /** A pixel's turn leaves it a multiple of 64, changes none before it and does not make the image brighter. */
  lemma SpreadLimits(s: seq<byte>, i: nat, width: nat, left: bool, right: bool, below: bool, n: nat)
    requires n <= |s| && Neighbours(n, i, width, left, right, below)
    ensures Settled(s, Spread(s, i, width, left, right, below), i, n)
  {
    hide Total, Shared, Share, Settled;
    var error: nat := s[i] % 64;
    Shares(error);
    TakeAndShare(s, i, width, left, right, below, n, error, Share(error, 7), Share(error, 5), Share(error, 3),
                 Share(error, 1));
  }

  function Brighter(pixel: byte, more: nat): nat {
    if pixel + more > 255 then 255 else pixel + more
  }

  lemma AddIfAt(inside: bool, s: seq<byte>, at: int, error: nat, j: nat)
    requires inside ==> 0 <= at < |s|
    requires j < |s|
    ensures AddIf(inside, s, at, error)[j] == if inside && j == at then Brighter(s[j], error) else s[j]
  {
  }

  /** The four neighbours are four different pixels, so each gets its own share and no other one. */
  lemma SharedAt(s: seq<byte>, i: nat, width: nat, left: bool, right: bool, below: bool,
                 e1: nat, e2: nat, e3: nat, e4: nat, j: nat)
    requires Neighbours(|s|, i, width, left, right, below) && (right ==> width > 1) && !(left && right && width == 2)
    requires j < |s|
    ensures Shared(s, i, width, left, right, below, e1, e2, e3, e4)[j]
      == if right && j == i + 1 then Brighter(s[j], e1)
         else if below && j == i + width then Brighter(s[j], e2)
         else if below && left && j == i + width - 1 then Brighter(s[j], e3)
         else if below && right && j == i + width + 1 then Brighter(s[j], e4)
         else s[j]
  {
    hide AddIf, Brighter;
    var s1 := AddIf(right, s, i + 1, e1);
    AddIfAt(right, s, i + 1, e1, j);
    var s2 := AddIf(below, s1, i + width, e2);
    AddIfAt(below, s1, i + width, e2, j);
    var s3 := AddIf(below && left, s2, i + width - 1, e3);
    AddIfAt(below && left, s2, i + width - 1, e3, j);
    AddIfAt(below && right, s3, i + width + 1, e4, j);
  }

  /**
   * The turn of pixel i in column x, seen from any pixel j: what is above the last multiple of 64
   * goes in sixteenths, 7 to the right, 5 below, 3 below to the left and 1 below to the right.
   */
  lemma DiffusedPixel(s: seq<byte>, width: nat, i: nat, j: nat, e: nat, x: nat, below: bool)
    requires width > 0 && i < Pixels(|s|, width) && j < |s|
    requires e == s[i] % 64 && x == i % width && (below <==> i / width + 1 < |s| / width)
    ensures Diffused(s, width, i)[j]
      == if j == i then s[i] / 64 * 64
         else if x + 1 < width && j == i + 1 then Brighter(s[j], e * 7 / 16)
         else if below && j == i + width then Brighter(s[j], e * 5 / 16)
         else if below && x > 0 && j == i + width - 1 then Brighter(s[j], e * 3 / 16)
         else if below && x + 1 < width && j == i + width + 1 then Brighter(s[j], e * 1 / 16)
         else s[j]
  {
    hide Shared, Brighter;
    InRows(|s|, width, i);
    var s0 := s[i := s[i] - e];
    SharedAt(s0, i, width, x > 0, x + 1 < width, below, Share(e, 7), Share(e, 5), Share(e, 3), Share(e, 1), j);
  }

  lemma TakenAndShared(s: seq<byte>, s0: seq<byte>, r: seq<byte>, i: nat, n: nat, error: nat, more: nat)
    requires i < n <= |s| && |s0| == |s| && more <= error
    requires s0[..i + 1] == s[..i] + [s[i] / 64 * 64] && s0[n..] == s[n..] && Total(s0) == Total(s) - error
    requires Limited(s0, r, i + 1, n, more)
    ensures r[..i + 1] == s[..i] + [s[i] / 64 * 64] && r[n..] == s[n..] && Total(r) <= Total(s)
  {
    hide Total;
  }

  lemma DiffusedLimits(s: seq<byte>, width: nat, i: nat)
    requires width > 0 && i < Pixels(|s|, width)
    ensures Diffused(s, width, i)[..i + 1] == s[..i] + [s[i] / 64 * 64]
    ensures Diffused(s, width, i)[Pixels(|s|, width)..] == s[Pixels(|s|, width)..]
    ensures Total(Diffused(s, width, i)) <= Total(s)
  {
    hide Pixels, Spread;
    InRows(|s|, width, i);
    var n := Pixels(|s|, width);
    SpreadLimits(s, i, width, i % width > 0, i % width + 1 < width, i + width < n, n);
  }

  /** Every pixel ends as the multiple of 64 it became in its turn, and the image is no brighter than before. */
  lemma {:induction false} DitheredLimits(s: seq<byte>, width: nat, k: nat)
    requires width > 0 && k <= Pixels(|s|, width)
    ensures forall i :: 0 <= i < k ==> Dithered(s, width, k)[i] == Dithered(s, width, i)[i] / 64 * 64
    ensures Dithered(s, width, k)[Pixels(|s|, width)..] == s[Pixels(|s|, width)..]
    ensures Total(Dithered(s, width, k)) <= Total(s)
  {
    hide Pixels, Total, Diffused;
    if k > 0 {
      DitheredLimits(s, width, k - 1);
      var t := Dithered(s, width, k - 1);
      DiffusedLimits(t, width, k - 1);
      assert Dithered(s, width, k)[..k][k - 1] == t[k - 1] / 64 * 64;
      forall i | 0 <= i < k - 1 ensures Dithered(s, width, k)[i] == Dithered(s, width, i)[i] / 64 * 64 {
        assert Dithered(s, width, k)[..k][i] == (t[..k - 1] + [t[k - 1] / 64 * 64])[i] == t[i];
      }
    }
  }

  // ---- dithering in place ----

  method AddClampInPlace(data: array<byte>, at: nat, error: int)
    requires at < data.Length
    modifies data
    ensures data[..] == AddIf(true, old(data[..]), at, error)
  {
    if data[at] as int + error < 0 {
      data[at] := 0;
    } else if data[at] as int + error > 255 {
      data[at] := 255;
    } else {
      data[at] := data[at] as int + error;
    }
  }

  method Dither(data: array<byte>, width: nat)
    requires width > 0
    modifies data
    ensures data[..] == Dithered(old(data[..]), width, Pixels(data.Length, width))
  {
    hide Diffused, Pixels;
    ghost var s, n := data[..], Pixels(data.Length, width);
    var height := data.Length / width;
    RowsAre(data.Length, width);
    ghost var i: nat := 0;
    for y := 0 to height
      invariant i == y * width <= n && data[..] == Dithered(s, width, i)
    {
      for x := 0 to width
        invariant i == y * width + x <= n && data[..] == Dithered(s, width, i)
      {
        RowInside(y, x, width, height);
        DiffuseInPlace(data, width, height, y, x, i);
        i := i + 1;
      }
      assert (y + 1) * width == y * width + width;
    }
  }

  lemma RowsAre(size: nat, width: nat)
    requires width > 0
    ensures Pixels(size, width) == size / width * width
  {
  }

  method DiffuseInPlace(data: array<byte>, width: nat, height: nat, y: nat, x: nat, ghost i: nat)
    requires width > 0 && height == data.Length / width && y < height && x < width && i == y * width + x
    requires i < Pixels(data.Length, width)
    modifies data
    ensures data[..] == Diffused(old(data[..]), width, i)
  {
    hide Pixels, Spread;
    InRows(data.Length, width, i);
    Divided(i, width, y, x);
    Distribute(width, y, 1);
    SpreadInPlace(data, width, height, y, x, i);
  }

  /** The body of the inner loop. */
  method SpreadInPlace(data: array<byte>, width: nat, height: nat, y: nat, x: nat, ghost i: nat)
    requires i == y * width + x && i + width == (y + 1) * width + x
    requires Neighbours(data.Length, i, width, x > 0, x + 1 < width, y + 1 < height)
    modifies data
    ensures data[..] == Spread(old(data[..]), i, width, x > 0, x + 1 < width, y + 1 < height)
  {
    var at, under := y * width + x, (y + 1) * width + x;
    var oldPixel := data[at];
    var newPixel := oldPixel / 64 * 64;
    var error: nat := oldPixel - newPixel;
    data[at] := newPixel;
    if x + 1 < width { AddClampInPlace(data, at + 1, error * 7 / 16); }
    if y + 1 < height {
      AddClampInPlace(data, under, error * 5 / 16);
      if x > 0 { AddClampInPlace(data, under - 1, error * 3 / 16); }
      if x + 1 < width { AddClampInPlace(data, under + 1, error / 16); }
    }
  }
}
