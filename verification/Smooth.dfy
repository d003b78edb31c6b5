/** kernels.c: the sliding-window smooth against the naive one. */
module Smooth {

  /** A pixel's or a sum's three channels. */
  datatype Rgb = Rgb(red: int, green: int, blue: int)

  const ZERO := Rgb(0, 0, 0)
  const TWO_16 := 0x1_0000
  const TWO_31 := 0x8000_0000
  const TWO_32 := 0x1_0000_0000

  /** Every channel is in [0, n). */
  predicate Within(p: Rgb, n: int) {
    0 <= p.red < n && 0 <= p.green < n && 0 <= p.blue < n
  }

  function Plus(a: Rgb, b: Rgb): Rgb { Rgb(a.red + b.red, a.green + b.green, a.blue + b.blue) }

  // ---- the 32-bit unsigned sums ----

  function Add32(a: Rgb, b: Rgb): Rgb {
    Rgb((a.red + b.red) % TWO_32, (a.green + b.green) % TWO_32, (a.blue + b.blue) % TWO_32)
  }

  function Sub32(a: Rgb, b: Rgb): Rgb {
    Rgb((a.red - b.red) % TWO_32, (a.green - b.green) % TWO_32, (a.blue - b.blue) % TWO_32)
  }

  /** pixel32_to_pixel and assign_sum_to_pixel: divide and keep 16 bits. */
  function ToPixel(s: Rgb, scale: int): Rgb
    requires scale > 0
  {
    Rgb(s.red / scale % TWO_16, s.green / scale % TWO_16, s.blue / scale % TWO_16)
  }

  /** Small sums do not overflow. */
  lemma AddExact(a: Rgb, b: Rgb, n: int)
    requires Within(Plus(a, b), n) && n <= TWO_32
    ensures Add32(a, b) == Plus(a, b)
  {
  }

  /** Taking a part of a sum away does not underflow. */
  lemma SubExact(a: Rgb, b: Rgb, n: int)
    requires Within(a, n) && n <= TWO_32
    ensures Sub32(Plus(a, b), b) == a
  {
  }

  // ---- what smoothing means ----

  lemma MulMono(a: int, b: int, d: int)
    requires a <= b && 0 <= d
    ensures a * d <= b * d
  {
  }

  lemma DivMod(x: int, q: int, r: int, d: int)
    requires d > 0 && x == q * d + r && 0 <= r < d
    ensures x / d == q && x % d == r
  {
    var p := x / d - q;
    assert p * d == x / d * d - q * d;
    assert -d < p * d < d;
    assert p >= 1 ==> p * d >= d;
    assert p <= -1 ==> p * d <= -d;
  }

  /** RIDX stays inside the image, and says its row and column. */
  lemma Ridx(i: int, j: int, dim: int)
    requires 0 <= i < dim && 0 <= j < dim
    ensures 0 <= i * dim + j < dim * dim
    ensures (i * dim + j) / dim == i && (i * dim + j) % dim == j
  {
    MulMono(0, i, dim);
    MulMono(i + 1, dim, dim);
    assert (i + 1) * dim == i * dim + dim;
    DivMod(i * dim + j, i, j, dim);
  }

  function At(src: seq<Rgb>, dim: int, i: int, j: int): Rgb {
    if 0 <= i * dim + j < |src| then src[i * dim + j] else ZERO
  }

  /** The sum of the pixels (i, j) with j from jlo up to, not including, jhi. */
  function Row(src: seq<Rgb>, dim: int, i: int, jlo: int, jhi: int): Rgb
    decreases jhi - jlo
  {
    if jlo >= jhi then ZERO else Plus(Row(src, dim, i, jlo, jhi - 1), At(src, dim, i, jhi - 1))
  }

  function Box(src: seq<Rgb>, dim: int, ilo: int, ihi: int, jlo: int, jhi: int): Rgb
    decreases ihi - ilo
  {
    if ilo >= ihi then ZERO
    else Plus(Box(src, dim, ilo, ihi - 1, jlo, jhi), Row(src, dim, ihi - 1, jlo, jhi))
  }

  function Min(a: int, b: int): int { if a < b then a else b }
  function Max(a: int, b: int): int { if a > b then a else b }

  /** The average over the 3 x 3 neighbourhood of (i, j), clipped at the borders. */
  function Average(src: seq<Rgb>, dim: int, i: int, j: int): Rgb
    requires 0 <= i < dim && 0 <= j < dim
  {
    var ilo, ihi, jlo, jhi := Max(i - 1, 0), Min(i + 2, dim), Max(j - 1, 0), Min(j + 2, dim);
    var n := (ihi - ilo) * (jhi - jlo);
    var s := Box(src, dim, ilo, ihi, jlo, jhi);
    Rgb(s.red / n, s.green / n, s.blue / n)
  }

  function Smoothed(src: seq<Rgb>, dim: int, k: int): Rgb
    requires dim > 0 && 0 <= k < dim * dim
  {
    Place(k, dim);
    Average(src, dim, k / dim, k % dim)
  }

  /** Where the k-th pixel is in row-major order. */
  lemma Place(k: int, dim: int)
    requires 0 <= k < dim * dim && dim > 0
    ensures 0 <= k / dim < dim && 0 <= k % dim < dim
  {
    var q := k / dim;
    assert k == q * dim + k % dim;
    assert q >= dim ==> q * dim >= dim * dim;
  }

  ghost predicate Image(src: seq<Rgb>, dim: int) {
    |src| == dim * dim && forall k :: 0 <= k < |src| ==> Within(src[k], TWO_16)
  }

  // ---- the average, neighbour by neighbour ----

  /** A pixel of the image, and nothing outside it. */
  function Pixel(src: seq<Rgb>, dim: int, i: int, j: int): Rgb {
    if 0 <= i < dim && 0 <= j < dim then At(src, dim, i, j) else ZERO
  }

  function Three(src: seq<Rgb>, dim: int, i: int, j: int): Rgb {
    Plus(Plus(Pixel(src, dim, i, j - 1), Pixel(src, dim, i, j)), Pixel(src, dim, i, j + 1))
  }

  lemma RowOfThree(src: seq<Rgb>, dim: int, i: int, j: int)
    requires 0 <= i < dim && 0 <= j < dim
    ensures Row(src, dim, i, Max(j - 1, 0), Min(j + 2, dim)) == Three(src, dim, i, j)
  {
    hide At;
    var lo := Max(j - 1, 0);
    assert Row(src, dim, i, lo, lo) == ZERO;
    assert Row(src, dim, i, lo, j) == Pixel(src, dim, i, j - 1);
    assert Row(src, dim, i, lo, j + 1) == Plus(Pixel(src, dim, i, j - 1), Pixel(src, dim, i, j));
  }

  /** A row outside the image adds nothing. */
  lemma NoRow(src: seq<Rgb>, dim: int, i: int, j: int)
    requires i < 0 || dim <= i
    ensures Three(src, dim, i, j) == ZERO
  {
    hide Pixel, Plus;
    Outside(src, dim, i, j - 1);
    Outside(src, dim, i, j);
    Outside(src, dim, i, j + 1);
    NothingMore();
  }

  lemma NothingMore()
    ensures Plus(ZERO, ZERO) == ZERO
  {
  }

  lemma Outside(src: seq<Rgb>, dim: int, i: int, j: int)
    requires i < 0 || dim <= i
    ensures Pixel(src, dim, i, j) == ZERO
  {
    hide At;
  }

  lemma BoxOfThree(src: seq<Rgb>, dim: int, i: int, jlo: int, jhi: int)
    requires 0 <= i < dim
    ensures Box(src, dim, Max(i - 1, 0), Min(i + 2, dim), jlo, jhi)
         == Plus(Plus(if i > 0 then Row(src, dim, i - 1, jlo, jhi) else ZERO, Row(src, dim, i, jlo, jhi)),
                 if i + 1 < dim then Row(src, dim, i + 1, jlo, jhi) else ZERO)
  {
    hide Row;
    var lo := Max(i - 1, 0);
    assert Box(src, dim, lo, lo, jlo, jhi) == ZERO;
    assert Box(src, dim, lo, i, jlo, jhi) == if i > 0 then Row(src, dim, i - 1, jlo, jhi) else ZERO;
    assert Box(src, dim, lo, i + 1, jlo, jhi)
        == Plus(if i > 0 then Row(src, dim, i - 1, jlo, jhi) else ZERO, Row(src, dim, i, jlo, jhi));
  }

  lemma BoxOfNine(src: seq<Rgb>, dim: int, i: int, j: int)
    requires 0 <= i < dim && 0 <= j < dim
    ensures Box(src, dim, Max(i - 1, 0), Min(i + 2, dim), Max(j - 1, 0), Min(j + 2, dim))
         == Plus(Plus(Three(src, dim, i - 1, j), Three(src, dim, i, j)), Three(src, dim, i + 1, j))
  {
    hide Row, Box, Three, At, Min, Max;
    BoxOfThree(src, dim, i, Max(j - 1, 0), Min(j + 2, dim));
    RowOfThree(src, dim, i, j);
    if i > 0 {
      RowOfThree(src, dim, i - 1, j);
    } else {
      NoRow(src, dim, i - 1, j);
    }
    if i + 1 < dim {
      RowOfThree(src, dim, i + 1, j);
    } else {
      NoRow(src, dim, i + 1, j);
    }
  }

  /** How many pixels the clipped neighbourhood has along one axis. */
  lemma Wide(i: int, dim: int)
    requires 0 <= i < dim
    ensures Min(i + 2, dim) - Max(i - 1, 0) == if dim == 1 then 1 else if i == 0 || i == dim - 1 then 2 else 3
  {
  }

  /** The average divides the sum of the nine neighbours, those outside the image being nothing, by how many are inside. */
  lemma NineNeighbours(src: seq<Rgb>, dim: int, i: int, j: int)
    requires 0 <= i < dim && 0 <= j < dim
    ensures var p := (di: int, dj: int) => Pixel(src, dim, i + di, j + dj);
      var n := (if dim == 1 then 1 else if i == 0 || i == dim - 1 then 2 else 3) *
               (if dim == 1 then 1 else if j == 0 || j == dim - 1 then 2 else 3);
      && Average(src, dim, i, j).red == (p(-1, -1).red + p(-1, 0).red + p(-1, 1).red + (p(0, -1).red + p(0, 0).red +
                                         p(0, 1).red) + (p(1, -1).red + p(1, 0).red + p(1, 1).red)) / n
      && Average(src, dim, i, j).green == (p(-1, -1).green + p(-1, 0).green + p(-1, 1).green + (p(0, -1).green +
                                           p(0, 0).green + p(0, 1).green) + (p(1, -1).green + p(1, 0).green + p(1, 1).green)) / n
      && Average(src, dim, i, j).blue == (p(-1, -1).blue + p(-1, 0).blue + p(-1, 1).blue + (p(0, -1).blue + p(0, 0).blue +
                                          p(0, 1).blue) + (p(1, -1).blue + p(1, 0).blue + p(1, 1).blue)) / n
  {
    hide Row, Box, At, Pixel;
    Wide(i, dim);
    Wide(j, dim);
    BoxOfNine(src, dim, i, j);
    hide Min, Max;
  }

  // ---- sums of boxes ----

  /** A box may be grown by a column at the right. */
  lemma {:induction false} BoxGrow(src: seq<Rgb>, dim: int, ilo: int, ihi: int, jlo: int, j: int)
    requires ilo <= ihi && jlo <= j
    ensures Box(src, dim, ilo, ihi, jlo, j + 1)
         == Plus(Box(src, dim, ilo, ihi, jlo, j), Box(src, dim, ilo, ihi, j, j + 1))
    decreases ihi - ilo
  {
    hide At;
    if ilo < ihi {
      BoxGrow(src, dim, ilo, ihi - 1, jlo, j);
      assert Row(src, dim, ihi - 1, j, j + 1) == Plus(Row(src, dim, ihi - 1, j, j), At(src, dim, ihi - 1, j));
    }
  }

  /** A box is its left column and the rest. */
  lemma {:induction false} BoxShrink(src: seq<Rgb>, dim: int, ilo: int, ihi: int, j: int, jhi: int)
    requires ilo <= ihi && j < jhi
    ensures Box(src, dim, ilo, ihi, j, jhi)
         == Plus(Box(src, dim, ilo, ihi, j + 1, jhi), Box(src, dim, ilo, ihi, j, j + 1))
    decreases jhi - j
  {
    hide At, Box;
    if j + 1 == jhi {
      BoxEmpty(src, dim, ilo, ihi, jhi);
    } else {
      BoxShrink(src, dim, ilo, ihi, j, jhi - 1);
      BoxGrow(src, dim, ilo, ihi, j, jhi - 1);
      BoxGrow(src, dim, ilo, ihi, j + 1, jhi - 1);
    }
  }

  lemma {:induction false} BoxEmpty(src: seq<Rgb>, dim: int, ilo: int, ihi: int, j: int)
    ensures Box(src, dim, ilo, ihi, j, j) == ZERO
    decreases ihi - ilo
  {
    if ilo < ihi {
      BoxEmpty(src, dim, ilo, ihi - 1, j);
    }
  }

  lemma {:induction false} RowBound(src: seq<Rgb>, dim: int, i: int, jlo: int, jhi: int)
    requires Image(src, dim) && jlo <= jhi
    ensures Within(Row(src, dim, i, jlo, jhi), (jhi - jlo) * (TWO_16 - 1) + 1)
    decreases jhi - jlo
  {
    if jlo < jhi {
      RowBound(src, dim, i, jlo, jhi - 1);
      assert Within(At(src, dim, i, jhi - 1), TWO_16);
    }
  }

  /** No box sum exceeds its size times the largest channel value. */
  lemma {:induction false} BoxBound(src: seq<Rgb>, dim: int, ilo: int, ihi: int, jlo: int, jhi: int)
    requires Image(src, dim) && ilo <= ihi && jlo <= jhi
    ensures Within(Box(src, dim, ilo, ihi, jlo, jhi), (ihi - ilo) * (jhi - jlo) * (TWO_16 - 1) + 1)
    decreases ihi - ilo
  {
    if ilo < ihi {
      BoxBound(src, dim, ilo, ihi - 1, jlo, jhi);
      RowBound(src, dim, ihi - 1, jlo, jhi);
      var w := jhi - jlo;
      assert (ihi - ilo) * w == (ihi - 1 - ilo) * w + w;
      assert (ihi - ilo) * w * (TWO_16 - 1) == (ihi - 1 - ilo) * w * (TWO_16 - 1) + w * (TWO_16 - 1);
    }
  }

  lemma DivBound(s: int, n: int)
    requires 0 <= s <= n * (TWO_16 - 1) && n > 0
    ensures 0 <= s / n < TWO_16
  {
    var q := s / n;
    assert s == q * n + s % n;
    assert q >= TWO_16 ==> q * n >= TWO_16 * n;
    assert q <= -1 ==> q * n <= -n;
  }

  /** A 3 x 3 sum is far below 2^31, and its average fits in 16 bits again. */
  lemma ToPixelExact(src: seq<Rgb>, dim: int, i: int, j: int, s: Rgb, n: int)
    requires Image(src, dim) && 0 <= i < dim && 0 <= j < dim
    requires s == Box(src, dim, Max(i - 1, 0), Min(i + 2, dim), Max(j - 1, 0), Min(j + 2, dim))
    requires n == (Min(i + 2, dim) - Max(i - 1, 0)) * (Min(j + 2, dim) - Max(j - 1, 0))
    ensures 1 <= n <= 9 && Within(s, TWO_31) && ToPixel(s, n) == Average(src, dim, i, j)
  {
    hide Box;
    BoxBound(src, dim, Max(i - 1, 0), Min(i + 2, dim), Max(j - 1, 0), Min(j + 2, dim));
    WindowCount(Min(i + 2, dim) - Max(i - 1, 0), Min(j + 2, dim) - Max(j - 1, 0));
    DivBound(s.red, n);
    DivBound(s.green, n);
    DivBound(s.blue, n);
  }

  lemma WindowCount(h: int, w: int)
    requires 1 <= h <= 3 && 1 <= w <= 3
    ensures 1 <= h * w <= 9
  {
  }

  // ---- the output so far ----

  /** The first n pixels of dst, in row-major order, are smoothed. */
  ghost predicate Done(dst: seq<Rgb>, src: seq<Rgb>, dim: int, n: int) {
    && dim >= 0 && 0 <= n <= dim * dim == |dst|
    && forall k :: 0 <= k < n ==> dst[k] == Smoothed(src, dim, k)
  }

  /** Stores the average at (i, j), the next pixel in row-major order. */
  method StorePixel(dim: int, src: array<Rgb>, dst: array<Rgb>, i: int, j: int, sum: Rgb, scale: int)
    requires src != dst && Image(src[..], dim) && 0 <= i < dim && 0 <= j < dim
    requires Done(dst[..], src[..], dim, i * dim + j)
    requires sum == Box(src[..], dim, Max(i - 1, 0), Min(i + 2, dim), Max(j - 1, 0), Min(j + 2, dim))
    requires scale == (Min(i + 2, dim) - Max(i - 1, 0)) * (Min(j + 2, dim) - Max(j - 1, 0))
    modifies dst
    ensures Done(dst[..], src[..], dim, i * dim + j + 1)
  {
    hide Box, Average, Image;
    Ridx(i, j, dim);
    ToPixelExact(src[..], dim, i, j, sum, scale);
    dst[i * dim + j] := ToPixel(sum, scale);
  }

  // ---- naive_smooth ----

  lemma RowStep(src: seq<Rgb>, dim: int, i: int, jlo: int, j: int)
    requires |src| == dim * dim && 0 <= i < dim && 0 <= jlo <= j < dim
    ensures 0 <= i * dim + j < |src|
    ensures Row(src, dim, i, jlo, j + 1) == Plus(Row(src, dim, i, jlo, j), src[i * dim + j])
  {
    Ridx(i, j, dim);
  }

  /** The inner loop of avg. */
  method AvgRow(dim: int, i: int, jlo: int, jhi: int, src: array<Rgb>, sum0: Rgb, num0: int) returns (sum: Rgb, num: int)
    requires Image(src[..], dim) && 0 <= i < dim && 0 <= jlo <= jhi <= dim
    ensures sum == Plus(sum0, Row(src[..], dim, i, jlo, jhi)) && num == num0 + (jhi - jlo)
  {
    sum, num := sum0, num0;
    var j := jlo;
    assert Row(src[..], dim, i, jlo, jlo) == ZERO;
    hide Row;
    while j < jhi
      invariant jlo <= j <= jhi
      invariant sum == Plus(sum0, Row(src[..], dim, i, jlo, j)) && num == num0 + (j - jlo)
    {
      RowStep(src[..], dim, i, jlo, j);
      sum, num := Plus(sum, src[i * dim + j]), num + 1;
      j := j + 1;
    }
  }

  /** avg: the clipped window, row by row. The signed sums stay below 2^31. */
  method Avg(dim: int, i: int, j: int, src: array<Rgb>) returns (p: Rgb)
    requires Image(src[..], dim) && 0 <= i < dim && 0 <= j < dim
    ensures p == Average(src[..], dim, i, j)
  {
    hide Average, Image, Row;
    var ilo, ihi, jlo, jhi := Max(i - 1, 0), Min(i + 1, dim - 1) + 1, Max(j - 1, 0), Min(j + 1, dim - 1) + 1;
    var sum, num := ZERO, 0;
    var ii := ilo;
    while ii < ihi
      invariant ilo <= ii <= ihi
      invariant sum == Box(src[..], dim, ilo, ii, jlo, jhi) && num == (ii - ilo) * (jhi - jlo)
    {
      sum, num := AvgRow(dim, ii, jlo, jhi, src, sum, num);
      assert (ii + 1 - ilo) * (jhi - jlo) == (ii - ilo) * (jhi - jlo) + (jhi - jlo);
      ii := ii + 1;
    }
    ToPixelExact(src[..], dim, i, j, sum, num);
    return ToPixel(sum, num);
  }

  method NaiveSmooth(dim: int, src: array<Rgb>, dst: array<Rgb>)
    requires dim >= 0 && src != dst && Image(src[..], dim) && dst.Length == dim * dim
    modifies dst
    ensures Done(dst[..], src[..], dim, dim * dim)
  {
    hide Average, Image;
    var i := 0;
    while i < dim
      invariant 0 <= i <= dim && dst.Length == dim * dim && Done(dst[..], src[..], dim, i * dim)
    {
      var j := 0;
      while j < dim
        invariant 0 <= j <= dim && Done(dst[..], src[..], dim, i * dim + j)
      {
        Ridx(i, j, dim);
        var p := Avg(dim, i, j, src);
        dst[i * dim + j] := p;
        j := j + 1;
      }
      assert (i + 1) * dim == i * dim + dim;
      i := i + 1;
    }
  }

  // ---- smooth ----

  /** The sum of one column of the window: two rows at the borders, three elsewhere. */
  method Column(dim: int, src: array<Rgb>, ilo: int, rows: int, j: int) returns (c: Rgb)
    requires Image(src[..], dim) && 0 <= ilo && (rows == 2 || rows == 3) && ilo + rows <= dim && 0 <= j < dim
    ensures c == Box(src[..], dim, ilo, ilo + rows, j, j + 1)
  {
    c := ZERO;
    c := AddPixel(dim, src, ilo, 0, j, c);
    c := AddPixel(dim, src, ilo, 1, j, c);
    if rows == 3 {
      c := AddPixel(dim, src, ilo, 2, j, c);
    }
  }

  /** pixel32_add_pixel on a column sum; the 32-bit sum is exact. */
  method AddPixel(dim: int, src: array<Rgb>, ilo: int, r: int, j: int, c: Rgb) returns (d: Rgb)
    requires Image(src[..], dim) && 0 <= ilo && 0 <= r < 3 && ilo + r < dim && 0 <= j < dim
    requires c == Box(src[..], dim, ilo, ilo + r, j, j + 1)
    ensures d == Box(src[..], dim, ilo, ilo + r + 1, j, j + 1)
  {
    Ridx(ilo + r, j, dim);
    d := Add32(c, src[(ilo + r) * dim + j]);
    BoxBound(src[..], dim, ilo, ilo + r + 1, j, j + 1);
    assert Row(src[..], dim, ilo + r, j, j + 1) == Plus(Row(src[..], dim, ilo + r, j, j), src[(ilo + r) * dim + j]);
    AddExact(c, src[(ilo + r) * dim + j], TWO_32);
  }

  /** Adding the column at the right to a window of at most three columns; the 32-bit sum is exact. */
  lemma WindowAdd(src: seq<Rgb>, dim: int, ilo: int, rows: int, jlo: int, j: int)
    requires Image(src, dim) && 0 <= rows <= 3 && jlo <= j <= jlo + 2
    ensures Add32(Box(src, dim, ilo, ilo + rows, jlo, j), Box(src, dim, ilo, ilo + rows, j, j + 1))
         == Box(src, dim, ilo, ilo + rows, jlo, j + 1)
  {
    hide Box;
    BoxGrow(src, dim, ilo, ilo + rows, jlo, j);
    BoxBound(src, dim, ilo, ilo + rows, jlo, j + 1);
    WindowSize(rows, j + 1 - jlo);
    AddExact(Box(src, dim, ilo, ilo + rows, jlo, j), Box(src, dim, ilo, ilo + rows, j, j + 1), TWO_32);
  }

  lemma WindowSize(h: int, w: int)
    requires 0 <= h <= 3 && 0 <= w <= 3
    ensures h * w * (TWO_16 - 1) + 1 <= TWO_31
  {
    assert h * w <= 9;
  }

  /** Dropping the left column; nothing underflows. */
  lemma WindowDrop(src: seq<Rgb>, dim: int, ilo: int, rows: int, j: int)
    requires Image(src, dim) && 0 <= rows <= 3
    ensures Sub32(Box(src, dim, ilo, ilo + rows, j, j + 3), Box(src, dim, ilo, ilo + rows, j, j + 1))
         == Box(src, dim, ilo, ilo + rows, j + 1, j + 3)
  {
    hide Box;
    BoxShrink(src, dim, ilo, ilo + rows, j, j + 3);
    BoxBound(src, dim, ilo, ilo + rows, j + 1, j + 3);
    WindowSize(rows, 2);
    SubExact(Box(src, dim, ilo, ilo + rows, j + 1, j + 3), Box(src, dim, ilo, ilo + rows, j, j + 1), TWO_32);
  }

  /** One row of the output: a window of two, then three, then two columns slides along it. */
  method SmoothRow(dim: int, src: array<Rgb>, dst: array<Rgb>, i: int, rows: int, corner: int, edge: int)
    requires dim >= 2 && src != dst && Image(src[..], dim) && 0 <= i < dim
    requires rows == Min(i + 2, dim) - Max(i - 1, 0) && corner == 2 * rows && edge == 3 * rows
    requires Done(dst[..], src[..], dim, i * dim)
    modifies dst
    ensures Done(dst[..], src[..], dim, i * dim + dim)
  {
    hide Box, Done, Image;
    var ilo := Max(i - 1, 0);
    var left := Column(dim, src, ilo, rows, 0);
    var mid := Column(dim, src, ilo, rows, 1);
    var sum := Add32(Add32(ZERO, left), mid);
    FirstColumn(src[..], dim, ilo, rows);
    WindowAdd(src[..], dim, ilo, rows, 0, 1);
    StorePixel(dim, src, dst, i, 0, sum, corner);
    var j := 1;
    while j < dim - 1
      invariant 1 <= j <= dim - 1 && Done(dst[..], src[..], dim, i * dim + j)
      invariant left == Box(src[..], dim, ilo, ilo + rows, j - 1, j)
      invariant mid == Box(src[..], dim, ilo, ilo + rows, j, j + 1)
      invariant sum == Box(src[..], dim, ilo, ilo + rows, j - 1, j + 1)
    {
      var right := Column(dim, src, ilo, rows, j + 1);
      WindowAdd(src[..], dim, ilo, rows, j - 1, j + 1);
      sum := Add32(sum, right);
      StorePixel(dim, src, dst, i, j, sum, edge);
      WindowDrop(src[..], dim, ilo, rows, j - 1);
      sum := Sub32(sum, left);
      left, mid := mid, right;
      j := j + 1;
    }
    StorePixel(dim, src, dst, i, dim - 1, sum, corner);
  }

  lemma FirstColumn(src: seq<Rgb>, dim: int, ilo: int, rows: int)
    requires Image(src, dim) && 0 <= rows <= 3
    ensures Add32(ZERO, Box(src, dim, ilo, ilo + rows, 0, 1)) == Box(src, dim, ilo, ilo + rows, 0, 1)
  {
    hide Box, Image;
    BoxEmpty(src, dim, ilo, ilo + rows, 0);
    WindowAdd(src, dim, ilo, rows, 0, 0);
  }

  /** Writes every pixel, and the same one as NaiveSmooth. */
  method Smooth(dim: int, src: array<Rgb>, dst: array<Rgb>)
    requires dim >= 2 && src != dst && Image(src[..], dim) && dst.Length == dim * dim
    modifies dst
    ensures Done(dst[..], src[..], dim, dim * dim)
  {
    hide Smoothed, Image;
    SmoothRow(dim, src, dst, 0, 2, 4, 6);
    var i := 1;
    while i < dim - 1
      invariant 1 <= i <= dim - 1 && Done(dst[..], src[..], dim, i * dim)
    {
      SmoothRow(dim, src, dst, i, 3, 6, 9);
      i := i + 1;
      assert i * dim == (i - 1) * dim + dim;
    }
    SmoothRow(dim, src, dst, dim - 1, 2, 4, 6);
    assert dim * dim == (dim - 1) * dim + dim;
  }

  /** The finished output is determined, so the two kernels agree on every image. */
  lemma OneOutput(a: seq<Rgb>, b: seq<Rgb>, src: seq<Rgb>, dim: int)
    requires Done(a, src, dim, dim * dim) && Done(b, src, dim, dim * dim)
    ensures a == b
  {
  }

  /** Both kernels, run on the same image, leave the same output. */
  method BothKernels(dim: int, src: array<Rgb>, a: array<Rgb>, b: array<Rgb>)
    requires dim >= 2 && src != a && src != b && a != b && Image(src[..], dim) && a.Length == b.Length == dim * dim
    modifies a, b
    ensures a[..] == b[..] && src[..] == old(src[..])
  {
    hide Done, Image;
    NaiveSmooth(dim, src, a);
    Smooth(dim, src, b);
    OneOutput(a[..], b[..], src[..], dim);
  }
}
