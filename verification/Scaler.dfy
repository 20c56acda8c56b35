/** The contain-fit scaler of the image viewer: each source pixel in turn paints the destination
    pixels it covers, so later pixels overwrite earlier ones. */
module Scaler {
  import opened Machine

  // ---------------------------------------------------------------- geometry

  datatype Rect = Rect(dw: nat, dh: nat, ox: nat, oy: nat)

  function MulDiv(a: nat, b: nat, c: nat): nat
    requires 0 < c
  {
    a * b / c
  }

  /** Width and height before the guards against empty and oversized results. */
  function FitW(sw: u16, sh: u16, mw: u16, mh: u16): nat
    requires 0 < sw && 0 < sh
  {
    if MulDiv(mw, sh, sw) > mh then MulDiv(mh, sw, sh) else mw
  }

  function FitH(sw: u16, sh: u16, mw: u16, mh: u16): nat
    requires 0 < sw && 0 < sh
  {
    if MulDiv(mw, sh, sw) > mh then mh else MulDiv(mw, sh, sw)
  }

  function Clamp(v: nat, hi: nat): nat {
    var v1 := if v == 0 then 1 else v;
    if v1 > hi then hi else v1
  }

  function Contain(sw: u16, sh: u16, mw: u16, mh: u16): Rect {
    if sw == 0 || sh == 0 || mw == 0 || mh == 0 then Rect(0, 0, 0, 0)
    else
      var dw, dh := Clamp(FitW(sw, sh, mw, mh), mw), Clamp(FitH(sw, sh, mw, mh), mh);
      Rect(dw, dh, (mw - dw) / 2, (mh - dh) / 2)
  }

  lemma DivBelow(a: nat, b: nat, n: nat)
    requires 0 < n && a < b * n
    ensures a / n < b
  {
    var q, r := a / n, a % n;
    assert a == q * n + r;
    if b <= q {
      MulMono(b, q, n);
    }
  }

  lemma DivAtLeast(a: nat, b: nat, n: nat)
    requires 0 < n && b * n <= a
    ensures b <= a / n
  {
    var q, r := a / n, a % n;
    assert a == q * n + r;
    assert (q + 1) * n == q * n + n;
    if q + 1 <= b {
      MulMono(q + 1, b, n);
    }
  }

  lemma MulMono(a: nat, b: nat, n: nat)
    requires a <= b
    ensures a * n <= b * n
  {
    assert (b - a) * n == b * n - a * n;
  }

  lemma DivMulBounds(a: nat, n: nat)
    requires 0 < n
    ensures (a / n) * n <= a < (a / n) * n + n
  {
  }

  /** The fitted rectangle lies in the canvas, touches it in at least one dimension and is centred; the upper clamps
      never act. */
  lemma ContainFits(sw: u16, sh: u16, mw: u16, mh: u16)
    requires 0 < sw && 0 < sh && 0 < mw && 0 < mh
    ensures FitW(sw, sh, mw, mh) <= mw && FitH(sw, sh, mw, mh) <= mh
    ensures var r := Contain(sw, sh, mw, mh);
      && 0 < r.dw <= mw && 0 < r.dh <= mh
      && r.ox + r.dw <= mw && r.oy + r.dh <= mh
      && (r.dw == mw || r.dh == mh)
      // centred to within one pixel
      && 0 <= mw - r.dw - 2 * r.ox <= 1 && 0 <= mh - r.dh - 2 * r.oy <= 1
  {
    if mw * sh / sw > mh {
      DivMulBounds(mw * sh, sw);
      MulMono(mh + 1, mw * sh / sw, sw);
      assert (mh + 1) * sw == mh * sw + sw;
      assert mh * sw < mw * sh;
      DivBelow(mh * sw, mw, sh);
    }
  }

  /** The largest side that keeps the aspect ratio: `side` of `n` is no more than `given` of `d`, and one pixel more
      would be; or a single pixel, when even that is too much. */
  predicate Keeps(side: nat, n: nat, given: nat, d: nat) {
    given * d < (side + 1) * n && (side * n <= given * d || side == 1)
  }

  /** One side of the rectangle is the canvas's; the other is the largest that keeps the aspect ratio. */
  lemma ContainKeepsAspect(sw: u16, sh: u16, mw: u16, mh: u16)
    requires 0 < sw && 0 < sh && 0 < mw && 0 < mh
    ensures var r := Contain(sw, sh, mw, mh);
      (r.dw == mw && Keeps(r.dh, sw, mw, sh)) || (r.dh == mh && Keeps(r.dw, sh, mh, sw))
  {
    ContainFits(sw, sh, mw, mh);
    DivMulBounds(mw * sh, sw);
    DivMulBounds(mh * sw, sh);
    if mw * sh / sw > mh {
      SideKeeps(mh * sw / sh, sh, mh, sw);
    } else {
      SideKeeps(mw * sh / sw, sw, mw, sh);
    }
  }

  lemma SideKeeps(q: nat, n: nat, given: nat, d: nat)
    requires 0 < n && q * n <= given * d < q * n + n
    ensures Keeps(if q == 0 then 1 else q, n, given, d)
  {
    assert (q + 1) * n == q * n + n;
    assert q == 0 ==> (1 + 1) * n == n + n;
  }

  // ---------------------------------------------------------------- one dimension

  /** First destination coordinate of source coordinate `s`, when `n` map onto `d`. */
  function Start(s: nat, d: nat, n: nat): nat
    requires 0 < n
  {
    s * d / n
  }

  function End(s: nat, d: nat, n: nat): nat
    requires 0 < n
  {
    if Start(s + 1, d, n) <= Start(s, d, n) then Start(s, d, n) + 1 else Start(s + 1, d, n)
  }

  /** The last source coordinate to paint destination coordinate `x`. */
  function Gather(x: nat, d: nat, n: nat): nat
    requires 0 < d && 0 < n
  {
    ((x + 1) * n - 1) / d
  }

  lemma GatherStart(x: nat, d: nat, n: nat, s: nat)
    requires 0 < n && 0 < d
    ensures 0 <= (x + 1) * n - 1
    ensures Start(s, d, n) <= x <==> s <= Gather(x, d, n)
  {
    assert (x + 1) * n == x * n + n;
    var t := (x + 1) * n - 1;
    if s * d <= t {
      assert s * d < (x + 1) * n;
      DivBelow(s * d, x + 1, n);
      DivAtLeast(t, s, d);
    } else {
      DivAtLeast(s * d, x + 1, n);
      assert t < s * d;
      DivBelow(t, s, d);
    }
  }

  /** Gather names a source coordinate, that coordinate paints `x`, and no later one does. */
  lemma GatherIsLastWriter(x: nat, d: nat, n: nat)
    requires 0 < n && x < d
    ensures var g := Gather(x, d, n);
      && g < n
      && Start(g, d, n) <= x < End(g, d, n)
      && forall s: nat :: g < s ==> x < Start(s, d, n)
  {
    var g := Gather(x, d, n);
    GatherStart(x, d, n, g);
    GatherStart(x, d, n, g + 1);
    assert Start(n, d, n) == d by {
      DivAtLeast(n * d, d, n);
      DivBelow(n * d, d + 1, n);
    }
    GatherStart(x, d, n, n);
    forall s: nat | g < s
      ensures x < Start(s, d, n)
    {
      GatherStart(x, d, n, s);
    }
  }

  lemma SpanInside(s: nat, d: nat, n: nat)
    requires s < n && 0 < d
    ensures Start(s, d, n) < End(s, d, n) <= d
  {
    MulMono(s + 1, n, d);
    assert (s + 1) * d == s * d + d;
    assert n * d == d * n;
    DivBelow(s * d, d, n);
    DivBelow((s + 1) * d, d + 1, n);
    assert (d + 1) * n == d * n + n;
  }

  // ---------------------------------------------------------------- the pixel buffer

  /** Index of the first pixel of row `y`. */
  function RowBase(stride: nat, y: nat): nat {
    if y == 0 then 0 else RowBase(stride, y - 1) + stride
  }

  function Index(stride: nat, x: nat, y: nat): nat {
    RowBase(stride, y) + x
  }

  lemma {:induction false} RowBaseIsProduct(stride: nat, y: nat)
    ensures RowBase(stride, y) == y * stride
  {
    if y > 0 {
      RowBaseIsProduct(stride, y - 1);
      assert y * stride == (y - 1) * stride + stride;
    }
  }

  lemma {:induction false} RowBaseGrows(stride: nat, y: nat, z: nat)
    requires y < z
    ensures RowBase(stride, y) + stride <= RowBase(stride, z)
  {
    if y < z - 1 {
      RowBaseGrows(stride, y, z - 1);
    }
  }

  lemma IndexInjective(stride: nat, x: nat, y: nat, x': nat, y': nat)
    requires x < stride && x' < stride && Index(stride, x, y) == Index(stride, x', y')
    ensures x == x' && y == y'
  {
    if y < y' {
      RowBaseGrows(stride, y, y');
    } else if y' < y {
      RowBaseGrows(stride, y', y);
    }
  }

  lemma IndexInRange(stride: nat, x: nat, y: nat, h: nat)
    requires x < stride && y < h
    ensures Index(stride, x, y) < RowBase(stride, h)
  {
    RowBaseGrows(stride, y, h);
  }

  function Rgb565(r: u8, g: u8, b: u8): u16 {
    (r / 8) * 2048 + (g / 4) * 32 + b / 8
  }

  /** The part of the buffer the viewer uses: `w` by `h` pixels in rows of `stride`. */
  datatype Canvas = Canvas(w: u16, h: u16, stride: u16)

  predicate Shaped(k: Canvas, p: seq<u16>) {
    0 < k.w <= k.stride && 0 < k.h && |p| == RowBase(k.stride, k.h)
  }

  function At(k: Canvas, p: seq<u16>, u: nat, v: nat): u16
    requires Shaped(k, p) && u < k.stride && v < k.h
  {
    IndexInRange(k.stride, u, v, k.h);
    p[Index(k.stride, u, v)]
  }

  predicate InRect(r: Rect, u: nat, v: nat) {
    r.ox <= u < r.ox + r.dw && r.oy <= v < r.oy + r.dh
  }

  /** Source pixel `(sx, sy)` of a `sw` by `sh` image paints destination pixel `(u, v)`. */
  predicate Covers(r: Rect, sw: nat, sh: nat, sx: nat, sy: nat, u: nat, v: nat)
    requires 0 < sw && 0 < sh
  {
    && r.ox + Start(sx, r.dw, sw) <= u < r.ox + End(sx, r.dw, sw)
    && r.oy + Start(sy, r.dh, sh) <= v < r.oy + End(sy, r.dh, sh)
  }

  /** `q` is `p` with `[x0, x1)` of rows `[y0, y1)` painted. */
  predicate Boxed(k: Canvas, p: seq<u16>, q: seq<u16>, x0: int, x1: int, y0: int, y1: int, c: u16)
    requires Shaped(k, p) && Shaped(k, q)
  {
    forall u, v :: 0 <= u < k.stride && 0 <= v < k.h ==>
      At(k, q, u, v) == if x0 <= u < x1 && y0 <= v < y1 then c else At(k, p, u, v)
  }

  lemma PaintOne(k: Canvas, p: seq<u16>, x: nat, y: nat, c: u16)
    requires Shaped(k, p) && x < k.stride && y < k.h
    ensures Index(k.stride, x, y) < |p|
    ensures Boxed(k, p, p[Index(k.stride, x, y) := c], x, x + 1, y, y + 1, c)
  {
    IndexInRange(k.stride, x, y, k.h);
    var q := p[Index(k.stride, x, y) := c];
    forall u: nat, v: nat | u < k.stride && v < k.h
      ensures At(k, q, u, v) == if u == x && v == y then c else At(k, p, u, v)
    {
      IndexInRange(k.stride, u, v, k.h);
      if Index(k.stride, u, v) == Index(k.stride, x, y) {
        IndexInjective(k.stride, u, v, x, y);
      }
    }
  }

  class Image {
    const px: array<u16>
    const k: Canvas

    ghost predicate Valid()
      reads px
    {
      Shaped(k, px[..])
    }

    constructor (px: array<u16>, k: Canvas)
      requires Shaped(k, px[..])
      ensures Valid() && this.px == px && this.k == k
    {
      this.px, this.k := px, k;
    }

    /** Paints `[x0, x1)` of row `y`. */
    method PaintSpan(x0: nat, x1: nat, y: nat, c: u16)
      requires Valid() && x0 <= x1 <= k.w && y < k.h
      modifies px
      ensures Valid() && Boxed(k, old(px[..]), px[..], x0, x1, y, y + 1, c)
    {
      var x := x0;
      while x < x1 && x < k.w
        invariant x0 <= x <= x1
        invariant Valid() && Boxed(k, old(px[..]), px[..], x0, x, y, y + 1, c)
      {
        ghost var before := px[..];
        PaintOne(k, before, x, y, c);
        RowBaseIsProduct(k.stride, y);
        px[y * k.stride + x] := c;
        assert px[..] == before[Index(k.stride, x, y) := c];
        x := x + 1;
      }
    }

    /** Paints everything source pixel `(sx, sy)` of a `sw` by `sh` image covers. */
    method PutScaled(sw: u16, sh: u16, sx: u16, sy: u16, c: u16)
      requires Valid() && sx < sw && sy < sh
      modifies px
      ensures Valid() && PutResult(k, old(px[..]), px[..], sw, sh, sx, sy, c)
    {
      var r := Contain(sw, sh, k.w, k.h);
      ContainFits(sw, sh, k.w, k.h);
      SpanInside(sx, r.dw, sw);
      SpanInside(sy, r.dh, sh);
      var x0, x1 := r.ox + Start(sx, r.dw, sw), r.ox + Start(sx + 1, r.dw, sw);
      var y0, y1 := r.oy + Start(sy, r.dh, sh), r.oy + Start(sy + 1, r.dh, sh);
      if x1 <= x0 {
        x1 := x0 + 1;
      }
      if y1 <= y0 {
        y1 := y0 + 1;
      }
      var y := y0;
      while y < y1 && y < k.h
        invariant y0 <= y <= y1
        invariant Valid() && Boxed(k, old(px[..]), px[..], x0, x1, y0, y, c)
      {
        PaintSpan(x0, x1, y, c);
        y := y + 1;
      }
    }
  }

  predicate PutResult(k: Canvas, p: seq<u16>, q: seq<u16>, sw: u16, sh: u16, sx: nat, sy: nat, c: u16)
    requires Shaped(k, p) && Shaped(k, q) && 0 < sw && 0 < sh
  {
    var r := Contain(sw, sh, k.w, k.h);
    forall u, v :: 0 <= u < k.stride && 0 <= v < k.h ==>
      At(k, q, u, v) == if Covers(r, sw, sh, sx, sy, u, v) then c else At(k, p, u, v)
  }

  // ---------------------------------------------------------------- whole images

  // Rows of colours; the pixel of column x and row y is src[y][x].
  type Colours = seq<seq<u16>>

  predicate Sized(src: Colours, sw: u16, sh: u16) {
    0 < sw && 0 < sh && |src| == sh && forall y :: 0 <= y < sh ==> |src[y]| == sw
  }

  /** In raster order, `(gx, gy)` comes before the cursor `(cx, cy)`. */
  predicate Before(gx: nat, gy: nat, cx: nat, cy: nat) {
    gy < cy || (gy == cy && gx < cx)
  }

  function GatherX(r: Rect, sw: nat, u: nat): nat
    requires r.ox <= u < r.ox + r.dw && 0 < sw
  {
    Gather(u - r.ox, r.dw, sw)
  }

  function GatherY(r: Rect, sh: nat, v: nat): nat
    requires r.oy <= v < r.oy + r.dh && 0 < sh
  {
    Gather(v - r.oy, r.dh, sh)
  }

  /** The last writer of a destination pixel covers it, and no source pixel after it does. */
  lemma LastWriter(r: Rect, sw: nat, sh: nat, u: nat, v: nat, sx: nat, sy: nat)
    requires 0 < sw && 0 < sh && InRect(r, u, v)
    ensures GatherX(r, sw, u) < sw && GatherY(r, sh, v) < sh
    ensures Before(GatherX(r, sw, u), GatherY(r, sh, v), sx, sy) ==> !Covers(r, sw, sh, sx, sy, u, v)
    ensures sx == GatherX(r, sw, u) && sy == GatherY(r, sh, v) ==> Covers(r, sw, sh, sx, sy, u, v)
  {
    GatherIsLastWriter(u - r.ox, r.dw, sw);
    GatherIsLastWriter(v - r.oy, r.dh, sh);
  }

  lemma CoversOnlyRect(r: Rect, sw: nat, sh: nat, u: nat, v: nat, sx: nat, sy: nat)
    requires sx < sw && sy < sh && 0 < r.dw && 0 < r.dh
    requires Covers(r, sw, sh, sx, sy, u, v)
    ensures InRect(r, u, v)
  {
    SpanInside(sx, r.dw, sw);
    SpanInside(sy, r.dh, sh);
  }

  /** One destination pixel while the raster stands at `(cx, cy)`: outside the rectangle it is
      unchanged; inside, it shows its gather source once the cursor has passed that source. */
  predicate PixelDone(k: Canvas, p0: seq<u16>, p: seq<u16>, src: Colours, sw: u16, sh: u16,
                      cx: nat, cy: nat, u: nat, v: nat)
    requires Shaped(k, p0) && Shaped(k, p) && Sized(src, sw, sh) && u < k.stride && v < k.h
  {
    var r := Contain(sw, sh, k.w, k.h);
    if InRect(r, u, v) then
      LastWriter(r, sw, sh, u, v, 0, 0);
      Before(GatherX(r, sw, u), GatherY(r, sh, v), cx, cy) ==>
        At(k, p, u, v) == src[GatherY(r, sh, v)][GatherX(r, sw, u)]
    else
      At(k, p, u, v) == At(k, p0, u, v)
  }

  predicate RasterDone(k: Canvas, p0: seq<u16>, p: seq<u16>, src: Colours, sw: u16, sh: u16, cx: nat, cy: nat)
    requires Shaped(k, p0) && Shaped(k, p) && Sized(src, sw, sh)
  {
    forall u, v :: 0 <= u < k.stride && 0 <= v < k.h ==> PixelDone(k, p0, p, src, sw, sh, cx, cy, u, v)
  }

  lemma PutAdvances(k: Canvas, p0: seq<u16>, p: seq<u16>, q: seq<u16>, src: Colours, sw: u16, sh: u16, cx: nat, cy: nat)
    requires Shaped(k, p0) && Shaped(k, p) && Shaped(k, q) && Sized(src, sw, sh) && cx < sw && cy < sh
    requires RasterDone(k, p0, p, src, sw, sh, cx, cy)
    requires PutResult(k, p, q, sw, sh, cx, cy, src[cy][cx])
    ensures RasterDone(k, p0, q, src, sw, sh, cx + 1, cy)
  {
    var r := Contain(sw, sh, k.w, k.h);
    ContainFits(sw, sh, k.w, k.h);
    var cx' := cx + 1;
    forall u: nat, v: nat | u < k.stride && v < k.h
      ensures PixelDone(k, p0, q, src, sw, sh, cx', cy, u, v)
    {
      assert PixelDone(k, p0, p, src, sw, sh, cx, cy, u, v);
      if InRect(r, u, v) {
        LastWriter(r, sw, sh, u, v, cx, cy);
      } else if Covers(r, sw, sh, cx, cy, u, v) {
        CoversOnlyRect(r, sw, sh, u, v, cx, cy);
      }
    }
  }

  lemma RowAdvances(k: Canvas, p0: seq<u16>, p: seq<u16>, src: Colours, sw: u16, sh: u16, cy: nat)
    requires Shaped(k, p0) && Shaped(k, p) && Sized(src, sw, sh)
    requires RasterDone(k, p0, p, src, sw, sh, sw, cy)
    ensures RasterDone(k, p0, p, src, sw, sh, 0, cy + 1)
  {
    var r := Contain(sw, sh, k.w, k.h);
    var cy' := cy + 1;
    forall u: nat, v: nat | u < k.stride && v < k.h
      ensures PixelDone(k, p0, p, src, sw, sh, 0, cy', u, v)
    {
      assert PixelDone(k, p0, p, src, sw, sh, sw, cy, u, v);
      if InRect(r, u, v) {
        LastWriter(r, sw, sh, u, v, 0, 0);
      }
    }
  }

  /** The gather meaning of the scatter loop: every destination pixel of the fitted rectangle shows
      source column `((X+1)*sw-1)/dw` and row `((Y+1)*sh-1)/dh`; everything else is unchanged. */
  predicate Gathered(k: Canvas, p0: seq<u16>, p: seq<u16>, src: Colours, sw: u16, sh: u16)
    requires Shaped(k, p0) && Shaped(k, p) && Sized(src, sw, sh)
  {
    var r := Contain(sw, sh, k.w, k.h);
    forall u, v :: 0 <= u < k.stride && 0 <= v < k.h ==>
      if InRect(r, u, v) then
        var gx, gy := ((u - r.ox + 1) * sw - 1) / r.dw, ((v - r.oy + 1) * sh - 1) / r.dh;
        0 <= gx < sw && 0 <= gy < sh && At(k, p, u, v) == src[gy][gx]
      else
        At(k, p, u, v) == At(k, p0, u, v)
  }

  lemma RasterIsGather(k: Canvas, p0: seq<u16>, p: seq<u16>, src: Colours, sw: u16, sh: u16)
    requires Shaped(k, p0) && Shaped(k, p) && Sized(src, sw, sh)
    requires RasterDone(k, p0, p, src, sw, sh, 0, sh)
    ensures Gathered(k, p0, p, src, sw, sh)
  {
    var r := Contain(sw, sh, k.w, k.h);
    forall u: nat, v: nat | u < k.stride && v < k.h && InRect(r, u, v)
      ensures var gx, gy := GatherX(r, sw, u), GatherY(r, sh, v);
        gx < sw && gy < sh && At(k, p, u, v) == src[gy][gx]
    {
      assert PixelDone(k, p0, p, src, sw, sh, 0, sh, u, v);
      LastWriter(r, sw, sh, u, v, 0, 0);
    }
    forall u: nat, v: nat | u < k.stride && v < k.h && !InRect(r, u, v)
      ensures At(k, p, u, v) == At(k, p0, u, v)
    {
      assert PixelDone(k, p0, p, src, sw, sh, 0, sh, u, v);
    }
  }
}
