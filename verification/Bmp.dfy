/** The BMP reader: header checks, then every pixel in file order handed to the scaler. */
module Bmp {
  import opened Machine
  import opened Scaler

  const MAX_DIM := 4096
  // Up to this size of file the 32-bit sum of the header check cannot wrap.
  const SIZE_MAX := U32_MOD - 4 * MAX_DIM * MAX_DIM

  datatype Layout = Layout(pixOff: u32, topDown: bool, sw: u16, sh: u16, bytesPerPixel: nat, rowBytes: nat)
  datatype Parsed = Accepted(b: Layout) | Rejected(e: Err)

  function Byte(d: seq<u8>, i: nat): nat
    requires i < |d|
  {
    d[i]
  }

  function Le16(d: seq<u8>, i: nat): u16
    requires i + 2 <= |d|
  {
    Byte(d, i) + 0x100 * Byte(d, i + 1)
  }

  function Le32(d: seq<u8>, i: nat): u32
    requires i + 4 <= |d|
  {
    Byte(d, i) + 0x100 * Byte(d, i + 1) + 0x1_0000 * Byte(d, i + 2) + 0x100_0000 * Byte(d, i + 3)
  }

  function Signed32(x: u32): int {
    if x < 0x8000_0000 then x else x - U32_MOD
  }

  function PaddedRow(w: nat, bytesPerPixel: nat): nat {
    (w * bytesPerPixel + 3) / 4 * 4
  }

  /** What an accepted header says about the file's size; the sum is 32-bit arithmetic. */
  predicate LayoutOk(size: nat, b: Layout) {
    && 3 <= b.bytesPerPixel <= 4 && 0 < b.sw <= MAX_DIM && 0 < b.sh <= MAX_DIM
    && b.rowBytes == PaddedRow(b.sw, b.bytesPerPixel)
    && b.pixOff < size
    && (b.pixOff + b.rowBytes * b.sh) % U32_MOD <= size
  }

  function Parse(d: seq<u8>): (r: Parsed)
    ensures r.Rejected? ==> r.e != OK
    ensures r.Accepted? ==> LayoutOk(|d|, r.b)
  {
    if |d| < 54 then Rejected(CORRUPT)
    else if d[0] != 0x42 || d[1] != 0x4D then Rejected(CORRUPT)
    else
      var pixOff, dib := Le32(d, 10), Le32(d, 14);
      if dib < 40 || pixOff < (14 + dib) % U32_MOD || pixOff >= |d| then Rejected(CORRUPT)
      else
        var width, height, bpp := Signed32(Le32(d, 18)), Signed32(Le32(d, 22)), Le16(d, 28);
        if width <= 0 || height == 0 || Le32(d, 30) != 0 then Rejected(UNSUPPORTED)
        else if bpp != 24 && bpp != 32 then Rejected(UNSUPPORTED)
        else
          var rows := if height < 0 then -height else height;
          if width > MAX_DIM || rows > MAX_DIM then Rejected(NOSPC)
          else Place(|d|, pixOff, height < 0, width, rows, bpp / 8)
  }

  /** The last check: the rows lie in the file. */
  function Place(size: nat, pixOff: u32, topDown: bool, width: nat, rows: nat, bytesPerPixel: nat): (r: Parsed)
    requires pixOff < size && 3 <= bytesPerPixel <= 4 && 0 < width <= MAX_DIM && 0 < rows <= MAX_DIM
    ensures r.Rejected? ==> r.e == CORRUPT
    ensures r.Accepted? ==> LayoutOk(size, r.b)
  {
    var rowBytes := PaddedRow(width, bytesPerPixel);
    if (pixOff + rowBytes * rows) % U32_MOD > size then Rejected(CORRUPT)
    else Accepted(Layout(pixOff, topDown, width, rows, bytesPerPixel, rowBytes))
  }

  lemma ProductBound(a: nat, b: nat, hiA: nat, hiB: nat)
    requires a <= hiA && b <= hiB
    ensures 0 <= a * b <= hiA * hiB
  {
    MulMono(a, hiA, b);
    MulMono(b, hiB, hiA);
    assert hiA * b == b * hiA && hiB * hiA == hiA * hiB;
  }

  /** File row of image row `y`: files store rows bottom-up unless the height is negative. */
  function FileRow(b: Layout, y: nat): nat
    requires y < b.sh
  {
    if b.topDown then y else b.sh - 1 - y
  }

  function PixelAt(b: Layout, x: nat, y: nat): nat
    requires y < b.sh
  {
    b.pixOff + FileRow(b, y) * b.rowBytes + x * b.bytesPerPixel
  }

  lemma PaddedRowBounds(w: nat, bytesPerPixel: nat)
    requires w <= MAX_DIM && bytesPerPixel <= 4
    ensures w * bytesPerPixel <= PaddedRow(w, bytesPerPixel) <= 4 * MAX_DIM
  {
    ProductBound(w, bytesPerPixel, MAX_DIM, 4);
  }

  lemma LastRowInFile(size: nat, b: Layout)
    requires size <= SIZE_MAX && LayoutOk(size, b)
    ensures b.pixOff + b.sh * b.rowBytes <= size
  {
    PaddedRowBounds(b.sw, b.bytesPerPixel);
    ProductBound(b.rowBytes, b.sh, 4 * MAX_DIM, MAX_DIM);
    assert b.sh * b.rowBytes == b.rowBytes * b.sh;
  }

  lemma PixelInFile(size: nat, b: Layout, x: nat, y: nat)
    requires size <= SIZE_MAX && LayoutOk(size, b) && x < b.sw && y < b.sh
    ensures PixelAt(b, x, y) + 3 <= size
  {
    LastRowInFile(size, b);
    PaddedRowBounds(b.sw, b.bytesPerPixel);
    OffsetBound(FileRow(b, y), b.sh, b.rowBytes, x, b.sw, b.bytesPerPixel);
  }

  lemma OffsetBound(row: nat, rows: nat, n: nat, x: nat, w: nat, m: nat)
    requires row < rows && x < w && w * m <= n
    ensures row * n + x * m + m <= rows * n
  {
    MulMono(row + 1, rows, n);
    MulMono(x + 1, w, m);
    assert (row + 1) * n == row * n + n;
    assert (x + 1) * m == x * m + m;
  }

  function Colour(d: seq<u8>, b: Layout, x: nat, y: nat): u16
    requires |d| <= SIZE_MAX && LayoutOk(|d|, b) && x < b.sw && y < b.sh
  {
    PixelInFile(|d|, b, x, y);
    var i := PixelAt(b, x, y);
    Rgb565(d[i + 2], d[i + 1], d[i])
  }

  function PictureRow(d: seq<u8>, b: Layout, y: nat): (row: seq<u16>)
    requires |d| <= SIZE_MAX && LayoutOk(|d|, b) && y < b.sh
    ensures |row| == b.sw && forall x :: 0 <= x < b.sw ==> row[x] == Colour(d, b, x, y)
  {
    seq(b.sw, x requires 0 <= x < b.sw && y < b.sh && |d| <= SIZE_MAX && LayoutOk(|d|, b) => Colour(d, b, x, y))
  }

  /** The picture a file stores, top row first. */
  function Picture(d: seq<u8>, b: Layout): (src: Colours)
    requires |d| <= SIZE_MAX && LayoutOk(|d|, b)
    ensures Scaler.Sized(src, b.sw, b.sh)
    ensures forall y :: 0 <= y < b.sh ==> src[y] == PictureRow(d, b, y)
  {
    seq(b.sh, y requires 0 <= y < b.sh && |d| <= SIZE_MAX && LayoutOk(|d|, b) => PictureRow(d, b, y))
  }

  method DecodeRow(d: seq<u8>, b: Layout, img: Image, y: u16, ghost p0: seq<u16>, ghost src: Colours)
    requires |d| <= SIZE_MAX && LayoutOk(|d|, b) && img.Valid() && y < b.sh
    requires Shaped(img.k, p0) && Scaler.Sized(src, b.sw, b.sh) && src[y] == PictureRow(d, b, y)
    requires RasterDone(img.k, p0, img.px[..], src, b.sw, b.sh, 0, y)
    modifies img.px
    ensures img.Valid() && RasterDone(img.k, p0, img.px[..], src, b.sw, b.sh, b.sw, y)
  {
    var x := 0;
    while x < b.sw
      invariant 0 <= x <= b.sw
      invariant img.Valid() && RasterDone(img.k, p0, img.px[..], src, b.sw, b.sh, x, y)
    {
      ghost var p := img.px[..];
      PixelInFile(|d|, b, x, y);
      var i := PixelAt(b, x, y);
      var c := Rgb565(d[i + 2], d[i + 1], d[i]);
      assert c == Colour(d, b, x, y);
      img.PutScaled(b.sw, b.sh, x, y, c);
      PutAdvances(img.k, p0, p, img.px[..], src, b.sw, b.sh, x, y);
      x := x + 1;
    }
  }

  /** Shows the file's picture on the canvas, or rejects the file and leaves the canvas alone. */
  method Decode(d: seq<u8>, img: Image) returns (e: Err)
    requires |d| <= SIZE_MAX && img.Valid()
    modifies img.px
    ensures img.Valid()
    ensures e == if Parse(d).Accepted? then OK else Parse(d).e
    ensures e != OK ==> img.px[..] == old(img.px[..])
    ensures e == OK ==>
      var b := Parse(d).b;
      Gathered(img.k, old(img.px[..]), img.px[..], Picture(d, b), b.sw, b.sh)
  {
    var parsed := Parse(d);
    if parsed.Rejected? {
      return parsed.e;
    }
    DecodeRows(d, parsed.b, img);
    e := OK;
  }

  method DecodeRows(d: seq<u8>, b: Layout, img: Image)
    requires |d| <= SIZE_MAX && LayoutOk(|d|, b) && img.Valid()
    modifies img.px
    ensures img.Valid()
    ensures Gathered(img.k, old(img.px[..]), img.px[..], Picture(d, b), b.sw, b.sh)
  {
    ghost var p0, src := img.px[..], Picture(d, b);
    var y := 0;
    while y < b.sh
      invariant 0 <= y <= b.sh
      invariant img.Valid() && RasterDone(img.k, p0, img.px[..], src, b.sw, b.sh, 0, y)
    {
      DecodeRow(d, b, img, y, p0, src);
      RowAdvances(img.k, p0, img.px[..], src, b.sw, b.sh, y);
      y := y + 1;
    }
    RasterIsGather(img.k, p0, img.px[..], src, b.sw, b.sh);
  }
}
