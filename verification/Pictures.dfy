/** The picture that a BMP file shows, in terms of the bytes of the file. */
module BmpPicture {
  import opened Machine
  import opened Scaler
  import opened Bmp

  /** The number that `n` bytes stand for, lowest first. */
  function Number(d: seq<u8>, i: nat, n: nat): nat
    requires i + n <= |d|
    decreases n
  {
    if n == 0 then 0
    else var x: nat := d[i]; x + 256 * Number(d, i + 1, n - 1)
  }

  /** The same in two's complement. */
  function SignedNumber(d: seq<u8>, i: nat): int
    requires i + 4 <= |d|
  {
    var v := Number(d, i, 4);
    if v < 0x8000_0000 then v else v - 0x1_0000_0000
  }

  lemma Le16IsNumber(d: seq<u8>, i: nat)
    requires i + 2 <= |d|
    ensures Le16(d, i) == Number(d, i, 2)
  {
    assert Number(d, i + 1, 1) == d[i + 1];
  }

  lemma Le32IsNumber(d: seq<u8>, i: nat)
    requires i + 4 <= |d|
    ensures Le32(d, i) == Number(d, i, 4)
  {
    var a: nat, b: nat, c: nat := d[i + 1], d[i + 2], d[i + 3];
    assert Number(d, i + 3, 1) == c;
    assert Number(d, i + 2, 2) == b + 256 * c;
    assert Number(d, i + 1, 3) == a + 256 * Number(d, i + 2, 2);
  }

  /** The fields of the header that matter: place of the pixels, size of the second header, width, height, bits for
      each pixel and compression. */
  datatype Header = Header(offset: nat, second: nat, width: int, height: int, bits: nat, compression: nat)

  function HeaderOf(d: seq<u8>): Header
    requires |d| >= 54
  {
    Header(Number(d, 10, 4), Number(d, 14, 4), SignedNumber(d, 18), SignedNumber(d, 22),
           Number(d, 28, 2), Number(d, 30, 4))
  }

  function Rows(h: Header): nat {
    if h.height < 0 then -h.height else h.height
  }

  predicate Supported(h: Header) {
    0 < h.width && h.height != 0 && h.bits in {24, 32} && h.compression == 0
  }

  /** `n` is the least multiple of four bytes that holds a row of pixels. */
  predicate RowLength(h: Header, n: nat)
    requires Supported(h)
  {
    n % 4 == 0 && h.width * (h.bits / 8) <= n < h.width * (h.bits / 8) + 4
  }

  lemma FieldsAreNumbers(d: seq<u8>, h: Header)
    requires |d| >= 54 && h == HeaderOf(d)
    ensures Le32(d, 10) == h.offset && Le32(d, 14) == h.second && Signed32(Le32(d, 18)) == h.width
    ensures Signed32(Le32(d, 22)) == h.height && Le16(d, 28) == h.bits && Le32(d, 30) == h.compression
  {
    Le32IsNumber(d, 10);
    Le32IsNumber(d, 14);
    Le32IsNumber(d, 18);
    Le32IsNumber(d, 22);
    Le16IsNumber(d, 28);
    Le32IsNumber(d, 30);
  }

  /** A file starts with its two letters, and its pixels lie behind both headers. */
  predicate Starts(d: seq<u8>, h: Header) {
    && |d| >= 54 && d[0] == 'B' as int && d[1] == 'M' as int
    && 40 <= h.second && (14 + h.second) % 0x1_0000_0000 <= h.offset < |d|
  }

  /** The error for a file, or none. */
  function ErrorOf(d: seq<u8>, h: Header, n: nat): Err {
    if !Starts(d, h) then CORRUPT
    else if !Supported(h) then UNSUPPORTED
    else if h.width > 4096 || Rows(h) > 4096 then NOSPC
    else if h.offset + n * Rows(h) > |d| then CORRUPT
    else OK
  }

  predicate LayoutIs(h: Header, n: nat, b: Layout) {
    && b.pixOff == h.offset && b.sw == h.width && b.sh == Rows(h) && (b.topDown <==> h.height < 0)
    && 8 * b.bytesPerPixel == h.bits && b.rowBytes == n
  }

  lemma PaddedIs(w: nat, bytes: nat, n: nat)
    requires n % 4 == 0 && w * bytes <= n < w * bytes + 4
    ensures n == PaddedRow(w, bytes)
  {
  }

  /** A file is accepted or refused by the fields of its header, and these give its layout. */
  lemma ParseIs(d: seq<u8>, h: Header, n: nat)
    requires |d| <= SIZE_MAX && (|d| >= 54 ==> h == HeaderOf(d)) && (Supported(h) ==> RowLength(h, n))
    ensures match Parse(d)
      case Accepted(b) => ErrorOf(d, h, n) == OK && LayoutIs(h, n, b)
      case Rejected(e) => ErrorOf(d, h, n) == e
  {
    if 54 <= |d| {
      FieldsAreNumbers(d, h);
      ParseFrom(d, h, n);
    }
  }

  lemma ParseFrom(d: seq<u8>, h: Header, n: nat)
    requires 54 <= |d| <= SIZE_MAX && (Supported(h) ==> RowLength(h, n))
    requires Le32(d, 10) == h.offset && Le32(d, 14) == h.second && Signed32(Le32(d, 18)) == h.width
    requires Signed32(Le32(d, 22)) == h.height && Le16(d, 28) == h.bits && Le32(d, 30) == h.compression
    ensures match Parse(d)
      case Accepted(b) => ErrorOf(d, h, n) == OK && LayoutIs(h, n, b)
      case Rejected(e) => ErrorOf(d, h, n) == e
  {
    if Starts(d, h) && Supported(h) && h.width <= 4096 && Rows(h) <= 4096 {
      PlaceIs(|d|, h, n, Rows(h));
    }
  }

  lemma PlaceIs(size: nat, h: Header, n: nat, rows: nat)
    requires Supported(h) && RowLength(h, n) && h.width <= 4096 && 0 < rows <= 4096 && h.offset < size <= SIZE_MAX
    ensures Place(size, h.offset, h.height < 0, h.width, rows, h.bits / 8) ==
      if h.offset + n * rows > size then Rejected(CORRUPT)
      else Accepted(Layout(h.offset, h.height < 0, h.width, rows, h.bits / 8, n))
  {
    PaddedIs(h.width, h.bits / 8, n);
    PaddedRowBounds(h.width, h.bits / 8);
    ProductBound(n, rows, 4 * 4096, 4096);
    SumFits(h.offset, n * rows);
  }

  lemma SumFits(a: nat, b: nat)
    requires a < SIZE_MAX && b <= 4 * 4096 * 4096
    ensures (a + b) % U32_MOD == a + b
  {
  }

  /** Where the file keeps the pixel in column `x` of row `y`, counted from the top: rows lie bottom first unless the
      height is negative. */
  function PixelPlace(h: Header, n: nat, x: nat, y: nat): nat
    requires y < Rows(h)
  {
    var row: nat := if h.height < 0 then y else Rows(h) - 1 - y;
    h.offset + n * row + x * (h.bits / 8)
  }

  /** The picture of an accepted file, pixel by pixel: three bytes blue, green and red, of which the canvas keeps the
      five, six and five high bits, red uppermost. */
  lemma PixelIs(d: seq<u8>, h: Header, n: nat, x: nat, y: nat)
    requires 54 <= |d| <= SIZE_MAX && h == HeaderOf(d) && (Supported(h) ==> RowLength(h, n))
    requires Parse(d).Accepted? && x < h.width && y < Rows(h)
    ensures var b, at := Parse(d).b, PixelPlace(h, n, x, y);
      && LayoutIs(h, n, b) && at + 3 <= |d|
      && var blue: nat, green: nat, red: nat := d[at], d[at + 1], d[at + 2];
         Bmp.Picture(d, b)[y][x] == red / 8 * 2048 + green / 4 * 32 + blue / 8
  {
    ParseIs(d, h, n);
    var b := Parse(d).b;
    PixelPlaceIs(h, n, b, x, y);
    ColourAt(d, b, x, y, PixelPlace(h, n, x, y));
  }

  lemma ColourAt(d: seq<u8>, b: Layout, x: nat, y: nat, at: nat)
    requires |d| <= SIZE_MAX && LayoutOk(|d|, b) && x < b.sw && y < b.sh && at == PixelAt(b, x, y)
    ensures at + 3 <= |d|
    ensures var blue: nat, green: nat, red: nat := d[at], d[at + 1], d[at + 2];
      Bmp.Picture(d, b)[y][x] == red / 8 * 2048 + green / 4 * 32 + blue / 8
  {
    PixelInFile(|d|, b, x, y);
    assert Bmp.Picture(d, b)[y] == PictureRow(d, b, y);
  }

  lemma PixelPlaceIs(h: Header, n: nat, b: Layout, x: nat, y: nat)
    requires LayoutIs(h, n, b) && y < Rows(h)
    ensures PixelAt(b, x, y) == PixelPlace(h, n, x, y)
  {
    var row := FileRow(b, y);
    assert n * row == row * b.rowBytes;
  }
}

/** The picture that an inflated PNG shows, in terms of its bytes. */
module PngPicture {
  import opened Machine
  import opened Scaler
  import opened PngFilter
  import opened Png

  /** Bytes for each pixel of a colour type: grey, red-green-blue, palette, grey with alpha, and red-green-blue with
      alpha. */
  predicate PixelBytes(ct: u8, m: nat) {
    (ct == 0 && m == 1) || (ct == 2 && m == 3) || (ct == 3 && m == 1) || (ct == 4 && m == 2) || (ct == 6 && m == 4)
  }

  lemma PixelBytesIs(ct: u8, m: nat)
    ensures PixelBytes(ct, m) <==> m == SamplesBpp(ct) && 0 < m
  {
  }

  /** Row `y` is stored as a byte for the filter type and then a byte for each sample. Each restored byte is the stored
      one plus what the type predicts from the restored bytes to its left, above, and above the one to its left. */
  lemma RowIs(f: Format, raw: seq<u8>, m: nat, y: nat, i: nat, at: nat)
    requires Holds(f, raw) && PixelBytes(f.ct, m) && y < f.h && i < f.w * m && at == y * (f.w * m + 1)
    ensures at + 1 + i < |raw| && |Restored(f, raw, y)| == f.w * m
    ensures var row := Restored(f, raw, y);
      var left := if i < m then 0 else row[i - m];
      var up := if y == 0 then 0 else Restored(f, raw, y - 1)[i];
      var upperLeft := if y == 0 || i < m then 0 else Restored(f, raw, y - 1)[i - m];
      IsRestored(raw[at], row[i], raw[at + 1 + i], left, up, upperLeft)
  {
    PixelBytesIs(f.ct, m);
    var prev, t, stored := Above(f, raw, y), FilterType(f, raw, y), RawRow(f, raw, y);
    RowPlace(f, raw, y, at);
    RestoredByte(t, stored, prev, m, i);
    assert Restored(f, raw, y) == Unfilter(t, stored, prev, m, |stored|);
  }

  lemma RowPlace(f: Format, raw: seq<u8>, y: nat, at: nat)
    requires Holds(f, raw) && y < f.h && at == y * (Stride(f) + 1)
    ensures at + 1 + Stride(f) <= |raw|
    ensures FilterType(f, raw, y) == raw[at] && RawRow(f, raw, y) == raw[at + 1..at + 1 + Stride(f)]
  {
    RowBaseIsProduct(Stride(f) + 1, y);
    RowBaseGrows(Stride(f) + 1, y, f.h);
  }

  /** `c` holds the five, six and five high bits of red, green and blue. */
  predicate Packs(c: u16, red: nat, green: nat, blue: nat) {
    c == red / 8 * 2048 + green / 4 * 32 + blue / 8
  }

  /** The colour of the pixel whose bytes begin at `i`: alpha is ignored, and an entry that the palette does not have
      is black. */
  predicate ColourOf(f: Format, row: seq<u8>, i: nat, c: u16)
    requires FormatOk(f)
  {
    && (f.ct == 0 || f.ct == 4 ==> i < |row| && Packs(c, row[i], row[i], row[i]))
    && (f.ct == 2 || f.ct == 6 ==> i + 3 <= |row| && Packs(c, row[i], row[i + 1], row[i + 2]))
    && (f.ct == 3 ==>
          && i < |row|
          && var e: nat := row[i];
             if e < f.nplte then Packs(c, f.plte[3 * e], f.plte[3 * e + 1], f.plte[3 * e + 2]) else c == 0)
  }

  lemma PixelColourIs(f: Format, row: seq<u8>, i: nat)
    requires FormatOk(f) && i + SamplesBpp(f.ct) <= |row|
    ensures ColourOf(f, row, i, PixelColour(f.ct, f.plte, f.nplte, row, i))
  {
  }

  /** The picture shown, pixel by pixel. */
  lemma ColourIs(f: Format, raw: seq<u8>, m: nat, x: nat, y: nat)
    requires Holds(f, raw) && PixelBytes(f.ct, m) && x < f.w && y < f.h
    ensures ColourOf(f, Restored(f, raw, y), x * m, Png.Picture(f, raw)[y][x])
  {
    PixelBytesIs(f.ct, m);
    SampleInRow(f, x);
    PixelColourIs(f, Restored(f, raw, y), x * m);
    assert Png.Picture(f, raw)[y] == RowColours(f, Restored(f, raw, y));
  }
}
