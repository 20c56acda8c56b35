/** PNG rows: reversing the per-row prediction filters in place (PNG specification, section 9)
    and drawing each row as soon as it is restored. */
module PngFilter {
  import opened Machine

  function Abs(x: int): nat {
    if x < 0 then -x else x
  }

  /** Of left, above and upper-left, the one nearest to their linear estimate; ties go in that order. */
  function Paeth(a: u8, b: u8, c: u8): (r: u8)
    ensures r == a || r == b || r == c
    ensures var e := a + b - c;
      && Abs(e - r) <= Abs(e - a) && Abs(e - r) <= Abs(e - b) && Abs(e - r) <= Abs(e - c)
      && (Abs(e - a) == Abs(e - r) ==> r == a)
      && (Abs(e - b) == Abs(e - r) != Abs(e - a) ==> r == b)
  {
    var p: int := a + b - c;
    var pa, pb, pc := Abs(p - a), Abs(p - b), Abs(p - c);
    if pa <= pb && pa <= pc then a
    else if pb <= pc then b
    else c
  }

  /** Predicted byte for filter type `t` from the bytes left, above and upper-left. */
  function Predict(t: u8, a: u8, b: u8, c: u8): u8 {
    if t == 1 then a
    else if t == 2 then b
    else if t == 3 then Average(a, b)
    else if t == 4 then Paeth(a, b, c)
    else 0
  }

  function Average(a: int, b: int): int {
    (a + b) / 2
  }

  function Add8(x: int, y: int): u8 {
    (x + y) % U8_MOD
  }

  function Sub8(x: int, y: int): u8 {
    (x - y) % U8_MOD
  }

  lemma AddInvertsSub(x: u8, p: u8)
    ensures Add8(Sub8(x, p), p) == x && Sub8(Add8(x, p), p) == x
  {
    assert Sub8(x, p) == if p <= x then x - p else x - p + U8_MOD;
    assert Add8(x, p) == if x + p < U8_MOD then x + p else x + p - U8_MOD;
  }

  function Left(row: seq<u8>, i: nat, bpp: nat): u8
    requires i <= |row| && 0 < bpp
  {
    if bpp <= i then row[i - bpp] else 0
  }

  function PredictAt(t: u8, row: seq<u8>, prev: seq<u8>, i: nat, bpp: nat): u8
    requires i <= |row| && i < |prev| && 0 < bpp
  {
    Predict(t, Left(row, i, bpp), prev[i], Left(prev, i, bpp))
  }

  /** The filter an encoder applies: differences against predictions from original bytes. */
  function Filter(t: u8, row: seq<u8>, prev: seq<u8>, bpp: nat): (f: seq<u8>)
    requires |row| == |prev| && 0 < bpp
    ensures |f| == |row| && forall i :: 0 <= i < |f| ==> f[i] == Sub8(row[i], PredictAt(t, row, prev, i, bpp))
  {
    seq(|row|, i requires 0 <= i < |row| && |row| == |prev| && 0 < bpp => Sub8(row[i], PredictAt(t, row, prev, i, bpp)))
  }

  /** The first `n` restored bytes: each prediction reads bytes restored before it. */
  function Unfilter(t: u8, raw: seq<u8>, prev: seq<u8>, bpp: nat, n: nat): (r: seq<u8>)
    requires n <= |raw| == |prev| && 0 < bpp
    ensures |r| == n
  {
    if n == 0 then []
    else
      var done := Unfilter(t, raw, prev, bpp, n - 1);
      done + [Add8(raw[n - 1], PredictAt(t, done, prev, n - 1, bpp))]
  }

  lemma {:induction false} UnfilterPrefix(t: u8, raw: seq<u8>, prev: seq<u8>, bpp: nat, m: nat, n: nat)
    requires m <= n <= |raw| == |prev| && 0 < bpp
    ensures Unfilter(t, raw, prev, bpp, n)[..m] == Unfilter(t, raw, prev, bpp, m)
  {
    if m < n {
      UnfilterPrefix(t, raw, prev, bpp, m, n - 1);
    }
  }

  lemma LeftOfPrefix(row: seq<u8>, i: nat, bpp: nat)
    requires i <= |row| && 0 < bpp
    ensures Left(row[..i], i, bpp) == Left(row, i, bpp)
  {
  }

  /** Restoring inverts filtering, for every filter type, row, row above and pixel size. */
  lemma {:induction false} UnfilterInvertsFilter(t: u8, row: seq<u8>, prev: seq<u8>, bpp: nat, n: nat)
    requires n <= |row| == |prev| && 0 < bpp
    ensures Unfilter(t, Filter(t, row, prev, bpp), prev, bpp, n) == row[..n]
  {
    if n > 0 {
      UnfilterInvertsFilter(t, row, prev, bpp, n - 1);
      LeftOfPrefix(row, n - 1, bpp);
      AddInvertsSub(row[n - 1], PredictAt(t, row, prev, n - 1, bpp));
      assert row[..n] == row[..n - 1] + [row[n - 1]];
    }
  }

  /** What the restored row holds at `i`, from the row itself. */
  lemma RestoredAt(t: u8, raw: seq<u8>, prev: seq<u8>, bpp: nat, i: nat)
    requires i < |raw| == |prev| && 0 < bpp
    ensures var row := Unfilter(t, raw, prev, bpp, |raw|);
      row[i] == Add8(raw[i], PredictAt(t, row, prev, i, bpp))
  {
    var row := Unfilter(t, raw, prev, bpp, |raw|);
    UnfilterPrefix(t, raw, prev, bpp, i, |raw|);
    UnfilterPrefix(t, raw, prev, bpp, i + 1, |raw|);
    LeftOfPrefix(row, i, bpp);
    assert row[i] == row[..i + 1][i];
  }

  /** `v` is the stored byte plus what its filter type predicts from the bytes around it. */
  predicate IsRestored(t: u8, v: u8, stored: u8, left: u8, up: u8, upperLeft: u8) {
    var x: int, a: int, b: int := stored, left, up;
    && (t == 0 || t > 4 ==> v == x)
    && (t == 1 ==> v == (x + a) % 256)
    && (t == 2 ==> v == (x + b) % 256)
    && (t == 3 ==> v == (x + (a + b) / 2) % 256)
    && (t == 4 ==> v == (x + Paeth(left, up, upperLeft)) % 256)
  }

  /** Byte by byte and filter type by filter type: what is around a byte are the restored bytes one pixel to its left,
      above, and above the one to its left. */
  lemma RestoredByte(t: u8, raw: seq<u8>, prev: seq<u8>, bpp: nat, i: nat)
    requires i < |raw| == |prev| && 0 < bpp
    ensures var row := Unfilter(t, raw, prev, bpp, |raw|);
      var left, upperLeft := if i < bpp then 0 else row[i - bpp], if i < bpp then 0 else prev[i - bpp];
      IsRestored(t, row[i], raw[i], left, prev[i], upperLeft)
  {
    var row := Unfilter(t, raw, prev, bpp, |raw|);
    RestoredAt(t, raw, prev, bpp, i);
    PredictIs(t, raw[i], Left(row, i, bpp), prev[i], Left(prev, i, bpp));
  }

  lemma PredictIs(t: u8, x: u8, a: u8, b: u8, c: u8)
    ensures IsRestored(t, Add8(x, Predict(t, a, b, c)), x, a, b, c)
  {
  }

  /** And filtering inverts restoring, so distinct filtered rows restore to distinct rows. */
  lemma FilterInvertsUnfilter(t: u8, raw: seq<u8>, prev: seq<u8>, bpp: nat)
    requires |raw| == |prev| && 0 < bpp
    ensures Filter(t, Unfilter(t, raw, prev, bpp, |raw|), prev, bpp) == raw
  {
    var row := Unfilter(t, raw, prev, bpp, |raw|);
    forall i | 0 <= i < |raw|
      ensures Filter(t, row, prev, bpp)[i] == raw[i]
    {
      RestoredAt(t, raw, prev, bpp, i);
      AddInvertsSub(raw[i], PredictAt(t, row, prev, i, bpp));
    }
  }

  function Zeros(n: nat): seq<u8> {
    seq(n, _ => 0)
  }

  function RowAbove(d: seq<u8>, prevAt: Option<nat>, len: nat): (prev: seq<u8>)
    requires prevAt.Some? ==> prevAt.value + len <= |d|
    ensures |prev| == len
  {
    if prevAt.Some? then d[prevAt.value..prevAt.value + len] else Zeros(len)
  }

  /** The three bytes the loop reads next are those the prediction is defined on. */
  lemma PredictorReads(d: seq<u8>, at: nat, prevAt: Option<nat>, len: nat, bpp: nat, done: seq<u8>)
    requires at + len <= |d| && 0 < bpp && |done| < len
    requires prevAt.Some? ==> prevAt.value + len <= at
    ensures var i, now, prev := |done|, Placed(d, at, done), RowAbove(d, prevAt, len);
      && (if bpp <= i then now[at + i - bpp] else 0) == Left(done, i, bpp)
      && (if prevAt.Some? then now[prevAt.value + i] else 0) == prev[i]
      && (if prevAt.Some? && bpp <= i then now[prevAt.value + i - bpp] else 0) == Left(prev, i, bpp)
      && now[at + i] == d[at..at + len][i]
  {
    var i := |done|;
    if bpp <= i {
      PlacedReads(d, at, done, at + i - bpp);
    }
    if prevAt.Some? {
      PlacedReads(d, at, done, prevAt.value + i);
      if bpp <= i {
        PlacedReads(d, at, done, prevAt.value + i - bpp);
      }
    }
    PlacedReads(d, at, done, at + i);
  }

  function LeftIn(now: seq<u8>, at: nat, bpp: nat, i: nat): u8
    requires at + i < |now| && 0 < bpp
  {
    if bpp <= i then now[at + i - bpp] else 0
  }

  function AboveIn(now: seq<u8>, prevAt: Option<nat>, i: nat): u8
    requires prevAt.Some? ==> prevAt.value + i < |now|
  {
    if prevAt.Some? then now[prevAt.value + i] else 0
  }

  function UpperLeftIn(now: seq<u8>, prevAt: Option<nat>, bpp: nat, i: nat): u8
    requires prevAt.Some? ==> prevAt.value + i < |now|
    requires 0 < bpp
  {
    if prevAt.Some? && bpp <= i then now[prevAt.value + i - bpp] else 0
  }

  /** The byte the loop computes at offset `i` from the buffer as it then is. */
  function NextByte(now: seq<u8>, at: nat, prevAt: Option<nat>, bpp: nat, t: u8, i: nat): u8
    requires at + i < |now| && 0 < bpp
    requires prevAt.Some? ==> prevAt.value + i < |now|
  {
    Add8(now[at + i], Predict(t, LeftIn(now, at, bpp, i), AboveIn(now, prevAt, i), UpperLeftIn(now, prevAt, bpp, i)))
  }

  lemma StepRestores(d: seq<u8>, at: nat, prevAt: Option<nat>, len: nat, bpp: nat, t: u8, done: seq<u8>)
    requires at + len <= |d| && 0 < bpp && |done| < len
    requires prevAt.Some? ==> prevAt.value + len <= at
    requires done == Unfilter(t, d[at..at + len], RowAbove(d, prevAt, len), bpp, |done|)
    ensures var i, now := |done|, Placed(d, at, done);
      now[at + i := NextByte(now, at, prevAt, bpp, t, i)]
      == Placed(d, at, Unfilter(t, d[at..at + len], RowAbove(d, prevAt, len), bpp, i + 1))
  {
    PredictorReads(d, at, prevAt, len, bpp, done);
    PlacedOne(d, at, done, Add8(d[at..at + len][|done|], PredictAt(t, done, RowAbove(d, prevAt, len), |done|, bpp)));
  }

  method UnfilterByte(a: array<u8>, at: nat, prevAt: Option<nat>, bpp: nat, t: u8, i: nat)
    requires at + i < a.Length && 0 < bpp
    requires prevAt.Some? ==> prevAt.value + i < a.Length
    modifies a
    ensures a[..] == old(a[..])[at + i := NextByte(old(a[..]), at, prevAt, bpp, t, i)]
  {
    ghost var now := a[..];
    var l := if bpp <= i then a[at + i - bpp] else 0;
    var b := if prevAt.Some? then a[prevAt.value + i] else 0;
    var c := if prevAt.Some? && bpp <= i then a[prevAt.value + i - bpp] else 0;
    assert l == LeftIn(now, at, bpp, i);
    assert b == AboveIn(now, prevAt, i);
    assert c == UpperLeftIn(now, prevAt, bpp, i);
    a[at + i] := Add8(a[at + i], Predict(t, l, b, c));
  }

  /** Restores `a[at..at+len]` in place, from the row at `prevAt` or from no row above. */
  method UnfilterRow(a: array<u8>, at: nat, prevAt: Option<nat>, len: nat, bpp: nat, t: u8)
    requires at + len <= a.Length && 0 < bpp
    requires prevAt.Some? ==> prevAt.value + len <= at
    modifies a
    ensures a[..] == Placed(old(a[..]), at,
      Unfilter(t, old(a[..])[at..at + len], RowAbove(old(a[..]), prevAt, len), bpp, len))
  {
    ghost var d := a[..];
    ghost var raw, prev := d[at..at + len], RowAbove(d, prevAt, len);
    ghost var done: seq<u8> := [];
    var i := 0;
    while i < len
      invariant 0 <= i <= len && done == Unfilter(t, raw, prev, bpp, i)
      invariant a[..] == Placed(d, at, done)
    {
      StepRestores(d, at, prevAt, len, bpp, t, done);
      UnfilterByte(a, at, prevAt, bpp, t, i);
      i := i + 1;
      done := Unfilter(t, raw, prev, bpp, i);
    }
  }
}

module Png {
  import opened Machine
  import opened Scaler
  import opened PngFilter

  const MAX_DIM := 4096

  function SamplesBpp(ct: u8): nat {
    if ct == 0 || ct == 3 then 1
    else if ct == 2 then 3
    else if ct == 4 then 2
    else if ct == 6 then 4
    else 0
  }

  function PaletteColour(plte: seq<u8>, nplte: nat, entry: nat): u16
    requires 3 * nplte <= |plte|
  {
    if entry < nplte then Rgb565(plte[3 * entry], plte[3 * entry + 1], plte[3 * entry + 2])
    else Rgb565(0, 0, 0)
  }

  /** Colour of the pixel whose samples start at `p[i]`: grey, RGB or palette entry, black if the
      palette has no such entry. */
  function PixelColour(ct: u8, plte: seq<u8>, nplte: nat, p: seq<u8>, i: nat): u16
    requires 3 * nplte <= |plte| && 0 < SamplesBpp(ct) && i + SamplesBpp(ct) <= |p|
  {
    if ct == 0 || ct == 4 then Rgb565(p[i], p[i], p[i])
    else if ct == 2 || ct == 6 then Rgb565(p[i], p[i + 1], p[i + 2])
    else PaletteColour(plte, nplte, p[i])
  }

  /** A picture as stored: `h` rows of `stride` bytes, each preceded by its filter type. */
  datatype Format = Format(w: u16, h: u16, ct: u8, plte: seq<u8>, nplte: nat)

  predicate FormatOk(f: Format) {
    0 < f.w <= MAX_DIM && 0 < f.h <= MAX_DIM && 0 < SamplesBpp(f.ct) && 3 * f.nplte <= |f.plte|
  }

  function Stride(f: Format): nat {
    f.w * SamplesBpp(f.ct)
  }

  function RowStart(f: Format, y: nat): nat {
    RowBase(Stride(f) + 1, y)
  }

  predicate Holds(f: Format, raw: seq<u8>) {
    FormatOk(f) && RowStart(f, f.h) <= |raw|
  }

  function FilterType(f: Format, raw: seq<u8>, y: nat): u8
    requires Holds(f, raw) && y < f.h
  {
    RowBaseGrows(Stride(f) + 1, y, f.h);
    raw[RowStart(f, y)]
  }

  function RawRow(f: Format, raw: seq<u8>, y: nat): (row: seq<u8>)
    requires Holds(f, raw) && y < f.h
    ensures |row| == Stride(f)
  {
    RowBaseGrows(Stride(f) + 1, y, f.h);
    raw[RowStart(f, y) + 1..RowStart(f, y) + 1 + Stride(f)]
  }

  /** Row `y` of the picture: each row is restored from the restored row above. */
  function Restored(f: Format, raw: seq<u8>, y: nat): (row: seq<u8>)
    requires Holds(f, raw) && y < f.h
    ensures |row| == Stride(f)
    decreases y, 1
  {
    Unfilter(FilterType(f, raw, y), RawRow(f, raw, y), Above(f, raw, y), SamplesBpp(f.ct), Stride(f))
  }

  function Above(f: Format, raw: seq<u8>, y: nat): (row: seq<u8>)
    requires Holds(f, raw) && y < f.h
    ensures |row| == Stride(f)
    decreases y, 0
  {
    if y == 0 then Zeros(Stride(f)) else Restored(f, raw, y - 1)
  }

  lemma SampleInRow(f: Format, x: nat)
    requires FormatOk(f) && x < f.w
    ensures x * SamplesBpp(f.ct) + SamplesBpp(f.ct) <= Stride(f)
  {
    MulMono(x + 1, f.w, SamplesBpp(f.ct));
    assert (x + 1) * SamplesBpp(f.ct) == x * SamplesBpp(f.ct) + SamplesBpp(f.ct);
  }

  function RowColours(f: Format, row: seq<u8>): (c: seq<u16>)
    requires FormatOk(f) && |row| == Stride(f)
    ensures |c| == f.w
    ensures forall x :: 0 <= x < f.w ==>
      (SampleInRow(f, x); c[x] == PixelColour(f.ct, f.plte, f.nplte, row, x * SamplesBpp(f.ct)))
  {
    seq(f.w, x requires 0 <= x < f.w && FormatOk(f) && |row| == Stride(f) =>
      (SampleInRow(f, x); PixelColour(f.ct, f.plte, f.nplte, row, x * SamplesBpp(f.ct))))
  }

  function Picture(f: Format, raw: seq<u8>): (src: Colours)
    requires Holds(f, raw)
    ensures Scaler.Sized(src, f.w, f.h)
    ensures forall y :: 0 <= y < f.h ==> src[y] == RowColours(f, Restored(f, raw, y))
  {
    seq(f.h, y requires 0 <= y < f.h && Holds(f, raw) => RowColours(f, Restored(f, raw, y)))
  }

  // ---------------------------------------------------------------- the row loop

  predicate TypesOk(f: Format, raw: seq<u8>, n: nat)
    requires Holds(f, raw) && n <= f.h
  {
    forall y :: 0 <= y < n ==> FilterType(f, raw, y) <= 4
  }

  /** The buffer after `n` rows: those hold the picture, the rest is as it came. */
  predicate RowsDone(f: Format, raw: seq<u8>, now: seq<u8>, n: nat)
    requires Holds(f, raw) && n <= f.h
  {
    && |now| == |raw|
    && (forall y :: 0 <= y < n ==> RawRow(f, now, y) == Restored(f, raw, y))
    && (forall k :: RowStart(f, n) <= k < |raw| ==> now[k] == raw[k])
  }

  lemma PlacedRow(f: Format, now: seq<u8>, n: nat, v: seq<u8>, y: nat)
    requires Holds(f, now) && y <= n < f.h && |v| == Stride(f)
    ensures RowStart(f, n) + 1 + Stride(f) <= |now|
    ensures RawRow(f, Placed(now, RowStart(f, n) + 1, v), y) == if y == n then v else RawRow(f, now, y)
  {
    RowBaseGrows(Stride(f) + 1, n, f.h);
    if y < n {
      RowBaseGrows(Stride(f) + 1, y, n);
    }
  }

  lemma NextRow(f: Format, raw: seq<u8>, now: seq<u8>, n: nat)
    requires Holds(f, raw) && n < f.h && RowsDone(f, raw, now, n)
    ensures RowStart(f, n) + 1 + Stride(f) == RowStart(f, n + 1) <= |raw|
    ensures FilterType(f, now, n) == FilterType(f, raw, n) && RawRow(f, now, n) == RawRow(f, raw, n)
    ensures RowsDone(f, raw, Placed(now, RowStart(f, n) + 1, Restored(f, raw, n)), n + 1)
  {
    RowBaseGrows(Stride(f) + 1, n, f.h);
    var at, v := RowStart(f, n) + 1, Restored(f, raw, n);
    var next := Placed(now, at, v);
    forall y | 0 <= y < n + 1
      ensures RawRow(f, next, y) == Restored(f, raw, y)
    {
      PlacedRow(f, now, n, v, y);
    }
    forall k | RowStart(f, n + 1) <= k < |raw|
      ensures next[k] == raw[k]
    {
      PlacedReads(now, at, v, k);
    }
  }

  method DrawRow(f: Format, rows: array<u8>, at: nat, img: Image, y: u16, ghost p0: seq<u16>, ghost src: Colours)
    requires FormatOk(f) && at + Stride(f) <= rows.Length && img.Valid() && y < f.h
    requires Shaped(img.k, p0) && Scaler.Sized(src, f.w, f.h)
    requires src[y] == RowColours(f, rows[at..at + Stride(f)])
    requires RasterDone(img.k, p0, img.px[..], src, f.w, f.h, 0, y)
    requires rows as object != img.px
    modifies img.px
    ensures img.Valid() && RasterDone(img.k, p0, img.px[..], src, f.w, f.h, 0, y + 1)
  {
    var row, x := rows[at..at + Stride(f)], 0;
    while x < f.w
      invariant 0 <= x <= f.w
      invariant img.Valid() && RasterDone(img.k, p0, img.px[..], src, f.w, f.h, x, y)
    {
      ghost var p := img.px[..];
      SampleInRow(f, x);
      var c := PixelColour(f.ct, f.plte, f.nplte, row, x * SamplesBpp(f.ct));
      assert c == src[y][x];
      img.PutScaled(f.w, f.h, x, y, c);
      PutAdvances(img.k, p0, p, img.px[..], src, f.w, f.h, x, y);
      x := x + 1;
    }
    RowAdvances(img.k, p0, img.px[..], src, f.w, f.h, y);
  }

  lemma PlacedIn(d: seq<u8>, at: nat, v: seq<u8>)
    requires at + |v| <= |d|
    ensures Placed(d, at, v)[at..at + |v|] == v
  {
  }

  /** Restores row `y` in the buffer, unless its filter type is unknown. */
  method RestoreRow(f: Format, rows: array<u8>, y: u16, ghost raw: seq<u8>) returns (e: Err)
    requires Holds(f, raw) && y < f.h && RowsDone(f, raw, rows[..], y)
    modifies rows
    ensures e == if FilterType(f, raw, y) <= 4 then OK else CORRUPT
    ensures RowStart(f, y) + 1 + Stride(f) <= rows.Length
    ensures e == OK ==> RowsDone(f, raw, rows[..], y + 1)
    ensures e == OK ==> rows[RowStart(f, y) + 1..RowStart(f, y) + 1 + Stride(f)] == Restored(f, raw, y)
  {
    ghost var now, row := rows[..], Restored(f, raw, y);
    NextRow(f, raw, now, y);
    var start, stride := RowStart(f, y), Stride(f);
    if y > 0 {
      assert stride <= start;
    }
    var t := rows[start];
    if t > 4 {
      return CORRUPT;
    }
    var prevAt: Option<nat> := if y == 0 then None else Some(start - stride);
    RestoredInBuffer(f, raw, now, y, prevAt);
    UnfilterRow(rows, start + 1, prevAt, stride, SamplesBpp(f.ct), t);
    assert rows[..] == Placed(now, start + 1, row);
    PlacedIn(now, start + 1, row);
    e := OK;
  }

  /** The loop restores row `y` from the bytes the definition speaks of. */
  lemma RestoredInBuffer(f: Format, raw: seq<u8>, now: seq<u8>, y: nat, prevAt: Option<nat>)
    requires Holds(f, raw) && y < f.h && RowsDone(f, raw, now, y)
    requires 0 < y ==> Stride(f) <= RowStart(f, y)
    requires prevAt == if y == 0 then None else Some(RowStart(f, y) - Stride(f))
    ensures RowStart(f, y) + 1 + Stride(f) <= |now|
    ensures Unfilter(now[RowStart(f, y)], now[RowStart(f, y) + 1..RowStart(f, y) + 1 + Stride(f)],
                     RowAbove(now, prevAt, Stride(f)), SamplesBpp(f.ct), Stride(f))
            == Restored(f, raw, y)
  {
    NextRow(f, raw, now, y);
    assert RowAbove(now, prevAt, Stride(f)) == Above(f, raw, y) by {
      if y > 0 {
        assert RawRow(f, now, y - 1) == Restored(f, raw, y - 1);
      }
    }
    assert now[RowStart(f, y)] == FilterType(f, raw, y);
    assert now[RowStart(f, y) + 1..RowStart(f, y) + 1 + Stride(f)] == RawRow(f, raw, y);
  }

  method DrawRestored(f: Format, rows: array<u8>, img: Image, y: u16, ghost raw: seq<u8>, ghost p0: seq<u16>)
    requires Holds(f, raw) && y < f.h && img.Valid() && Shaped(img.k, p0) && rows as object != img.px
    requires RowStart(f, y) + 1 + Stride(f) <= rows.Length
    requires rows[RowStart(f, y) + 1..RowStart(f, y) + 1 + Stride(f)] == Restored(f, raw, y)
    requires RasterDone(img.k, p0, img.px[..], Picture(f, raw), f.w, f.h, 0, y)
    modifies img.px
    ensures img.Valid() && RasterDone(img.k, p0, img.px[..], Picture(f, raw), f.w, f.h, 0, y + 1)
  {
    DrawRow(f, rows, RowStart(f, y) + 1, img, y, p0, Picture(f, raw));
  }

  /** Restores row `y` and draws it. */
  method BlitRow(f: Format, rows: array<u8>, img: Image, y: u16, ghost raw: seq<u8>, ghost p0: seq<u16>)
    returns (e: Err)
    requires Holds(f, raw) && y < f.h && RowsDone(f, raw, rows[..], y)
    requires img.Valid() && Shaped(img.k, p0) && rows as object != img.px
    requires RasterDone(img.k, p0, img.px[..], Picture(f, raw), f.w, f.h, 0, y)
    modifies rows, img.px
    ensures img.Valid()
    ensures e == if FilterType(f, raw, y) <= 4 then OK else CORRUPT
    ensures e == OK ==> RowsDone(f, raw, rows[..], y + 1)
    ensures e == OK ==> RasterDone(img.k, p0, img.px[..], Picture(f, raw), f.w, f.h, 0, y + 1)
  {
    e := RestoreRow(f, rows, y, raw);
    if e == OK {
      ghost var now := rows[..];
      DrawRestored(f, rows, img, y, raw, p0);
      assert rows[..] == now;
    }
  }

  /** Restores every row in place and draws the picture. */
  method Blit(f: Format, rows: array<u8>, rawN: nat, img: Image) returns (e: Err)
    requires 0 < f.w <= MAX_DIM && 0 < f.h <= MAX_DIM && 3 * f.nplte <= |f.plte|
    requires rawN <= rows.Length && img.Valid() && rows as object != img.px
    modifies rows, img.px
    ensures img.Valid()
    ensures e == if SamplesBpp(f.ct) == 0 then UNSUPPORTED
                 else if rawN < RowStart(f, f.h) then CORRUPT
                 else if !TypesOk(f, old(rows[..]), f.h) then CORRUPT
                 else OK
    ensures e == OK ==>
      && RowsDone(f, old(rows[..]), rows[..], f.h)
      && Gathered(img.k, old(img.px[..]), img.px[..], Picture(f, old(rows[..])), f.w, f.h)
  {
    if SamplesBpp(f.ct) == 0 {
      return UNSUPPORTED;
    }
    RowBaseIsProduct(Stride(f) + 1, f.h);
    if rawN < f.h * (Stride(f) + 1) {
      return CORRUPT;
    }
    ghost var raw, p0 := rows[..], img.px[..];
    var y := 0;
    while y < f.h
      invariant 0 <= y <= f.h
      invariant img.Valid() && RowsDone(f, raw, rows[..], y) && TypesOk(f, raw, y)
      invariant RasterDone(img.k, p0, img.px[..], Picture(f, raw), f.w, f.h, 0, y)
    {
      e := BlitRow(f, rows, img, y, raw, p0);
      if e != OK {
        return;
      }
      y := y + 1;
    }
    RasterIsGather(img.k, p0, img.px[..], Picture(f, raw), f.w, f.h);
    e := OK;
  }

  // ---------------------------------------------------------------- what an encoder wrote

  /** The row above row `y` of a picture. */
  function Prior(f: Format, rows: seq<seq<u8>>, y: nat): seq<u8>
    requires y < |rows|
  {
    if y == 0 then Zeros(Stride(f)) else rows[y - 1]
  }

  predicate EncodesRow(f: Format, raw: seq<u8>, rows: seq<seq<u8>>, y: nat)
    requires Holds(f, raw) && y < f.h && y < |rows|
  {
    && |rows[y]| == Stride(f) == |Prior(f, rows, y)|
    && FilterType(f, raw, y) <= 4
    && RawRow(f, raw, y) == Filter(FilterType(f, raw, y), rows[y], Prior(f, rows, y), SamplesBpp(f.ct))
  }

  /** `raw` is what an encoder writes for `rows`, choosing any filter type for each row. */
  predicate Encodes(f: Format, raw: seq<u8>, rows: seq<seq<u8>>) {
    && Holds(f, raw) && |rows| == f.h
    && forall y :: 0 <= y < f.h ==> EncodesRow(f, raw, rows, y)
  }

  /** Whatever filters the encoder chose, every restored row is the row it was given. */
  lemma {:induction false} RestoredIsOriginal(f: Format, raw: seq<u8>, rows: seq<seq<u8>>, y: nat)
    requires Encodes(f, raw, rows) && y < f.h
    ensures Restored(f, raw, y) == rows[y]
    decreases y
  {
    assert EncodesRow(f, raw, rows, y);
    if y > 0 {
      RestoredIsOriginal(f, raw, rows, y - 1);
    }
    assert Above(f, raw, y) == Prior(f, rows, y);
    UnfilterInvertsFilter(FilterType(f, raw, y), rows[y], Prior(f, rows, y), SamplesBpp(f.ct), Stride(f));
    assert rows[y][..Stride(f)] == rows[y];
  }

  /** So the decoder accepts the rows and the picture it shows is the original one. */
  lemma PictureIsOriginal(f: Format, raw: seq<u8>, rows: seq<seq<u8>>)
    requires Encodes(f, raw, rows)
    ensures TypesOk(f, raw, f.h)
    ensures forall y :: 0 <= y < f.h ==> |rows[y]| == Stride(f) && Picture(f, raw)[y] == RowColours(f, rows[y])
  {
    forall y | 0 <= y < f.h
      ensures FilterType(f, raw, y) <= 4 && |rows[y]| == Stride(f) && Picture(f, raw)[y] == RowColours(f, rows[y])
    {
      assert EncodesRow(f, raw, rows, y);
      RestoredIsOriginal(f, raw, rows, y);
    }
  }
}
