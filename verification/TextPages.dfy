/** What the windowed text viewer shows of a file, and how paging moves over it. */
module TextPages {
  import opened Machine
  import opened Utf8

  const WIN := 32768
  const REPL: u8 := 0x3F
  const CR: u8 := 0x0D
  const LF: u8 := 0x0A

  type File = f: seq<u8> | |f| < U32_MOD

  // ---------------------------------------------------------------- one window

  /** What the bytes at `i` put on the screen, bytes from `lim` on being out of sight:
      the output, the next position, and whether the window goes on. */
  datatype Token = Token(out: seq<u8>, next: nat, go: bool)

  function TokenAt(f: File, i: nat, lim: nat): (t: Token)
    requires i < lim <= |f|
    ensures i <= t.next <= lim && |t.out| <= t.next - i
    ensures t.go ==> i < t.next
  {
    var n := Utf8Len(f[i]);
    if f[i] == CR then Token([LF], if i + 1 < lim && f[i + 1] == LF then i + 2 else i + 1, true)
    else if n == 0 then Token([REPL], i + 1, true)
    else if lim - i < n then if lim < |f| then Token([], i, false) else Token([REPL], lim, false)
    else if !Utf8Ok(f, i, n) then Token([REPL], i + 1, true)
    else Token(f[i..i + n], i + n, true)
  }

  datatype View = View(off: nat, end: nat, text: seq<u8>)

  function Scan(f: File, i: nat, lim: nat): (v: View)
    requires i <= lim <= |f|
    ensures v.off == i <= v.end <= lim && |v.text| <= v.end - i
    decreases lim - i
  {
    if i == lim then View(i, i, [])
    else
      var t := TokenAt(f, i, lim);
      if !t.go then View(i, t.next, t.out)
      else
        var rest := Scan(f, t.next, lim);
        View(i, rest.end, t.out + rest.text)
  }

  function WindowEnd(f: File, off: nat): nat
    requires off <= |f|
  {
    if off + WIN < |f| then off + WIN else |f|
  }

  /** The window loaded at `off`: leading continuation bytes are skipped, except at the file's start. */
  function Window(f: File, off: nat): (v: View)
    requires off <= |f|
    ensures off <= v.off <= v.end <= WindowEnd(f, off)
    ensures |v.text| <= v.end - v.off <= WIN
  {
    var lim := WindowEnd(f, off);
    Scan(f, if off == 0 then 0 else SkipConts(f, off, lim), lim)
  }

  /** Whatever bytes a file holds, the window's text is well-formed UTF-8. */
  lemma {:induction false} ScanIsText(f: File, i: nat, lim: nat)
    requires i <= lim <= |f|
    ensures Text(Scan(f, i, lim).text)
    decreases lim - i
  {
    if i < lim {
      var t := TokenAt(f, i, lim);
      if t.out != [] {
        TokenIsChar(f, i, lim);
        if t.go {
          ScanIsText(f, t.next, lim);
          PrependChar(t.out, Scan(f, t.next, lim).text);
        }
      }
    }
  }

  lemma TokenIsChar(f: File, i: nat, lim: nat)
    requires i < lim <= |f| && TokenAt(f, i, lim).out != []
    ensures var c := TokenAt(f, i, lim).out; CharAt(c, 0) && |c| == Utf8Len(c[0])
  {
    var t := TokenAt(f, i, lim);
    assert t.next == i + |t.out| ==> t.out != [REPL] && t.out != [LF] ==> t.out == f[i..i + |t.out|];
  }

  lemma WindowIsWellFormed(f: File, off: nat)
    requires off <= |f|
    ensures WellFormedFrom(Window(f, off).text, 0)
  {
    var lim := WindowEnd(f, off);
    ScanIsText(f, if off == 0 then 0 else SkipConts(f, off, lim), lim);
    TextIsWellFormed(Window(f, off).text, 0);
  }

  // ---------------------------------------------------------------- windows of a text

  /** Line ends as the viewer shows them: CR LF and lone CR become LF. */
  function Norm(f: seq<u8>, i: nat, e: nat): seq<u8>
    requires i <= e <= |f|
    decreases e - i
  {
    if i == e then []
    else if f[i] == CR then [LF] + Norm(f, if i + 1 < e && f[i + 1] == LF then i + 2 else i + 1, e)
    else [f[i]] + Norm(f, i + 1, e)
  }

  function NextLine(f: seq<u8>, i: nat, e: nat): (j: nat)
    requires i < e <= |f|
    ensures i < j <= e
  {
    if f[i] == CR && i + 1 < e && f[i + 1] == LF then i + 2 else i + 1
  }

  lemma NormUnfolds(f: seq<u8>, i: nat, e: nat)
    requires i < e <= |f|
    ensures Norm(f, i, e) == [if f[i] == CR then LF else f[i]] + Norm(f, NextLine(f, i, e), e)
  {
  }

  lemma {:induction false} NormRun(f: seq<u8>, i: nat, j: nat, e: nat)
    requires i <= j <= e <= |f| && forall k :: i <= k < j ==> f[k] != CR
    ensures Norm(f, i, e) == f[i..j] + Norm(f, j, e)
    decreases j - i
  {
    if i < j {
      NormRun(f, i + 1, j, e);
      assert f[i..j] == [f[i]] + f[i + 1..j];
      Assoc([f[i]], f[i + 1..j], Norm(f, j, e));
    }
  }

  /** On a text, a window that starts at a character ends at a character, shows exactly the bytes it
      covers with line ends normalized, and stops short only of a character that does not fit. */
  lemma {:induction false} ScanOfText(f: File, i: nat, lim: nat)
    requires i <= lim <= |f| && TextFrom(f, i)
    ensures var v := Scan(f, i, lim);
      && TextFrom(f, v.end)
      && v.text == Norm(f, i, v.end)
      && (v.end < lim ==> lim < |f| && lim < v.end + Utf8Len(f[v.end]))
    decreases lim - i
  {
    if i < lim {
      CharShape(f, i);
      var t, n := TokenAt(f, i, lim), Utf8Len(f[i]);
      if t.go {
        var rest := Scan(f, t.next, lim);
        ScanOfText(f, t.next, lim);
        assert Scan(f, i, lim) == View(i, rest.end, t.out + rest.text);
        if f[i] == CR {
          NormUnfolds(f, i, rest.end);
        } else {
          NormRun(f, i, i + n, rest.end);
        }
      }
    }
  }

  /** The last byte from `b` down that continues no character. */
  function StepBack(f: seq<u8>, b: nat): (k: nat)
    requires b < |f|
    ensures k <= b
  {
    if 0 < b && Cont(f[b]) then StepBack(f, b - 1) else b
  }

  lemma {:induction false} StepsBackTo(f: seq<u8>, b: nat, e: nat)
    requires e <= b < |f| && !Cont(f[e]) && forall k :: e < k <= b ==> Cont(f[k])
    ensures StepBack(f, b) == e
  {
    if e < b {
      StepsBackTo(f, b - 1, e);
    }
  }

  /** Where a page that starts at `off` is cut: a window's length on, or before the character that lies there;
      at the end of the file if that is nearer. */
  function Cut(f: File, off: nat): (e: nat)
    requires off <= |f|
    ensures e <= |f|
  {
    if off + WIN < |f| then StepBack(f, off + WIN) else |f|
  }

  /** On a text, the window at a character ends where the page is cut, and shows the bytes up to there with line
      ends normalized. */
  lemma WindowOfText(f: File, off: nat)
    requires off < |f| && TextFrom(f, off)
    ensures var v := Window(f, off);
      v.off == off < v.end == Cut(f, off) && TextFrom(f, v.end) && v.text == Norm(f, off, v.end)
  {
    var lim := WindowEnd(f, off);
    CharShape(f, off);
    ScanOfText(f, off, lim);
    var e := Window(f, off).end;
    if lim < |f| {
      CharShape(f, e);
      StepsBackTo(f, lim, e);
    }
  }

  // ---------------------------------------------------------------- paging

  function PageForward(f: File, v: View): View {
    if v.end <= v.off || v.end >= |f| then v else Window(f, v.end)
  }

  function PageBack(f: File, v: View): View
    requires v.off <= |f|
  {
    if v.off == 0 then v else Window(f, if v.off > WIN then v.off - WIN else 0)
  }

  /** The windows shown when paging forward from `off` until paging no longer moves. */
  function Pages(f: File, off: nat): (ps: seq<View>)
    requires off <= |f|
    ensures ps != [] && ps[0] == Window(f, off)
    decreases |f| - off
  {
    var v := Window(f, off);
    if v.end <= v.off || v.end >= |f| then [v] else [v] + Pages(f, v.end)
  }

  lemma {:induction false} PagesArePaging(f: File, off: nat, k: nat)
    requires off <= |f| && k < |Pages(f, off)|
    ensures var ps := Pages(f, off);
      PageForward(f, ps[k]) == if k + 1 < |ps| then ps[k + 1] else ps[k]
    decreases k
  {
    var v, ps := Window(f, off), Pages(f, off);
    if v.off < v.end < |f| {
      var rest := Pages(f, v.end);
      assert ps == [v] + rest;
      if 0 < k {
        PagesArePaging(f, v.end, k - 1);
        assert ps[k] == rest[k - 1] && (k + 1 < |ps| ==> ps[k + 1] == rest[k]);
      }
    }
  }

  /** Page `k` is not empty, lies between characters, and the next one starts where it ends. */
  predicate PageOk(f: File, ps: seq<View>, k: nat)
    requires k < |ps|
  {
    && ps[k].off < ps[k].end <= |f|
    && TextFrom(f, ps[k].off) && TextFrom(f, ps[k].end)
    && (if k + 1 < |ps| then ps[k].end == ps[k + 1].off else ps[k].end == |f|)
  }

  predicate Tiles(f: File, ps: seq<View>, off: nat) {
    && ps != [] && ps[0].off == off
    && forall k :: 0 <= k < |ps| ==> PageOk(f, ps, k)
  }

  lemma TilesCons(f: File, v: View, rest: seq<View>)
    requires v.off < v.end < |f| && Tiles(f, rest, v.end)
    requires TextFrom(f, v.off) && TextFrom(f, v.end)
    ensures Tiles(f, [v] + rest, v.off)
  {
    var ps := [v] + rest;
    forall k | 0 <= k < |ps|
      ensures PageOk(f, ps, k)
    {
      if 0 < k {
        assert PageOk(f, rest, k - 1);
      }
    }
  }

  /** Paging forward over a text covers it with no gap and no overlap, always progresses,
      and every page starts and ends between characters. */
  lemma {:induction false} PagesTile(f: File, off: nat)
    requires off < |f| && TextFrom(f, off)
    ensures Tiles(f, Pages(f, off), off)
    decreases |f| - off
  {
    WindowOfText(f, off);
    var v := Window(f, off);
    if v.end < |f| {
      PagesTile(f, v.end);
      TilesCons(f, v, Pages(f, v.end));
    }
  }

  /** Everything shown, page after page. */
  function Shown(ps: seq<View>): seq<u8> {
    if ps == [] then [] else ps[0].text + Shown(ps[1..])
  }

  lemma ShownUnfolds(f: File, off: nat)
    requires off < |f| && Window(f, off).off < Window(f, off).end
    ensures var v := Window(f, off);
      && Shown(Pages(f, off)) == v.text + (if v.end < |f| then Shown(Pages(f, v.end)) else [])
  {
    var v := Window(f, off);
    assert Pages(f, off)[1..] == if v.end < |f| then Pages(f, v.end) else [];
  }

  predicate NoCr(f: seq<u8>, i: nat) {
    forall k :: i <= k < |f| ==> f[k] != CR
  }

  lemma NormWithoutCr(f: seq<u8>, i: nat, e: nat)
    requires i <= e <= |f| && NoCr(f, i)
    ensures Norm(f, i, e) == f[i..e]
  {
    NormRun(f, i, e, e);
    assert Norm(f, e, e) == [];
  }

  lemma CutFrom(f: seq<u8>, i: nat, j: nat)
    requires i <= j <= |f|
    ensures f[i..j] + f[j..] == f[i..]
  {
  }

  lemma {:induction false} ShownWithoutCr(f: File, off: nat)
    requires off < |f| && TextFrom(f, off) && NoCr(f, off)
    ensures Shown(Pages(f, off)) == f[off..]
    decreases |f| - off
  {
    WindowOfText(f, off);
    var v := Window(f, off);
    NormWithoutCr(f, off, v.end);
    ShownUnfolds(f, off);
    if v.end < |f| {
      ShownWithoutCr(f, v.end);
      CutFrom(f, off, v.end);
    }
  }

  lemma {:induction false} NormHasNoCr(f: seq<u8>, i: nat, e: nat)
    requires i <= e <= |f|
    ensures CR !in Norm(f, i, e)
    decreases e - i
  {
    if i < e {
      NormUnfolds(f, i, e);
      NormHasNoCr(f, NextLine(f, i, e), e);
    }
  }

  lemma {:induction false} ShownHasNoCr(f: File, off: nat)
    requires off < |f| && TextFrom(f, off)
    ensures CR !in Shown(Pages(f, off))
    decreases |f| - off
  {
    WindowOfText(f, off);
    var v := Window(f, off);
    NormHasNoCr(f, off, v.end);
    ShownUnfolds(f, off);
    if v.end < |f| {
      ShownHasNoCr(f, v.end);
    }
  }

  /** The pages of a text put together are the file, if and only if the file has no CR. */
  lemma ShownIsFileExactly(f: File)
    requires f != [] && Text(f)
    ensures Shown(Pages(f, 0)) == f <==> CR !in f
  {
    ShownHasNoCr(f, 0);
    if CR !in f {
      ShownWithoutCr(f, 0);
      assert f[0..] == f;
    }
  }

  // ---------------------------------------------------------------- CR LF across a page boundary

  predicate Straddles(f: seq<u8>, b: nat) {
    0 < b < |f| && f[b - 1] == CR && f[b] == LF
  }

  /** How many of the cuts from `off` on lie between a CR and its LF. */
  function CutLineEnds(f: File, off: nat): nat
    requires off <= |f|
    decreases |f| - off
  {
    var e := Cut(f, off);
    if off < e < |f| then (if Straddles(f, e) then 1 else 0) + CutLineEnds(f, e) else 0
  }

  /** Normalizing in two parts doubles a line end that is cut in the middle, and changes nothing else. */
  lemma {:induction false} NormSplit(f: seq<u8>, a: nat, b: nat, c: nat)
    requires a < b <= c <= |f|
    ensures !(b < c && Straddles(f, b)) ==> Norm(f, a, c) == Norm(f, a, b) + Norm(f, b, c)
    ensures b < c && Straddles(f, b) ==> |Norm(f, a, c)| + 1 == |Norm(f, a, b)| + |Norm(f, b, c)|
    decreases b - a
  {
    var x, next := [if f[a] == CR then LF else f[a]], NextLine(f, a, c);
    NormUnfolds(f, a, c);
    NormUnfolds(f, a, b);
    if next < b {
      NormSplit(f, next, b, c);
      Assoc(x, Norm(f, next, b), Norm(f, b, c));
    } else if next == b {
      assert Norm(f, a, b) == x + [] == x;
    } else {
      CutLineEnd(f, a, c);
    }
  }

  /** Cut after its CR, a line end is shown twice. */
  lemma CutLineEnd(f: seq<u8>, a: nat, c: nat)
    requires a + 1 < c <= |f| && Straddles(f, a + 1)
    ensures |Norm(f, a, c)| + 1 == |Norm(f, a, a + 1)| + |Norm(f, a + 1, c)|
  {
    NormUnfolds(f, a, c);
    NormUnfolds(f, a, a + 1);
    NormUnfolds(f, a + 1, c);
    assert Norm(f, a + 1, a + 1) == [];
  }

  lemma {:induction false} ShownLength(f: File, off: nat)
    requires off < |f| && TextFrom(f, off)
    ensures |Shown(Pages(f, off))| == |Norm(f, off, |f|)| + CutLineEnds(f, off)
    ensures CutLineEnds(f, off) == 0 ==> Shown(Pages(f, off)) == Norm(f, off, |f|)
    decreases |f| - off
  {
    WindowOfText(f, off);
    var v := Window(f, off);
    NormSplit(f, off, v.end, |f|);
    ShownUnfolds(f, off);
    if v.end < |f| {
      ShownLength(f, v.end);
    }
  }

  /** The pages put together are the file with line ends normalized, if and only if no cut lies between a CR and
      its LF; each one that does is one line end too many. */
  lemma ShownIsNormalizedExactly(f: File)
    requires f != [] && Text(f)
    ensures Shown(Pages(f, 0)) == Norm(f, 0, |f|) <==> CutLineEnds(f, 0) == 0
    ensures |Shown(Pages(f, 0))| == |Norm(f, 0, |f|)| + CutLineEnds(f, 0)
  {
    ShownLength(f, 0);
  }

  // ---------------------------------------------------------------- two files

  /** One-byte characters, and two-byte ones made of the bytes C3 A9. */
  predicate Simple(f: seq<u8>, k: nat)
    requires k < |f|
  {
    || f[k] < 0x80
    || (f[k] == 0xC3 && k + 1 < |f| && f[k + 1] == 0xA9)
    || (f[k] == 0xA9 && 0 < k && f[k - 1] == 0xC3)
  }

  lemma {:induction false} SimpleIsText(f: seq<u8>, i: nat)
    requires forall k :: 0 <= k < |f| ==> Simple(f, k)
    requires i <= |f| && (i < |f| ==> f[i] != 0xA9)
    ensures TextFrom(f, i)
    decreases |f| - i
  {
    if i < |f| {
      assert Simple(f, i);
      var j := if f[i] == 0xC3 then i + 2 else i + 1;
      if j < |f| {
        assert Simple(f, j);
      }
      SimpleIsText(f, j);
    }
  }

  /** A window of letters whose last byte is a CR, and its LF in the next window. */
  function LettersCrLf(): File {
    seq(WIN + 1, k => if k == WIN - 1 then CR else if k == WIN then LF else 0x41)
  }

  lemma CutLineEndShown()
    ensures var f := LettersCrLf(); Text(f) && Shown(Pages(f, 0)) != Norm(f, 0, |f|)
  {
    var f := LettersCrLf();
    assert forall k :: 0 <= k < |f| ==> Simple(f, k);
    SimpleIsText(f, 0);
    assert Cut(f, 0) == WIN && Straddles(f, WIN);
    ShownIsNormalizedExactly(f);
  }

  // ---------------------------------------------------------------- back, then forward

  /** Going back one window length from a character boundary gives a page that ends right there. */
  lemma FullPageBack(f: File, at: nat)
    requires Text(f) && WIN <= at <= |f| && TextFrom(f, at)
    ensures var v := Window(f, at - WIN); v.off < v.end == at
  {
    var off := at - WIN;
    SkipReachesBoundary(f, off, at);
    var start := if off == 0 then 0 else SkipConts(f, off, at);
    ScanOfText(f, start, at);
    var e := Scan(f, start, at).end;
    if e < at {
      CharWithin(f, e, at);
    }
  }

  lemma ForwardFrom(f: File, w: View)
    requires w.off < w.end < |f|
    ensures PageForward(f, w) == Window(f, w.end)
  {
  }

  lemma BackIsWindow(f: File, v: View)
    requires WIN <= v.off <= |f|
    ensures PageBack(f, v) == Window(f, v.off - WIN)
  {
  }

  lemma BackEndsThere(f: File, v: View, w: View)
    requires Text(f) && WIN <= v.off < |f| && TextFrom(f, v.off) && w == PageBack(f, v)
    ensures w.off < w.end == v.off
  {
    BackIsWindow(f, v);
    FullPageBack(f, v.off);
  }

  lemma BackThenForwardFar(f: File, v: View, w: View)
    requires Text(f) && WIN <= v.off < |f| && TextFrom(f, v.off) && w == PageBack(f, v)
    ensures PageForward(f, w) == Window(f, v.off)
  {
    BackEndsThere(f, v, w);
    ForwardFrom(f, w);
  }

  lemma BackThenForwardNear(f: File, v: View)
    requires Text(f) && 0 < v.off < |f| && v.off < WIN
    ensures PageForward(f, PageBack(f, v)).off == if Window(f, 0).end < |f| then Window(f, 0).end else 0
    ensures Window(f, 0).end < |f| ==> PageForward(f, PageBack(f, v)) == Window(f, Window(f, 0).end)
  {
    WindowOfText(f, 0);
    var p := Window(f, 0);
    if p.end < |f| {
      WindowOfText(f, p.end);
    }
  }

  /** From the end of the file, paging back gives a page that ends there too, so that there is nothing ahead. */
  lemma BackFromEnd(f: File, v: View)
    requires Text(f) && 0 < v.off == |f|
    ensures PageForward(f, PageBack(f, v)) == PageBack(f, v) && PageBack(f, v).off < |f|
  {
    if WIN <= |f| {
      BackIsWindow(f, v);
      FullPageBack(f, |f|);
    } else {
      WindowOfText(f, 0);
    }
  }

  /** On a text, paging back and then forward returns to the same offset if and only if the offset is not the end
      of the file, and is at least a window length or where the file's first page is cut. */
  lemma BackThenForward(f: File, v: View)
    requires Text(f) && 0 < v.off <= |f| && TextFrom(f, v.off)
    ensures var w := PageForward(f, PageBack(f, v));
      && (w.off == v.off <==> v.off < |f| && (WIN <= v.off || Cut(f, 0) == v.off))
      && (w.off == v.off ==> w == Window(f, v.off))
  {
    if v.off == |f| {
      BackFromEnd(f, v);
    } else {
      WindowOfText(f, 0);
      if WIN <= v.off {
        BackThenForwardFar(f, v, PageBack(f, v));
        WindowOfText(f, v.off);
      } else {
        BackThenForwardNear(f, v);
      }
    }
  }

  /** Two windows of letters with a two-byte character across the first cut and another across the second. */
  function TwoAcross(): File {
    seq(2 * WIN, k =>
      if k == WIN - 1 || k == 2 * WIN - 2 then 0xC3 else if k == WIN || k == 2 * WIN - 1 then 0xA9 else 0x41)
  }

  /** A run of the viewer in which paging back and then forward moves: two pages on, one back, and there. */
  lemma PagingMoves()
    ensures var f := TwoAcross();
      var v := PageBack(f, PageForward(f, PageForward(f, Window(f, 0))));
      Text(f) && v.off == WIN - 2 && PageForward(f, PageBack(f, v)).off == WIN - 1
  {
    var f := TwoAcross();
    assert forall k :: 0 <= k < |f| ==> Simple(f, k);
    SimpleIsText(f, 0);
    SimpleIsText(f, WIN - 1);
    SimpleIsText(f, 2 * WIN - 2);
    StepsBackTo(f, WIN, WIN - 1);
    StepsBackTo(f, 2 * WIN - 1, 2 * WIN - 2);
    WindowOfText(f, 0);
    WindowOfText(f, WIN - 1);
    WindowOfText(f, 2 * WIN - 2);
    SimpleIsText(f, WIN - 2);
    WindowOfText(f, WIN - 2);
    BackThenForwardNear(f, Window(f, WIN - 2));
  }
}
