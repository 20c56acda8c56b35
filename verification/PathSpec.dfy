/** What a path inside the user area is, segment by segment, and what the character scan makes of it. */
module PathSpec {
  import opened Machine

  const JAIL: string := "/user"
  const PATH_MAX := 256

  predicate BadChar(c: char) {
    c == '\\' || c < ' '
  }

  predicate GoodChar(c: char) {
    c != '/' && !BadChar(c)
  }

  predicate GoodSeg(g: string) {
    g != "" && g != ".." && forall i :: 0 <= i < |g| ==> GoodChar(g[i])
  }

  /** Segments as a path: each behind a slash. */
  function Render(segs: seq<string>): string {
    if segs == [] then "" else "/" + segs[0] + Render(segs[1..])
  }

  predicate GoodSegs(segs: seq<string>) {
    forall i :: 0 <= i < |segs| ==> GoodSeg(segs[i])
  }

  function Tail(slash: bool): string {
    if slash then "/" else ""
  }

  /** `p` is the path of these segments, perhaps with a slash after the last. */
  predicate Spells(p: string, segs: seq<string>, slash: bool) {
    segs != [] && GoodSegs(segs) && p == Render(segs) + Tail(slash)
  }

  ghost predicate Jailed(p: string) {
    exists segs, slash :: Spells(p, segs, slash) && segs[0] == "user"
  }

  // ---------------------------------------------------------------- the scan

  predicate DotDot(rest: string) {
    |rest| >= 2 && rest[0] == '.' && rest[1] == '.' && (|rest| == 2 || rest[2] == '/')
  }

  /** The scan of what follows the first slash; `start` says a segment is about to begin, `room` is what is
      left of the output buffer. */
  function Scan(rest: string, start: bool, room: int): Err
    decreases |rest|
  {
    if rest == "" then OK
    else if BadChar(rest[0]) then DENIED
    else if room <= 1 then NOSPC
    else if rest[0] == '/' then (if start then DENIED else Scan(rest[1..], true, room - 1))
    else if start && DotDot(rest) then DENIED
    else Scan(rest[1..], false, room - 1)
  }

  /** The path is in the user area by its first characters. */
  predicate IsUserRoot(p: string) {
    |p| >= |JAIL| && p[..|JAIL|] == JAIL && (|p| == |JAIL| || p[|JAIL|] == '/')
  }

  function Check(p: string, room: int): Err {
    if p == "" || p[0] != '/' then DENIED
    else
      var e := Scan(p[1..], true, room - 1);
      if e == OK && !IsUserRoot(p) then DENIED else e
  }

  // ---------------------------------------------------------------- the scan accepts exactly these paths

  /** The rest of a segment passes, as far as the buffer goes. */
  lemma {:induction false} ScanWord(g: string, more: string, room: int)
    requires forall i :: 0 <= i < |g| ==> GoodChar(g[i])
    ensures Scan(g + more, false, room) == if g == "" || |g| < room then Scan(more, false, room - |g|) else NOSPC
    decreases |g|
  {
    if g == "" {
      assert g + more == more;
    } else {
      assert (g + more)[0] == g[0] && (g + more)[1..] == g[1..] + more;
      ScanWord(g[1..], more, room - 1);
    }
  }

  /** So does a whole good segment, at its start. */
  lemma ScanSegment(g: string, more: string, room: int)
    requires GoodSeg(g) && (more == "" || more[0] == '/')
    ensures Scan(g + more, true, room) == if |g| < room then Scan(more, false, room - |g|) else NOSPC
  {
    var s := g + more;
    assert s[0] == g[0] && s[1..] == g[1..] + more;
    assert forall i :: 0 <= i < |g| ==> s[i] == g[i];
    assert more != "" ==> s[|g|] == '/';
    assert |g| == 2 && g[0] == '.' && g[1] == '.' ==> g == "..";
    ScanWord(g[1..], more, room - 1);
  }

  /** Paths of good segments pass the scan if and only if they fit; otherwise there is not enough room. */
  lemma {:induction false} SpelledPasses(segs: seq<string>, slash: bool, room: int)
    requires GoodSegs(segs)
    ensures var s := Render(segs) + Tail(slash);
      Scan(s, false, room) == if s == "" || |s| < room then OK else NOSPC
    decreases |segs|
  {
    var s := Render(segs) + Tail(slash);
    if segs != [] {
      var more := Render(segs[1..]) + Tail(slash);
      assert s == "/" + (segs[0] + more);
      assert s[0] == '/' && s[1..] == segs[0] + more;
      SpelledPasses(segs[1..], slash, room - 1 - |segs[0]|);
      ScanSegment(segs[0], more, room - 1);
    } else if slash {
      assert s == "/" && s[1..] == "";
    }
  }

  /** Length of the first segment. */
  function WordEnd(rest: string): (k: nat)
    ensures k <= |rest| && (k < |rest| ==> rest[k] == '/')
    ensures forall i :: 0 <= i < k ==> rest[i] != '/'
  {
    if rest == "" || rest[0] == '/' then 0 else 1 + WordEnd(rest[1..])
  }

  /** Whatever passes inside a segment is good up to its end. */
  lemma {:induction false} PassedWord(rest: string, room: int)
    requires Scan(rest, false, room) == OK
    ensures forall i :: 0 <= i < WordEnd(rest) ==> GoodChar(rest[i])
    ensures Scan(rest[WordEnd(rest)..], false, room - WordEnd(rest)) == OK
    decreases |rest|
  {
    if rest != "" && rest[0] != '/' {
      PassedWord(rest[1..], room - 1);
      var k := WordEnd(rest[1..]);
      assert rest[k + 1..] == rest[1..][k..];
      forall i | 0 <= i < k + 1
        ensures GoodChar(rest[i])
      {
        if 0 < i {
          assert rest[i] == rest[1..][i - 1];
        }
      }
    }
  }

  /** Whatever passes after a slash begins with a good segment. */
  lemma PassedSegment(rest: string, room: int) returns (k: nat)
    requires Scan(rest, true, room) == OK && rest != ""
    ensures 0 < k <= |rest| && GoodSeg(rest[..k]) && (k < |rest| ==> rest[k] == '/')
    ensures Scan(rest[k..], false, room - k) == OK
  {
    PassedWord(rest[1..], room - 1);
    k := 1 + WordEnd(rest[1..]);
    var g := rest[..k];
    assert rest[k..] == rest[1..][k - 1..];
    assert g[0] == rest[0];
    assert forall i :: 1 <= i < |g| ==> g[i] == rest[1..][i - 1];
    assert k < |rest| ==> rest[k] == rest[1..][k - 1];
    assert |g| == 2 && g[0] == '.' && g[1] == '.' ==> DotDot(rest);
  }

  /** Whatever passes after a slash is a list of good segments. */
  lemma {:induction false} PassedIsSpelled(rest: string, room: int) returns (segs: seq<string>, slash: bool)
    requires Scan(rest, true, room) == OK
    ensures GoodSegs(segs) && "/" + rest == Render(segs) + Tail(slash)
    ensures segs == [] <==> rest == ""
    decreases |rest|
  {
    if rest == "" {
      segs, slash := [], true;
    } else {
      var k := PassedSegment(rest, room);
      var g, more, ss := rest[..k], rest[k..], [];
      slash := false;
      if more != "" {
        ss, slash := PassedIsSpelled(more[1..], room - k - 1);
        assert more == "/" + more[1..];
      }
      segs := [g] + ss;
      SpellFirst(g, ss, Tail(slash));
      assert "/" + rest == "/" + g + more;
    }
  }

  lemma SpellFirst(g: string, ss: seq<string>, tail: string)
    ensures Render([g] + ss) + tail == "/" + g + (Render(ss) + tail)
  {
    assert ([g] + ss)[1..] == ss;
    Assoc("/" + g, Render(ss), tail);
  }

  lemma {:induction false} PassedChars(rest: string, start: bool, room: int)
    requires Scan(rest, start, room) == OK
    ensures forall i :: 0 <= i < |rest| ==> !BadChar(rest[i])
    decreases |rest|
  {
    if rest != "" {
      PassedChars(rest[1..], rest[0] == '/', room - 1);
      assert forall i :: 1 <= i < |rest| ==> rest[i] == rest[1..][i - 1];
    }
  }

  /** The first characters tell the first segment. */
  lemma UserRootIsFirst(p: string, segs: seq<string>, slash: bool)
    requires Spells(p, segs, slash)
    ensures IsUserRoot(p) <==> segs[0] == "user"
  {
    var g, more := segs[0], Render(segs[1..]) + Tail(slash);
    assert p == "/" + g + more;
    assert forall i :: 0 <= i < |g| ==> p[i + 1] == g[i];
    assert more != "" ==> more[0] == '/' && p[1 + |g|] == '/';
    assert |g| > 4 ==> p[5] != '/';
    if IsUserRoot(p) {
      assert JAIL[1] == 'u' && JAIL[2] == 's' && JAIL[3] == 'e' && JAIL[4] == 'r';
      assert p[1] == JAIL[1] && p[2] == JAIL[2] && p[3] == JAIL[3] && p[4] == JAIL[4];
    }
  }

  /** The check accepts exactly the paths of the user area that fit the buffer. */
  lemma CheckExactly(p: string, room: int)
    ensures Check(p, room) == OK <==> Jailed(p) && |p| < room
  {
    if Check(p, room) == OK {
      var segs, slash := PassedIsSpelled(p[1..], room - 1);
      assert p == "/" + p[1..];
      assert |p| >= 5 && segs != [];
      CheckSpelled(p, segs, slash, room);
      assert Spells(p, segs, slash);
      assert segs[0] == "user";
      assert |p| < room;
    }
    if Jailed(p) {
      var segs, slash :| Spells(p, segs, slash) && segs[0] == "user";
      CheckSpelled(p, segs, slash, room);
    }
  }

  lemma CheckSpelled(p: string, segs: seq<string>, slash: bool, room: int)
    requires Spells(p, segs, slash)
    ensures Check(p, room) == if |p| >= room then NOSPC else if segs[0] == "user" then OK else DENIED
  {
    CheckFits(p, segs, slash, room);
    UserRootIsFirst(p, segs, slash);
  }

  lemma CheckFits(p: string, segs: seq<string>, slash: bool, room: int)
    requires Spells(p, segs, slash)
    ensures p[0] == '/' && Scan(p[1..], true, room - 1) == if |p| < room then OK else NOSPC
  {
    var more := Render(segs[1..]) + Tail(slash);
    assert p == "/" + (segs[0] + more);
    assert p[1..] == segs[0] + more;
    ScanSegment(segs[0], more, room - 1);
    SpelledPasses(segs[1..], slash, room - 1 - |segs[0]|);
  }
}
