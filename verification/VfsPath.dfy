/** The path functions: character loops over fixed buffers, and what they make of paths. */
module VfsPath {
  import opened Machine
  import opened PathSpec

  /** The buffer holds this text as a C string. */
  predicate Holds(buf: array<char>, s: string)
    reads buf
  {
    |s| < buf.Length && buf[..|s|] == s && buf[|s|] == '\0'
  }

  function NormalizeErr(p: string, size: nat): Err {
    if size < 2 then INVAL else Check(p, size)
  }

  predicate HasSeparator(name: string) {
    '/' in name || '\\' in name
  }

  /** The directory with a slash behind it. */
  function DirText(dir: string): string {
    dir + if dir == "" || dir[|dir| - 1] != '/' then "/" else ""
  }

  function JoinText(dir: string, name: string): string {
    DirText(dir) + name
  }

  /** `limit` is the size of the scratch buffer. */
  function JoinErr(dir: string, name: string, size: nat, limit: nat): Err {
    if name == "" || name == "." || name == ".." || HasSeparator(name) then DENIED
    else if |JoinText(dir, name)| >= limit then NOSPC
    else NormalizeErr(JoinText(dir, name), size)
  }

  /** Index of the last slash of a path that has one. */
  function LastSlash(p: string): (k: nat)
    requires p != "" && p[0] == '/'
    ensures k < |p| && p[k] == '/'
    ensures forall i :: k < i < |p| ==> p[i] != '/'
  {
    if p[|p| - 1] == '/' then |p| - 1 else LastSlash(p[..|p| - 1])
  }

  /** Result and text of the parent. */
  function Parent(p: string, size: nat, limit: nat): (Err, string)
    requires limit >= 2
  {
    var e := NormalizeErr(p, limit);
    if e != OK then (e, "")
    else if p == JAIL then (NOENT, "")
    else
      var end := LastSlash(p);
      if end == 0 then (NOENT, "")
      else if end + 1 > size then (NOSPC, "")
      else if IsUserRoot(p[..end]) then (OK, p[..end])
      else (DENIED, p[..end])
  }

  // ---------------------------------------------------------------- the loops

  /** Index-wise form of the scan, as the loop runs it: from character `i` on, the first slash not excused. */
  function ScanAt(p: string, i: nat, start: bool, size: nat): Err
    requires i <= |p|
    decreases |p| - i
  {
    if i == |p| then OK
    else if BadChar(p[i]) then DENIED
    else if i + 1 >= size then NOSPC
    else if p[i] == '/' then (if start && i != 0 then DENIED else ScanAt(p, i + 1, true, size))
    else if start && DotDot(p[i..]) then DENIED
    else ScanAt(p, i + 1, false, size)
  }

  lemma {:induction false} ScanAtIsScan(p: string, i: nat, start: bool, size: nat)
    requires 0 < i <= |p|
    ensures ScanAt(p, i, start, size) == Scan(p[i..], start, size - i)
    decreases |p| - i
  {
    if i < |p| {
      var j := i + 1;
      assert p[i..][0] == p[i] && p[i..][1..] == p[j..];
      ScanAtIsScan(p, j, true, size);
      ScanAtIsScan(p, j, false, size);
    }
  }

  /** Copies the path to `dst` if it is a good one; a good path is copied unchanged. */
  method Normalize(p: string, dst: array<char>) returns (e: Err)
    modifies dst
    ensures e == NormalizeErr(p, dst.Length)
    ensures e == OK ==> Holds(dst, p)
  {
    if dst.Length < 2 {
      return INVAL;
    }
    if p == "" || p[0] != '/' {
      return DENIED;
    }
    ScanAtIsScan(p, 1, true, dst.Length);
    e := CopyChecked(p, dst);
    if e != OK {
      return;
    }
    if !IsUserRoot(p) {
      return DENIED;
    }
  }

  method CopyChecked(p: string, dst: array<char>) returns (e: Err)
    requires dst.Length >= 2 && p != "" && p[0] == '/'
    modifies dst
    ensures e == ScanAt(p, 0, true, dst.Length)
    ensures e == OK ==> Holds(dst, p)
  {
    var i, start := 0, true;
    while i < |p|
      invariant 0 <= i <= |p| && i < dst.Length
      invariant dst[..i] == p[..i]
      invariant ScanAt(p, i, start, dst.Length) == ScanAt(p, 0, true, dst.Length)
    {
      var c := p[i];
      if BadChar(c) {
        return DENIED;
      }
      if i + 1 >= dst.Length {
        return NOSPC;
      }
      if c == '/' {
        if start && i != 0 {
          return DENIED;
        }
        start := true;
      } else {
        if start && DotDot(p[i..]) {
          return DENIED;
        }
        start := false;
      }
      dst[i] := c;
      i := i + 1;
    }
    dst[i] := '\0';
    e := OK;
  }

  method Separated(name: string) returns (b: bool)
    ensures b == HasSeparator(name)
  {
    var i := 0;
    while i < |name|
      invariant 0 <= i <= |name| && !HasSeparator(name[..i])
    {
      if name[i] == '/' || name[i] == '\\' {
        return true;
      }
      assert name[..i + 1] == name[..i] + [name[i]];
      i := i + 1;
    }
    assert name[..|name|] == name;
    b := false;
  }

  /** Appends `s` to the `o` characters in the buffer while `slack` places are left beyond each. */
  method Append(buf: array<char>, o: nat, s: string, slack: nat) returns (e: Err)
    requires o <= buf.Length && 1 <= slack
    modifies buf
    ensures e == OK <==> s == "" || o + |s| + slack <= buf.Length
    ensures e == OK ==> o + |s| <= buf.Length && buf[..o + |s|] == old(buf[..o]) + s
    ensures e == OK || e == NOSPC
  {
    var i := 0;
    while i < |s|
      invariant 0 <= i <= |s| && (i == 0 || o + i + slack <= buf.Length)
      invariant buf[..o + i] == old(buf[..o]) + s[..i]
    {
      if o + i + slack >= buf.Length {
        return NOSPC;
      }
      buf[o + i] := s[i];
      assert s[..i + 1] == s[..i] + [s[i]];
      i := i + 1;
    }
    assert s[..|s|] == s;
    e := OK;
  }

  /** A name added to a directory, checked and copied to `dst`. */
  method Join(dir: string, name: string, dst: array<char>) returns (e: Err)
    modifies dst
    ensures e == JoinErr(dir, name, dst.Length, 256)
    ensures e == OK ==> Holds(dst, JoinText(dir, name))
  {
    if name == "" {
      return DENIED;
    }
    if name == "." || name == ".." {
      return DENIED;
    }
    var sep := Separated(name);
    if sep {
      return DENIED;
    }
    var tmp := new char[PATH_MAX];
    var n;
    e, n := Compose(dir, name, tmp);
    if e != OK {
      return;
    }
    e := Normalize(tmp[..n], dst);
  }

  method Compose(dir: string, name: string, tmp: array<char>) returns (e: Err, n: nat)
    requires name != ""
    modifies tmp
    ensures e == if |JoinText(dir, name)| < tmp.Length then OK else NOSPC
    ensures e == OK ==> n <= tmp.Length && tmp[..n] == JoinText(dir, name)
  {
    e, n := ComposeDir(dir, tmp);
    if e != OK {
      return;
    }
    e := Append(tmp, n, name, 1);
    n := n + |name|;
  }

  method ComposeDir(dir: string, tmp: array<char>) returns (e: Err, n: nat)
    modifies tmp
    ensures e == if |DirText(dir)| + 1 < tmp.Length then OK else NOSPC
    ensures e == OK ==> n <= tmp.Length && tmp[..n] == DirText(dir)
  {
    e := Append(tmp, 0, dir, 2);
    n := |dir|;
    if e != OK {
      return;
    }
    assert tmp[..n] == dir;
    if n == 0 || tmp[n - 1] != '/' {
      if n + 2 >= tmp.Length {
        return NOSPC, n;
      }
      tmp[n] := '/';
      n := n + 1;
    }
  }

  /** The path without its last segment, or without the slash it ends on. */
  method ParentPath(p: string, dst: array<char>) returns (e: Err)
    modifies dst
    ensures e == Parent(p, dst.Length, 256).0
    ensures e == OK ==> Holds(dst, Parent(p, dst.Length, 256).1)
  {
    var norm := new char[PATH_MAX];
    e := Normalize(p, norm);
    if e != OK {
      return;
    }
    var len := |p|;
    assert forall i :: 0 <= i < len ==> norm[i] == p[i];
    if p == JAIL {
      return NOENT;
    }
    while norm[len - 1] != '/'
      invariant 0 < len <= |p| && forall i :: len <= i < |p| ==> p[i] != '/'
      decreases len
    {
      len := len - 1;
    }
    var end := len - 1;
    LastSlashUnique(p, end);
    if end == 0 {
      return NOENT;
    }
    if end + 1 > dst.Length {
      return NOSPC;
    }
    forall i | 0 <= i < end {
      dst[i] := norm[i];
    }
    dst[end] := '\0';
    assert dst[..end] == p[..end];
    e := if IsUserRoot(p[..end]) then OK else DENIED;
  }

  lemma LastSlashUnique(p: string, k: nat)
    requires p != "" && p[0] == '/' && k < |p| && p[k] == '/' && forall i :: k < i < |p| ==> p[i] != '/'
    ensures LastSlash(p) == k
  {
    var l := LastSlash(p);
  }

  // ---------------------------------------------------------------- laws

  lemma {:induction false} RenderLast(ss: seq<string>, g: string)
    ensures Render(ss + [g]) == Render(ss) + ("/" + g)
    decreases |ss|
  {
    if ss == [] {
      assert [g][1..] == [];
      assert ss + [g] == [g];
    } else {
      assert (ss + [g])[1..] == ss[1..] + [g] && (ss + [g])[0] == ss[0];
      RenderLast(ss[1..], g);
      Assoc("/" + ss[0], Render(ss[1..]), "/" + g);
    }
  }

  lemma StillUser(segs: seq<string>, p: string)
    requires segs != [] && GoodSegs(segs) && segs[0] == "user" && p == Render(segs)
    ensures Jailed(p) && IsUserRoot(p) && 0 < |p|
  {
    assert p == Render(segs) + Tail(false);
    assert Spells(p, segs, false);
    UserRootIsFirst(p, segs, false);
  }

  /** A path that does not fit the scratch buffer has no parent; what is before the last slash must fit the
      caller's. */
  function ParentResult(p: string, r: string, size: nat, limit: nat): (Err, string) {
    if |p| >= limit || |r| >= size then (NOSPC, "") else (OK, r)
  }

  lemma ParentAt(p: string, segs: seq<string>, slash: bool, end: nat, size: nat, limit: nat)
    requires Spells(p, segs, slash) && segs[0] == "user" && p != JAIL && 2 <= limit
    requires 0 < end < |p| && p[0] == '/' && p[end] == '/' && forall i :: end < i < |p| ==> p[i] != '/'
    requires IsUserRoot(p[..end])
    ensures Parent(p, size, limit) == ParentResult(p, p[..end], size, limit)
  {
    CheckSpelled(p, segs, slash, limit);
    LastSlashUnique(p, end);
  }

  lemma ParentOfSlashed(p: string, segs: seq<string>, size: nat, limit: nat)
    requires Spells(p, segs, true) && segs[0] == "user" && 2 <= limit
    ensures Parent(p, size, limit) == ParentResult(p, Render(segs), size, limit)
  {
    var r := Render(segs);
    StillUser(segs, r);
    assert p == r + "/" && p[..|r|] == r && p[|r|] == '/';
    assert |JAIL| == 5 && JAIL[|JAIL| - 1] == 'r' && p[|p| - 1] == '/';
    ParentAt(p, segs, true, |r|, size, limit);
  }

  lemma ParentOfPlain(p: string, ss: seq<string>, g: string, size: nat, limit: nat)
    requires Spells(p, ss + [g], false) && ss != [] && ss[0] == "user" && 2 <= limit
    ensures Parent(p, size, limit) == ParentResult(p, Render(ss), size, limit)
  {
    var r := Render(ss);
    GoodParts(ss, g);
    StillUser(ss, r);
    RenderLast(ss, g);
    LastSegment(r, g, p);
    ParentAt(p, ss + [g], false, |r|, size, limit);
  }

  lemma GoodParts(ss: seq<string>, g: string)
    requires GoodSegs(ss + [g]) && ss != []
    ensures GoodSegs(ss) && GoodSeg(g) && (ss + [g])[0] == ss[0]
  {
    var segs := ss + [g];
    assert GoodSeg(segs[|ss|]);
    assert forall i :: 0 <= i < |ss| ==> ss[i] == segs[i];
  }

  lemma LastSegment(r: string, g: string, p: string)
    requires GoodSeg(g) && p == r + ("/" + g)
    ensures |r| < |p| && p[..|r|] == r && p[|r|] == '/' && forall i :: |r| < i < |p| ==> p[i] != '/'
  {
    assert forall i :: |r| < i < |p| ==> p[i] == g[i - |r| - 1];
  }

  /** The parent of a path in the user area: its segments without the last one, or the same segments
      if the path ended on a slash. Only the root of the user area has none. A path too long for the scratch
      buffer, or a parent too long for the caller's, is refused. */
  lemma ParentExactly(p: string, segs: seq<string>, slash: bool, size: nat, limit: nat)
    requires Spells(p, segs, slash) && segs[0] == "user" && 2 <= limit
    ensures Parent(p, size, limit) ==
      if slash then ParentResult(p, Render(segs), size, limit)
      else if |segs| == 1 then (if |p| >= limit then NOSPC else NOENT, "")
      else ParentResult(p, Render(segs[..|segs| - 1]), size, limit)
  {
    if slash {
      ParentOfSlashed(p, segs, size, limit);
    } else if |segs| == 1 {
      ParentOfRoot(p, segs, size, limit);
    } else {
      ParentOfDeeper(p, segs, size, limit);
    }
  }

  lemma ParentOfDeeper(p: string, segs: seq<string>, size: nat, limit: nat)
    requires Spells(p, segs, false) && |segs| > 1 && segs[0] == "user" && 2 <= limit
    ensures Parent(p, size, limit) == ParentResult(p, Render(segs[..|segs| - 1]), size, limit)
  {
    var n := |segs| - 1;
    assert segs == segs[..n] + [segs[n]];
    ParentOfPlain(p, segs[..n], segs[n], size, limit);
  }

  lemma ParentOfRoot(p: string, segs: seq<string>, size: nat, limit: nat)
    requires Spells(p, segs, false) && |segs| == 1 && segs[0] == "user" && 2 <= limit
    ensures Parent(p, size, limit) == (if |p| >= limit then NOSPC else NOENT, "")
  {
    assert Render(segs) == "/" + segs[0] + Render([]) && segs[0] == "user";
    assert p == "/user";
    CheckSpelled(p, segs, false, limit);
  }

  lemma DirTextOf(dir: string, segs: seq<string>, slash: bool)
    requires Spells(dir, segs, slash)
    ensures DirText(dir) == Render(segs) + "/"
  {
    if !slash {
      var n := |segs| - 1;
      var ss, g := segs[..n], segs[n];
      assert segs == ss + [g];
      RenderLast(ss, g);
      assert dir == Render(ss) + ("/" + g);
      assert dir[|dir| - 1] == g[|g| - 1];
    }
  }

  /** A name joined to a directory of the user area is accepted if and only if it is a good segment other
      than "." and the result fits both buffers; the result is the directory's segments and the name. */
  lemma JoinExactly(dir: string, segs: seq<string>, slash: bool, name: string, size: nat, limit: nat)
    requires Spells(dir, segs, slash) && segs[0] == "user"
    ensures JoinErr(dir, name, size, limit) == OK <==>
      GoodSeg(name) && name != "." && |JoinText(dir, name)| < limit && |JoinText(dir, name)| < size
    ensures JoinText(dir, name) == Render(segs + [name])
  {
    DirTextOf(dir, segs, slash);
    RenderLast(segs, name);
    var p := JoinText(dir, name);
    assert p == Render(segs) + ("/" + name);
    if GoodSeg(name) {
      assert forall i :: 0 <= i < |name| ==> GoodChar(name[i]);
      assert !HasSeparator(name);
      assert p == Render(segs + [name]) + Tail(false);
      assert Spells(p, segs + [name], false);
      assert (segs + [name])[0] == "user";
      CheckExactly(p, size);
    } else if name != "" && name != ".." && !HasSeparator(name) {
      JoinBadName(segs, name, size);
    }
  }

  lemma JoinBadName(segs: seq<string>, name: string, size: nat)
    requires !GoodSeg(name) && name != "" && name != ".." && !HasSeparator(name)
    ensures Check(Render(segs) + ("/" + name), size) != OK
  {
    var p := Render(segs) + ("/" + name);
    var i :| 0 <= i < |name| && !GoodChar(name[i]);
    var k := |p| - |name| + i;
    assert BadChar(name[i]) && name[i] == p[k] == p[1..][k - 1];
    if p[0] == '/' && Scan(p[1..], true, size - 1) == OK {
      PassedChars(p[1..], true, size - 1);
    }
  }

  /** Joining cannot leave the user area, whatever the directory and the name. */
  lemma JoinStaysInside(dir: string, name: string, size: nat, limit: nat)
    requires JoinErr(dir, name, size, limit) == OK
    ensures Jailed(JoinText(dir, name)) && |JoinText(dir, name)| < limit && |JoinText(dir, name)| < size
  {
    CheckExactly(JoinText(dir, name), size);
  }

  /** The parent of a joined path is the directory, without the slash it may have ended on. */
  lemma ParentOfJoin(dir: string, segs: seq<string>, slash: bool, name: string, size: nat, limit: nat)
    requires Spells(dir, segs, slash) && segs[0] == "user" && 2 <= limit
    requires JoinErr(dir, name, size, limit) == OK
    ensures Parent(JoinText(dir, name), size, limit) == (OK, Render(segs))
  {
    var p := JoinText(dir, name);
    JoinExactly(dir, segs, slash, name, size, limit);
    assert GoodSegs(segs + [name]);
    assert p == Render(segs + [name]) + Tail(false);
    ParentOfPlain(p, segs, name, size, limit);
  }
}
