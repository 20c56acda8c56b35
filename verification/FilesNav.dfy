/** Moving through directories: a path string, its parent, and a stack of scroll positions, over whole runs. */
module FilesNav {
  import opened Machine
  import opened PathSpec
  import opened VfsPath

  const DEPTH_MAX := 8

  // `strays` is history: how often a scroll position was noted outside the stack.
  datatype State = State(cwd: string, scroll: int, stack: seq<int>, depth: nat, strays: nat)

  type Nav = n: State | |n.stack| == DEPTH_MAX witness State("", 0, seq(DEPTH_MAX, _ => 0), 0, 0)

  /** Into a directory of the current one: nothing happens if the name does not join or the stack is full. */
  function Enter(n: Nav, name: string): Nav {
    if JoinErr(n.cwd, name, PATH_MAX, PATH_MAX) != OK || n.depth >= DEPTH_MAX then n
    else State(JoinText(n.cwd, name), 0, n.stack[n.depth := n.scroll], n.depth + 1, n.strays)
  }

  function Back(n: Nav): Nav {
    var (e, parent) := Parent(n.cwd, PATH_MAX, PATH_MAX);
    if n.depth == 0 || n.depth > DEPTH_MAX || e != OK then n
    else State(parent, n.stack[n.depth - 1], n.stack, n.depth - 1, n.strays)
  }

  /** Opening a file notes the scroll position at the current depth, wherever that is. */
  function Open(n: Nav): Nav {
    if n.depth < DEPTH_MAX then n.(stack := n.stack[n.depth := n.scroll]) else n.(strays := n.strays + 1)
  }

  datatype Op = EnterDir(name: string) | GoBack | ScrollTo(y: int) | OpenFile

  function Do(n: Nav, op: Op): Nav {
    match op
    case EnterDir(name) => Enter(n, name)
    case GoBack => Back(n)
    case ScrollTo(y) => n.(scroll := y)
    case OpenFile => Open(n)
  }

  function Run(n: Nav, ops: seq<Op>): Nav
    decreases |ops|
  {
    if ops == [] then n else Run(Do(n, ops[0]), ops[1..])
  }

  /** The depth stays at `d` or more all along the run. */
  predicate StaysBelow(n: Nav, ops: seq<Op>, d: nat)
    decreases |ops|
  {
    d <= n.depth && (ops == [] || StaysBelow(Do(n, ops[0]), ops[1..], d))
  }

  // ---------------------------------------------------------------- where one is

  function Below(segs: seq<string>): string {
    Render(["user"] + segs)
  }

  /** The current directory is the user area's root and the `depth` directories entered below it. */
  predicate At(n: Nav, segs: seq<string>) {
    && |segs| == n.depth <= DEPTH_MAX && GoodSegs(segs)
    && n.cwd == Below(segs) && |n.cwd| < PATH_MAX
  }

  lemma BelowSpells(segs: seq<string>)
    requires GoodSegs(segs)
    ensures Spells(Below(segs), ["user"] + segs, false)
  {
    var all := ["user"] + segs;
    assert all != [] && GoodSegs(all) && Below(segs) == Render(all) + Tail(false);
  }

  lemma AtIsJailed(n: Nav, segs: seq<string>)
    requires At(n, segs)
    ensures Jailed(n.cwd)
  {
    BelowSpells(segs);
    assert (["user"] + segs)[0] == "user";
  }

  /** Entering adds a segment, exactly when the name is a proper one, the path fits and the stack has room. */
  lemma EnterAdds(n: Nav, segs: seq<string>, name: string)
    requires At(n, segs)
    ensures if GoodSeg(name) && name != "." && |Below(segs + [name])| < 256 && n.depth < 8
      then At(Enter(n, name), segs + [name]) && Enter(n, name).scroll == 0
      else Enter(n, name) == n
  {
    var all := ["user"] + segs;
    BelowSpells(segs);
    JoinExactly(n.cwd, all, false, name, PATH_MAX, PATH_MAX);
    assert all + [name] == ["user"] + (segs + [name]);
  }

  /** Going back always works below the root, and drops the last segment. */
  lemma BackDrops(n: Nav, segs: seq<string>)
    requires At(n, segs) && 0 < n.depth
    ensures var r := Back(n); var d := n.depth - 1;
      At(r, segs[..d]) && r.depth == d && r.scroll == n.stack[d] && r.stack == n.stack
  {
    var all, d := ["user"] + segs, n.depth - 1;
    BelowSpells(segs);
    ParentExactly(n.cwd, all, false, PATH_MAX, PATH_MAX);
    assert all[..|all| - 1] == ["user"] + segs[..d];
    BelowShorter(segs, d);
  }

  lemma BelowShorter(segs: seq<string>, d: nat)
    requires |segs| == d + 1
    ensures |Below(segs[..d])| <= |Below(segs)|
  {
    var all := ["user"] + segs[..d];
    assert all + [segs[d]] == ["user"] + segs;
    RenderLast(all, segs[d]);
  }

  /** Over every run from the root the current directory is in the user area, with one segment for each level
      of depth. */
  lemma {:induction false} RunStaysAt(n: Nav, ops: seq<Op>, segs: seq<string>) returns (segs': seq<string>)
    requires At(n, segs)
    ensures At(Run(n, ops), segs') && Jailed(Run(n, ops).cwd)
    decreases |ops|
  {
    if ops == [] {
      segs' := segs;
      AtIsJailed(n, segs);
    } else {
      var s1 := DoAt(n, ops[0], segs);
      segs' := RunStaysAt(Do(n, ops[0]), ops[1..], s1);
    }
  }

  lemma DoAt(n: Nav, op: Op, segs: seq<string>) returns (segs': seq<string>)
    requires At(n, segs)
    ensures At(Do(n, op), segs')
    ensures var d := Do(n, op).depth; d <= n.depth + 1 && n.depth <= d + 1
    ensures forall k :: 0 <= k < |segs| && k < |segs'| ==> segs'[k] == segs[k]
    ensures forall k :: 0 <= k < n.depth && k < Do(n, op).depth ==> Do(n, op).stack[k] == n.stack[k]
  {
    segs' := segs;
    if op.EnterDir? {
      EnterAdds(n, segs, op.name);
      if Do(n, op) != n {
        segs' := segs + [op.name];
      }
    } else if op.GoBack? && 0 < n.depth {
      BackDrops(n, segs);
      segs' := segs[..n.depth - 1];
    }
  }

  // ---------------------------------------------------------------- going back

  /** A run that stays at level `d` or deeper keeps the first `d` segments and scroll positions. */
  lemma {:induction false} RunKeepsPrefix(n: Nav, ops: seq<Op>, segs: seq<string>, d: nat) returns (segs': seq<string>)
    requires At(n, segs) && StaysBelow(n, ops, d)
    ensures At(Run(n, ops), segs') && d <= |segs'|
    ensures forall k :: 0 <= k < d ==> segs'[k] == segs[k] && Run(n, ops).stack[k] == n.stack[k]
    decreases |ops|
  {
    if ops == [] {
      segs' := segs;
    } else {
      var s1 := DoAt(n, ops[0], segs);
      assert d <= Do(n, ops[0]).depth;
      segs' := RunKeepsPrefix(Do(n, ops[0]), ops[1..], s1, d);
    }
  }

  /** Whatever is done below a directory once entered, going back from its level restores the directory and
      the scroll position it was entered from. */
  lemma BackUndoesEnter(n: Nav, segs: seq<string>, name: string, ops: seq<Op>)
    requires At(n, segs) && Enter(n, name) != n
    requires StaysBelow(Enter(n, name), ops, n.depth + 1)
    requires Run(Enter(n, name), ops).depth == n.depth + 1
    ensures var r := Back(Run(Enter(n, name), ops));
      r.cwd == n.cwd && r.scroll == n.scroll && r.depth == n.depth
  {
    EnterAdds(n, segs, name);
    var s1 := segs + [name];
    var d := n.depth + 1;
    var s2 := RunKeepsPrefix(Enter(n, name), ops, s1, d);
    BackDrops(Run(Enter(n, name), ops), s2);
    assert s2[..n.depth] == segs;
  }

  // ---------------------------------------------------------------- the limit of the stack

  /** From any place with short names above it, entering further directories reaches every depth up to the limit. */
  lemma {:induction false} Deeper(n: Nav, segs: seq<string>, k: nat) returns (ops: seq<Op>)
    requires At(n, segs) && |n.cwd| <= 5 + 2 * n.depth && n.depth + k <= DEPTH_MAX
    ensures Run(n, ops).depth == n.depth + k && Run(n, ops).strays == n.strays
    decreases k
  {
    if k == 0 {
      ops := [];
    } else {
      var name := "a";
      RenderLast(["user"] + segs, name);
      assert ["user"] + segs + [name] == ["user"] + (segs + [name]);
      EnterAdds(n, segs, name);
      var more := Deeper(Enter(n, name), segs + [name], k - 1);
      ops := [EnterDir(name)] + more;
      assert ops[1..] == more;
    }
  }

  /** The slashes of a path count its segments. */
  lemma {:induction false} SlashesCount(segs: seq<string>)
    requires GoodSegs(segs)
    ensures multiset(Render(segs))['/'] == |segs|
  {
    if segs != [] {
      var g, more := segs[0], Render(segs[1..]);
      SlashesCount(segs[1..]);
      assert GoodSeg(g);
      assert '/' !in g;
      assert multiset(Render(segs)) == multiset("/") + multiset(g) + multiset(more);
    }
  }

  /** Opening a file notes its scroll position inside the stack if and only if the current directory lies fewer
      than eight segments below the root, so that its path has at most eight slashes. */
  lemma OpenStaysInsideExactly(n: Nav, segs: seq<string>)
    requires At(n, segs)
    ensures Open(n).strays == n.strays <==> |segs| < 8
    ensures |segs| < 8 <==> multiset(n.cwd)['/'] <= 8
  {
    BelowSpells(segs);
    SlashesCount(["user"] + segs);
  }

  /** How many files were opened where the path of the current directory had more than eight slashes. */
  function DeepOpens(n: Nav, ops: seq<Op>): nat
    decreases |ops|
  {
    if ops == [] then 0
    else (if ops[0].OpenFile? && multiset(n.cwd)['/'] > 8 then 1 else 0) + DeepOpens(Do(n, ops[0]), ops[1..])
  }

  lemma {:induction false} StraysAreDeepOpens(n: Nav, ops: seq<Op>, segs: seq<string>)
    requires At(n, segs)
    ensures Run(n, ops).strays == n.strays + DeepOpens(n, ops)
    decreases |ops|
  {
    if ops != [] {
      OpenStaysInsideExactly(n, segs);
      var s1 := DoAt(n, ops[0], segs);
      StraysAreDeepOpens(Do(n, ops[0]), ops[1..], s1);
    }
  }

  predicate Home(n: Nav) {
    n.cwd == JAIL && n.depth == 0 && n.strays == 0
  }

  lemma HomeIsAt(home: Nav)
    requires Home(home)
    ensures At(home, [])
  {
    assert ["user"] + [] == ["user"] && ["user"][1..] == [];
    assert Render(["user"]) == "/" + "user" + Render([]);
  }

  /** Over every run from the root, a scroll position is noted outside the stack exactly when a file is opened
      eight directories deep; without that it never is. */
  lemma RunStaysInsideExactly(home: Nav, ops: seq<Op>)
    requires Home(home)
    ensures Run(home, ops).strays == DeepOpens(home, ops)
  {
    HomeIsAt(home);
    StraysAreDeepOpens(home, ops, []);
  }

  /** There are such runs. */
  lemma FullStackReached(home: Nav)
    requires Home(home)
    ensures exists ops :: Open(Run(home, ops)).strays == 1
  {
    HomeIsAt(home);
    var ops := Deeper(home, [], DEPTH_MAX);
    assert Open(Run(home, ops)).strays == 1;
  }
}
