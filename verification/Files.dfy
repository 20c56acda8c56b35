/** The file browser: the current directory, the rows shown, and the scroll stack, changed in place. */
module Files {
  import opened Machine
  import opened PathSpec
  import opened VfsPath
  import opened FilesNav

  /** A directory entry; `app` is the application that opens files of its kind, if there is one. */
  datatype Row = Row(name: string, isDir: bool, app: Option<string>)

  datatype View = ViewOk | ViewEmpty | ViewPrompt | ViewFailed

  const APP_TEXT := "text"

  class Browser {
    var cwd: string
    var rows: seq<Row>
    var view: View
    var scroll: int
    const scrollStack: array<int>
    var depth: nat
    const openPath: array<char>
    // History: the applications started with the paths they were given, and how often a scroll position was
    // noted behind the end of the stack.
    ghost var launched: seq<(string, string)>
    ghost var strays: nat

    ghost predicate Valid()
      reads this
    {
      scrollStack.Length == DEPTH_MAX && openPath.Length == PATH_MAX && depth <= DEPTH_MAX
    }

    ghost function Model(): Nav
      requires Valid()
      reads this, scrollStack
    {
      State(cwd, scroll, scrollStack[..], depth, strays)
    }

    constructor ()
      ensures Valid() && Home(Model()) && rows == [] && launched == []
      ensures fresh(scrollStack) && fresh(openPath)
    {
      scrollStack, openPath := new int[DEPTH_MAX], new char[PATH_MAX];
      cwd, rows, view, scroll, depth, launched, strays := JAIL, [], ViewEmpty, 0, 0, [], 0;
    }

    /** What the directory holds comes from the file system. */
    method Load(listing: Option<seq<Row>>)
      modifies this`rows, this`view
      ensures rows == if listing.Some? then listing.value else []
    {
      if listing.None? {
        rows, view := [], ViewFailed;
      } else {
        rows := listing.value;
        view := Settled();
      }
    }

    /** Notes the scroll position before an application opens; behind the end of the stack the write is only
        counted. */
    method NoteScroll()
      requires Valid()
      modifies this`strays, scrollStack
      ensures Valid() && Model() == Open(old(Model()))
    {
      if depth < DEPTH_MAX {
        scrollStack[depth] := scroll;
      } else {
        strays := strays + 1;
      }
    }

    /** A row chosen. A directory is entered; a file of a known kind is handed to its application; any other file
        asks what to do. */
    method OnRow(i: nat, listing: Option<seq<Row>>) returns (done: bool)
      requires Valid()
      modifies this, scrollStack, openPath
      ensures Valid()
      ensures i >= |old(rows)| ==> !done && Model() == old(Model()) && launched == old(launched)
      ensures i < |old(rows)| ==>
        var r := old(rows)[i];
        var fits := JoinErr(old(cwd), r.name, PATH_MAX, PATH_MAX) == OK;
        if r.isDir then done && Model() == Enter(old(Model()), r.name) && launched == old(launched)
        else if fits && r.app.Some? then
          done && Model() == Open(old(Model())) && launched == old(launched) + [(r.app.value, JoinText(cwd, r.name))]
        else
          && done == fits && Model() == old(Model()) && launched == old(launched)
          && (fits ==> view == ViewPrompt && Holds(openPath, JoinText(cwd, r.name)))
    {
      if i >= |rows| {
        return false;
      }
      var r := rows[i];
      if r.isDir {
        EnterRow(r.name, listing);
        return true;
      }
      var e := Join(cwd, r.name, openPath);
      if e != OK {
        return false;
      }
      if r.app.Some? {
        NoteScroll();
        launched := launched + [(r.app.value, JoinText(cwd, r.name))];
      } else {
        view := ViewPrompt;
      }
      done := true;
    }

    /** The unknown file of the prompt is opened as a text, if there is one. */
    method PromptOpenText()
      requires Valid()
      modifies this`view, this`launched, this`strays, scrollStack
      ensures Valid()
      ensures if old(view) == ViewPrompt && openPath[0] != '\0'
        then Model() == Open(old(Model())) && view == ViewOk && |launched| == |old(launched)| + 1
        else Model() == old(Model()) && view == Settled() && launched == old(launched)
      ensures launched != old(launched) ==>
        forall t :: '\0' !in t && Holds(openPath, t) ==> launched == old(launched) + [(APP_TEXT, t)]
    {
      if view != ViewPrompt || openPath[0] == '\0' {
        PromptCancel();
        return;
      }
      view := ViewOk;
      NoteScroll();
      ghost var path := Text(openPath[..]);
      launched := launched + [(APP_TEXT, path)];
      forall t | '\0' !in t && Holds(openPath, t)
        ensures t == path
      {
        TextUnique(openPath[..], t);
      }
    }

    function Settled(): View
      reads this
    {
      if rows == [] then ViewEmpty else ViewOk
    }

    method PromptCancel()
      requires Valid()
      modifies this`view
      ensures Valid() && view == Settled()
    {
      view := Settled();
    }

    method EnterRow(name: string, listing: Option<seq<Row>>)
      requires Valid()
      modifies this`cwd, this`rows, this`view, this`scroll, this`depth, scrollStack
      ensures Valid() && Model() == Enter(old(Model()), name)
    {
      var next := new char[PATH_MAX];
      var e := Join(cwd, name, next);
      if e != OK {
        view := ViewFailed;
        return;
      }
      if depth >= DEPTH_MAX {
        return;
      }
      scrollStack[depth] := scroll;
      depth := depth + 1;
      NoTerminator(JoinText(cwd, name), PATH_MAX);
      cwd := ReadText(next, JoinText(cwd, name));
      scroll := 0;
      Load(listing);
    }

    /** Back to the parent directory, where the scroll stack says. */
    method GoBack(listing: Option<seq<Row>>) returns (done: bool)
      requires Valid()
      modifies this`cwd, this`rows, this`view, this`scroll, this`depth
      ensures Valid() && Model() == Back(old(Model()))
      ensures done <==> depth < old(depth)
    {
      if depth == 0 {
        return false;
      }
      var parent := new char[PATH_MAX];
      var e := ParentPath(cwd, parent);
      if e != OK {
        return false;
      }
      NoTerminator(cwd, PATH_MAX);
      cwd := ReadText(parent, Parent(cwd, PATH_MAX, PATH_MAX).1);
      depth := depth - 1;
      scroll := scrollStack[depth];
      Load(listing);
      done := true;
    }

    method SetScroll(y: int)
      requires Valid()
      modifies this`scroll
      ensures Valid() && Model() == old(Model()).(scroll := y)
    {
      scroll := y;
    }
  }

  /** The characters before the first terminator. */
  function Text(buf: string): string {
    if buf == "" || buf[0] == '\0' then "" else [buf[0]] + Text(buf[1..])
  }

  lemma {:induction false} TextUnique(buf: string, t: string)
    requires '\0' !in t && |t| < |buf| && buf[..|t|] == t && buf[|t|] == '\0'
    ensures Text(buf) == t
  {
    if t != "" {
      assert buf[0] == t[0] && buf[1..][..|t| - 1] == t[1..];
      TextUnique(buf[1..], t[1..]);
    }
  }

  /** The text in a buffer, up to its terminator. */
  method ReadText(buf: array<char>, ghost t: string) returns (s: string)
    requires Holds(buf, t) && '\0' !in t
    ensures s == t
  {
    var n := 0;
    assert forall i :: 0 <= i < |t| ==> buf[i] == t[i] && t[i] != '\0';
    while buf[n] != '\0'
      invariant 0 <= n <= |t|
      decreases |t| - n
    {
      n := n + 1;
    }
    s := buf[..n];
  }

  lemma NoTerminator(p: string, room: int)
    requires Check(p, room) == OK
    ensures '\0' !in p
  {
    PassedChars(p[1..], true, room - 1);
    assert p == [p[0]] + p[1..];
  }
}
