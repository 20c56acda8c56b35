/** The text viewer itself: the window buffer, the loop that fills it, and paging. */
module TextViewer {
  import opened Machine
  import opened Utf8
  import opened TextPages

  lemma WindowIsScan(f: File, off: nat)
    requires off <= |f|
    ensures var lim := WindowEnd(f, off);
      Window(f, off) == Scan(f, if off == 0 then 0 else SkipConts(f, off, lim), lim)
  {
  }

  /** What is still to be shown from `i` on, if the window goes on at all. */
  function Rest(f: File, i: nat, lim: nat, more: bool): View
    requires i <= lim <= |f|
  {
    if more then Scan(f, i, lim) else View(i, i, [])
  }

  lemma RestUnfolds(f: File, i: nat, lim: nat)
    requires i < lim <= |f|
    ensures var t := TokenAt(f, i, lim);
      var rest := Rest(f, t.next, lim, t.go);
      Rest(f, i, lim, true) == View(i, rest.end, t.out + rest.text)
  {
  }

  class Viewer {
    const file: File
    const win: array<u8>
    var off: nat
    var raw: nat
    // Length of the text in the buffer; a zero byte follows it.
    ghost var len: nat

    /** The buffer holds the zero-terminated text of `v`. */
    ghost predicate Holds(v: View)
      reads this, win
    {
      && win.Length == WIN + 1
      && off == v.off && raw == v.end - v.off
      && len == |v.text| <= WIN && win[..len] == v.text && win[len] == 0
    }

    constructor (file: File)
      ensures fresh(win) && this.file == file && Holds(Window(file, 0))
    {
      this.file := file;
      win := new u8[WIN + 1](_ => 0);
      off, raw, len := 0, 0, 0;
      new;
      LoadWindow(0);
    }

    /** Emits what the bytes at `i` show, unless the buffer is full or a character is cut off.
        `bytes` are the file's bytes `[base, base + |bytes|)`. */
    method EmitSeq(bytes: seq<u8>, base: nat, i: nat, o: nat, fileEnd: bool) returns (i': nat, o': nat, go: bool)
      requires win.Length == WIN + 1
      requires base + |bytes| <= |file| && bytes == file[base..base + |bytes|] && i < |bytes| <= WIN
      requires o <= i && fileEnd == (|file| <= base + |bytes|)
      modifies win
      ensures var t := TokenAt(file, base + i, base + |bytes|);
        && base + i' == t.next && go == t.go
        && o' == o + |t.out| <= i'
        && win[..o'] == old(win[..o]) + t.out
    {
      i', o', go := i, o, false;
      var b := bytes[i];
      assert b == file[base + i];
      if o >= WIN {
        assert false;
      } else if b == CR {
        PutByte(o, LF);
        o', i' := o + 1, i + 1;
        if i' < |bytes| && bytes[i'] == LF {
          i' := i' + 1;
        }
        go := true;
      } else {
        var n := Utf8Len(b);
        if n == 0 {
          PutByte(o, REPL);
          o', i', go := o + 1, i + 1, true;
        } else if |bytes| - i < n {
          if fileEnd {
            PutByte(o, REPL);
            o', i' := o + 1, |bytes|;
          }
        } else {
          SameCheck(bytes, base, i, n);
          if !Utf8Ok(bytes, i, n) {
            PutByte(o, REPL);
            o', i', go := o + 1, i + 1, true;
          } else if o + n > WIN {
            assert false;
          } else {
            PutChar(o, bytes, i, n);
            o', i', go := o + n, i + n, true;
          }
        }
      }
    }

    lemma SameCheck(bytes: seq<u8>, base: nat, i: nat, n: nat)
      requires base + |bytes| <= |file| && bytes == file[base..base + |bytes|]
      requires i + n <= |bytes|
      ensures Utf8Ok(bytes, i, n) == Utf8Ok(file, base + i, n)
      ensures bytes[i..i + n] == file[base + i..base + i + n]
    {
      assert forall k :: i <= k < i + n ==> bytes[k] == file[base + k];
    }

    method PutByte(o: nat, x: u8)
      requires o < win.Length
      modifies win
      ensures win[..o + 1] == old(win[..o]) + [x]
    {
      win[o] := x;
    }

    method PutChar(o: nat, bytes: seq<u8>, i: nat, n: nat)
      requires o + n <= win.Length && i + n <= |bytes|
      modifies win
      ensures win[..o + n] == old(win[..o]) + bytes[i..i + n]
    {
      forall k | 0 <= k < n {
        win[o + k] := bytes[i + k];
      }
      assert win[o..o + n] == bytes[i..i + n] && win[..o] == old(win[..o]);
    }

    /** Loads the window at an offset; offsets past the end load the empty window at the end. */
    method LoadWindow(at: nat)
      requires win.Length == WIN + 1
      modifies this, win
      ensures Holds(Window(file, if at <= |file| then at else |file|))
    {
      LoadAt(if at <= |file| then at else |file|);
    }

    method LoadAt(base: nat)
      requires win.Length == WIN + 1 && base <= |file|
      modifies this, win
      ensures Holds(Window(file, base))
    {
      var bytes, start := ReadFrom(base);
      ghost var v := Window(file, base);
      var i, o := FillWindow(bytes, base, start, v);
      Finish(base, start, i, o, v);
    }

    /** Reads a window's worth of bytes and skips the rest of a character cut off at its start. */
    method ReadFrom(base: nat) returns (bytes: seq<u8>, start: nat)
      requires base <= |file|
      ensures base + |bytes| <= |file| && bytes == file[base..base + |bytes|] && start <= |bytes| <= WIN
      ensures Window(file, base) == Scan(file, base + start, base + |bytes|)
    {
      var got := if |file| - base < WIN then |file| - base else WIN;
      bytes, start := file[base..base + got], 0;
      WindowIsScan(file, base);
      assert WindowEnd(file, base) == base + |bytes|;
      if base != 0 {
        start := SkipPartial(bytes, base);
      }
    }

    method Finish(base: nat, start: nat, i: nat, o: nat, ghost v: View)
      requires win.Length == WIN + 1 && o <= WIN && start <= i
      requires v == View(base + start, base + i, win[..o])
      modifies this, win
      ensures Holds(v)
    {
      win[o] := 0;
      off, raw, len := base + start, i - start, o;
    }

    /** Emits until the bytes are used up, or a character is cut off by their end. */
    method FillWindow(bytes: seq<u8>, base: nat, start: nat, ghost v: View) returns (i: nat, o: nat)
      requires win.Length == WIN + 1
      requires base + |bytes| <= |file| && bytes == file[base..base + |bytes|] && start <= |bytes| <= WIN
      requires v == Scan(file, base + start, base + |bytes|)
      modifies win
      ensures start <= i && o <= i - start && i <= |bytes|
      ensures v.end == base + i && v.text == win[..o]
    {
      var lim := base + |bytes|;
      var more := true;
      i, o := start, 0;
      ghost var rest := Rest(file, base + i, lim, more);
      assert win[..o] + rest.text == rest.text;
      while more && i < |bytes| && o < WIN
        invariant start <= i <= |bytes| && 0 <= o <= i - start
        invariant rest == Rest(file, base + i, lim, more)
        invariant v.end == rest.end && v.text == win[..o] + rest.text
        decreases more, |bytes| - i
      {
        i, o, more, rest := FillStep(bytes, base, i, o, v, rest);
      }
    }

    /** One step of the loop; `rest` is what is still to be shown. */
    method FillStep(bytes: seq<u8>, base: nat, i: nat, o: nat, ghost v: View, ghost rest: View)
      returns (i': nat, o': nat, more: bool, ghost rest': View)
      requires win.Length == WIN + 1
      requires base + |bytes| <= |file| && bytes == file[base..base + |bytes|] && i < |bytes| <= WIN && o <= i
      requires rest == Rest(file, base + i, base + |bytes|, true)
      requires v.end == rest.end && v.text == win[..o] + rest.text
      modifies win
      ensures i <= i' <= |bytes| && (more ==> i < i') && o <= o' <= o + (i' - i)
      ensures rest' == Rest(file, base + i', base + |bytes|, more)
      ensures v.end == rest'.end && v.text == win[..o'] + rest'.text
    {
      ghost var shown, t := win[..o], TokenAt(file, base + i, base + |bytes|);
      RestUnfolds(file, base + i, base + |bytes|);
      rest' := Rest(file, t.next, base + |bytes|, t.go);
      Assoc(shown, t.out, rest'.text);
      i', o', more := EmitSeq(bytes, base, i, o, |file| <= base + |bytes|);
    }

    method SkipPartial(bytes: seq<u8>, base: nat) returns (start: nat)
      requires 0 < base && base + |bytes| <= |file| && bytes == file[base..base + |bytes|]
      ensures start <= |bytes| && base + start == SkipConts(file, base, base + |bytes|)
    {
      start := 0;
      while start < |bytes| && Cont(bytes[start])
        invariant 0 <= start <= |bytes|
        invariant SkipConts(file, base, base + |bytes|) == SkipConts(file, base + start, base + |bytes|)
      {
        start := start + 1;
      }
    }

    method SetWindow(at: nat)
      requires win.Length == WIN + 1
      modifies this, win
      ensures Holds(Window(file, if at <= |file| then at else |file|))
    {
      LoadWindow(at);
    }

    method Forward(ghost v: View)
      requires Holds(v) && v.off <= v.end <= |file|
      modifies this, win
      ensures Holds(PageForward(file, v))
    {
      var next := off + raw;
      if raw != 0 && next < |file| {
        ForwardFrom(file, v);
        LoadWindow(next);
      }
    }

    method Back(ghost v: View)
      requires Holds(v) && v.off <= v.end <= |file|
      modifies this, win
      ensures Holds(PageBack(file, v))
    {
      if off != 0 {
        LoadWindow(if off > WIN then off - WIN else 0);
      }
    }

    /** Pages forward (`dir > 0`) or back (`dir < 0`). */
    method Page(dir: int, ghost v: View)
      requires Holds(v) && v.off <= v.end <= |file|
      modifies this, win
      ensures Holds(if dir > 0 then PageForward(file, v) else if dir < 0 then PageBack(file, v) else v)
    {
      if dir > 0 {
        Forward(v);
      } else if dir < 0 {
        Back(v);
      }
    }
  }
}
