/** What a window shows of any bytes at all, by the grammar of RFC 3629, section 4. */
module TextShown {
  import opened Machine
  import opened Utf8
  import opened TextPages

  /** Bytes of the grammar's character that starts at `i`; 0 if none does. */
  function CharBytes(f: seq<u8>, i: nat): (n: nat)
    requires i < |f|
    ensures n <= 4 && i + n <= |f|
  {
    if Char1(f[i]) then 1
    else if i + 2 <= |f| && Char2(f[i], f[i + 1]) then 2
    else if i + 3 <= |f| && Char3(f[i], f[i + 1], f[i + 2]) then 3
    else if i + 4 <= |f| && Char4(f[i], f[i + 1], f[i + 2], f[i + 3]) then 4
    else 0
  }

  /** Bytes of the characters that start with this byte; 0 if none does. */
  function Promised(b: u8): nat {
    if b <= 0x7F then 1
    else if b <= 0xC1 || b >= 0xF5 then 0
    else if b <= 0xDF then 2
    else if b <= 0xEF then 3
    else 4
  }

  lemma CharIs(f: File, i: nat)
    requires i < |f|
    ensures Utf8Len(f[i]) == Promised(f[i])
    ensures CharBytes(f, i) == if CharAt(f, i) then Promised(f[i]) else 0
  {
    if i + 3 <= |f| {
      ThreeBytes(f[i], f[i + 1], f[i + 2]);
    }
    if i + 4 <= |f| {
      FourBytes(f[i], f[i + 1], f[i + 2], f[i + 3]);
    }
  }

  /** Line ends become LF and characters stay. A character that the window cuts off is left to the next one; where the
      file itself ends too early, a question mark stands for all that is left. Any other byte is a question mark. */
  function Display(f: seq<u8>, i: nat, lim: nat): (d: (seq<u8>, nat))
    requires i <= lim <= |f|
    decreases lim - i
  {
    if i == lim then ([], i)
    else
      var n := CharBytes(f, i);
      if f[i] == 0x0D then
        var d := Display(f, if i + 1 < lim && f[i + 1] == 0x0A then i + 2 else i + 1, lim);
        ([0x0A] + d.0, d.1)
      else if 0 < n && i + n <= lim then
        var d := Display(f, i + n, lim);
        (f[i..i + n] + d.0, d.1)
      else if lim < i + Promised(f[i]) then
        if lim < |f| then ([], i) else ([0x3F], lim)
      else
        var d := Display(f, i + 1, lim);
        ([0x3F] + d.0, d.1)
  }

  /** A window shows exactly this, whatever bytes the file holds. */
  lemma {:induction false} ScanIsDisplay(f: File, i: nat, lim: nat)
    requires i <= lim <= |f|
    ensures var v, d := Scan(f, i, lim), Display(f, i, lim); v.text == d.0 && v.end == d.1
    decreases lim - i
  {
    if i < lim {
      CharIs(f, i);
      var t := TokenAt(f, i, lim);
      if t.go {
        ScanIsDisplay(f, t.next, lim);
      }
    }
  }

  function Marks(n: nat): seq<u8> {
    if n == 0 then [] else [0x3F] + Marks(n - 1)
  }

  /** No character starts here, and none is promised that reaches out of sight. */
  predicate Broken(f: seq<u8>, i: nat, lim: nat) {
    i < lim <= |f| && CharBytes(f, i) == 0 && i + Promised(f[i]) <= lim
  }

  lemma OneMark(f: File, i: nat, lim: nat, rest: View)
    requires i < lim <= |f| && Broken(f, i, lim) && rest == Scan(f, i + 1, lim)
    ensures Scan(f, i, lim) == View(i, rest.end, [0x3F] + rest.text)
  {
    CharIs(f, i);
  }

  /** One window shows what another does behind `n` question marks. */
  predicate Marked(v: View, n: nat, rest: View) {
    v.text == Marks(n) + rest.text && v.end == rest.end
  }

  lemma MarkedOnce(v: View, next: View, n: nat, rest: View)
    requires 0 < n && v.text == [0x3F] + next.text && v.end == next.end && Marked(next, n - 1, rest)
    ensures Marked(v, n, rest)
  {
    Assoc([0x3F], Marks(n - 1), rest.text);
  }

  lemma MarkedNot(v: View)
    ensures Marked(v, 0, v)
  {
  }

  /** Over such a stretch there are as many question marks as bytes. */
  lemma {:induction false} StretchShown(f: File, i: nat, j: nat, lim: nat)
    requires i <= j <= lim <= |f| && forall k :: i <= k < j ==> Broken(f, k, lim)
    ensures Marked(Scan(f, i, lim), j - i, Scan(f, j, lim))
    decreases j - i
  {
    var v, rest := Scan(f, i, lim), Scan(f, j, lim);
    if i < j {
      var next := Scan(f, i + 1, lim);
      OneMark(f, i, lim, next);
      StretchShown(f, i + 1, j, lim);
      MarkedOnce(v, next, j - i, rest);
    } else {
      MarkedNot(v);
    }
  }

  /** All that follows, up to the file's end, is shown as a single question mark if and only if the byte there promises
      more bytes than are left, or is the last. */
  lemma TailShown(f: File, i: nat)
    requires i < |f| && CharBytes(f, i) == 0
    ensures Scan(f, i, |f|).text == [0x3F] <==> |f| < i + Promised(f[i]) || i + 1 == |f|
  {
    CharIs(f, i);
    if i + 1 < |f| && i + Promised(f[i]) <= |f| {
      SomethingShown(f, i + 1);
    }
  }

  lemma SomethingShown(f: File, i: nat)
    requires i < |f|
    ensures Scan(f, i, |f|).text != []
  {
    CharIs(f, i);
  }

  /** So a letter behind a character that was cut short is not shown, though it is a character. */
  lemma TailHidesLetter(a: u8)
    requires a != 0x0D && a <= 0x7F
    ensures var f: seq<u8> := [0xE2, a]; CharBytes(f, 1) == 1 && Window(f, 0).text == [0x3F] && Window(f, 0).end == 2
  {
    var f: File := [0xE2, a];
    CharIs(f, 0);
    TailShown(f, 0);
  }

  /** A window shows 32768 bytes, or what the file has left; it begins where the next character may begin, which is at
      once at the start of the file. */
  lemma WindowIs(f: File, off: nat, start: nat)
    requires off <= |f|
    requires var lim := if off + 32768 < |f| then off + 32768 else |f|;
      && off <= start <= lim && (off == 0 ==> start == 0) && (forall k :: off <= k < start ==> 0x80 <= f[k] <= 0xBF)
      && (start < lim && 0 < off ==> !(0x80 <= f[start] <= 0xBF))
    ensures var lim := if off + 32768 < |f| then off + 32768 else |f|;
      var v, d := Window(f, off), Display(f, start, lim);
      v == View(start, d.1, d.0)
  {
    var lim := WindowEnd(f, off);
    if 0 < off {
      SkipIs(f, off, lim, start);
    }
    ScanIsDisplay(f, start, lim);
  }

  lemma {:induction false} SkipIs(f: seq<u8>, i: nat, hi: nat, start: nat)
    requires i <= start <= hi <= |f| && (forall k :: i <= k < start ==> Cont(f[k])) && (start < hi ==> !Cont(f[start]))
    ensures SkipConts(f, i, hi) == start
    decreases hi - i
  {
    if i < start {
      SkipIs(f, i + 1, hi, start);
    }
  }
}
