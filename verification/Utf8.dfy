/** UTF-8 as the text viewer checks it, against the grammar of RFC 3629, section 4. */
module Utf8 {
  import opened Machine

  // ---------------------------------------------------------------- the viewer's checks

  /** Length of the character a byte announces; 0 for a byte that starts none. */
  function Utf8Len(b: u8): (n: nat)
    ensures n <= 4
  {
    if b < 0x80 then 1
    else if 0xC2 <= b <= 0xDF then 2
    else if 0xE0 <= b <= 0xEF then 3
    else if 0xF0 <= b <= 0xF4 then 4
    else 0
  }

  predicate Cont(b: u8) {
    0x80 <= b < 0xC0
  }

  function CodePoint3(a: int, b: int, c: int): int {
    (a % 16) * 4096 + (b % 64) * 64 + c % 64
  }

  function CodePoint4(a: int, b: int, c: int, d: int): int {
    (a % 8) * 262144 + (b % 64) * 4096 + (c % 64) * 64 + d % 64
  }

  predicate Ok3(a: u8, b: u8, c: u8) {
    && Cont(b) && Cont(c)
    && !(a == 0xE0 && b < 0xA0)
    && !(0xD800 <= CodePoint3(a, b, c) <= 0xDFFF)
  }

  predicate Ok4(a: u8, b: u8, c: u8, d: u8) {
    && Cont(b) && Cont(c) && Cont(d)
    && !(a == 0xF0 && b < 0x90)
    && !(a == 0xF4 && b > 0x8F)
    && CodePoint4(a, b, c, d) <= 0x10FFFF
  }

  /** The check on the `n` bytes at `i`, `n` being what the first of them announces. */
  predicate Utf8Ok(f: seq<u8>, i: nat, n: nat)
    requires i + n <= |f|
  {
    || n == 1
    || (n == 2 && Cont(f[i + 1]))
    || (n == 3 && Ok3(f[i], f[i + 1], f[i + 2]))
    || (n == 4 && Ok4(f[i], f[i + 1], f[i + 2], f[i + 3]))
  }

  /** A character starts at `i`. */
  predicate CharAt(f: seq<u8>, i: nat)
    requires i < |f|
  {
    var n := Utf8Len(f[i]);
    1 <= n && i + n <= |f| && Utf8Ok(f, i, n)
  }

  /** From `i` on, the bytes are whole characters. */
  predicate TextFrom(f: seq<u8>, i: nat)
    requires i <= |f|
    decreases |f| - i
  {
    i == |f| || (CharAt(f, i) && TextFrom(f, i + Utf8Len(f[i])))
  }

  predicate Text(f: seq<u8>) {
    TextFrom(f, 0)
  }

  // ---------------------------------------------------------------- the grammar

  predicate Tail(b: u8) {
    0x80 <= b <= 0xBF
  }

  predicate Char1(a: u8) {
    a <= 0x7F
  }

  predicate Char2(a: u8, b: u8) {
    0xC2 <= a <= 0xDF && Tail(b)
  }

  predicate Char3(a: u8, b: u8, c: u8) {
    || (a == 0xE0 && 0xA0 <= b <= 0xBF && Tail(c))
    || (0xE1 <= a <= 0xEC && Tail(b) && Tail(c))
    || (a == 0xED && 0x80 <= b <= 0x9F && Tail(c))
    || (0xEE <= a <= 0xEF && Tail(b) && Tail(c))
  }

  predicate Char4(a: u8, b: u8, c: u8, d: u8) {
    || (a == 0xF0 && 0x90 <= b <= 0xBF && Tail(c) && Tail(d))
    || (0xF1 <= a <= 0xF3 && Tail(b) && Tail(c) && Tail(d))
    || (a == 0xF4 && 0x80 <= b <= 0x8F && Tail(c) && Tail(d))
  }

  /** From `i` on, the bytes are a sequence of zero or more characters of the grammar. */
  predicate WellFormedFrom(f: seq<u8>, i: nat)
    requires i <= |f|
    decreases |f| - i
  {
    || i == |f|
    || (i + 1 <= |f| && Char1(f[i]) && WellFormedFrom(f, i + 1))
    || (i + 2 <= |f| && Char2(f[i], f[i + 1]) && WellFormedFrom(f, i + 2))
    || (i + 3 <= |f| && Char3(f[i], f[i + 1], f[i + 2]) && WellFormedFrom(f, i + 3))
    || (i + 4 <= |f| && Char4(f[i], f[i + 1], f[i + 2], f[i + 3]) && WellFormedFrom(f, i + 4))
  }

  // ---------------------------------------------------------------- they agree

  lemma SurrogateRange(a: u8, b: u8, c: u8)
    requires 0xE0 <= a <= 0xEF && Cont(b) && Cont(c)
    ensures 0xD800 <= CodePoint3(a, b, c) <= 0xDFFF <==> a == 0xED && 0xA0 <= b
  {
  }

  lemma PlaneRange(a: u8, b: u8, c: u8, d: u8)
    requires 0xF0 <= a <= 0xF4 && Cont(b) && Cont(c) && Cont(d)
    ensures CodePoint4(a, b, c, d) <= 0x10FFFF <==> !(a == 0xF4 && b > 0x8F)
  {
  }

  lemma ThreeBytes(a: u8, b: u8, c: u8)
    ensures Utf8Len(a) == 3 && Ok3(a, b, c) <==> Char3(a, b, c)
  {
    if 0xE0 <= a <= 0xEF && Cont(b) && Cont(c) {
      SurrogateRange(a, b, c);
    }
  }

  lemma FourBytes(a: u8, b: u8, c: u8, d: u8)
    ensures Utf8Len(a) == 4 && Ok4(a, b, c, d) <==> Char4(a, b, c, d)
  {
    if 0xF0 <= a <= 0xF4 && Cont(b) && Cont(c) && Cont(d) {
      PlaneRange(a, b, c, d);
    }
  }

  /** The viewer's checks accept exactly the texts of the grammar. */
  lemma {:induction false} TextIsWellFormed(f: seq<u8>, i: nat)
    requires i <= |f|
    ensures TextFrom(f, i) <==> WellFormedFrom(f, i)
    decreases |f| - i
  {
    if i + 1 <= |f| {
      TextIsWellFormed(f, i + 1);
    }
    if i + 2 <= |f| {
      TextIsWellFormed(f, i + 2);
    }
    if i + 3 <= |f| {
      TextIsWellFormed(f, i + 3);
      ThreeBytes(f[i], f[i + 1], f[i + 2]);
    }
    if i + 4 <= |f| {
      TextIsWellFormed(f, i + 4);
      FourBytes(f[i], f[i + 1], f[i + 2], f[i + 3]);
    }
  }

  // ---------------------------------------------------------------- boundaries

  lemma CharShape(f: seq<u8>, i: nat)
    requires i < |f| && CharAt(f, i)
    ensures !Cont(f[i])
    ensures forall k :: i < k < i + Utf8Len(f[i]) ==> Cont(f[k])
  {
  }

  /** A character that starts before a boundary ends at or before it. */
  lemma CharWithin(f: seq<u8>, i: nat, b: nat)
    requires i < b <= |f| && CharAt(f, i) && TextFrom(f, b)
    ensures i + Utf8Len(f[i]) <= b
  {
    CharShape(f, i);
    if b < |f| {
      CharShape(f, b);
    }
  }

  /** The first offset from `i` on, below `hi`, that holds no continuation byte; `hi` if none. */
  function SkipConts(f: seq<u8>, i: nat, hi: nat): (k: nat)
    requires i <= hi <= |f|
    ensures i <= k <= hi
    ensures forall j :: i <= j < k ==> Cont(f[j])
    ensures k < hi ==> !Cont(f[k])
    decreases hi - i
  {
    if i < hi && Cont(f[i]) then SkipConts(f, i + 1, hi) else i
  }

  /** In a text, the first non-continuation byte from any offset on starts a character,
      and is at most three bytes away. */
  lemma {:induction false} NextBoundary(f: seq<u8>, i: nat, off: nat) returns (k: nat)
    requires i <= off <= |f| && TextFrom(f, i)
    ensures off <= k <= off + 3 && k <= |f| && TextFrom(f, k)
    ensures forall j :: off <= j < k ==> Cont(f[j])
    decreases |f| - i
  {
    if i == off {
      k := off;
    } else {
      CharShape(f, i);
      var n := Utf8Len(f[i]);
      if i + n <= off {
        k := NextBoundary(f, i + n, off);
      } else {
        k := i + n;
      }
    }
  }

  lemma SkipReachesBoundary(f: seq<u8>, off: nat, hi: nat)
    requires Text(f) && off <= hi <= |f| && (off + 3 <= hi || hi == |f|)
    ensures var k := SkipConts(f, off, hi); k <= off + 3 && TextFrom(f, k)
  {
    var k := NextBoundary(f, 0, off);
    if k < |f| {
      CharShape(f, k);
    }
    assert k == SkipConts(f, off, hi);
  }

  /** Text offsets keep their meaning when something is put in front. */
  lemma {:induction false} TextShift(a: seq<u8>, s: seq<u8>, i: nat)
    requires i <= |s|
    ensures TextFrom(a + s, |a| + i) <==> TextFrom(s, i)
    decreases |s| - i
  {
    if i < |s| {
      assert (a + s)[|a| + i] == s[i];
      var n := Utf8Len(s[i]);
      if 1 <= n && i + n <= |s| {
        assert forall j :: |a| + i <= j < |a| + i + n ==> (a + s)[j] == s[j - |a|];
        TextShift(a, s, i + n);
      }
    }
  }

  /** A character followed by a text is a text. */
  lemma PrependChar(c: seq<u8>, s: seq<u8>)
    requires c != [] && CharAt(c, 0) && |c| == Utf8Len(c[0]) && Text(s)
    ensures Text(c + s)
  {
    TextShift(c, s, 0);
    assert forall k :: 0 <= k < |c| ==> (c + s)[k] == c[k];
  }
}
