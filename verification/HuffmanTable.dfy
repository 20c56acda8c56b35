/** Building a decoding table from code lengths (svc/vendor/puff/puff.c, construct). */
module HuffmanTable {
  import opened Machine
  import opened Huffman

  lemma {:induction false} IndexGrows(ls: seq<nat>, l: nat, m: nat)
    requires l <= m
    ensures Index(ls, l) <= Index(ls, m)
    decreases m
  {
    if l < m {
      IndexGrows(ls, l, m - 1);
    }
  }

  function Place(ls: seq<nat>, i: nat): nat
    requires i < |ls|
  {
    Index(ls, ls[i]) + Rank(ls, i)
  }

  lemma {:induction false} IndexOneMore(ls: seq<nat>, l: nat)
    requires ls != []
    ensures var n := |ls| - 1; Index(ls, l) == Index(ls[..n], l) + if 0 < ls[n] < l then 1 else 0
  {
    if l > 1 {
      IndexOneMore(ls, l - 1);
    }
  }

  /** There is a place for each symbol in the code. */
  lemma {:induction false} PlacesAreEnough(ls: seq<nat>)
    requires LengthsOk(ls)
    ensures Total(ls) + Count(ls, 0) == |ls|
  {
    if ls != [] {
      PlacesAreEnough(ls[..|ls| - 1]);
      IndexOneMore(ls, MAXBITS + 1);
    } else {
      IndexNone(MAXBITS + 1);
    }
  }

  lemma {:induction false} IndexNone(l: nat)
    ensures Index([], l) == 0
  {
    if l > 1 {
      IndexNone(l - 1);
    }
  }

  lemma PlaceInTable(ls: seq<nat>, i: nat)
    requires i < |ls| && 0 < ls[i] <= MAXBITS
    ensures Place(ls, i) < Index(ls, ls[i] + 1) <= Total(ls)
  {
    CountSplit(ls, i, ls[i]);
    NextLength(ls, ls[i]);
    IndexGrows(ls, ls[i] + 1, MAXBITS + 1);
  }

  /** No two symbols have the same place. */
  lemma PlacesDiffer(ls: seq<nat>, i: nat, j: nat)
    requires i < j < |ls| && 0 < ls[i] <= MAXBITS && 0 < ls[j] <= MAXBITS
    ensures Place(ls, i) != Place(ls, j)
  {
    if ls[i] == ls[j] {
      RanksDiffer(ls, i, j);
    } else if ls[i] < ls[j] {
      PlaceInTable(ls, i);
      IndexGrows(ls, ls[i] + 1, ls[j]);
    } else {
      PlaceInTable(ls, j);
      IndexGrows(ls, ls[j] + 1, ls[i]);
    }
  }

  /** `left` is how many codes too many there are at the first length of which there are. */
  predicate FirstLack(ls: seq<nat>, left: int) {
    exists l :: 0 < l <= MAXBITS && left == Left(ls, l) < 0 && forall k :: 0 <= k < l ==> Left(ls, k) >= 0
  }

  /** The first `n` symbols are in their places. */
  predicate Sorted(table: seq<nat>, ls: seq<nat>, n: nat) {
    n <= |ls| && forall i :: 0 <= i < n && 0 < ls[i] ==> Place(ls, i) < |table| && table[Place(ls, i)] == i
  }

  lemma SortedOn(table: seq<nat>, ls: seq<nat>, n: nat)
    requires LengthsOk(ls) && n < |ls| && 0 < ls[n] && Sorted(table, ls, n) && Place(ls, n) < |table|
    ensures Sorted(table[Place(ls, n) := n], ls, n + 1)
  {
    forall i | 0 <= i < n && 0 < ls[i]
      ensures Place(ls, i) != Place(ls, n)
    {
      PlacesDiffer(ls, i, n);
    }
  }

  /** The places of the next symbols, when the first `n` have theirs. */
  predicate NextPlaces(offs: seq<nat>, ls: seq<nat>, n: nat) {
    && |offs| == MAXBITS + 1 && n <= |ls|
    && forall l :: 1 <= l <= MAXBITS ==> offs[l] == Index(ls, l) + Count(ls[..n], l)
  }

  lemma NextPlacesOn(offs: seq<nat>, ls: seq<nat>, n: nat)
    requires LengthsOk(ls) && n < |ls| && NextPlaces(offs, ls, n)
    ensures NextPlaces(if ls[n] != 0 then offs[ls[n] := offs[ls[n]] + 1] else offs, ls, n + 1)
    ensures ls[n] != 0 ==> offs[ls[n]] == Place(ls, n)
  {
    assert ls[..n + 1][..n] == ls[..n];
  }

  lemma SortedIsTable(h: Table, ls: seq<nat>)
    requires LengthsOk(ls) && |h.count| == MAXBITS + 1 && |h.symbol| >= |ls| && Sorted(h.symbol, ls, |ls|)
    requires forall l :: 0 <= l <= MAXBITS ==> h.count[l] == Count(ls, l)
    ensures TableOf(h, ls)
  {
    PlacesAreEnough(ls);
    forall i | 0 <= i < |ls| && 0 < ls[i]
      ensures Place(ls, i) < Total(ls) && h.symbol[Place(ls, i)] == i
    {
      PlaceInTable(ls, i);
    }
  }

  lemma {:induction false} LeftAll(ls: seq<nat>, l: nat)
    requires Total(ls) == 0 && l <= MAXBITS
    ensures Left(ls, l) > 0
  {
    if l > 0 {
      NextLength(ls, l);
      IndexGrows(ls, l + 1, MAXBITS + 1);
      LeftAll(ls, l - 1);
    }
  }

  lemma NoCodesFit(ls: seq<nat>)
    requires LengthsOk(ls) && Count(ls, 0) == |ls|
    ensures Fits(ls) && Total(ls) == 0 && forall i :: 0 <= i < |ls| ==> ls[i] == 0
  {
    PlacesAreEnough(ls);
    forall l | 0 <= l <= MAXBITS
      ensures Left(ls, l) >= 0
    {
      LeftAll(ls, l);
    }
    forall i | 0 <= i < |ls|
      ensures ls[i] == 0
    {
      if ls[i] > 0 {
        PlaceInTable(ls, i);
      }
    }
  }

  /** Construct's result says whether decoding can fail for want of a code, except that it is also 0, and decoding
      always fails, when there are no codes. */
  lemma ZeroMeansComplete(h: Table, ls: seq<nat>, left: int)
    requires TableOf(h, ls) && Fits(ls) && left == if Count(ls, 0) == |ls| then 0 else Left(ls, MAXBITS)
    ensures (forall bits :: |bits| >= MAXBITS ==> Huffman.Decode(h, bits).Found?) <==> left == 0 && Count(ls, 0) < |ls|
    ensures Count(ls, 0) == |ls| ==> forall bits :: !Huffman.Decode(h, bits).Found?
  {
    CompleteExactly(h, ls);
    if Count(ls, 0) == |ls| {
      NoCodesFit(ls);
      LeftAll(ls, MAXBITS);
      forall bits
        ensures !Huffman.Decode(h, bits).Found?
      {
        var d := Huffman.Decode(h, bits);
        if d.Found? {
          DecodesExactly(h, ls, bits, d.symbol, d.used);
        }
      }
    }
  }

  /** The source's struct huffman. */
  class Codebook {
    const count: array<nat>
    const symbol: array<nat>

    constructor (size: nat)
      ensures fresh(count) && fresh(symbol) && count != symbol && count.Length == MAXBITS + 1 && symbol.Length == size
    {
      count, symbol := new nat[MAXBITS + 1](i => 0), new nat[size](i => 0);
    }

    ghost function Shown(): (t: Table)
      reads count, symbol
      ensures |t.count| == count.Length && |t.symbol| == symbol.Length
    {
      Table(count[..], symbol[..])
    }

    ghost predicate Valid() {
      count != symbol && count.Length == MAXBITS + 1
    }

    /** The number of codes of each length. */
    method Tally(length: seq<nat>)
      requires Valid() && LengthsOk(length)
      modifies count
      ensures forall l :: 0 <= l <= MAXBITS ==> count[l] == Count(length, l)
    {
      for len := 0 to MAXBITS + 1
        invariant forall l :: 0 <= l < len ==> count[l] == 0
      {
        count[len] := 0;
      }
      assert length[..0] == [];
      for sym := 0 to |length|
        invariant forall l :: 0 <= l <= MAXBITS ==> count[l] == Count(length[..sym], l)
      {
        assert length[..sym + 1][..sym] == length[..sym];
        count[length[sym]] := count[length[sym]] + 1;
      }
      assert length[..|length|] == length;
    }

    /** The codes left over, or the first lack. */
    method Rest(ghost length: seq<nat>) returns (left: int)
      requires Valid() && forall l :: 0 <= l <= MAXBITS ==> count[l] == Count(length, l)
      ensures Fits(length) ==> left == Left(length, MAXBITS)
      ensures left < 0 <==> !Fits(length)
      ensures left < 0 ==> FirstLack(length, left)
    {
      left := 1;
      for len := 1 to MAXBITS + 1
        invariant 0 <= left == Left(length, len - 1)
        invariant forall l :: 0 <= l < len ==> Left(length, l) >= 0
      {
        left := 2 * left - count[len];
        assert left == Left(length, len);
        if left < 0 {
          return;
        }
      }
    }

    method Offsets(ghost length: seq<nat>) returns (offs: array<nat>)
      requires Valid() && forall l :: 0 <= l <= MAXBITS ==> count[l] == Count(length, l)
      ensures fresh(offs) && offs.Length == MAXBITS + 1 && NextPlaces(offs[..], length, 0)
    {
      offs := new nat[MAXBITS + 1](i => 0);
      assert length[..0] == [];
      for len := 1 to MAXBITS
        invariant forall l :: 1 <= l <= len ==> offs[l] == Index(length, l)
      {
        NextLength(length, len);
        offs[len + 1] := offs[len] + count[len];
      }
    }

    /** One symbol put in its place. */
    method SortOne(length: seq<nat>, sym: nat, offs: array<nat>)
      requires Valid() && LengthsOk(length) && |length| <= symbol.Length && offs != symbol && offs != count
      requires sym < |length| && Sorted(symbol[..], length, sym) && NextPlaces(offs[..], length, sym)
      modifies symbol, offs
      ensures Sorted(symbol[..], length, sym + 1) && NextPlaces(offs[..], length, sym + 1)
    {
      NextPlacesOn(offs[..], length, sym);
      if length[sym] != 0 {
        PlacesAreEnough(length);
        PlaceInTable(length, sym);
        SortedOn(symbol[..], length, sym);
        symbol[offs[length[sym]]] := sym;
        offs[length[sym]] := offs[length[sym]] + 1;
      }
    }

    /** The symbols in the order of their codes. */
    method Sort(length: seq<nat>)
      requires Valid() && LengthsOk(length) && |length| <= symbol.Length
      requires forall l :: 0 <= l <= MAXBITS ==> count[l] == Count(length, l)
      modifies symbol
      ensures TableOf(Shown(), length)
    {
      var offs := Offsets(length);
      for sym := 0 to |length|
        invariant Sorted(symbol[..], length, sym) && NextPlaces(offs[..], length, sym)
      {
        SortOne(length, sym, offs);
      }
      SortedIsTable(Shown(), length);
    }

    /** The table of the code with these lengths: negative when there are too many codes, and otherwise how many
        strings of the greatest length are left, but 0 when there are no codes at all. */
    method Construct(length: seq<nat>) returns (left: int)
      requires Valid() && LengthsOk(length) && |length| <= symbol.Length
      modifies count, symbol
      ensures left < 0 <==> !Fits(length)
      ensures left < 0 ==> FirstLack(length, left)
      ensures left >= 0 ==> TableOf(Shown(), length)
      ensures left >= 0 ==> left == if Count(length, 0) == |length| then 0 else Left(length, MAXBITS)
    {
      Tally(length);
      if count[0] == |length| {
        NoCodesFit(length);
        return 0;
      }
      left := Rest(length);
      if left < 0 {
        return;
      }
      Sort(length);
    }
  }
}
