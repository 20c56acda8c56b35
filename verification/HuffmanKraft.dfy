/** Which lists of lengths belong to prefix codes: those whose codes never run out, by Kraft's inequality one way and
    by the canonical code the other. */
module HuffmanKraft {
  import opened Machine
  import opened Huffman

  predicate Prefix(a: seq<bit>, b: seq<bit>) {
    |a| <= |b| && forall k :: 0 <= k < |a| ==> a[k] == b[k]
  }

  /** Codes of these lengths, none of which begins another. */
  predicate PrefixCode(codes: seq<seq<bit>>, ls: seq<nat>) {
    && |codes| == |ls| && (forall i :: 0 <= i < |ls| ==> |codes[i]| == ls[i])
    && forall i, j :: 0 <= i < |ls| && 0 <= j < |ls| && i != j && 0 < ls[i] && 0 < ls[j] ==>
         !Prefix(codes[i], codes[j])
  }

  // ---------------------------------------------------------------- Kraft's inequality

  datatype Codes = Nil | More(rest: Codes, code: seq<bit>)

  predicate Apart(c: seq<bit>, cs: Codes) {
    cs.More? ==> Apart(c, cs.rest) && !Prefix(c, cs.code) && !Prefix(cs.code, c)
  }

  /** No code begins another. */
  predicate Free(cs: Codes) {
    cs.More? ==> Free(cs.rest) && Apart(cs.code, cs.rest)
  }

  predicate Within(cs: Codes, low: nat, high: nat) {
    cs.More? ==> Within(cs.rest, low, high) && low <= |cs.code| <= high
  }

  /** How many strings of length `l` begin with one of the codes. */
  function Weight(cs: Codes, l: nat): nat
    requires Within(cs, 0, l)
  {
    if cs.Nil? then 0 else Weight(cs.rest, l) + Pow2(l - |cs.code|)
  }

  /** The rest of the codes that begin with `b`. */
  function Tails(cs: Codes, b: bit): Codes {
    if cs.Nil? then Nil
    else if cs.code != [] && cs.code[0] == b then More(Tails(cs.rest, b), cs.code[1..])
    else Tails(cs.rest, b)
  }

  lemma PrefixOfTails(c: seq<bit>, d: seq<bit>)
    requires c != [] && d != [] && c[0] == d[0] && Prefix(c[1..], d[1..])
    ensures Prefix(c, d)
  {
    forall k | 0 <= k < |c|
      ensures c[k] == d[k]
    {
      assert k == 0 || c[1..][k - 1] == d[1..][k - 1];
    }
  }

  lemma {:induction false} TailsApart(c: seq<bit>, cs: Codes)
    requires c != [] && Apart(c, cs)
    ensures Apart(c[1..], Tails(cs, c[0]))
  {
    if cs.More? {
      TailsApart(c, cs.rest);
      var d := cs.code;
      if d != [] && d[0] == c[0] {
        if Prefix(c[1..], d[1..]) {
          PrefixOfTails(c, d);
        }
        if Prefix(d[1..], c[1..]) {
          PrefixOfTails(d, c);
        }
      }
    }
  }

  lemma {:induction false} TailsFree(cs: Codes, b: bit)
    requires Free(cs)
    ensures Free(Tails(cs, b))
  {
    if cs.More? {
      TailsFree(cs.rest, b);
      if cs.code != [] && cs.code[0] == b {
        TailsApart(cs.code, cs.rest);
      }
    }
  }

  /** The strings are shared out by their first bits. */
  lemma {:induction false} WeightSplits(cs: Codes, l: nat)
    requires Within(cs, 1, l + 1)
    ensures Within(cs, 0, l + 1) && Within(Tails(cs, 0), 0, l) && Within(Tails(cs, 1), 0, l)
    ensures Weight(cs, l + 1) == Weight(Tails(cs, 0), l) + Weight(Tails(cs, 1), l)
  {
    if cs.More? {
      WeightSplits(cs.rest, l);
    }
  }

  lemma {:induction false} ApartNonempty(c: seq<bit>, cs: Codes, l: nat)
    requires Apart(c, cs) && Within(cs, 0, l)
    ensures Within(cs, 1, l)
  {
    if cs.More? {
      ApartNonempty(c, cs.rest, l);
      assert !Prefix(cs.code, c);
    }
  }

  /** The empty code leaves no room for another. */
  lemma EmptyAlone(cs: Codes, l: nat)
    requires cs.More? && Free(cs) && Within(cs, 0, l) && cs != More(Nil, [])
    ensures Within(cs, 1, l)
  {
    ApartNonempty(cs.code, cs.rest, l);
    assert cs.rest.More? ==> !Prefix(cs.code, cs.rest.code);
  }

  /** Kraft's inequality. */
  lemma {:induction false} Kraft(cs: Codes, l: nat)
    requires Free(cs) && Within(cs, 0, l)
    ensures Weight(cs, l) <= Pow2(l)
    decreases l
  {
    if cs == More(Nil, []) {
      assert Weight(Nil, l) == 0;
    } else if cs.More? {
      EmptyAlone(cs, l);
      WeightSplits(cs, l - 1);
      TailsFree(cs, 0);
      TailsFree(cs, 1);
      Kraft(Tails(cs, 0), l - 1);
      Kraft(Tails(cs, 1), l - 1);
    }
  }

  // ---------------------------------------------------------------- in terms of lengths

  /** How many strings of length `l` the codes of up to this length use up. */
  function UsedUp(ls: seq<nat>, l: nat): nat {
    if ls == [] then 0
    else var n := |ls| - 1; UsedUp(ls[..n], l) + if 0 < ls[n] <= l then Pow2(l - ls[n]) else 0
  }

  lemma {:induction false} UsedNext(ls: seq<nat>, l: nat)
    ensures UsedUp(ls, l + 1) == 2 * UsedUp(ls, l) + Count(ls, l + 1)
  {
    if ls != [] {
      var n := |ls| - 1;
      UsedNext(ls[..n], l);
      if 0 < ls[n] <= l {
        assert Pow2(l + 1 - ls[n]) == 2 * Pow2(l - ls[n]);
      }
    }
  }

  lemma {:induction false} UsedNone(ls: seq<nat>)
    ensures UsedUp(ls, 0) == 0
  {
    if ls != [] {
      UsedNone(ls[..|ls| - 1]);
    }
  }

  lemma {:induction false} LeftIsRest(ls: seq<nat>, l: nat)
    ensures Left(ls, l) == Pow2(l) - UsedUp(ls, l)
  {
    if l == 0 {
      UsedNone(ls);
    } else {
      LeftIsRest(ls, l - 1);
      UsedNext(ls, l - 1);
    }
  }

  /** The codes, of up to this length, of the first `n` symbols. */
  function Chosen(codes: seq<seq<bit>>, n: nat, l: nat): Codes
    requires n <= |codes|
  {
    if n == 0 then Nil
    else if 0 < |codes[n - 1]| <= l then More(Chosen(codes, n - 1, l), codes[n - 1])
    else Chosen(codes, n - 1, l)
  }

  lemma {:induction false} ChosenApart(codes: seq<seq<bit>>, ls: seq<nat>, i: nat, n: nat, l: nat)
    requires PrefixCode(codes, ls) && n <= i < |ls| && 0 < ls[i]
    ensures Apart(codes[i], Chosen(codes, n, l))
  {
    if n > 0 {
      ChosenApart(codes, ls, i, n - 1, l);
      assert |codes[n - 1]| == ls[n - 1];
    }
  }

  lemma UsedOneMore(ls: seq<nat>, n: nat, l: nat)
    requires n < |ls|
    ensures UsedUp(ls[..n + 1], l) == UsedUp(ls[..n], l) + if 0 < ls[n] <= l then Pow2(l - ls[n]) else 0
  {
    assert ls[..n + 1][..n] == ls[..n];
  }

  lemma {:induction false} ChosenUse(codes: seq<seq<bit>>, ls: seq<nat>, n: nat, l: nat)
    requires PrefixCode(codes, ls) && n <= |ls|
    ensures var cs := Chosen(codes, n, l); Free(cs) && Within(cs, 0, l) && Weight(cs, l) == UsedUp(ls[..n], l)
  {
    if n > 0 {
      ChosenUse(codes, ls, n - 1, l);
      UsedOneMore(ls, n - 1, l);
      assert |codes[n - 1]| == ls[n - 1];
      if 0 < ls[n - 1] {
        ChosenApart(codes, ls, n - 1, n - 1, l);
      }
    }
  }

  /** The lengths of a prefix code never run out. */
  lemma PrefixCodeFits(codes: seq<seq<bit>>, ls: seq<nat>)
    requires PrefixCode(codes, ls)
    ensures Fits(ls)
  {
    forall l | 0 <= l <= MAXBITS
      ensures Left(ls, l) >= 0
    {
      ChosenUse(codes, ls, |ls|, l);
      Kraft(Chosen(codes, |ls|, l), l);
      assert ls[..|ls|] == ls;
      LeftIsRest(ls, l);
    }
  }

  // ---------------------------------------------------------------- the canonical code

  lemma {:induction false} BitsInjective(v: nat, w: nat, n: nat)
    requires v < Pow2(n) && w < Pow2(n) && Prefix(Bits(v, n), Bits(w, n))
    ensures v == w
  {
    if n > 0 {
      var x, y := Bits(v, n), Bits(w, n);
      var b, p := x[0], Pow2(n - 1);
      assert b == y[0];
      assert x == [b] + Bits(v - b * p, n - 1) && y == [b] + Bits(w - b * p, n - 1);
      TailPrefix(x, y);
      assert x[1..] == Bits(v - b * p, n - 1) && y[1..] == Bits(w - b * p, n - 1);
      BitsInjective(v - b * p, w - b * p, n - 1);
    }
  }

  lemma TailPrefix(x: seq<bit>, y: seq<bit>)
    requires x != [] && Prefix(x, y)
    ensures Prefix(x[1..], y[1..])
  {
  }

  /** A code that begins another is what is left of it without its last bits. */
  lemma {:induction false} PrefixValue(v: nat, m: nat, w: nat, n: nat) returns (low: nat)
    requires v < Pow2(m) && w < Pow2(n) && m <= n && Prefix(Bits(v, m), Bits(w, n))
    ensures low < Pow2(n - m) && w == v * Pow2(n - m) + low
    decreases n
  {
    if m == n {
      BitsInjective(v, w, n);
      low := 0;
    } else {
      var half, b := w / 2, w % 2;
      BitsAppend(half, n - 1, b);
      var up := PrefixValue(v, m, half, n - 1);
      Doubled(v, Pow2(n - 1 - m));
      low := 2 * up + b;
    }
  }

  lemma ShorterApart(ls: seq<nat>, i: nat, j: nat, v: nat, w: nat)
    requires i < |ls| && j < |ls| && 0 < ls[i] < ls[j] && v < Pow2(ls[i]) && w < Pow2(ls[j])
    requires v == Code(ls, i) < First(ls, ls[i]) + Count(ls, ls[i]) && w == Code(ls, j)
    ensures !Prefix(Bits(v, ls[i]), Bits(w, ls[j]))
  {
    if Prefix(Bits(v, ls[i]), Bits(w, ls[j])) {
      var low := PrefixValue(v, ls[i], w, ls[j]);
      Beyond(ls, j, w, ls[i], ls[j] - ls[i], v, low);
    }
  }

  lemma EqualApart(ls: seq<nat>, i: nat, j: nat, v: nat, w: nat)
    requires i < |ls| && j < |ls| && i != j && ls[i] == ls[j] && v < Pow2(ls[i]) && w < Pow2(ls[i])
    requires v == Code(ls, i) && w == Code(ls, j)
    ensures !Prefix(Bits(v, ls[i]), Bits(w, ls[i]))
  {
    RanksDiffer(ls, i, j);
    if Prefix(Bits(v, ls[i]), Bits(w, ls[i])) {
      BitsInjective(v, w, ls[i]);
    }
  }

  /** No symbol's code begins another's. */
  lemma CanonicalPrefixFree(ls: seq<nat>, i: nat, j: nat)
    requires LengthsOk(ls) && Fits(ls) && i < |ls| && j < |ls| && i != j && 0 < ls[i] && 0 < ls[j]
    ensures Code(ls, i) < Pow2(ls[i]) && Code(ls, j) < Pow2(ls[j])
    ensures !Prefix(Bits(Code(ls, i), ls[i]), Bits(Code(ls, j), ls[j]))
  {
    CodeInRange(ls, i);
    CodeInRange(ls, j);
    if ls[i] < ls[j] {
      ShorterApart(ls, i, j, Code(ls, i), Code(ls, j));
    } else if ls[i] == ls[j] {
      EqualApart(ls, i, j, Code(ls, i), Code(ls, j));
    }
  }

  function Canonical(ls: seq<nat>): (codes: seq<seq<bit>>)
    requires LengthsOk(ls) && Fits(ls)
    ensures |codes| == |ls|
    ensures forall i :: 0 <= i < |ls| ==>
      codes[i] == if 0 < ls[i] then (CodeInRange(ls, i); Bits(Code(ls, i), ls[i])) else []
  {
    seq(|ls|, i requires 0 <= i < |ls| && LengthsOk(ls) && Fits(ls) =>
      if 0 < ls[i] then (CodeInRange(ls, i); Bits(Code(ls, i), ls[i])) else [])
  }

  /** There is a prefix code of these lengths if and only if the codes never run out. */
  lemma FitsExactly(ls: seq<nat>)
    requires LengthsOk(ls)
    ensures Fits(ls) <==> exists codes :: PrefixCode(codes, ls)
  {
    if Fits(ls) {
      var codes := Canonical(ls);
      forall i, j | 0 <= i < |ls| && 0 <= j < |ls| && i != j && 0 < ls[i] && 0 < ls[j]
        ensures !Prefix(codes[i], codes[j])
      {
        CanonicalPrefixFree(ls, i, j);
      }
      assert PrefixCode(codes, ls);
    }
    if codes :| PrefixCode(codes, ls) {
      PrefixCodeFits(codes, ls);
    }
  }
}
