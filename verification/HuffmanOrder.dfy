/** The rules that fix a canonical code (RFC 1951, section 3.2.2), and the order of bits in a byte. */
module HuffmanOrder {
  import opened Machine
  import opened Huffman
  import opened Puff

  lemma {:induction false} CountNone(ls: seq<nat>, l: nat)
    requires forall k :: 0 <= k < |ls| ==> ls[k] != l
    ensures Count(ls, l) == 0
  {
    if ls != [] {
      CountNone(ls[..|ls| - 1], l);
    }
  }

  /** How often a length occurs before `j`, when it does not from `i` on. */
  lemma {:induction false} CountStays(ls: seq<nat>, i: nat, j: nat, l: nat)
    requires i <= j <= |ls| && forall k :: i <= k < j ==> ls[k] != l
    ensures Count(ls[..j], l) == Count(ls[..i], l)
    decreases j
  {
    if i < j {
      CountOneMore(ls, j - 1, l);
      CountStays(ls, i, j - 1, l);
    }
  }

  lemma CountOneMore(ls: seq<nat>, i: nat, l: nat)
    requires i < |ls|
    ensures Count(ls[..i + 1], l) == Count(ls[..i], l) + if ls[i] == l then 1 else 0
  {
    assert ls[..i + 1][..i] == ls[..i];
  }

  /** All codes of a length are consecutive, in the order of their symbols. */
  lemma NextOfLength(ls: seq<nat>, i: nat, j: nat)
    requires i < j < |ls| && ls[i] == ls[j] && forall k :: i < k < j ==> ls[k] != ls[i]
    ensures Code(ls, j) == Code(ls, i) + 1
  {
    CountOneMore(ls, i, ls[i]);
    CountStays(ls, i + 1, j, ls[i]);
  }

  /** The shortest length begins with zeros. */
  lemma ShortestFirst(ls: seq<nat>, i: nat)
    requires i < |ls| && 0 < ls[i]
    requires forall k :: 0 <= k < |ls| && 0 < ls[k] ==> ls[i] <= ls[k] && (k < i ==> ls[i] < ls[k])
    ensures Code(ls, i) == 0
  {
    FirstStays(ls, 1, ls[i]);
    CountNone(ls[..i], ls[i]);
  }

  lemma {:induction false} FirstStays(ls: seq<nat>, l: nat, m: nat)
    requires 0 < l <= m && forall k :: 0 <= k < |ls| ==> !(l <= ls[k] < m)
    ensures First(ls, m) == Pow2(m - l) * First(ls, l)
    decreases m
  {
    if l < m {
      FirstStays(ls, l, m - 1);
      CountNone(ls, m - 1);
      Doubled(Pow2(m - 1 - l), First(ls, l));
    }
  }

  /** The next length in use goes on behind the last code of the one before, filled up with zeros. */
  lemma NextLengthFollows(ls: seq<nat>, i: nat, j: nat)
    requires i < |ls| && j < |ls| && 0 < ls[i] < ls[j]
    requires forall k :: i < k < |ls| ==> ls[k] != ls[i]
    requires forall k :: 0 <= k < j ==> ls[k] != ls[j]
    requires forall k :: 0 <= k < |ls| ==> !(ls[i] < ls[k] < ls[j])
    ensures Code(ls, j) == Pow2(ls[j] - ls[i]) * (Code(ls, i) + 1)
  {
    var l, m := ls[i], ls[j];
    CountOneMore(ls, i, l);
    CountStays(ls, i + 1, |ls|, l);
    assert ls[..|ls|] == ls;
    CountNone(ls[..j], m);
    FirstStays(ls, l + 1, m);
    NextLength(ls, l);
    Doubled(Pow2(m - l - 1), Code(ls, i) + 1);
  }

  /** The bits of a byte are read from the lowest on, byte after byte. */
  lemma {:induction false} BitAt(bytes: seq<u8>, at: nat, k: nat)
    requires at < |bytes| && k < 8
    ensures BitsOf(bytes)[8 * at + k] == ShiftedRight(bytes[at], k) % 2
  {
    if at == 0 {
      LowBitAt(bytes[0], 8, k);
    } else {
      BitAt(bytes[1..], at - 1, k);
    }
  }

  lemma {:induction false} LowBitAt(v: nat, n: nat, k: nat)
    requires k < n
    ensures LowBits(v, n)[k] == ShiftedRight(v, k) % 2
  {
    if 0 < k {
      LowBitAt(v / 2, n - 1, k - 1);
    }
  }
}
