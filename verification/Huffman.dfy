/** Canonical Huffman codes as inflate uses them (RFC 1951, section 3.2.2): the codes that a list of lengths stands
    for, and decoding them bit by bit. */
module Huffman {
  import opened Machine

  const MAXBITS := 15

  type bit = x: int | 0 <= x <= 1

  function Pow2(n: nat): (p: nat)
    ensures 0 < p
  {
    if n == 0 then 1 else 2 * Pow2(n - 1)
  }

  /** A code length for each symbol; length 0 means that the symbol is not in the code. */
  predicate LengthsOk(ls: seq<nat>) {
    forall i :: 0 <= i < |ls| ==> ls[i] <= MAXBITS
  }

  /** How many symbols have this length. */
  function Count(ls: seq<nat>, l: nat): (c: nat)
    ensures c <= |ls|
  {
    if ls == [] then 0 else Count(ls[..|ls| - 1], l) + if ls[|ls| - 1] == l then 1 else 0
  }

  /** The first code of a length, and the place of its symbol among all in the order of their codes. */
  function First(ls: seq<nat>, l: nat): nat {
    if l <= 1 then 0 else 2 * (First(ls, l - 1) + Count(ls, l - 1))
  }

  function Index(ls: seq<nat>, l: nat): nat {
    if l <= 1 then 0 else Index(ls, l - 1) + Count(ls, l - 1)
  }

  /** How many codes of this length are left when all codes up to this length are taken. */
  function Left(ls: seq<nat>, l: nat): int {
    if l == 0 then 1 else 2 * Left(ls, l - 1) - Count(ls, l)
  }

  /** No length has more codes than there is room for. */
  predicate Fits(ls: seq<nat>) {
    forall l :: 0 <= l <= MAXBITS ==> Left(ls, l) >= 0
  }

  function Rank(ls: seq<nat>, i: nat): nat
    requires i < |ls|
  {
    Count(ls[..i], ls[i])
  }

  function Code(ls: seq<nat>, i: nat): nat
    requires i < |ls|
  {
    First(ls, ls[i]) + Rank(ls, i)
  }

  /** The `n` low bits of a number, highest first. */
  function Bits(v: nat, n: nat): (b: seq<bit>)
    requires v < Pow2(n)
    ensures |b| == n
  {
    if n == 0 then []
    else if v < Pow2(n - 1) then [0] + Bits(v, n - 1)
    else [1] + Bits(v - Pow2(n - 1), n - 1)
  }

  // ---------------------------------------------------------------- the numbers

  lemma {:induction false} CountSplit(ls: seq<nat>, i: nat, l: nat)
    requires i <= |ls|
    ensures Count(ls[..i], l) <= Count(ls, l)
    ensures i < |ls| && ls[i] == l ==> Count(ls[..i], l) < Count(ls, l)
    decreases |ls|
  {
    var n := |ls| - 1;
    if i < n {
      assert ls[..n][..i] == ls[..i];
      CountSplit(ls[..n], i, l);
    } else if i == n + 1 {
      assert ls[..i] == ls;
    }
  }

  lemma RanksDiffer(ls: seq<nat>, i: nat, j: nat)
    requires i < |ls| && j < |ls| && i != j && ls[i] == ls[j]
    ensures Rank(ls, i) != Rank(ls, j)
  {
    var a, b := if i < j then i else j, if i < j then j else i;
    CountSplit(ls[..b], a, ls[a]);
    assert ls[..b][..a] == ls[..a];
  }

  /** Codes taken and codes left make up all strings of a length. */
  lemma {:induction false} TakenAndLeft(ls: seq<nat>, l: nat)
    requires 0 < l
    ensures First(ls, l) + Count(ls, l) + Left(ls, l) == Pow2(l)
  {
    if l > 1 {
      TakenAndLeft(ls, l - 1);
    } else {
      assert Left(ls, 1) == 2 * Left(ls, 0) - Count(ls, 1);
    }
  }

  /** A code is among the strings of its length. */
  lemma CodeInRange(ls: seq<nat>, i: nat)
    requires Fits(ls) && i < |ls| && 0 < ls[i] <= MAXBITS
    ensures Code(ls, i) < First(ls, ls[i]) + Count(ls, ls[i]) <= Pow2(ls[i])
  {
    CountSplit(ls, i, ls[i]);
    TakenAndLeft(ls, ls[i]);
  }

  lemma Doubled(a: nat, b: nat)
    ensures (2 * a) * b == 2 * (a * b) == a * (2 * b)
  {
  }

  /** Longer codes lie beyond all shorter ones, extended. */
  lemma {:induction false} FirstGrows(ls: seq<nat>, l: nat, m: nat)
    requires 0 < l < m
    ensures First(ls, m) >= Pow2(m - l) * (First(ls, l) + Count(ls, l))
    decreases m
  {
    var taken, p := First(ls, l) + Count(ls, l), Pow2(m - 1 - l);
    assert Pow2(m - l) == 2 * p;
    Doubled(p, taken);
    if l + 1 < m {
      FirstGrows(ls, l, m - 1);
    } else {
      assert p == 1;
    }
  }

  // ---------------------------------------------------------------- decoding

  /** What the decoder works with: the number of symbols of each length, and the symbols in the order of codes. */
  datatype Table = Table(count: seq<nat>, symbol: seq<nat>)

  function Total(ls: seq<nat>): nat {
    Index(ls, MAXBITS + 1)
  }

  /** The table belongs to these lengths. */
  predicate TableOf(h: Table, ls: seq<nat>) {
    && LengthsOk(ls) && |h.count| == MAXBITS + 1 && |h.symbol| >= Total(ls)
    && (forall l :: 0 <= l <= MAXBITS ==> h.count[l] == Count(ls, l))
    && (forall i :: 0 <= i < |ls| && 0 < ls[i] ==>
          Index(ls, ls[i]) + Rank(ls, i) < Total(ls) && h.symbol[Index(ls, ls[i]) + Rank(ls, i)] == i)
  }

  datatype Decoded = Found(symbol: nat, used: nat) | NoCode | NoInput

  /** Decoding from the bit of number `len` on: `code` is what was read before it, doubled; `first` and `index` are
      the first code of this length and the place of its symbol. */
  function DecodeFrom(h: Table, bits: seq<bit>, len: nat, code: nat, first: nat, index: nat): (d: Decoded)
    requires |h.count| == MAXBITS + 1 && 0 < len && first <= code
    decreases |bits|
  {
    if len > MAXBITS then NoCode
    else if bits == [] then NoInput
    else
      var c, n := code + bits[0], h.count[len];
      if c < first + n then (if index + c - first < |h.symbol| then Found(h.symbol[index + c - first], len) else NoCode)
      else DecodeFrom(h, bits[1..], len + 1, 2 * c, 2 * (first + n), index + n)
  }

  function Decode(h: Table, bits: seq<bit>): Decoded
    requires |h.count| == MAXBITS + 1
  {
    DecodeFrom(h, bits, 1, 0, 0, 0)
  }

  /** The first bits of a longer code are beyond the codes of their length. */
  lemma NotYet(code: nat, low: nat, p: nat, taken: nat)
    requires low < p && p * taken <= code * p + low
    ensures taken <= code
  {
    var d: int := taken - code - 1;
    assert p * taken == code * p + p + p * d;
    assert d >= 0 ==> p * d >= 0;
  }

  /** One bit of a code, of which `n` more follow. */
  lemma NextBit(code: nat, hi: nat, v: nat, n: nat, rest: seq<bit>) returns (b: bit, c: nat, low: nat)
    requires v < Pow2(n + 1) && code == hi * Pow2(n + 1) + v
    ensures low < Pow2(n) && c == 2 * hi + b && code == c * Pow2(n) + low && (n == 0 ==> code == c)
    ensures var bits := Bits(v, n + 1) + rest; bits[0] == b && bits[1..] == Bits(low, n) + rest
  {
    var p := Pow2(n);
    Doubled(hi, p);
    if v < p {
      b, c, low := 0, 2 * hi, v;
    } else {
      b, c, low := 1, 2 * hi + 1, v - p;
      assert (2 * hi + 1) * p == (2 * hi) * p + p;
    }
    assert Bits(v, n + 1) == [b] + Bits(low, n);
    assert ([b] + Bits(low, n) + rest)[1..] == Bits(low, n) + rest;
  }

  /** One step of decoding. */
  lemma DecodeStep(h: Table, bits: seq<bit>, len: nat, code: nat, first: nat, index: nat)
    requires |h.count| == MAXBITS + 1 && 0 < len <= MAXBITS && first <= code && bits != []
    ensures var c, n := code + bits[0], h.count[len];
      DecodeFrom(h, bits, len, code, first, index) ==
        if c >= first + n then DecodeFrom(h, bits[1..], len + 1, 2 * c, 2 * (first + n), index + n)
        else if index + c - first < |h.symbol| then Found(h.symbol[index + c - first], len) else NoCode
  {
  }

  /** The first `len` bits of a longer code are no code. */
  lemma Beyond(ls: seq<nat>, i: nat, code: nat, len: nat, n: nat, c: nat, low: nat)
    requires i < |ls| && 0 < len && 0 < n && len + n == ls[i]
    requires low < Pow2(n) && Code(ls, i) == code == c * Pow2(n) + low
    ensures First(ls, len) + Count(ls, len) <= c && First(ls, len + 1) <= 2 * c
  {
    assert ls[i] - len == n;
    FirstGrows(ls, len, ls[i]);
    NotYet(c, low, Pow2(n), First(ls, len) + Count(ls, len));
  }

  lemma LastBit(h: Table, ls: seq<nat>, i: nat, bits: seq<bit>, code: nat)
    requires TableOf(h, ls) && Fits(ls) && i < |ls| && 0 < ls[i] && bits != []
    requires First(ls, ls[i]) <= code && code + bits[0] == Code(ls, i)
    ensures DecodeFrom(h, bits, ls[i], code, First(ls, ls[i]), Index(ls, ls[i])) == Found(i, ls[i])
  {
    CodeInRange(ls, i);
  }

  lemma NextLength(ls: seq<nat>, l: nat)
    requires 0 < l
    ensures First(ls, l + 1) == 2 * (First(ls, l) + Count(ls, l)) && Index(ls, l + 1) == Index(ls, l) + Count(ls, l)
  {
  }

  /** A bit that completes no code. */
  lemma NoCodeYet(h: Table, ls: seq<nat>, bits: seq<bit>, len: nat, code: nat, c: nat)
    requires TableOf(h, ls) && 0 < len <= MAXBITS && bits != [] && c == code + bits[0]
    requires First(ls, len) <= code && First(ls, len) + Count(ls, len) <= c
    ensures First(ls, len + 1) <= 2 * c
    ensures DecodeFrom(h, bits, len, code, First(ls, len), Index(ls, len)) ==
      DecodeFrom(h, bits[1..], len + 1, 2 * c, First(ls, len + 1), Index(ls, len + 1))
  {
    DecodeStep(h, bits, len, code, First(ls, len), Index(ls, len));
    NextLength(ls, len);
  }

  /** The rest of a symbol's code, `n` bits after number `len`, when `hi` is the value of the bits before. */
  lemma {:induction false} DecodeRest(h: Table, ls: seq<nat>, i: nat, code: nat, len: nat, n: nat,
                                      hi: nat, v: nat, bits: seq<bit>, rest: seq<bit>)
    requires TableOf(h, ls) && Fits(ls) && i < |ls| && 0 < len && len + n == ls[i]
    requires v < Pow2(n + 1) && code == hi * Pow2(n + 1) + v && bits == Bits(v, n + 1) + rest
    requires code == Code(ls, i) && First(ls, len) <= 2 * hi
    ensures DecodeFrom(h, bits, len, 2 * hi, First(ls, len), Index(ls, len)) == Found(i, ls[i])
    decreases n
  {
    var b, c, low := NextBit(code, hi, v, n, rest);
    if n == 0 {
      LastBit(h, ls, i, bits, 2 * hi);
    } else {
      Beyond(ls, i, code, len, n, c, low);
      NoCodeYet(h, ls, bits, len, 2 * hi, c);
      DecodeRest(h, ls, i, code, len + 1, n - 1, c, low, bits[1..], rest);
    }
  }

  /** Decoding inverts the canonical code of every symbol, whatever follows it, and takes exactly its bits. */
  lemma DecodeInverts(h: Table, ls: seq<nat>, i: nat, rest: seq<bit>)
    requires TableOf(h, ls) && Fits(ls) && i < |ls| && 0 < ls[i]
    ensures Code(ls, i) < Pow2(ls[i])
    ensures Decode(h, Bits(Code(ls, i), ls[i]) + rest) == Found(i, ls[i])
  {
    CodeInRange(ls, i);
    var code, n := Code(ls, i), ls[i] - 1;
    DecodeRest(h, ls, i, code, 1, n, 0, code, Bits(code, n + 1) + rest, rest);
  }

  // ---------------------------------------------------------------- nothing else decodes

  /** The number that a string of bits stands for, highest first. */
  function Value(s: seq<bit>): (v: nat)
    ensures v < Pow2(|s|)
  {
    if s == [] then 0 else 2 * Value(s[..|s| - 1]) + s[|s| - 1]
  }

  lemma {:induction false} BitsAppend(v: nat, n: nat, b: bit)
    requires v < Pow2(n)
    ensures 2 * v + b < Pow2(n + 1) && Bits(2 * v + b, n + 1) == Bits(v, n) + [b]
    decreases n
  {
    if n > 0 {
      var p := Pow2(n - 1);
      var h := if v < p then 0 else 1;
      BitsAppend(v - h * p, n - 1, b);
      Assoc([h], Bits(v - h * p, n - 1), [b]);
    }
  }

  lemma ValueAppend(s: seq<bit>, b: bit)
    ensures Value(s + [b]) == 2 * Value(s) + b
  {
    assert (s + [b])[..|s|] == s;
  }

  lemma {:induction false} BitsOfValue(s: seq<bit>)
    ensures Bits(Value(s), |s|) == s
  {
    if s != [] {
      var n := |s| - 1;
      BitsOfValue(s[..n]);
      BitsAppend(Value(s[..n]), n, s[n]);
      assert s == s[..n] + [s[n]];
    }
  }

  /** The symbol of a given rank among those of a length. */
  lemma {:induction false} Nth(ls: seq<nat>, l: nat, r: nat) returns (i: nat)
    requires r < Count(ls, l)
    ensures i < |ls| && ls[i] == l && Rank(ls, i) == r
    decreases |ls|
  {
    var n := |ls| - 1;
    if r < Count(ls[..n], l) {
      i := Nth(ls[..n], l, r);
      assert ls[..n][..i] == ls[..i];
    } else {
      i := n;
    }
  }

  /** The bits begin with the code of a symbol, `n` bits long. */
  predicate Begins(ls: seq<nat>, i: nat, n: nat, bits: seq<bit>) {
    && i < |ls| && 0 < ls[i] == n <= |bits| && Code(ls, i) < Pow2(n) && bits[..n] == Bits(Code(ls, i), n)
  }

  lemma SeenOne(ls: seq<nat>, i: nat, seen: seq<bit>, bits: seq<bit>, l: nat)
    requires bits != [] && i < |ls| && 0 < ls[i] == l == |seen| + 1 && Code(ls, i) == 2 * Value(seen) + bits[0]
    ensures Begins(ls, i, l, seen + bits)
  {
    var s, code := seen + [bits[0]], Code(ls, i);
    ValueAppend(seen, bits[0]);
    BitsOfValue(s);
    assert code == Value(s) && Bits(code, l) == s;
    assert (seen + bits)[..l] == s;
  }

  /** A bit that completes a code. */
  lemma CodeComplete(h: Table, ls: seq<nat>, seen: seq<bit>, bits: seq<bit>, l: nat)
    requires TableOf(h, ls) && Fits(ls) && bits != [] && l == |seen| + 1 <= MAXBITS
    requires First(ls, l) <= 2 * Value(seen) && 2 * Value(seen) + bits[0] < First(ls, l) + Count(ls, l)
    ensures var d := DecodeFrom(h, bits, l, 2 * Value(seen), First(ls, l), Index(ls, l));
      d.Found? && Begins(ls, d.symbol, d.used, seen + bits)
  {
    var i := Nth(ls, l, 2 * Value(seen) + bits[0] - First(ls, l));
    LastBit(h, ls, i, bits, 2 * Value(seen));
    SeenOne(ls, i, seen, bits, l);
  }

  /** A bit that does not. */
  lemma SeenMore(h: Table, ls: seq<nat>, seen: seq<bit>, bits: seq<bit>, l: nat)
    requires TableOf(h, ls) && bits != [] && l == |seen| + 1 <= MAXBITS
    requires First(ls, l) <= 2 * Value(seen) && First(ls, l) + Count(ls, l) <= 2 * Value(seen) + bits[0]
    ensures var s := seen + [bits[0]];
      && s + bits[1..] == seen + bits && First(ls, l + 1) <= 2 * Value(s)
      && DecodeFrom(h, bits, l, 2 * Value(seen), First(ls, l), Index(ls, l)) ==
           DecodeFrom(h, bits[1..], l + 1, 2 * Value(s), First(ls, l + 1), Index(ls, l + 1))
  {
    ValueAppend(seen, bits[0]);
    NoCodeYet(h, ls, bits, l, 2 * Value(seen), 2 * Value(seen) + bits[0]);
  }

  /** What a result says of the bits. */
  predicate Means(d: Decoded, ls: seq<nat>, bits: seq<bit>) {
    match d
    case Found(i, n) => Begins(ls, i, n, bits)
    case NoCode => Left(ls, MAXBITS) > 0
    case NoInput => |bits| < MAXBITS
  }

  lemma {:induction false} DecodeMeans(h: Table, ls: seq<nat>, seen: seq<bit>, bits: seq<bit>, l: nat)
    requires TableOf(h, ls) && Fits(ls) && l == |seen| + 1 <= MAXBITS + 1 && First(ls, l) <= 2 * Value(seen)
    ensures Means(DecodeFrom(h, bits, l, 2 * Value(seen), First(ls, l), Index(ls, l)), ls, seen + bits)
    decreases |bits|
  {
    if l > MAXBITS {
      NextLength(ls, MAXBITS);
      TakenAndLeft(ls, MAXBITS);
    } else if bits != [] {
      if 2 * Value(seen) + bits[0] < First(ls, l) + Count(ls, l) {
        CodeComplete(h, ls, seen, bits, l);
      } else {
        SeenMore(h, ls, seen, bits, l);
        DecodeMeans(h, ls, seen + [bits[0]], bits[1..], l + 1);
      }
    }
  }

  /** Decoding gives a symbol if and only if the bits begin with its code; on a complete code it never fails when
      there are bits enough. */
  lemma DecodesExactly(h: Table, ls: seq<nat>, bits: seq<bit>, i: nat, n: nat)
    requires TableOf(h, ls) && Fits(ls)
    ensures Decode(h, bits) == Found(i, n) <==> Begins(ls, i, n, bits)
    ensures Left(ls, MAXBITS) == 0 && |bits| >= MAXBITS ==> Decode(h, bits).Found?
  {
    assert Value([]) == 0 && [] + bits == bits;
    DecodeMeans(h, ls, [], bits, 1);
    if Begins(ls, i, n, bits) {
      BegunDecodes(h, ls, bits, i, n);
    }
  }

  lemma BegunDecodes(h: Table, ls: seq<nat>, bits: seq<bit>, i: nat, n: nat)
    requires TableOf(h, ls) && Fits(ls) && Begins(ls, i, n, bits)
    ensures Decode(h, bits) == Found(i, n)
  {
    DecodeInverts(h, ls, i, bits[n..]);
    assert bits == bits[..n] + bits[n..];
  }

  // ---------------------------------------------------------------- complete codes

  function Ones(n: nat): (s: seq<bit>)
    ensures |s| == n && forall k :: 0 <= k < n ==> s[k] == 1
  {
    if n == 0 then [] else [1] + Ones(n - 1)
  }

  lemma {:induction false} OnesAreLast(v: nat, n: nat, s: seq<bit>)
    requires v < Pow2(n) && s == Bits(v, n) && forall k :: 0 <= k < n ==> s[k] == 1
    ensures v == Pow2(n) - 1
  {
    if n > 0 {
      var p := Pow2(n - 1);
      assert s[0] == 1;
      assert s[1..] == Bits(v - p, n - 1);
      OnesAreLast(v - p, n - 1, s[1..]);
    }
  }

  lemma {:induction false} LeftStays(ls: seq<nat>, l: nat, m: nat)
    requires l <= m && Left(ls, l) <= 0
    ensures Left(ls, m) <= 0
    decreases m
  {
    if l < m {
      LeftStays(ls, l, m - 1);
    }
  }

  /** The last string of all is a code of a complete code only. */
  lemma OnesIncomplete(ls: seq<nat>, i: nat, n: nat, bits: seq<bit>)
    requires LengthsOk(ls) && Fits(ls) && Begins(ls, i, n, bits) && forall k :: 0 <= k < |bits| ==> bits[k] == 1
    ensures Left(ls, MAXBITS) == 0
  {
    OnesAreLast(Code(ls, i), n, bits[..n]);
    CodeInRange(ls, i);
    TakenAndLeft(ls, n);
    LeftStays(ls, n, MAXBITS);
  }

  /** Decoding never fails for want of a code if and only if no string is left over. */
  lemma CompleteExactly(h: Table, ls: seq<nat>)
    requires TableOf(h, ls) && Fits(ls)
    ensures Left(ls, MAXBITS) == 0 <==> forall bits :: |bits| >= MAXBITS ==> Decode(h, bits).Found?
  {
    forall bits | Left(ls, MAXBITS) == 0 && |bits| >= MAXBITS
      ensures Decode(h, bits).Found?
    {
      DecodesExactly(h, ls, bits, 0, 0);
    }
    var d := Decode(h, Ones(MAXBITS));
    if d.Found? {
      DecodesExactly(h, ls, Ones(MAXBITS), d.symbol, d.used);
      OnesIncomplete(ls, d.symbol, d.used, Ones(MAXBITS));
    }
  }
}
