/** The inflater's input bits and its two decoders of Huffman codes (svc/vendor/puff/puff.c). */
module Puff {
  import opened Machine
  import opened Huffman
  import opened HuffmanTable

  const RAN_OUT := -10

  /** The `n` low bits of a number, lowest first. */
  function LowBits(v: nat, n: nat): (b: seq<bit>)
    ensures |b| == n
  {
    if n == 0 then [] else [v % 2] + LowBits(v / 2, n - 1)
  }

  /** The bits of a string of bytes, in the order in which they are read. */
  function BitsOf(bytes: seq<u8>): (b: seq<bit>)
    ensures |b| == 8 * |bytes|
  {
    if bytes == [] then [] else LowBits(bytes[0], 8) + BitsOf(bytes[1..])
  }

  /** The number whose bits these are, lowest first. */
  function Number(b: seq<bit>): nat {
    if b == [] then 0 else b[0] + 2 * Number(b[1..])
  }

  /** The C shifts, and the `n` low bits of a number. */
  function ShiftedRight(v: nat, n: nat): nat {
    if n == 0 then v else ShiftedRight(v / 2, n - 1)
  }

  function ShiftedLeft(v: nat, n: nat): nat {
    if n == 0 then v else 2 * ShiftedLeft(v, n - 1)
  }

  function Masked(v: nat, n: nat): nat {
    if n == 0 then 0 else v % 2 + 2 * Masked(v / 2, n - 1)
  }

  lemma {:induction false} NumberOfLow(v: nat, n: nat)
    requires v < Pow2(n)
    ensures Number(LowBits(v, n)) == v
  {
    if n > 0 {
      NumberOfLow(v / 2, n - 1);
      assert LowBits(v, n)[1..] == LowBits(v / 2, n - 1);
    }
  }

  /** A byte's bits. */
  lemma ByteBits(byte: u8) returns (b: seq<bit>)
    ensures b == LowBits(byte, 8) && |b| == 8 && Number(b) == byte
  {
    var two := Pow2(2);
    assert Pow2(4) == 4 * two && Pow2(6) == 16 * two && Pow2(8) == 64 * two;
    b := LowBits(byte, 8);
    NumberOfLow(byte, 8);
  }

  /** Bits put above others. */
  lemma {:induction false} NumberAbove(a: seq<bit>, b: seq<bit>)
    ensures Number(a + b) == Number(a) + ShiftedLeft(Number(b), |a|)
  {
    if a != [] {
      NumberAbove(a[1..], b);
      assert (a + b)[1..] == a[1..] + b;
    } else {
      assert a + b == b;
    }
  }

  /** Bits taken away from below. */
  lemma {:induction false} NumberParts(b: seq<bit>, n: nat)
    requires n <= |b|
    ensures Masked(Number(b), n) == Number(b[..n]) && ShiftedRight(Number(b), n) == Number(b[n..])
  {
    if n > 0 {
      NumberParts(b[1..], n - 1);
      assert Number(b) % 2 == b[0] && Number(b) / 2 == Number(b[1..]);
      assert b[..n][1..] == b[1..][..n - 1] && b[1..][n - 1..] == b[n..];
    } else {
      assert b[0..] == b;
    }
  }

  lemma Cut(held: seq<bit>, rest: seq<bit>, n: nat)
    requires n <= |held|
    ensures (held + rest)[..n] == held[..n] && (held + rest)[n..] == held[n..] + rest
  {
  }

  lemma OneMoreByte(bytes: seq<u8>, at: nat)
    requires at < |bytes|
    ensures BitsOf(bytes[at..]) == LowBits(bytes[at], 8) + BitsOf(bytes[at + 1..])
  {
    assert bytes[at..][1..] == bytes[at + 1..];
  }

  /** The symbol table has room for the codes from this length on. */
  predicate Room(h: Table, len: nat, index: nat)
    requires |h.count| == MAXBITS + 1
    decreases MAXBITS + 1 - len
  {
    len <= MAXBITS ==> index + h.count[len] <= |h.symbol| && Room(h, len + 1, index + h.count[len])
  }

  /** A table that can be decoded with. */
  predicate Sound(h: Table) {
    |h.count| == MAXBITS + 1 && Room(h, 1, 0)
  }

  lemma {:induction false} TableHasRoom(h: Table, ls: seq<nat>, l: nat)
    requires TableOf(h, ls) && 0 < l <= MAXBITS + 1
    ensures Room(h, l, Index(ls, l))
    decreases MAXBITS + 1 - l
  {
    if l <= MAXBITS {
      NextLength(ls, l);
      IndexGrows(ls, l + 1, MAXBITS + 1);
      TableHasRoom(h, ls, l + 1);
    }
  }

  /** Every table that belongs to some lengths can be decoded with, all its accesses in bounds. */
  lemma TableIsSound(h: Table, ls: seq<nat>)
    requires TableOf(h, ls)
    ensures Sound(h)
  {
    TableHasRoom(h, ls, 1);
  }

  /** A decoder's variables: the length it is at, the bits read before, doubled, and the first code of this length
      with its symbol's place. */
  datatype Walk = Walk(len: nat, code: nat, first: nat, index: nat)

  /** Where a decoder is: `len - 1` bits have been read, `ahead` are left, and the result will be `d`. */
  predicate Reading(h: Table, d: Decoded, all: seq<bit>, ahead: seq<bit>, w: Walk) {
    && |h.count| == MAXBITS + 1 && 0 < w.len <= MAXBITS + 1 && w.first <= w.code && w.code % 2 == 0
    && Room(h, w.len, w.index) && Behind(all, ahead, w.len - 1)
    && DecodeFrom(h, ahead, w.len, w.code, w.first, w.index) == d
  }

  predicate Behind(all: seq<bit>, ahead: seq<bit>, k: nat) {
    k <= |all| && ahead == all[k..]
  }

  lemma BehindNext(all: seq<bit>, ahead: seq<bit>, k: nat)
    requires Behind(all, ahead, k) && ahead != []
    ensures Behind(all, ahead[1..], k + 1)
  {
  }

  lemma ReadingStarts(h: Table, all: seq<bit>)
    requires Sound(h)
    ensures Reading(h, Huffman.Decode(h, all), all, all, Walk(1, 0, 0, 0))
  {
  }

  lemma RoomOn(h: Table, len: nat, index: nat)
    requires |h.count| == MAXBITS + 1 && len <= MAXBITS && Room(h, len, index)
    ensures index + h.count[len] <= |h.symbol| && Room(h, len + 1, index + h.count[len])
  {
  }

  /** A bit that completes a code. */
  lemma ReadingFound(h: Table, d: Decoded, all: seq<bit>, ahead: seq<bit>, w: Walk, c: nat, n: nat)
    requires Reading(h, d, all, ahead, w) && w.len <= MAXBITS && ahead != [] && n == h.count[w.len]
    requires w.code + ahead[0] == c < w.first + n
    ensures Behind(all, ahead[1..], w.len)
    ensures w.index + (c - w.first) < |h.symbol| && d == Found(h.symbol[w.index + (c - w.first)], w.len)
  {
    RoomOn(h, w.len, w.index);
    BehindNext(all, ahead, w.len - 1);
  }

  /** A bit that does not. */
  lemma ReadingOn(h: Table, d: Decoded, all: seq<bit>, ahead: seq<bit>, w: Walk, c: nat, n: nat)
    requires Reading(h, d, all, ahead, w) && w.len <= MAXBITS && ahead != [] && n == h.count[w.len]
    requires w.code + ahead[0] == c >= w.first + n
    ensures Reading(h, d, all, ahead[1..], Walk(w.len + 1, 2 * c, 2 * (w.first + n), w.index + n))
  {
    RoomOn(h, w.len, w.index);
    BehindNext(all, ahead, w.len - 1);
    DecodeStep(h, ahead, w.len, w.code, w.first, w.index);
  }

  lemma ReadingEnds(h: Table, d: Decoded, all: seq<bit>, ahead: seq<bit>, w: Walk)
    requires Reading(h, d, all, ahead, w)
    ensures w.len == MAXBITS + 1 ==> d == NoCode
    ensures w.len <= MAXBITS && ahead == [] ==> d == NoInput
  {
  }

  /** The decoders' way with a bit: a symbol when it completes a code. */
  method TakeBit(h: Codebook, w: Walk, b: bit,
                 ghost t: Table, ghost d: Decoded, ghost all: seq<bit>, ghost ahead: seq<bit>)
    returns (found: Option<nat>, next: Walk)
    requires t == h.Shown() && Reading(t, d, all, ahead, w) && w.len <= MAXBITS && ahead != [] && b == ahead[0]
    ensures found.Some? ==> next.len == w.len && Behind(all, ahead[1..], w.len) && d == Found(found.value, w.len)
    ensures found.None? ==> next.len == w.len + 1 && Reading(t, d, all, ahead[1..], next)
  {
    var code, count := w.code + b, h.count[w.len];
    if code - count < w.first {
      ReadingFound(t, d, all, ahead, w, code, count);
      return Some(h.symbol[w.index + (code - w.first)]), w;
    }
    ReadingOn(t, d, all, ahead, w, code, count);
    found, next := None, Walk(w.len + 1, 2 * code, 2 * (w.first + count), w.index + count);
  }

  /** Where the fast decoder is: it holds some bits, and will take `left` of them. */
  predicate Holding(held: seq<bit>, left: nat, len: nat, bitcnt: nat) {
    && |held| <= 8 && len <= MAXBITS + 1
    && left == (if |held| + len <= MAXBITS + 1 then |held| else MAXBITS + 1 - len)
    && (bitcnt + 1 - len - |held|) % 8 == 0
  }

  /** The bits left when a code has ended, `len` bits long. */
  predicate Ended(all: seq<bit>, rest: seq<bit>, held: seq<bit>, len: nat, bitcnt: nat) {
    |held| == (bitcnt - len) % 8 && Behind(all, held + rest, len)
  }

  lemma NextHeld(held: seq<bit>, left: nat, len: nat, bitcnt: nat)
    requires Holding(held, left, len, bitcnt) && 0 < left
    ensures Holding(held[1..], left - 1, len + 1, bitcnt) && |held| - 1 == (bitcnt - len) % 8
  {
  }

  lemma LowestBit(held: seq<bit>)
    requires held != []
    ensures Number(held) % 2 == held[0] && Number(held) / 2 == Number(held[1..])
  {
  }

  lemma FirstOf(held: seq<bit>, rest: seq<bit>)
    requires held != []
    ensures held + rest != [] && (held + rest)[0] == held[0] && (held + rest)[1..] == held[1..] + rest
  {
  }

  /** One bit of those held. */
  method TakeHeldBit(h: Codebook, w: Walk, buf: nat, left: nat, bitcnt: nat, ghost held: seq<bit>,
                     ghost rest: seq<bit>, ghost t: Table, ghost d: Decoded, ghost all: seq<bit>)
    returns (found: Option<nat>, next: Walk)
    requires 0 < left && Holding(held, left, w.len, bitcnt) && buf == Number(held)
    requires t == h.Shown() && Reading(t, d, all, held + rest, w)
    ensures held != [] && buf / 2 == Number(held[1..])
    ensures found.Some? ==> d == Found(found.value, next.len) && Ended(all, rest, held[1..], next.len, bitcnt)
    ensures found.None? ==> Holding(held[1..], left - 1, next.len, bitcnt) && Reading(t, d, all, held[1..] + rest, next)
  {
    NextHeld(held, left, w.len, bitcnt);
    LowestBit(held);
    FirstOf(held, rest);
    found, next := TakeBit(h, w, buf % 2, t, d, all, held + rest);
  }

  /** The fast decoder's inner loop, over the `left` bits that it will take of those in `buf0`. */
  method TakeHeld(h: Codebook, w0: Walk, buf0: nat, left0: nat, bitcnt: nat, ghost held0: seq<bit>,
                  ghost rest: seq<bit>, ghost t: Table, ghost d: Decoded, ghost all: seq<bit>)
    returns (found: Option<nat>, w: Walk, buf: nat, ghost held: seq<bit>)
    requires Holding(held0, left0, w0.len, bitcnt) && buf0 == Number(held0)
    requires t == h.Shown() && Reading(t, d, all, held0 + rest, w0)
    ensures buf == Number(held)
    ensures found.Some? ==> d == Found(found.value, w.len) && Ended(all, rest, held, w.len, bitcnt)
    ensures found.None? ==> Holding(held, 0, w.len, bitcnt) && Reading(t, d, all, held + rest, w)
  {
    var left := left0;
    found, w, buf, held := None, w0, buf0, held0;
    while left != 0
      invariant found.None? && buf == Number(held) && Holding(held, left, w.len, bitcnt)
      invariant t == h.Shown() && Reading(t, d, all, held + rest, w)
    {
      found, w := TakeHeldBit(h, w, buf, left, bitcnt, held, rest, t, d, all);
      left := left - 1;
      buf, held := buf / 2, held[1..];
      if found.Some? {
        return;
      }
    }
  }

  /** What is done when none is left: another byte, or nothing when all lengths were tried. */
  lemma NoneHeld(held: seq<bit>, len: nat, bitcnt: nat, rest: seq<bit>)
    requires Holding(held, 0, len, bitcnt) && len <= MAXBITS
    ensures held + rest == rest
    ensures var left := if MAXBITS + 1 - len > 8 then 8 else MAXBITS + 1 - len;
      forall b: seq<bit> :: |b| == 8 ==> Holding(b, left, len, bitcnt)
  {
  }

  class State {
    const input: seq<u8>
    var incnt: nat
    var bitbuf: nat
    var bitcnt: nat
    ghost var held: seq<bit> // the bits in the buffer

    ghost predicate Valid()
      reads this
    {
      incnt <= |input| && bitcnt < 8 && Held()
    }

    ghost predicate Held()
      reads this
    {
      bitcnt == |held| && bitbuf == Number(held)
    }

    /** The bits still to be read. */
    ghost function Ahead(): seq<bit>
      reads this
      requires incnt <= |input|
    {
      held + BitsOf(input[incnt..])
    }

    constructor (bytes: seq<u8>)
      ensures Valid() && input == bytes && Ahead() == BitsOf(bytes)
    {
      input := bytes;
      incnt, bitbuf, bitcnt, held := 0, 0, 0, [];
      new;
      assert bytes[0..] == bytes;
    }

    /** The next byte of the input and its bits. */
    method NextByte() returns (byte: u8, ghost b: seq<bit>)
      requires incnt < |input|
      modifies this`incnt
      ensures incnt == old(incnt) + 1 && |b| == 8 && byte == Number(b)
      ensures BitsOf(input[old(incnt)..]) == b + BitsOf(input[incnt..])
    {
      OneMoreByte(input, incnt);
      byte := input[incnt];
      b := ByteBits(byte);
      incnt := incnt + 1;
    }

    method LoadByte(val: nat) returns (more: nat)
      requires bitcnt == |held| && val == Number(held) && incnt < |input|
      modifies this`incnt, this`bitcnt, this`held
      ensures incnt == old(incnt) + 1 && bitcnt == old(bitcnt) + 8 == |held| && more == Number(held)
      ensures Ahead() == old(Ahead())
    {
      ghost var b;
      var byte;
      byte, b := NextByte();
      NumberAbove(held, b);
      Assoc(held, b, BitsOf(input[incnt..]));
      more := val + ShiftedLeft(byte, bitcnt);
      bitcnt, held := bitcnt + 8, held + b;
    }

    /** `need` bits as a number, first bit lowest; nothing when the input ends before. */
    method Bits(need: nat) returns (v: Option<nat>)
      requires Valid()
      modifies this`incnt, this`bitbuf, this`bitcnt, this`held
      ensures v.Some? <==> need <= |old(Ahead())|
      ensures v.Some? ==> v.value == Number(old(Ahead())[..need])
      ensures v.Some? ==> Valid() && Ahead() == old(Ahead())[need..]
    {
      ghost var all := Ahead();
      var val: nat := bitbuf;
      while bitcnt < need
        invariant incnt <= |input| && bitcnt == |held| && val == Number(held) && Ahead() == all
        invariant bitcnt < 8 || bitcnt < need + 8
        decreases |input| - incnt
      {
        if incnt == |input| {
          return None;
        }
        val := LoadByte(val);
      }
      NumberParts(held, need);
      Cut(held, BitsOf(input[incnt..]), need);
      bitbuf := ShiftedRight(val, need);
      bitcnt, held := bitcnt - need, held[need..];
      v := Some(Masked(val, need));
    }

    method Bit() returns (b: Option<bit>)
      requires Valid()
      modifies this`incnt, this`bitbuf, this`bitcnt, this`held
      ensures b.Some? <==> old(Ahead()) != []
      ensures b.Some? ==> b.value == old(Ahead())[0] && Valid() && Ahead() == old(Ahead())[1..]
    {
      ghost var all := Ahead();
      var v := Bits(1);
      if v == None {
        return None;
      }
      assert all[..1] == [all[0]];
      b := Some(v.value);
    }

    /** What a decoder's return value says of the result of decoding: -10 is the source's error, and None its way out
        when the input has ended. On success the bits of the code are gone. */
    ghost predicate Reports(r: Option<int>, d: Decoded, all: seq<bit>)
      reads this
    {
      match d
      case Found(i, n) => r == Some(i) && Valid() && n <= |all| && Ahead() == all[n..]
      case NoCode => r == Some(RAN_OUT)
      case NoInput => r == None
    }

    /** The plain decoder, which reads bit by bit. */
    method DecodeSlow(h: Codebook) returns (r: Option<int>)
      requires Valid() && Sound(h.Shown())
      modifies this`incnt, this`bitbuf, this`bitcnt, this`held
      ensures Reports(r, Huffman.Decode(h.Shown(), old(Ahead())), old(Ahead()))
    {
      ghost var all, t := Ahead(), h.Shown();
      ghost var d := Huffman.Decode(t, all);
      var w := Walk(1, 0, 0, 0);
      ReadingStarts(t, all);
      while w.len <= MAXBITS
        invariant Valid() && t == h.Shown() && Reading(t, d, all, Ahead(), w)
      {
        ghost var ahead := Ahead();
        ReadingEnds(t, d, all, ahead, w);
        var b := Bit();
        if b == None {
          return None;
        }
        var found;
        found, w := TakeBit(h, w, b.value, t, d, all, ahead);
        if found.Some? {
          return found;
        }
      }
      ReadingEnds(t, d, all, Ahead(), w);
      r := Some(RAN_OUT);
    }

    /** Another byte for the fast decoder, or its error when there is none or all lengths were tried. */
    method Refill(w: Walk, buf0: nat, ghost bits0: seq<bit>, ghost h: Table, ghost d: Decoded, ghost all: seq<bit>)
      returns (stop: bool, r: Option<int>, buf: nat, left: nat, ghost bits: seq<bit>)
      requires incnt <= |input| && Holding(bits0, 0, w.len, bitcnt)
      requires Reading(h, d, all, bits0 + BitsOf(input[incnt..]), w)
      modifies this`incnt
      ensures incnt <= |input|
      ensures stop ==> d == if r == None then NoInput else NoCode
      ensures stop ==> r in {None, Some(RAN_OUT)}
      ensures !stop ==> incnt == old(incnt) + 1 && buf == Number(bits) && Holding(bits, left, w.len, bitcnt)
      ensures !stop ==> Reading(h, d, all, bits + BitsOf(input[incnt..]), w)
    {
      ReadingEnds(h, d, all, bits0 + BitsOf(input[incnt..]), w);
      stop, r, buf, left, bits := true, Some(RAN_OUT), buf0, MAXBITS + 1 - w.len, bits0;
      if left != 0 {
        NoneHeld(bits, w.len, bitcnt, BitsOf(input[incnt..]));
        if incnt == |input| {
          r := None;
        } else {
          stop := false;
          buf, bits := NextByte();
          if left > 8 {
            left := 8;
          }
        }
      }
    }

    /** Keeps the bits that are left over. */
    method PutBack(buf: nat, len: nat, ghost bits: seq<bit>, ghost all: seq<bit>)
      requires incnt <= |input| && buf == Number(bits) && Ended(all, BitsOf(input[incnt..]), bits, len, bitcnt)
      modifies this`bitbuf, this`bitcnt, this`held
      ensures Valid() && len <= |all| && Ahead() == all[len..]
    {
      bitbuf, held := buf, bits;
      bitcnt := (bitcnt - len) % 8;
    }

    /** The fast decoder, which keeps the bit buffer in a local variable. */
    method Decode(h: Codebook) returns (r: Option<int>)
      requires Valid() && Sound(h.Shown())
      modifies this`incnt, this`bitbuf, this`bitcnt, this`held
      ensures Reports(r, Huffman.Decode(h.Shown(), old(Ahead())), old(Ahead()))
    {
      ghost var all, t, bits := Ahead(), h.Shown(), held;
      ghost var d := Huffman.Decode(t, all);
      var buf: nat, left: nat, w := bitbuf, bitcnt, Walk(1, 0, 0, 0);
      ReadingStarts(t, all);
      while true
        invariant incnt <= |input| && buf == Number(bits) && Holding(bits, left, w.len, bitcnt)
        invariant t == h.Shown() && Reading(t, d, all, bits + BitsOf(input[incnt..]), w)
        decreases |input| - incnt
      {
        var found, stop;
        found, w, buf, bits := TakeHeld(h, w, buf, left, bitcnt, bits, BitsOf(input[incnt..]), t, d, all);
        if found.Some? {
          PutBack(buf, w.len, bits, all);
          return found;
        }
        stop, r, buf, left, bits := Refill(w, buf, bits, t, d, all);
        if stop {
          return;
        }
      }
    }
  }
}
