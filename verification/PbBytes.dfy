/** The wire format in numbers (Protocol Buffers Encoding): what the bytes of a message are, whatever descriptor and
    values, and which numbers the reader takes for its storage. */
module PbBytes {
  import opened Machine
  import opened PbWire
  import opened PbModel

  // ---------------------------------------------------------------- numbers

  /** The number that groups of seven bits stand for, the lowest first. */
  function GroupsValue(b: Bytes): nat {
    if b == [] then 0
    else var x: nat := b[0]; x % 128 + 128 * GroupsValue(b[1..])
  }

  /** A varint: every byte but the last has its top bit set, the last is not zero unless it is the only one, and the
      groups of seven bits stand for the number. */
  lemma {:induction false} Base128Is(v: nat)
    ensures var b := Base128(v);
      && GroupsValue(b) == v && b[|b| - 1] < 128 && (1 < |b| ==> b[|b| - 1] != 0)
      && forall i :: 0 <= i < |b| - 1 ==> b[i] >= 128
    decreases v
  {
    if v < 128 {
      assert GroupsValue([]) == 0 && [v as u8][1..] == [];
    } else {
      Base128Is(v / 128);
      var b, more := Base128(v), Base128(v / 128);
      assert b[1..] == more && b[|b| - 1] == more[|more| - 1];
      forall i | 0 <= i < |b| - 1
        ensures b[i] >= 128
      {
        assert 0 < i ==> b[i] == more[i - 1];
      }
    }
  }

  /** The number that bytes stand for, the lowest first. */
  function BytesValue(b: Bytes): nat {
    if b == [] then 0
    else var x: nat := b[0]; x + 256 * BytesValue(b[1..])
  }

  lemma {:induction false} LittleEndianIs(n: nat, k: nat)
    requires n < Pow256(k)
    ensures |LittleEndian(n, k)| == k && BytesValue(LittleEndian(n, k)) == n
  {
    if 0 < k {
      assert LittleEndian(n, k)[1..] == LittleEndian(n / 256, k - 1);
      LittleEndianIs(n / 256, k - 1);
    }
  }

  // ---------------------------------------------------------------- values, fields and messages

  /** The last three bits of a field's tag: 0 for a varint, 1 for eight bytes, 5 for four bytes, and 2 for bytes behind
      their length. */
  function Kind(t: LType): nat {
    if t.LFixed64? then 1 else if t.LFixed32? then 5
    else if t.LBytes? || t.LString? || t.LFixedBytes? || t.LSub? then 2
    else 0
  }

  function NumberBytes(t: LType, n: int): Bytes {
    if t.LSvarint? then Base128(if n < 0 then -2 * n - 1 else 2 * n)
    else if n < 0 then Base128(if n < -0x8000_0000_0000_0000 then 0 else n + 0x1_0000_0000_0000_0000)
    else if t.LFixed32? then LittleEndian(n, 4)
    else if t.LFixed64? then LittleEndian(n, 8)
    else Base128(n)
  }

  function Behind(b: Bytes): Bytes {
    Base128(|b|) + b
  }

  function ValueBytes(t: LType, v: Value): Bytes
    decreases t, 0
  {
    match v
    case Num(n) => NumberBytes(t, n)
    case Text(s) => Behind(s)
    case Msg(parts) => if t.LSub? then Behind(MessageBytes(t.desc, parts, 0)) else []
  }

  /** Each value behind the field's tag. */
  function EachBytes(f: Field, items: seq<Value>): Bytes
    decreases f, 1, |items|
  {
    if items == [] then []
    else Base128(8 * f.tag + Kind(f.ltype)) + ValueBytes(f.ltype, items[0]) + EachBytes(f, items[1..])
  }

  function NumbersBytes(t: LType, items: seq<Value>): Bytes
    decreases |items|
  {
    if items == [] then []
    else (if items[0].Num? then NumberBytes(t, items[0].n) else []) + NumbersBytes(t, items[1..])
  }

  /** An array of numbers is one run of bytes behind a single tag; all else is value by value. */
  function FieldBytes(f: Field, items: seq<Value>): Bytes
    decreases f, 2
  {
    if f.htype.Repeated? && items != [] && Kind(f.ltype) != 2
    then Base128(8 * f.tag + 2) + Behind(NumbersBytes(f.ltype, items))
    else EachBytes(f, items)
  }

  /** The fields one after the other, in the descriptor's order. */
  function MessageBytes(d: Desc, m: Message, i: nat): Bytes
    decreases d, |m| - i
  {
    if i >= |m| || i >= |d.fields| then [] else FieldBytes(d.fields[i], m[i]) + MessageBytes(d, m, i + 1)
  }

  lemma NumberIs(t: LType, size: nat, n: int)
    requires Packable(t) && SizeOk(t, size) && NumFits(t, size, n)
    ensures EncNum(t, size, n) == NumberBytes(t, n)
  {
    if t.LSvarint? {
      ZigZagRoundTrip(n, 0);
    }
  }

  lemma {:induction false} NumbersAre(t: LType, size: nat, items: seq<Value>)
    requires Packable(t) && SizeOk(t, size) && forall k :: 0 <= k < |items| ==> ValueOk(t, size, items[k])
    ensures EncPacked(t, size, items) == NumbersBytes(t, items)
    decreases |items|
  {
    if items != [] {
      assert ValueOk(t, size, items[0]);
      NumberIs(t, size, items[0].n);
      NumbersAre(t, size, items[1..]);
    }
  }

  lemma {:induction false} ValueIs(t: LType, size: nat, v: Value)
    requires SizeOk(t, size) && ValueOk(t, size, v) && (t.LSub? ==> DescOk(t.desc))
    requires EncValue(t, size, v).Some?
    ensures EncValue(t, size, v).value == ValueBytes(t, v)
    decreases t, 0
  {
    if t.LSub? {
      MessageFrom(t.desc, v.parts, 0);
    } else if Packable(t) {
      NumberIs(t, size, v.n);
    }
  }

  lemma {:induction false} EachIs(f: Field, items: seq<Value>)
    requires FieldOk(f) && forall k :: 0 <= k < |items| ==> ValueOk(f.ltype, f.size, items[k])
    requires EncEach(f, items).Some?
    ensures EncEach(f, items).value == EachBytes(f, items)
    decreases f, 1, |items|
  {
    if items != [] {
      assert ValueOk(f.ltype, f.size, items[0]);
      ValueIs(f.ltype, f.size, items[0]);
      EachIs(f, items[1..]);
    }
  }

  lemma {:induction false} FieldIs(f: Field, items: seq<Value>)
    requires FieldOk(f) && PartOk(f, items) && EncField(f, items).Some?
    ensures EncField(f, items).value == FieldBytes(f, items)
    decreases f, 2
  {
    if f.htype.Repeated? && Packable(f.ltype) && items != [] {
      NumbersAre(f.ltype, f.size, items);
    } else {
      EachIs(f, items);
    }
  }

  lemma {:induction false} MessageFrom(d: Desc, m: Message, i: nat)
    requires DescOk(d) && MessageOk(d, m) && i <= |m| && EncFrom(d, m, i).Some?
    ensures EncFrom(d, m, i).value == MessageBytes(d, m, i)
    decreases d, |m| - i
  {
    if i < |m| {
      assert FieldOk(d.fields[i]) && PartOk(d.fields[i], m[i]);
      FieldIs(d.fields[i], m[i]);
      MessageFrom(d, m, i + 1);
    }
  }

  /** The encoding of any message is made of these bytes. */
  lemma MessageIs(d: Desc, m: Message)
    requires DescOk(d) && MessageOk(d, m) && EncMsg(d, m).Some?
    ensures EncMsg(d, m).value == MessageBytes(d, m, 0)
  {
    MessageFrom(d, m, 0);
  }

  // ---------------------------------------------------------------- what a reader takes

  /** How many numbers storage of this many bytes tells apart. */
  function Limit(size: nat): nat {
    match size
    case 1 => 0x100
    case 2 => 0x1_0000
    case 4 => 0x1_0000_0000
    case 8 => 0x1_0000_0000_0000_0000
    case _ => 0
  }

  /** The signed number that a varint stands for: zigzag, or two's complement of 64 bits, of which a reader with less
      storage looks at the low 32. */
  function Signed(t: LType, size: nat, v: u64): int {
    if t.LSvarint? then (if v % 2 == 0 then v / 2 else -((v + 1) / 2))
    else if size == 8 then (if v < 0x8000_0000_0000_0000 then v else v - 0x1_0000_0000_0000_0000)
    else
      var low: int := v % 0x1_0000_0000;
      if low < 0x8000_0000 then low else low - 0x1_0000_0000
  }

  /** Of all 64-bit numbers, those that fit the storage are taken, as they are, and the others are errors. */
  lemma NumberRead(t: LType, size: nat, v: u64, rest: Bytes)
    requires size in {1, 2, 4, 8}
    ensures var s, used, x := Base128(v) + rest, |Base128(v)|, Signed(t, size, v);
      && (t.LUvarint? ==> DecNum(t, size, s) == if v < Limit(size) then Parsed(v, used) else Bad)
      && (t.LVarint? || t.LSvarint? ==>
            DecNum(t, size, s) == if -(Limit(size) / 2) <= x < Limit(size) / 2 then Parsed(x, used) else Bad)
      && (t.LBool? && v < 0x1_0000_0000 ==> DecNum(t, size, s) == Parsed(if v == 0 then 0 else 1, used))
  {
    Dec64Inverts(v, rest);
    if t.LBool? && v < 0x1_0000_0000 {
      Dec32Means(v, rest);
    }
    if t.LVarint? || t.LSvarint? {
      SignedIs(t, size, v);
    }
  }

  lemma SignedIs(t: LType, size: nat, v: u64)
    requires t.LVarint? || t.LSvarint?
    ensures ReadSigned(t, size, v) == Signed(t, size, v)
  {
  }

  /** Four or eight bytes are taken as they are. */
  lemma FixedRead(t: LType, size: nat, s: Bytes)
    requires (t.LFixed32? && size == 4) || (t.LFixed64? && size == 8)
    ensures DecNum(t, size, s) == if |s| < size then Bad else Parsed(BytesValue(s[..size]), size)
  {
    if size <= |s| {
      LittleIsValue(s[..size]);
    }
  }

  lemma {:induction false} LittleIsValue(b: Bytes)
    ensures FromLittleEndian(b) == BytesValue(b)
  {
    if b != [] {
      LittleIsValue(b[1..]);
    }
  }

  /** Bytes need two more for their length, and a string one for its end, which is its first zero; a field of fixed
      length takes that length only, or nothing for zeros. */
  lemma TextRead(t: LType, size: nat, b: Bytes)
    requires size <= 0xFFFF
    ensures t.LBytes? ==> DecText(t, size, b) == if |b| + 2 <= size then Some(b) else None
    ensures t.LString? ==>
      if |b| < size
      then exists k :: 0 <= k <= |b| && DecText(t, size, b) == Some(b[..k]) && 0 !in b[..k] && (k < |b| ==> b[k] == 0)
      else DecText(t, size, b) == None
    ensures t.LFixedBytes? && b != [] ==> DecText(t, size, b) == if |b| == size then Some(b) else None
    ensures t.LFixedBytes? && b == [] ==>
      DecText(t, size, b).Some? && |DecText(t, size, b).value| == size
      && forall i :: 0 <= i < size ==> DecText(t, size, b).value[i] == 0
  {
    if t.LString? && |b| < size {
      var k := StringEnds(b);
      assert DecText(t, size, b) == Some(b[..k]);
    }
  }

  lemma {:induction false} StringEnds(b: Bytes) returns (k: nat)
    ensures k <= |b| && CString(b) == b[..k] && 0 !in b[..k] && (k < |b| ==> b[k] == 0)
  {
    k := 0;
    if b != [] && b[0] != 0 {
      var n := StringEnds(b[1..]);
      k := n + 1;
      assert b[..k] == [b[0]] + b[1..][..n];
    }
  }
}
