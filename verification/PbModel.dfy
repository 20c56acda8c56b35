/** Messages, their descriptors, and what encoding and decoding them means: static required, optional and
    repeated fields of numbers, strings, bytes and submessages. */
module PbModel {
  import opened Machine
  import opened PbWire

  datatype LType =
    | LBool | LVarint | LUvarint | LSvarint | LFixed32 | LFixed64
    | LBytes | LString | LFixedBytes | LSub(desc: Desc)

  datatype HType = Required | Optional | Repeated

  /** `size` is the storage of one element in bytes, `cap` the number of elements of an array. */
  datatype Field = Field(tag: nat, ltype: LType, htype: HType, size: nat, cap: nat)

  datatype Desc = Desc(fields: seq<Field>)

  /** A message holds, field by field, the values present: one for a required field, none or one for an
      optional one, as many as it has for a repeated one. */
  datatype Value = Num(n: int) | Text(s: seq<u8>) | Msg(parts: Message)

  type Message = seq<seq<Value>>

  const WT_VARINT := 0
  const WT_64BIT := 1
  const WT_STRING := 2
  const WT_32BIT := 5
  const TAG_END := 0x1_0000
  const SIZE_MAX := 0xFFFF
  const MAX_REQUIRED := 64

  // ---------------------------------------------------------------- well-formedness

  /** How many values an integer of this many bytes has; 0 if there is no such integer. */
  function Span(size: nat): nat {
    if size == 1 then 0x100 else if size == 2 then 0x1_0000
    else if size == 4 then U32_MOD else if size == 8 then U64_MOD else 0
  }

  predicate Packable(t: LType) {
    t.LBool? || t.LVarint? || t.LUvarint? || t.LSvarint? || t.LFixed32? || t.LFixed64?
  }

  predicate SizeOk(t: LType, size: nat) {
    match t
    case LBool => Span(size) != 0
    case LVarint => Span(size) != 0
    case LUvarint => Span(size) != 0
    case LSvarint => Span(size) != 0
    case LFixed32 => size == 4
    case LFixed64 => size == 8
    case LBytes => size >= 2
    case _ => true
  }

  /** A generated descriptor: storage sizes go with the types, tags are 16 bits wide and differ. */
  predicate DescOk(d: Desc)
    decreases d, 1
  {
    && (forall i :: 0 <= i < |d.fields| ==> FieldOk(d.fields[i]))
    && (forall i, j :: 0 <= i < j < |d.fields| ==> d.fields[i].tag != d.fields[j].tag)
  }

  predicate FieldOk(f: Field)
    decreases f, 0
  {
    0 < f.tag < TAG_END && f.size <= SIZE_MAX && f.cap <= SIZE_MAX && SizeOk(f.ltype, f.size)
    && (f.ltype.LSub? ==> DescOk(f.ltype.desc))
  }

  /** What a number's storage can hold. */
  predicate NumFits(t: LType, size: nat, n: int) {
    match t
    case LBool => 0 <= n <= 1
    case LVarint => -(Span(size) / 2) <= n < Span(size) / 2
    case LSvarint => -(Span(size) / 2) <= n < Span(size) / 2
    case _ => 0 <= n < Span(size)
  }

  predicate ValueOk(t: LType, size: nat, v: Value)
    decreases t, 0
  {
    match t
    case LBytes => v.Text? && |v.s| <= SIZE_MAX
    case LString => v.Text? && 0 !in v.s && |v.s| <= SIZE_MAX
    case LFixedBytes => v.Text? && |v.s| == size
    case LSub(d) => v.Msg? && MessageOk(d, v.parts)
    case _ => v.Num? && NumFits(t, size, v.n)
  }

  /** A message a program can hold in the structure the descriptor describes. */
  predicate MessageOk(d: Desc, m: Message)
    decreases d, 1
  {
    |m| == |d.fields| && forall i :: 0 <= i < |m| ==> PartOk(d.fields[i], m[i])
  }

  predicate PartOk(f: Field, items: seq<Value>)
    decreases f, 0
  {
    && (f.htype.Required? ==> |items| == 1)
    && (f.htype.Optional? ==> |items| <= 1)
    && |items| <= SIZE_MAX
    && forall k :: 0 <= k < |items| ==> ValueOk(f.ltype, f.size, items[k])
  }

  // ---------------------------------------------------------------- encoding

  type Bytes = seq<u8>

  function Then(a: Option<Bytes>, b: Option<Bytes>): Option<Bytes> {
    if a.Some? && b.Some? then Some(a.value + b.value) else None
  }

  function WireType(t: LType): nat {
    match t
    case LFixed32 => WT_32BIT
    case LFixed64 => WT_64BIT
    case LBytes => WT_STRING
    case LString => WT_STRING
    case LFixedBytes => WT_STRING
    case LSub(_) => WT_STRING
    case _ => WT_VARINT
  }

  function Tag(tag: nat, wt: nat): Bytes {
    Base128(8 * tag + wt)
  }

  /** Bytes behind their length. */
  function Delimited(b: Bytes): Bytes {
    Base128(|b|) + b
  }

  function EncNum(t: LType, size: nat, n: int): Bytes
    requires SizeOk(t, size) && NumFits(t, size, n)
  {
    match t
    case LBool => Base128(n)
    case LUvarint => Base128(n)
    case LVarint => Base128(ToU64(n))
    case LSvarint => Base128(ZigZag(n))
    case LFixed32 => LittleEndian(n, size)
    case LFixed64 => LittleEndian(n, size)
    case _ => []
  }

  /** One value without its tag; none if it does not fit its storage. */
  function EncValue(t: LType, size: nat, v: Value): Option<Bytes>
    requires SizeOk(t, size) && ValueOk(t, size, v) && (t.LSub? ==> DescOk(t.desc))
    decreases t, 0
  {
    match t
    case LBytes => if |v.s| + 2 > size then None else Some(Delimited(v.s))
    case LString => if |v.s| + 1 > size then None else Some(Delimited(v.s))
    case LFixedBytes => Some(Delimited(v.s))
    case LSub(d) =>
      var b := EncFrom(d, v.parts, 0);
      if b.None? then None else Some(Delimited(b.value))
    case _ => Some(EncNum(t, size, v.n))
  }

  function EncTagged(f: Field, v: Value): Option<Bytes>
    requires FieldOk(f) && ValueOk(f.ltype, f.size, v)
    decreases f, 0
  {
    Then(Some(Tag(f.tag, WireType(f.ltype))), EncValue(f.ltype, f.size, v))
  }

  /** Values one after the other, each with the tag. */
  function EncEach(f: Field, items: seq<Value>): Option<Bytes>
    requires FieldOk(f) && forall k :: 0 <= k < |items| ==> ValueOk(f.ltype, f.size, items[k])
    decreases f, 1, |items|
  {
    if items == [] then Some([]) else Then(EncTagged(f, items[0]), EncEach(f, items[1..]))
  }

  /** Numbers one after the other, without tags. */
  function EncPacked(t: LType, size: nat, items: seq<Value>): Bytes
    requires Packable(t) && SizeOk(t, size) && forall k :: 0 <= k < |items| ==> ValueOk(t, size, items[k])
    decreases |items|
  {
    if items == [] then []
    else
      assert ValueOk(t, size, items[0]);
      EncNum(t, size, items[0].n) + EncPacked(t, size, items[1..])
  }

  function EncField(f: Field, items: seq<Value>): Option<Bytes>
    requires FieldOk(f) && PartOk(f, items)
    decreases f, 2
  {
    if f.htype.Repeated? && |items| > f.cap then None
    else if f.htype.Repeated? && Packable(f.ltype) && items != [] then
      Some(Tag(f.tag, WT_STRING) + Delimited(EncPacked(f.ltype, f.size, items)))
    else EncEach(f, items)
  }

  /** The fields from `i` on, in the descriptor's order. */
  function EncFrom(d: Desc, m: Message, i: nat): Option<Bytes>
    requires DescOk(d) && MessageOk(d, m) && i <= |m|
    decreases d, |m| - i
  {
    if i == |m| then Some([]) else Then(EncField(d.fields[i], m[i]), EncFrom(d, m, i + 1))
  }

  /** The encoding of a message, or none if some value is too big for its storage. */
  function EncMsg(d: Desc, m: Message): Option<Bytes>
    requires DescOk(d) && MessageOk(d, m)
  {
    EncFrom(d, m, 0)
  }

  // ---------------------------------------------------------------- decoding

  /** A varint length and that many bytes behind it. */
  function Framed(s: Bytes): (r: Parsed<Bytes>)
    ensures r.Parsed? ==> 0 < r.used <= |s| && |r.value| < |s|
  {
    var n := Dec32(s);
    if n.Bad? || |s| - n.used < n.value then Bad
    else Parsed(s[n.used..n.used + n.value], n.used + n.value)
  }

  function Signed32(v: u64): int {
    var low := v % U32_MOD;
    if low >= 0x8000_0000 then low - U32_MOD else low
  }

  /** A signed number read for storage of this size. */
  function ReadSigned(t: LType, size: nat, v: u64): int {
    if t.LSvarint? then UnZigZag(v) else if size == 8 then ToI64(v) else Signed32(v)
  }

  function DecNum(t: LType, size: nat, s: Bytes): (r: Parsed<int>)
    ensures r.Parsed? ==> r.used <= |s|
  {
    match t
    case LBool =>
      var r := Dec32(s);
      if r.Bad? then Bad else Parsed(if r.value != 0 then 1 else 0, r.used)
    case LFixed32 => if |s| < size then Bad else Parsed(FromLittleEndian(s[..size]), size)
    case LFixed64 => if |s| < size then Bad else Parsed(FromLittleEndian(s[..size]), size)
    case LUvarint =>
      var r := Dec64(s);
      if r.Bad? || r.value >= Span(size) then Bad else Parsed(r.value, r.used)
    case _ =>
      var r := Dec64(s);
      if r.Bad? || !NumFits(t, size, ReadSigned(t, size, r.value)) then Bad
      else Parsed(ReadSigned(t, size, r.value), r.used)
  }

  function Zeros(n: nat): (s: Bytes)
    ensures |s| == n
  {
    seq(n, _ => 0)
  }

  /** The text of a buffer up to its first zero. */
  function CString(s: Bytes): Bytes {
    if s == [] || s[0] == 0 then [] else [s[0]] + CString(s[1..])
  }

  function DecText(t: LType, size: nat, b: Bytes): Option<Bytes> {
    if t.LBytes? then (if |b| > SIZE_MAX || |b| + 2 > size then None else Some(b))
    else if t.LString? then (if |b| + 1 > size then None else Some(CString(b)))
    else if |b| == 0 then Some(Zeros(size))
    else if |b| > SIZE_MAX || |b| != size then None
    else Some(b)
  }

  function DecValue(t: LType, size: nat, s: Bytes): (r: Parsed<Value>)
    ensures r.Parsed? ==> r.used <= |s|
    decreases t, 0
  {
    if Packable(t) then
      var r := DecNum(t, size, s);
      if r.Bad? then Bad else Parsed(Num(r.value), r.used)
    else
      var b := Framed(s);
      if b.Bad? then Bad
      else if t.LSub? then
        var m := DecMsg(t.desc, b.value);
        if m.None? then Bad else Parsed(Msg(m.value), b.used)
      else
        var x := DecText(t, size, b.value);
        if x.None? then Bad else Parsed(Text(x.value), b.used)
  }

  /** The values of a packed array, all of its bytes, appended to `items`. */
  function DecPacked(f: Field, items: seq<Value>, s: Bytes): Option<seq<Value>>
    decreases |s|
  {
    if s == [] then Some(items)
    else if |items| >= f.cap then None
    else
      var r := DecNum(f.ltype, f.size, s);
      if r.Bad? || r.used == 0 then None else DecPacked(f, items + [Num(r.value)], s[r.used..])
  }

  /** What a field becomes when one more occurrence of it is read. */
  function DecField(f: Field, items: seq<Value>, wt: nat, s: Bytes): (r: Parsed<seq<Value>>)
    ensures r.Parsed? ==> r.used <= |s|
    decreases f, 0
  {
    if f.htype.Repeated? && wt == WT_STRING && Packable(f.ltype) then
      var b := Framed(s);
      if b.Bad? then Bad
      else
        var r := DecPacked(f, items, b.value);
        if r.None? then Bad else Parsed(r.value, b.used)
    else if wt != WireType(f.ltype) then Bad
    else if f.htype.Repeated? && |items| >= f.cap then Bad
    else
      var r := DecValue(f.ltype, f.size, s);
      if r.Bad? then Bad
      else Parsed(if f.htype.Repeated? then items + [r.value] else [r.value], r.used)
  }

  /** Bytes of an unknown field behind its tag, if it can be skipped. */
  function Skip(wt: nat, s: Bytes): (r: Option<nat>)
    ensures r.Some? ==> r.value <= |s|
  {
    if wt == WT_VARINT then (if VarintLength(s) == 0 then None else Some(VarintLength(s)))
    else if wt == WT_64BIT then (if |s| < 8 then None else Some(8))
    else if wt == WT_STRING then
      var b := Framed(s);
      if b.Bad? then None else Some(b.used)
    else if wt == WT_32BIT then (if |s| < 4 then None else Some(4))
    else None
  }

  /** Index of the field with a tag; the number of fields if there is none. */
  function FindTag(fields: seq<Field>, tag: nat): (k: nat)
    ensures k <= |fields| && (k < |fields| ==> fields[k].tag == tag)
    ensures forall i :: 0 <= i < k ==> fields[i].tag != tag
  {
    if fields == [] || fields[0].tag == tag then 0 else 1 + FindTag(fields[1..], tag)
  }

  function DefaultItems(f: Field): seq<Value>
    decreases f, 1
  {
    if !f.htype.Required? then []
    else
      match f.ltype
      case LSub(d) => [Msg(Defaults(d))]
      case LFixedBytes => [Text(Zeros(f.size))]
      case LBytes => [Text([])]
      case LString => [Text([])]
      case _ => [Num(0)]
  }

  function Defaults(d: Desc): (m: Message)
    ensures |m| == |d.fields|
    decreases d, 0
  {
    seq(|d.fields|, i requires 0 <= i < |d.fields| => DefaultItems(d.fields[i]))
  }

  /** Number of required fields before field `i`. */
  function RequiredBefore(fields: seq<Field>, i: nat): nat
    requires i <= |fields|
  {
    if i == 0 then 0 else RequiredBefore(fields, i - 1) + if fields[i - 1].htype.Required? then 1 else 0
  }

  /** Every required field was seen; only so many of them are watched. */
  predicate AllSeen(d: Desc, seen: set<nat>) {
    forall i :: 0 <= i < |d.fields| && d.fields[i].htype.Required? && RequiredBefore(d.fields, i) < MAX_REQUIRED ==>
      i in seen
  }

  /** The rest of a message read into `m`; `seen` are the indices of the fields met so far. */
  function DecLoop(d: Desc, m: Message, seen: set<nat>, s: Bytes): (r: Option<Message>)
    requires |m| == |d.fields|
    decreases d, 1, |s|
  {
    if s == [] then (if AllSeen(d, seen) then Some(m) else None)
    else
      var t := Dec32(s);
      if t.Bad? || t.value / 8 == 0 then None
      else
        var rest, wt := s[t.used..], t.value % 8;
        var i := FindTag(d.fields, t.value / 8);
        if i == |d.fields| then
          var n := Skip(wt, rest);
          if n.None? then None else DecLoop(d, m, seen, rest[n.value..])
        else
          var x := DecField(d.fields[i], m[i], wt, rest);
          if x.Bad? then None else DecLoop(d, m[i := x.value], seen + {i}, rest[x.used..])
  }

  function DecMsg(d: Desc, s: Bytes): Option<Message>
    decreases d, 2
  {
    DecLoop(d, Defaults(d), {}, s)
  }
}
