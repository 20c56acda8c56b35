/** The decoder: fields in any order, unknown ones skipped, submessages in windows of their own. */
module PbDecode {
  import opened Machine
  import opened PbWire
  import opened PbModel
  import opened PbRoundTrip
  import opened PbLayout
  import opened PbIter
  import opened PbInput

  // ---------------------------------------------------------------- the descriptor the iterator runs over

  function TypeCode(t: LType): nat {
    match t
    case LBool => 0
    case LVarint => 1
    case LUvarint => 2
    case LSvarint => 3
    case LFixed32 => 4
    case LFixed64 => 5
    case LBytes => 6
    case LString => 7
    case LSub(_) => 8
    case LFixedBytes => 11
  }

  function RuleCode(h: HType): nat {
    match h case Required => 0 case Optional => 1 case Repeated => 2
  }

  /** A field in the widest format; where it lies in the structure plays no part here. */
  function EntryOf(f: Field): Entry
    requires FieldOk(f)
  {
    Entry(3, f.tag, TypeCode(f.ltype) + 16 * RuleCode(f.htype), 0, f.size, 0, f.cap)
  }

  function Entries(d: Desc): (es: seq<Entry>)
    requires DescOk(d)
    ensures |es| == |d.fields| && forall i :: 0 <= i < |es| ==> FieldOk(d.fields[i]) && es[i] == EntryOf(d.fields[i])
  {
    seq(|d.fields|, i requires 0 <= i < |d.fields| && DescOk(d) => assert FieldOk(d.fields[i]); EntryOf(d.fields[i]))
  }

  lemma EntriesFit(d: Desc)
    requires DescOk(d)
    ensures AllFit(Entries(d))
    ensures forall i, tag :: 0 <= i < |d.fields| ==> (Match(Entries(d)[i], tag) <==> d.fields[i].tag == tag)
  {
  }

  /** Running around the descriptor finds the field with the tag. */
  method FindField(it: FieldIter, d: Desc, tag: nat) returns (i: nat)
    requires DescOk(d) && it.Valid() && it.Loaded() && it.es == Entries(d)
    modifies it
    ensures it.Valid() && it.Loaded() && i == FindTag(d.fields, tag)
    ensures i < |d.fields| ==> it.index == i
  {
    EntriesFit(d);
    ghost var f := FindTag(d.fields, tag);
    assert f < |d.fields| ==> Match(it.es[f], tag);
    var found := it.Find(tag);
    if !found {
      return |d.fields|;
    }
    i := it.index;
    TagFound(d.fields, i);
  }

  // ---------------------------------------------------------------- values

  method DecodeNumber(s: IStream, t: LType, size: nat) returns (ok: bool, n: int)
    requires s.Valid() && Packable(t)
    modifies s
    ensures s.Valid() && (ok <==> DecNum(t, size, old(s.Rest())).Parsed?)
    ensures ok ==> n == DecNum(t, size, old(s.Rest())).value && s.Read(DecNum(t, size, old(s.Rest())).used)
  {
    n := 0;
    if t.LBool? {
      var v;
      ok, v := s.ReadVarint32();
      n := if v != 0 then 1 else 0;
    } else if t.LFixed32? || t.LFixed64? {
      var b;
      ok, b := s.ReadBytes(size);
      n := FromLittleEndian(b);
    } else {
      var v;
      ok, v := s.ReadVarint();
      if ok {
        if t.LUvarint? {
          ok, n := v < Span(size), v;
        } else {
          n := ReadSigned(t, size, v);
          ok := NumFits(t, size, n);
        }
      }
    }
  }

  /** A length the field's storage cannot take. */
  predicate Refused(t: LType, size: nat, n: nat) {
    || (t.LBytes? && (n > SIZE_MAX || n + 2 > size))
    || (t.LString? && n + 1 > size)
    || (t.LFixedBytes? && n != 0 && (n > SIZE_MAX || n != size))
  }

  function TextOf(t: LType, size: nat, b: Bytes): Bytes {
    if t.LString? then CString(b) else if t.LFixedBytes? && b == [] then Zeros(size) else b
  }

  function ParseText(t: LType, size: nat, s: Bytes): Parsed<Bytes> {
    var p := Dec32(s);
    if p.Bad? || Refused(t, size, p.value) || |s| - p.used < p.value then Bad
    else Parsed(TextOf(t, size, s[p.used..p.used + p.value]), p.used + p.value)
  }

  lemma TextParsed(t: LType, size: nat, s: Bytes)
    requires t.LBytes? || t.LString? || t.LFixedBytes?
    ensures var x := ParseText(t, size, s);
      DecValue(t, size, s) == if x.Bad? then Bad else Parsed(Text(x.value), x.used)
  {
  }

  method DecodeText(s: IStream, t: LType, size: nat) returns (ok: bool, b: Bytes)
    requires s.Valid()
    modifies s
    ensures s.Valid() && (ok <==> ParseText(t, size, old(s.Rest())).Parsed?)
    ensures ok ==> b == ParseText(t, size, old(s.Rest())).value && s.Read(ParseText(t, size, old(s.Rest())).used)
  {
    var n;
    b := [];
    ok, n := s.ReadVarint32();
    if !ok {
      return;
    }
    if Refused(t, size, n) {
      return false, b;
    }
    if t.LFixedBytes? && n == 0 {
      return true, Zeros(size);
    }
    ghost var k := if n <= s.left then n else 0;
    SliceOfSlice(s.data, old(s.pos), old(s.left), s.pos - old(s.pos), k);
    SliceOfSlice(s.data, s.pos, s.left, 0, k);
    ok, b := s.ReadBytes(n);
    if t.LString? {
      b := CString(b);
    }
  }

  method DecodeValue(s: IStream, t: LType, size: nat) returns (ok: bool, v: Value)
    requires s.Valid() && (t.LSub? ==> DescOk(t.desc))
    modifies s
    ensures s.Valid() && (ok <==> DecValue(t, size, old(s.Rest())).Parsed?)
    ensures ok ==> v == DecValue(t, size, old(s.Rest())).value && s.Read(DecValue(t, size, old(s.Rest())).used)
    decreases t, 0
  {
    v := Num(0);
    if Packable(t) {
      var n;
      ok, n := DecodeNumber(s, t, size);
      v := Num(n);
    } else if t.LSub? {
      var sub, m;
      ok, sub := s.OpenFrame();
      if ok {
        m := Decode(sub, t.desc);
        ok, v := m.Some?, if m.Some? then Msg(m.value) else v;
      }
    } else {
      TextParsed(t, size, s.Rest());
      var b;
      ok, b := DecodeText(s, t, size);
      v := Text(b);
    }
  }

  // ---------------------------------------------------------------- fields

  method DecodePacked(sub: IStream, f: Field, had: seq<Value>) returns (r: Option<seq<Value>>)
    requires sub.Valid() && Packable(f.ltype) && FieldOk(f)
    modifies sub
    ensures r == DecPacked(f, had, old(sub.Rest()))
  {
    ghost var all := DecPacked(f, had, sub.Rest());
    var items := had;
    while sub.left > 0 && |items| < f.cap
      invariant sub.Valid() && DecPacked(f, items, sub.Rest()) == all
      decreases sub.left
    {
      ghost var s := sub.Rest();
      NumUsed(f.ltype, f.size, s);
      var ok, n := DecodeNumber(sub, f.ltype, f.size);
      if !ok {
        return None;
      }
      assert sub.Rest() == s[DecNum(f.ltype, f.size, s).used..];
      items := items + [Num(n)];
    }
    if sub.left != 0 {
      return None;
    }
    r := Some(items);
  }

  lemma NumUsed(t: LType, size: nat, s: Bytes)
    requires Packable(t) && SizeOk(t, size)
    ensures DecNum(t, size, s).Parsed? ==> 0 < DecNum(t, size, s).used
  {
  }

  method DecodeField(s: IStream, f: Field, items: seq<Value>, wt: nat) returns (ok: bool, r: seq<Value>)
    requires s.Valid() && FieldOk(f)
    modifies s
    ensures s.Valid() && (ok <==> DecField(f, items, wt, old(s.Rest())).Parsed?)
    ensures ok ==>
      var x := DecField(f, items, wt, old(s.Rest()));
      r == x.value && s.Read(x.used)
    decreases f, 1
  {
    r := items;
    if f.htype.Repeated? && wt == WT_STRING && Packable(f.ltype) {
      var sub;
      ok, sub := s.OpenFrame();
      if !ok {
        return;
      }
      var x := DecodePacked(sub, f, items);
      ok, r := x.Some?, if x.Some? then x.value else items;
    } else {
      if wt != WireType(f.ltype) || (f.htype.Repeated? && |items| >= f.cap) {
        return false, r;
      }
      var v;
      ok, v := DecodeValue(s, f.ltype, f.size);
      r := if f.htype.Repeated? then items + [v] else [v];
    }
  }

  // ---------------------------------------------------------------- required fields

  lemma {:induction false} SameCount(d: Desc, i: nat)
    requires DescOk(d) && i <= |d.fields|
    ensures RequiredCount(Entries(d), i) == RequiredBefore(d.fields, i)
  {
    if 0 < i {
      SameCount(d, i - 1);
    }
  }

  /** The bit of each watched required field says whether the field was seen. */
  ghost predicate Bits(d: Desc, seen: set<nat>, bits: seq<bool>) {
    |bits| == MAX_REQUIRED
    && forall i :: 0 <= i < |d.fields| && d.fields[i].htype.Required? && RequiredBefore(d.fields, i) < MAX_REQUIRED ==>
         (bits[RequiredBefore(d.fields, i)] <==> i in seen)
  }

  /** Required fields have different numbers. */
  lemma {:induction false} NumbersDiffer(fields: seq<Field>, i: nat, j: nat)
    requires i < j <= |fields| && fields[i].htype.Required?
    ensures RequiredBefore(fields, i) < RequiredBefore(fields, j)
    decreases j
  {
    if i + 1 < j {
      NumbersDiffer(fields, i, j - 1);
    }
  }

  /** And every number up to their count belongs to one. */
  lemma {:induction false} NumberTaken(fields: seq<Field>, n: nat, k: nat) returns (i: nat)
    requires n <= |fields| && k < RequiredBefore(fields, n)
    ensures i < n && fields[i].htype.Required? && RequiredBefore(fields, i) == k
    decreases n
  {
    if k < RequiredBefore(fields, n - 1) {
      i := NumberTaken(fields, n - 1, k);
    } else {
      i := n - 1;
    }
  }

  /** Noting a field: its bit, if it is required and watched. */
  lemma BitsNoted(d: Desc, seen: set<nat>, bits: seq<bool>, i: nat)
    requires Bits(d, seen, bits) && i < |d.fields|
    ensures var k := RequiredBefore(d.fields, i);
      Bits(d, seen + {i}, if d.fields[i].htype.Required? && k < MAX_REQUIRED then bits[k := true] else bits)
  {
    forall j | 0 <= j < |d.fields| && d.fields[j].htype.Required? && d.fields[i].htype.Required? && j != i
      ensures RequiredBefore(d.fields, j) != RequiredBefore(d.fields, i)
    {
      if j < i {
        NumbersDiffer(d.fields, j, i);
      } else {
        NumbersDiffer(d.fields, i, j);
      }
    }
  }

  method CountRequired(d: Desc) returns (total: nat)
    ensures total == RequiredBefore(d.fields, |d.fields|)
  {
    var i := 0;
    total := 0;
    while i < |d.fields|
      invariant 0 <= i <= |d.fields| && total == RequiredBefore(d.fields, i)
    {
      total := total + if d.fields[i].htype.Required? then 1 else 0;
      i := i + 1;
    }
  }

  /** The bits of as many required fields as there are, or as are watched. */
  method CheckRequired(d: Desc, bits: array<bool>, ghost seen: set<nat>) returns (ok: bool)
    requires Bits(d, seen, bits[..])
    ensures ok <==> AllSeen(d, seen)
  {
    var total := CountRequired(d);
    if total > MAX_REQUIRED {
      total := MAX_REQUIRED;
    }
    var k := 0;
    while k < total && bits[k]
      invariant 0 <= k <= total && forall j :: 0 <= j < k ==> bits[..][j]
    {
      k := k + 1;
    }
    ok := k == total;
    if ok {
      AllBitsSet(d, seen, bits[..], total);
    } else {
      OneBitClear(d, seen, bits[..], k);
    }
  }

  lemma AllBitsSet(d: Desc, seen: set<nat>, bits: seq<bool>, total: nat)
    requires Bits(d, seen, bits) && total <= MAX_REQUIRED
    requires total == RequiredBefore(d.fields, |d.fields|) || total == MAX_REQUIRED
    requires forall j :: 0 <= j < total ==> bits[j]
    ensures AllSeen(d, seen)
  {
    forall f | 0 <= f < |d.fields| && d.fields[f].htype.Required? && RequiredBefore(d.fields, f) < MAX_REQUIRED
      ensures f in seen
    {
      NumbersDiffer(d.fields, f, |d.fields|);
      assert bits[RequiredBefore(d.fields, f)];
    }
  }

  lemma OneBitClear(d: Desc, seen: set<nat>, bits: seq<bool>, k: nat)
    requires Bits(d, seen, bits) && k < MAX_REQUIRED && k < RequiredBefore(d.fields, |d.fields|) && !bits[k]
    ensures !AllSeen(d, seen)
  {
    var f := NumberTaken(d.fields, |d.fields|, k);
  }

  // ---------------------------------------------------------------- messages

  /** The iterator runs over this descriptor; there is none for a message without fields. */
  ghost predicate RunsOver(it: FieldIter?, d: Desc)
    requires DescOk(d)
    reads it
  {
    if d.fields == [] then it == null
    else it != null && it.Valid() && it.Loaded() && it.es == Entries(d)
  }

  method LookUp(it: FieldIter?, d: Desc, tag: nat) returns (i: nat)
    requires DescOk(d) && RunsOver(it, d)
    modifies it
    ensures RunsOver(it, d) && i == FindTag(d.fields, tag)
    ensures i < |d.fields| ==> it.index == i
  {
    if it == null {
      return 0;
    }
    i := FindField(it, d, tag);
  }

  /** What the iterator says of the field it stands on. */
  lemma CurrentField(it: FieldIter, d: Desc)
    requires DescOk(d) && RunsOver(it, d)
    ensures it.index < |d.fields| && it.requiredIndex == RequiredBefore(d.fields, it.index)
    ensures IsRequired(it.field.kind) <==> d.fields[it.index].htype.Required?
  {
    SameCount(d, it.index);
    RuleOfKind(d.fields[it.index]);
  }

  lemma RuleOfKind(f: Field)
    requires FieldOk(f)
    ensures IsRequired(EntryOf(f).kind) <==> f.htype.Required?
  {
    var k := EntryOf(f).kind;
    assert k / 16 == RuleCode(f.htype);
  }

  /** Notes a required field that was met. */
  method Note(it: FieldIter, d: Desc, bits: array<bool>, ghost seen: set<nat>)
    requires DescOk(d) && RunsOver(it, d) && Bits(d, seen, bits[..])
    modifies bits
    ensures Bits(d, seen + {it.index}, bits[..])
  {
    CurrentField(it, d);
    BitsNoted(d, seen, bits[..], it.index);
    if IsRequired(it.field.kind) && it.requiredIndex < MAX_REQUIRED {
      bits[it.requiredIndex] := true;
    }
  }

  /** What one pass of the field loop makes of the message, the fields seen and the bytes. */
  datatype Progress = Progress(m: Message, seen: set<nat>, rest: Bytes)

  function Body(d: Desc, m: Message, seen: set<nat>, i: nat, wt: nat, rest: Bytes): Option<Progress>
    requires |m| == |d.fields| && i <= |m|
  {
    if i == |m| then
      var n := Skip(wt, rest);
      if n.None? then None else Some(Progress(m, seen, rest[n.value..]))
    else
      var x := DecField(d.fields[i], m[i], wt, rest);
      if x.Bad? then None else Some(Progress(m[i := x.value], seen + {i}, rest[x.used..]))
  }

  function Pass(d: Desc, m: Message, seen: set<nat>, s: Bytes): Option<Progress>
    requires |m| == |d.fields|
  {
    var t := Dec32(s);
    if t.Bad? || t.value / 8 == 0 then None
    else Body(d, m, seen, FindTag(d.fields, t.value / 8), t.value % 8, s[t.used..])
  }

  lemma LoopIsPass(d: Desc, m: Message, seen: set<nat>, s: Bytes)
    requires |m| == |d.fields| && s != []
    ensures var p := Pass(d, m, seen, s);
      DecLoop(d, m, seen, s) == if p.None? then None else DecLoop(d, p.value.m, p.value.seen, p.value.rest)
  {
  }

  /** The bytes behind a tag: what is left of the message once its field is read or skipped. */
  method DecodeBody(s: IStream, d: Desc, m: Message, i: nat, wt: nat, ghost seen: set<nat>)
    returns (ok: bool, m': Message, ghost seen': set<nat>)
    requires s.Valid() && DescOk(d) && |m| == |d.fields| && i <= |m|
    modifies s
    ensures s.Valid() && |m'| == |m| && seen' == if i < |m| then seen + {i} else seen
    ensures ok ==> s.left <= old(s.left)
    ensures Body(d, m, seen, i, wt, old(s.Rest())) == if ok then Some(Progress(m', seen', s.Rest())) else None
    decreases d, 0
  {
    m', seen' := m, seen;
    if i == |m| {
      ok := s.SkipField(wt);
    } else {
      assert FieldOk(d.fields[i]);
      var x;
      ok, x := DecodeField(s, d.fields[i], m[i], wt);
      m', seen' := m[i := x], seen + {i};
    }
  }

  /** Reads a tag; number zero is none. */
  method DecodeTag(s: IStream) returns (ok: bool, t: u32)
    requires s.Valid() && s.left > 0
    modifies s
    ensures s.Valid() && (ok ==> s.left < old(s.left))
    ensures var p := Dec32(old(s.Rest()));
      && (ok <==> p.Parsed? && p.value / 8 != 0)
      && (ok ==> t == p.value && s.Rest() == old(s.Rest())[p.used..])
  {
    ok, t := s.ReadVarint32();
    ok := ok && t / 8 != 0;
  }

  /** Finds the field with this number and notes it, if it is required. */
  method Locate(it: FieldIter?, d: Desc, tag: nat, bits: array<bool>, ghost seen: set<nat>) returns (i: nat)
    requires DescOk(d) && RunsOver(it, d) && Bits(d, seen, bits[..])
    modifies it, bits
    ensures RunsOver(it, d) && i == FindTag(d.fields, tag)
    ensures Bits(d, if i < |d.fields| then seen + {i} else seen, bits[..])
  {
    i := LookUp(it, d, tag);
    if i < |d.fields| {
      Note(it, d, bits, seen);
    }
  }

  /** Reads one field: into the message, or past it if its tag is unknown. */
  method DecodeOne(s: IStream, d: Desc, it: FieldIter?, m: Message, bits: array<bool>, ghost seen: set<nat>)
    returns (ok: bool, m': Message, ghost seen': set<nat>)
    requires s.Valid() && s.left > 0 && DescOk(d) && |m| == |d.fields| && RunsOver(it, d) && Bits(d, seen, bits[..])
    modifies s, it, bits
    ensures s.Valid() && |m'| == |m| && RunsOver(it, d)
    ensures Pass(d, m, seen, old(s.Rest())) == if ok then Some(Progress(m', seen', s.Rest())) else None
    ensures ok ==> s.left < old(s.left) && Bits(d, seen', bits[..])
    decreases d, 1
  {
    m', seen' := m, seen;
    var t;
    ok, t := DecodeTag(s);
    if ok {
      var i := Locate(it, d, t / 8, bits, seen);
      ok, m', seen' := DecodeBody(s, d, m, i, t % 8, seen);
    }
  }

  /** Reads a message to the end of the stream. */
  method Decode(s: IStream, d: Desc) returns (r: Option<Message>)
    requires s.Valid() && DescOk(d)
    modifies s
    ensures s.Valid() && r == DecMsg(d, old(s.Rest())) && (r.Some? ==> s.left == 0)
    decreases d, 2
  {
    var bits := new bool[MAX_REQUIRED](_ => false);
    ghost var seen: set<nat> := {};
    var m := Defaults(d);
    var it := IteratorOf(d);
    ghost var all := DecMsg(d, s.Rest());
    while s.left > 0
      invariant s.Valid() && |m| == |d.fields| && RunsOver(it, d) && Bits(d, seen, bits[..])
      invariant DecLoop(d, m, seen, s.Rest()) == all
      decreases s.left
    {
      LoopIsPass(d, m, seen, s.Rest());
      var ok;
      ok, m, seen := DecodeOne(s, d, it, m, bits, seen);
      if !ok {
        return None;
      }
    }
    var complete := CheckRequired(d, bits, seen);
    r := if complete then Some(m) else None;
  }

  /** An iterator over the packed form of the descriptor, if it has fields. */
  method IteratorOf(d: Desc) returns (it: FieldIter?)
    requires DescOk(d)
    ensures RunsOver(it, d) && (it == null || fresh(it))
  {
    it := null;
    if d.fields != [] {
      EntriesFit(d);
      it := new FieldIter(Entries(d));
    }
  }
}
