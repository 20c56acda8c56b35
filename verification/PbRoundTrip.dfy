/** Decoding what was encoded gives the message back. */
module PbRoundTrip {
  import opened Machine
  import opened PbWire
  import opened PbModel

  // ---------------------------------------------------------------- values

  lemma FramedInverts(b: Bytes, rest: Bytes)
    requires |b| < U32_MOD
    ensures Framed(Delimited(b) + rest) == Parsed(b, |Delimited(b)|)
  {
    var s := Delimited(b) + rest;
    Dec32Means(|b|, b + rest);
    assert s == Base128(|b|) + (b + rest);
    var k := |Base128(|b|)|;
    assert s[k..k + |b|] == b;
  }

  lemma SignedBack(t: LType, size: nat, n: int)
    requires (t.LVarint? || t.LSvarint?) && SizeOk(t, size) && NumFits(t, size, n)
    ensures ReadSigned(t, size, if t.LSvarint? then ZigZag(n) else ToU64(n)) == n
  {
    if t.LSvarint? {
      ZigZagRoundTrip(n, 0);
    } else if size != 8 {
      assert -0x8000_0000 <= n < 0x8000_0000;
      assert ToU64(n) % U32_MOD == if n < 0 then n + U32_MOD else n;
    }
  }

  lemma FixedBack(n: nat, size: nat, rest: Bytes)
    requires size == 4 || size == 8
    requires n < Span(size)
    ensures var s := LittleEndian(n, size) + rest; FromLittleEndian(s[..size]) == n
  {
    var s := LittleEndian(n, size) + rest;
    assert s[..size] == LittleEndian(n, size);
    SpanIsPow(size);
    FixedRoundTrip(n, size);
  }

  lemma SpanIsPow(size: nat)
    requires size == 4 || size == 8
    ensures Pow256(size) == Span(size)
  {
    assert Pow256(size - 4) == if size == 4 then 1 else U32_MOD by {
      if size == 8 {
        assert Pow256(size - 8) == 1 && Pow256(size - 7) == 0x100;
        assert Pow256(size - 6) == 0x1_0000;
        assert Pow256(size - 5) == 0x100_0000;
      }
    }
    assert Pow256(size - 3) == 0x100 * Pow256(size - 4);
    assert Pow256(size - 2) == 0x1_0000 * Pow256(size - 4);
    assert Pow256(size - 1) == 0x100_0000 * Pow256(size - 4);
  }

  lemma NumInverts(t: LType, size: nat, n: int, rest: Bytes)
    requires Packable(t) && SizeOk(t, size) && NumFits(t, size, n)
    ensures DecNum(t, size, EncNum(t, size, n) + rest) == Parsed(n, |EncNum(t, size, n)|)
    ensures 0 < |EncNum(t, size, n)|
  {
    if t.LBool? {
      Dec32Means(n, rest);
    } else if t.LFixed32? || t.LFixed64? {
      FixedBack(n, size, rest);
    } else if t.LUvarint? {
      Dec64Inverts(n, rest);
    } else {
      SignedBack(t, size, n);
      Dec64Inverts(if t.LSvarint? then ZigZag(n) else ToU64(n), rest);
    }
  }

  lemma {:induction false} CStringWhole(s: Bytes)
    requires 0 !in s
    ensures CString(s) == s
  {
    if s != [] {
      CStringWhole(s[1..]);
    }
  }

  /** Text that fits its storage comes back. */
  lemma TextBack(t: LType, size: nat, v: Value)
    requires t.LBytes? || t.LString? || t.LFixedBytes?
    requires SizeOk(t, size) && ValueOk(t, size, v) && EncValue(t, size, v).Some? && size <= SIZE_MAX
    ensures DecText(t, size, v.s) == Some(v.s) && EncValue(t, size, v) == Some(Delimited(v.s))
  {
    if t.LString? {
      CStringWhole(v.s);
    }
    if t.LFixedBytes? && |v.s| == 0 {
      assert Zeros(size) == v.s;
    }
  }

  lemma {:induction false} PackedInverts(f: Field, had: seq<Value>, items: seq<Value>)
    requires FieldOk(f) && Packable(f.ltype) && |had| + |items| <= f.cap
    requires forall k :: 0 <= k < |items| ==> ValueOk(f.ltype, f.size, items[k])
    ensures DecPacked(f, had, EncPacked(f.ltype, f.size, items)) == Some(had + items)
    decreases |items|
  {
    if items == [] {
      assert had + items == had;
    } else {
      var v, more := items[0], EncPacked(f.ltype, f.size, items[1..]);
      PackedFirst(f, items);
      PackedStep(f, had, v.n, more);
      PackedInverts(f, had + [v], items[1..]);
      assert had + [v] + items[1..] == had + items;
    }
  }

  lemma PackedFirst(f: Field, items: seq<Value>)
    requires FieldOk(f) && Packable(f.ltype) && items != []
    requires forall k :: 0 <= k < |items| ==> ValueOk(f.ltype, f.size, items[k])
    ensures items[0].Num? && NumFits(f.ltype, f.size, items[0].n)
    ensures EncPacked(f.ltype, f.size, items) ==
      EncNum(f.ltype, f.size, items[0].n) + EncPacked(f.ltype, f.size, items[1..])
  {
    assert ValueOk(f.ltype, f.size, items[0]);
  }

  lemma PackedStep(f: Field, had: seq<Value>, n: int, more: Bytes)
    requires FieldOk(f) && Packable(f.ltype) && NumFits(f.ltype, f.size, n) && |had| < f.cap
    ensures DecPacked(f, had, EncNum(f.ltype, f.size, n) + more) == DecPacked(f, had + [Num(n)], more)
  {
    NumInverts(f.ltype, f.size, n, more);
    var s := EncNum(f.ltype, f.size, n) + more;
    assert s[|EncNum(f.ltype, f.size, n)|..] == more;
  }

  // ---------------------------------------------------------------- fields

  lemma TagFound(fields: seq<Field>, i: nat)
    requires i < |fields| && forall j, k :: 0 <= j < k < |fields| ==> fields[j].tag != fields[k].tag
    ensures FindTag(fields, fields[i].tag) == i
  {
    var k := FindTag(fields, fields[i].tag);
  }

  /** What the loop does with a known tag in front. */
  lemma LoopStep(d: Desc, m: Message, seen: set<nat>, s: Bytes, tag: nat, wt: nat, rest: Bytes, i: nat)
    requires |m| == |d.fields| && 0 < tag < TAG_END && wt < 8 && s == Tag(tag, wt) + rest
    requires i < |d.fields| && FindTag(d.fields, tag) == i
    ensures var x := DecField(d.fields[i], m[i], wt, rest);
      DecLoop(d, m, seen, s) == if x.Bad? then None else DecLoop(d, m[i := x.value], seen + {i}, rest[x.used..])
  {
    TagRead(s, tag, wt, rest);
  }

  lemma TagRead(s: Bytes, tag: nat, wt: nat, rest: Bytes)
    requires 0 < tag < TAG_END && wt < 8 && s == Tag(tag, wt) + rest
    ensures var t := Dec32(s); s != [] && t.Parsed? && t.value / 8 == tag && t.value % 8 == wt && s[t.used..] == rest
  {
    Dec32Means(8 * tag + wt, rest);
    assert s[|Tag(tag, wt)|..] == rest;
  }

  /** One occurrence of a field is read and leaves the rest. */
  lemma Occurrence(d: Desc, m: Message, seen: set<nat>, i: nat, wt: nat, body: Bytes, x: seq<Value>, rest: Bytes)
    requires DescOk(d) && |m| == |d.fields| && i < |m| && wt < 8
    requires DecField(d.fields[i], m[i], wt, body + rest) == Parsed(x, |body|)
    ensures DecLoop(d, m, seen, Tag(d.fields[i].tag, wt) + body + rest) == DecLoop(d, m[i := x], seen + {i}, rest)
  {
    var f := d.fields[i];
    TagFound(d.fields, i);
    assert FieldOk(f);
    var s := Tag(f.tag, wt) + body + rest;
    assert s == Tag(f.tag, wt) + (body + rest);
    LoopStep(d, m, seen, s, f.tag, wt, body + rest, i);
    assert (body + rest)[|body|..] == rest;
  }

  /** A value comes back from its encoding, which is read exactly. */
  lemma {:induction false} ValueInverts(t: LType, size: nat, v: Value, rest: Bytes)
    requires SizeOk(t, size) && size <= SIZE_MAX && ValueOk(t, size, v) && (t.LSub? ==> DescOk(t.desc))
    requires EncValue(t, size, v).Some? && |EncValue(t, size, v).value| < U32_MOD
    ensures var e := EncValue(t, size, v).value; DecValue(t, size, e + rest) == Parsed(v, |e|)
    decreases t, 0
  {
    if Packable(t) {
      NumInverts(t, size, v.n, rest);
    } else if t.LSub? {
      var b := EncFrom(t.desc, v.parts, 0).value;
      FramedInverts(b, rest);
      MessageInverts(t.desc, v.parts);
    } else {
      TextBack(t, size, v);
      FramedInverts(v.s, rest);
    }
  }

  /** So does a whole message. */
  lemma {:induction false} MessageInverts(d: Desc, m: Message)
    requires DescOk(d) && MessageOk(d, m)
    requires EncMsg(d, m).Some? && |EncMsg(d, m).value| < U32_MOD
    ensures DecMsg(d, EncMsg(d, m).value) == Some(m)
    decreases d, 3
  {
    LoopInverts(d, m, 0, Defaults(d), {});
  }

  /** Fields before `i` are read, the others as they start out. */
  predicate ReadUpTo(d: Desc, m: Message, i: nat, st: Message, seen: set<nat>) {
    && |st| == |m| == |d.fields| && i <= |m|
    && (forall j :: 0 <= j < i ==> st[j] == m[j] && (m[j] != [] ==> j in seen))
    && (forall j :: i <= j < |m| ==> st[j] == DefaultItems(d.fields[j]))
  }

  lemma {:induction false} LoopInverts(d: Desc, m: Message, i: nat, st: Message, seen: set<nat>)
    requires DescOk(d) && MessageOk(d, m) && ReadUpTo(d, m, i, st, seen)
    requires EncFrom(d, m, i).Some? && |EncFrom(d, m, i).value| < U32_MOD
    ensures DecLoop(d, st, seen, EncFrom(d, m, i).value) == Some(m)
    decreases d, 2, |m| - i
  {
    if i == |m| {
      assert st == m;
      LastSeen(d, m, seen);
    } else {
      EncFromFirst(d, m, i);
      var e, more := EncField(d.fields[i], m[i]).value, EncFrom(d, m, i + 1).value;
      FieldStep(d, i, st, seen, m[i], more);
      LoopInverts(d, m, i + 1, st[i := m[i]], Met(seen, i, m[i]));
    }
  }

  function Met(seen: set<nat>, i: nat, items: seq<Value>): set<nat> {
    if items == [] then seen else seen + {i}
  }

  lemma EncFromFirst(d: Desc, m: Message, i: nat)
    requires DescOk(d) && MessageOk(d, m) && i < |m| && EncFrom(d, m, i).Some?
    ensures FieldOk(d.fields[i]) && PartOk(d.fields[i], m[i])
    ensures EncField(d.fields[i], m[i]).Some? && EncFrom(d, m, i + 1).Some?
    ensures EncFrom(d, m, i).value == EncField(d.fields[i], m[i]).value + EncFrom(d, m, i + 1).value
  {
    assert FieldOk(d.fields[i]) && PartOk(d.fields[i], m[i]);
  }

  lemma LastSeen(d: Desc, m: Message, seen: set<nat>)
    requires MessageOk(d, m) && forall j :: 0 <= j < |m| ==> m[j] != [] ==> j in seen
    ensures AllSeen(d, seen)
  {
    forall j | 0 <= j < |d.fields| && d.fields[j].htype.Required?
      ensures j in seen
    {
      assert PartOk(d.fields[j], m[j]);
    }
  }

  /** A field's encoding is read as its values. */
  lemma {:induction false} FieldStep(d: Desc, i: nat, st: Message, seen: set<nat>, items: seq<Value>, rest: Bytes)
    requires DescOk(d) && i < |d.fields| == |st| && st[i] == DefaultItems(d.fields[i])
    requires FieldOk(d.fields[i]) && PartOk(d.fields[i], items)
    requires EncField(d.fields[i], items).Some? && |EncField(d.fields[i], items).value| < U32_MOD
    ensures DecLoop(d, st, seen, EncField(d.fields[i], items).value + rest) ==
      DecLoop(d, st[i := items], Met(seen, i, items), rest)
    decreases d.fields[i], 2
  {
    var f := d.fields[i];
    if f.htype.Repeated? && Packable(f.ltype) && items != [] {
      PackedField(d, i, st, seen, items, rest);
    } else if f.htype.Repeated? {
      RepeatedField(d, i, st, seen, [], items, rest);
      assert [] + items == items;
    } else if items == [] {
      assert st[i := items] == st;
      assert [] + rest == rest;
    } else {
      EachFirst(f, items);
      assert items[1..] == [] && items == [items[0]];
      assert EncTagged(f, items[0]).value + [] == EncTagged(f, items[0]).value;
      SingleField(d, i, st, seen, items[0], rest);
    }
  }

  lemma EachFirst(f: Field, items: seq<Value>)
    requires FieldOk(f) && items != [] && forall k :: 0 <= k < |items| ==> ValueOk(f.ltype, f.size, items[k])
    requires EncEach(f, items).Some?
    ensures ValueOk(f.ltype, f.size, items[0]) && EncTagged(f, items[0]).Some? && EncEach(f, items[1..]).Some?
    ensures EncEach(f, items).value == EncTagged(f, items[0]).value + EncEach(f, items[1..]).value
  {
  }

  lemma PackedField(d: Desc, i: nat, st: Message, seen: set<nat>, items: seq<Value>, rest: Bytes)
    requires DescOk(d) && i < |d.fields| == |st| && st[i] == []
    requires FieldOk(d.fields[i]) && PartOk(d.fields[i], items)
    requires d.fields[i].htype.Repeated? && Packable(d.fields[i].ltype) && items != []
    requires EncField(d.fields[i], items).Some? && |EncField(d.fields[i], items).value| < U32_MOD
    ensures DecLoop(d, st, seen, EncField(d.fields[i], items).value + rest) ==
      DecLoop(d, st[i := items], seen + {i}, rest)
  {
    var f := d.fields[i];
    var b := EncPacked(f.ltype, f.size, items);
    PackedInverts(f, [], items);
    assert [] + items == items;
    FramedInverts(b, rest);
    Occurrence(d, st, seen, i, WT_STRING, Delimited(b), items, rest);
  }

  lemma {:induction false} SingleField(d: Desc, i: nat, st: Message, seen: set<nat>, v: Value, rest: Bytes)
    requires DescOk(d) && i < |d.fields| == |st|
    requires FieldOk(d.fields[i]) && ValueOk(d.fields[i].ltype, d.fields[i].size, v)
    requires d.fields[i].htype.Repeated? ==> |st[i]| < d.fields[i].cap && !Packable(d.fields[i].ltype)
    requires EncTagged(d.fields[i], v).Some? && |EncTagged(d.fields[i], v).value| < U32_MOD
    ensures DecLoop(d, st, seen, EncTagged(d.fields[i], v).value + rest) ==
      DecLoop(d, st[i := if d.fields[i].htype.Repeated? then st[i] + [v] else [v]], seen + {i}, rest)
    decreases d.fields[i], 0
  {
    var f := d.fields[i];
    var e := EncValue(f.ltype, f.size, v).value;
    ValueInverts(f.ltype, f.size, v, rest);
    Occurrence(d, st, seen, i, WireType(f.ltype), e, if f.htype.Repeated? then st[i] + [v] else [v], rest);
  }

  lemma {:induction false} RepeatedField(d: Desc, i: nat, st: Message, seen: set<nat>,
                                         had: seq<Value>, items: seq<Value>, rest: Bytes)
    requires DescOk(d) && i < |d.fields| == |st| && st[i] == had
    requires FieldOk(d.fields[i]) && d.fields[i].htype.Repeated? && |had| + |items| <= d.fields[i].cap
    requires items != [] ==> !Packable(d.fields[i].ltype)
    requires forall k :: 0 <= k < |items| ==> ValueOk(d.fields[i].ltype, d.fields[i].size, items[k])
    requires EncEach(d.fields[i], items).Some? && |EncEach(d.fields[i], items).value| < U32_MOD
    ensures DecLoop(d, st, seen, EncEach(d.fields[i], items).value + rest) ==
      DecLoop(d, st[i := had + items], Met(seen, i, items), rest)
    decreases d.fields[i], 1, |items|
  {
    var f := d.fields[i];
    if items == [] {
      assert had + items == had && st[i := had] == st;
      assert [] + rest == rest;
    } else {
      EachFirst(f, items);
      var e, more := EncTagged(f, items[0]).value, EncEach(f, items[1..]).value;
      AddedOne(st, i, had, items, seen);
      Assoc(e, more, rest);
      SingleField(d, i, st, seen, items[0], more + rest);
      RepeatedField(d, i, st[i := had + [items[0]]], seen + {i}, had + [items[0]], items[1..], rest);
    }
  }

  lemma AddedOne(st: Message, i: nat, had: seq<Value>, items: seq<Value>, seen: set<nat>)
    requires i < |st| && items != []
    ensures had + [items[0]] + items[1..] == had + items
    ensures st[i := had + [items[0]]][i := had + items] == st[i := had + items]
    ensures Met(seen + {i}, i, items[1..]) == Met(seen, i, items)
  {
  }
}
