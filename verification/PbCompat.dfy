/** When encoding succeeds, and what a reader makes of fields it does not know. */
module PbCompat {
  import opened Machine
  import opened PbWire
  import opened PbModel
  import opened PbRoundTrip

  // ---------------------------------------------------------------- when encoding succeeds

  predicate ValueFits(t: LType, size: nat, v: Value)
    decreases t, 0
  {
    match t
    case LBytes => v.Text? ==> |v.s| + 2 <= size
    case LString => v.Text? ==> |v.s| < size
    case LSub(d) => v.Msg? ==> MessageFits(d, v.parts)
    case _ => true
  }

  /** Texts fit their buffers, with the length or the terminator; arrays their capacity; all the way down. */
  predicate MessageFits(d: Desc, m: Message)
    decreases d, 1
  {
    forall i :: 0 <= i < |m| && i < |d.fields| ==> PartFits(d.fields[i], m[i])
  }

  predicate PartFits(f: Field, items: seq<Value>)
    decreases f, 0
  {
    && (f.htype.Repeated? ==> |items| <= f.cap)
    && forall k :: 0 <= k < |items| ==> ValueFits(f.ltype, f.size, items[k])
  }

  /** A message is encoded if and only if everything in it fits its storage. */
  lemma {:induction false} EncodesExactly(d: Desc, m: Message)
    requires DescOk(d) && MessageOk(d, m)
    ensures EncMsg(d, m).Some? <==> MessageFits(d, m)
    decreases d, 3
  {
    FromFits(d, m, 0);
  }

  lemma {:induction false} FromFits(d: Desc, m: Message, i: nat)
    requires DescOk(d) && MessageOk(d, m) && i <= |m|
    ensures EncFrom(d, m, i).Some? <==> forall j :: i <= j < |m| ==> PartFits(d.fields[j], m[j])
    decreases d, 2, |m| - i
  {
    if i < |m| {
      assert FieldOk(d.fields[i]) && PartOk(d.fields[i], m[i]);
      FieldFits(d.fields[i], m[i]);
      FromFits(d, m, i + 1);
    }
  }

  lemma {:induction false} FieldFits(f: Field, items: seq<Value>)
    requires FieldOk(f) && PartOk(f, items)
    ensures EncField(f, items).Some? <==> PartFits(f, items)
    decreases f, 2
  {
    if f.htype.Repeated? && Packable(f.ltype) && items != [] {
      assert forall k :: 0 <= k < |items| ==> ValueFits(f.ltype, f.size, items[k]);
    } else {
      EachFits(f, items);
    }
  }

  lemma {:induction false} EachFits(f: Field, items: seq<Value>)
    requires FieldOk(f) && forall k :: 0 <= k < |items| ==> ValueOk(f.ltype, f.size, items[k])
    ensures EncEach(f, items).Some? <==> forall k :: 0 <= k < |items| ==> ValueFits(f.ltype, f.size, items[k])
    decreases f, 1, |items|
  {
    if items != [] {
      var rest := items[1..];
      OneFits(f.ltype, f.size, items[0]);
      EachFits(f, rest);
      assert forall k :: 1 <= k < |items| ==> items[k] == rest[k - 1];
      assert forall k :: 0 <= k < |rest| ==> rest[k] == items[k + 1];
    }
  }

  lemma {:induction false} OneFits(t: LType, size: nat, v: Value)
    requires SizeOk(t, size) && ValueOk(t, size, v) && (t.LSub? ==> DescOk(t.desc))
    ensures EncValue(t, size, v).Some? <==> ValueFits(t, size, v)
    decreases t, 0
  {
    if t.LSub? {
      EncodesExactly(t.desc, v.parts);
    }
  }

  // ---------------------------------------------------------------- unknown fields

  /** A field is skipped by exactly the bytes of its value. */
  lemma SkipsValue(t: LType, size: nat, v: Value, rest: Bytes)
    requires SizeOk(t, size) && ValueOk(t, size, v) && (t.LSub? ==> DescOk(t.desc))
    requires EncValue(t, size, v).Some? && |EncValue(t, size, v).value| < U32_MOD
    ensures var e := EncValue(t, size, v).value; Skip(WireType(t), e + rest) == Some(|e|)
  {
    if t.LFixed32? || t.LFixed64? {
    } else if Packable(t) {
      SkipsNumber(t, size, v.n, rest);
    } else {
      var b := if t.LSub? then EncFrom(t.desc, v.parts, 0).value else v.s;
      assert EncValue(t, size, v).value == Delimited(b);
      FramedInverts(b, rest);
    }
  }

  lemma SkipsNumber(t: LType, size: nat, n: int, rest: Bytes)
    requires Packable(t) && !t.LFixed32? && !t.LFixed64? && SizeOk(t, size) && NumFits(t, size, n)
    ensures VarintLength(EncNum(t, size, n) + rest) == |EncNum(t, size, n)| && 0 < |EncNum(t, size, n)|
  {
    var v := if t.LSvarint? then ZigZag(n) else if t.LVarint? then ToU64(n) else n;
    SkipsVarint(v, rest);
  }

  /** An occurrence of a field the reader has no tag for changes nothing. */
  lemma UnknownSkipped(d: Desc, st: Message, seen: set<nat>, tag: nat, wt: nat, body: Bytes, rest: Bytes)
    requires |st| == |d.fields| && 0 < tag < TAG_END && wt < 8 && FindTag(d.fields, tag) == |d.fields|
    requires Skip(wt, body + rest) == Some(|body|)
    ensures DecLoop(d, st, seen, Tag(tag, wt) + body + rest) == DecLoop(d, st, seen, rest)
  {
    var s := Tag(tag, wt) + body + rest;
    assert s == Tag(tag, wt) + (body + rest);
    TagRead(s, tag, wt, body + rest);
    assert (body + rest)[|body|..] == rest;
  }

  lemma {:induction false} EachSkipped(d: Desc, st: Message, seen: set<nat>, f: Field, items: seq<Value>, rest: Bytes)
    requires |st| == |d.fields| && FieldOk(f) && FindTag(d.fields, f.tag) == |d.fields|
    requires forall k :: 0 <= k < |items| ==> ValueOk(f.ltype, f.size, items[k])
    requires EncEach(f, items).Some? && |EncEach(f, items).value| < U32_MOD
    ensures DecLoop(d, st, seen, EncEach(f, items).value + rest) == DecLoop(d, st, seen, rest)
    decreases |items|
  {
    if items == [] {
      assert [] + rest == rest;
    } else {
      EachFirst(f, items);
      var e, more := EncTagged(f, items[0]).value, EncEach(f, items[1..]).value;
      Assoc(e, more, rest);
      SkipsValue(f.ltype, f.size, items[0], more + rest);
      UnknownSkipped(d, st, seen, f.tag, WireType(f.ltype), EncValue(f.ltype, f.size, items[0]).value, more + rest);
      EachSkipped(d, st, seen, f, items[1..], rest);
    }
  }

  lemma FieldSkipped(d: Desc, st: Message, seen: set<nat>, f: Field, items: seq<Value>, rest: Bytes)
    requires |st| == |d.fields| && FieldOk(f) && PartOk(f, items) && FindTag(d.fields, f.tag) == |d.fields|
    requires EncField(f, items).Some? && |EncField(f, items).value| < U32_MOD
    ensures DecLoop(d, st, seen, EncField(f, items).value + rest) == DecLoop(d, st, seen, rest)
  {
    if f.htype.Repeated? && Packable(f.ltype) && items != [] {
      var b := EncPacked(f.ltype, f.size, items);
      FramedInverts(b, rest);
      UnknownSkipped(d, st, seen, f.tag, WT_STRING, Delimited(b), rest);
    } else {
      EachSkipped(d, st, seen, f, items, rest);
    }
  }

  // ---------------------------------------------------------------- an older reader

  function Drop<T>(s: seq<T>, k: nat): (r: seq<T>)
    requires k < |s|
    ensures |r| == |s| - 1
    ensures forall i :: 0 <= i < |r| ==> r[i] == s[if i < k then i else i + 1]
  {
    s[..k] + s[k + 1..]
  }

  /** The descriptor before field `k` was added to it. */
  function Older(d: Desc, k: nat): Desc
    requires k < |d.fields|
  {
    Desc(Drop(d.fields, k))
  }

  lemma OlderOk(d: Desc, k: nat)
    requires DescOk(d) && k < |d.fields|
    ensures DescOk(Older(d, k)) && FindTag(Older(d, k).fields, d.fields[k].tag) == |Older(d, k).fields|
  {
    var o := Older(d, k).fields;
    forall i | 0 <= i < |o|
      ensures FieldOk(o[i])
    {
      assert FieldOk(d.fields[if i < k then i else i + 1]);
    }
    var f := FindTag(o, d.fields[k].tag);
  }

  /** Where field `i` is in the older descriptor, or would be. */
  function Place(i: nat, k: nat): nat {
    if i <= k then i else i - 1
  }

  lemma OlderKeeps(d: Desc, m: Message, k: nat, i: nat, st: Message, seen: set<nat>)
    requires DescOk(d) && MessageOk(d, m) && k < |m| && i < |m| && i != k
    requires ReadUpTo(Older(d, k), Drop(m, k), Place(i, k), st, seen)
    requires EncFrom(d, m, i).Some? && |EncFrom(d, m, i).value| < U32_MOD
    ensures EncFrom(d, m, i + 1).Some? && |EncFrom(d, m, i + 1).value| < U32_MOD
    ensures var st1, seen1 := st[Place(i, k) := m[i]], Met(seen, Place(i, k), m[i]);
      && ReadUpTo(Older(d, k), Drop(m, k), Place(i + 1, k), st1, seen1)
      && DecLoop(Older(d, k), st, seen, EncFrom(d, m, i).value) ==
           DecLoop(Older(d, k), st1, seen1, EncFrom(d, m, i + 1).value)
  {
    var o, j := Older(d, k), Place(i, k);
    OlderOk(d, k);
    EncFromFirst(d, m, i);
    OlderReadNext(d, m, k, i, st, seen);
    FieldStep(o, j, st, seen, m[i], EncFrom(d, m, i + 1).value);
  }

  lemma OlderReadNext(d: Desc, m: Message, k: nat, i: nat, st: Message, seen: set<nat>)
    requires DescOk(d) && MessageOk(d, m) && k < |m| && i < |m| && i != k
    requires ReadUpTo(Older(d, k), Drop(m, k), Place(i, k), st, seen)
    ensures Place(i, k) < |Older(d, k).fields| && Older(d, k).fields[Place(i, k)] == d.fields[i]
    ensures Place(i, k) < |st| && st[Place(i, k)] == Defaults(Older(d, k))[Place(i, k)]
    ensures ReadUpTo(Older(d, k), Drop(m, k), Place(i + 1, k),
                     st[Place(i, k) := m[i]], Met(seen, Place(i, k), m[i]))
  {
    OlderOk(d, k);
    assert Drop(m, k)[Place(i, k)] == m[i];
    ReadNext(Older(d, k), Drop(m, k), Place(i, k), st, seen);
  }

  lemma OlderSkips(d: Desc, m: Message, k: nat, st: Message, seen: set<nat>)
    requires DescOk(d) && MessageOk(d, m) && k < |m| && |st| == |m| - 1
    requires EncFrom(d, m, k).Some? && |EncFrom(d, m, k).value| < U32_MOD
    ensures EncFrom(d, m, k + 1).Some? && |EncFrom(d, m, k + 1).value| < U32_MOD
    ensures DecLoop(Older(d, k), st, seen, EncFrom(d, m, k).value) ==
      DecLoop(Older(d, k), st, seen, EncFrom(d, m, k + 1).value)
  {
    OlderOk(d, k);
    EncFromFirst(d, m, k);
    FieldSkipped(Older(d, k), st, seen, d.fields[k], m[k], EncFrom(d, m, k + 1).value);
  }

  lemma {:induction false} OlderLoop(d: Desc, m: Message, k: nat, i: nat, st: Message, seen: set<nat>)
    requires DescOk(d) && MessageOk(d, m) && k < |m| && i <= |m|
    requires ReadUpTo(Older(d, k), Drop(m, k), Place(i, k), st, seen)
    requires EncFrom(d, m, i).Some? && |EncFrom(d, m, i).value| < U32_MOD
    ensures DecLoop(Older(d, k), st, seen, EncFrom(d, m, i).value) == Some(Drop(m, k))
    decreases |m| - i
  {
    if i == |m| {
      OlderEnd(d, m, k, i, st, seen);
    } else {
      var st1, seen1 := OlderStep(d, m, k, i, st, seen);
      OlderLoop(d, m, k, i + 1, st1, seen1);
    }
  }

  lemma OlderStep(d: Desc, m: Message, k: nat, i: nat, st: Message, seen: set<nat>)
    returns (st1: Message, seen1: set<nat>)
    requires DescOk(d) && MessageOk(d, m) && k < |m| && i < |m|
    requires ReadUpTo(Older(d, k), Drop(m, k), Place(i, k), st, seen)
    requires EncFrom(d, m, i).Some? && |EncFrom(d, m, i).value| < U32_MOD
    ensures EncFrom(d, m, i + 1).Some? && |EncFrom(d, m, i + 1).value| < U32_MOD
    ensures ReadUpTo(Older(d, k), Drop(m, k), Place(i + 1, k), st1, seen1)
    ensures DecLoop(Older(d, k), st, seen, EncFrom(d, m, i).value) ==
      DecLoop(Older(d, k), st1, seen1, EncFrom(d, m, i + 1).value)
  {
    if i == k {
      OlderSkips(d, m, k, st, seen);
      st1, seen1 := st, seen;
    } else {
      OlderKeeps(d, m, k, i, st, seen);
      st1, seen1 := st[Place(i, k) := m[i]], Met(seen, Place(i, k), m[i]);
    }
  }

  lemma OlderEnd(d: Desc, m: Message, k: nat, i: nat, st: Message, seen: set<nat>)
    requires DescOk(d) && MessageOk(d, m) && k < |m| == i && ReadUpTo(Older(d, k), Drop(m, k), i - 1, st, seen)
    ensures EncFrom(d, m, i).Some? && DecLoop(Older(d, k), st, seen, EncFrom(d, m, i).value) == Some(Drop(m, k))
  {
    assert st == Drop(m, k);
    OlderSeen(d, m, k, seen);
  }

  lemma ReadNext(d: Desc, m: Message, i: nat, st: Message, seen: set<nat>)
    requires ReadUpTo(d, m, i, st, seen) && i < |m|
    ensures st[i] == DefaultItems(d.fields[i]) && ReadUpTo(d, m, i + 1, st[i := m[i]], Met(seen, i, m[i]))
  {
  }

  lemma OlderSeen(d: Desc, m: Message, k: nat, seen: set<nat>)
    requires MessageOk(d, m) && k < |m|
    requires forall j :: 0 <= j < |m| - 1 ==> Drop(m, k)[j] != [] ==> j in seen
    ensures AllSeen(Older(d, k), seen)
  {
    var o := Older(d, k);
    forall j | 0 <= j < |o.fields| && o.fields[j].htype.Required?
      ensures j in seen
    {
      var i := if j < k then j else j + 1;
      assert PartOk(d.fields[i], m[i]);
    }
  }

  /** A reader that does not know one of the fields reads the message without it. */
  lemma OlderReaderReads(d: Desc, m: Message, k: nat)
    requires DescOk(d) && MessageOk(d, m) && k < |m|
    requires EncMsg(d, m).Some? && |EncMsg(d, m).value| < U32_MOD
    ensures DecMsg(Older(d, k), EncMsg(d, m).value) == Some(Drop(m, k))
  {
    var o := Older(d, k);
    assert ReadUpTo(o, Drop(m, k), 0, Defaults(o), {});
    OlderLoop(d, m, k, 0, Defaults(o), {});
  }
}
