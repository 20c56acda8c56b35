/** What a reader makes of one field more, in numbers: which occurrences it takes, and which make it give up. */
module PbReads {
  import opened Machine
  import opened PbWire
  import opened PbModel
  import opened PbRoundTrip
  import opened PbBytes

  /** The reader has read `st` and meets this tag and wire type, with `rest` behind them. */
  function Meets(d: Desc, st: Message, seen: set<nat>, tag: nat, wt: nat, rest: Bytes): Option<Message>
    requires |st| == |d.fields|
  {
    DecLoop(d, st, seen, Base128(8 * tag + wt) + rest)
  }

  lemma MeetsKnown(d: Desc, st: Message, seen: set<nat>, i: nat, wt: nat, rest: Bytes)
    requires DescOk(d) && |st| == |d.fields| && i < |st| && wt < 8
    ensures var x := DecField(d.fields[i], st[i], wt, rest);
      Meets(d, st, seen, d.fields[i].tag, wt, rest) ==
        if x.Bad? then None else DecLoop(d, st[i := x.value], seen + {i}, rest[x.used..])
  {
    assert FieldOk(d.fields[i]);
    TagFound(d.fields, i);
    LoopStep(d, st, seen, Base128(8 * d.fields[i].tag + wt) + rest, d.fields[i].tag, wt, rest, i);
  }

  /** A known field of another wire type than its own ends it all, but for an array of numbers, which may come
      packed. */
  lemma WrongWireType(d: Desc, st: Message, seen: set<nat>, i: nat, wt: nat, rest: Bytes)
    requires DescOk(d) && |st| == |d.fields| && i < |st| && wt < 8 && wt != Kind(d.fields[i].ltype)
    requires !(d.fields[i].htype.Repeated? && wt == 2)
    ensures Meets(d, st, seen, d.fields[i].tag, wt, rest) == None
  {
    MeetsKnown(d, st, seen, i, wt, rest);
  }

  /** So does one more value for an array that is full. */
  lemma FullArray(d: Desc, st: Message, seen: set<nat>, i: nat, rest: Bytes)
    requires DescOk(d) && |st| == |d.fields| && i < |st|
    requires d.fields[i].htype.Repeated? && |st[i]| >= d.fields[i].cap
    ensures Meets(d, st, seen, d.fields[i].tag, Kind(d.fields[i].ltype), rest) == None
  {
    MeetsKnown(d, st, seen, i, Kind(d.fields[i].ltype), rest);
  }

  /** Of a field that is no array the last value stays; an array takes one value more. */
  lemma OneMore(d: Desc, st: Message, seen: set<nat>, i: nat, v: Value, rest: Bytes)
    requires DescOk(d) && |st| == |d.fields| && i < |st|
    requires FieldOk(d.fields[i]) && ValueOk(d.fields[i].ltype, d.fields[i].size, v)
    requires EncValue(d.fields[i].ltype, d.fields[i].size, v).Some? && |ValueBytes(d.fields[i].ltype, v)| < U32_MOD
    requires d.fields[i].htype.Repeated? ==> |st[i]| < d.fields[i].cap
    ensures var f, b := d.fields[i], ValueBytes(d.fields[i].ltype, v);
      Meets(d, st, seen, f.tag, Kind(f.ltype), b + rest) ==
        DecLoop(d, st[i := if f.htype.Repeated? then st[i] + [v] else [v]], seen + {i}, rest)
  {
    var f, b := d.fields[i], ValueBytes(d.fields[i].ltype, v);
    ValueIs(f.ltype, f.size, v);
    ValueInverts(f.ltype, f.size, v, rest);
    MeetsKnown(d, st, seen, i, Kind(f.ltype), b + rest);
    assert (b + rest)[|b|..] == rest;
  }

  predicate UnknownTag(d: Desc, tag: nat) {
    0 < tag < 0x1_0000 && forall i :: 0 <= i < |d.fields| ==> d.fields[i].tag != tag
  }

  lemma MeetsUnknown(d: Desc, st: Message, seen: set<nat>, tag: nat, wt: nat, rest: Bytes)
    requires |st| == |d.fields| && UnknownTag(d, tag) && wt < 8
    ensures var n := Skip(wt, rest);
      Meets(d, st, seen, tag, wt, rest) == if n.None? then None else DecLoop(d, st, seen, rest[n.value..])
  {
    assert FindTag(d.fields, tag) == |d.fields|;
    TagRead(Base128(8 * tag + wt) + rest, tag, wt, rest);
  }

  /** The value of an unknown field is passed over: a varint up to the byte whose top bit is clear; */
  lemma UnknownVarint(d: Desc, st: Message, seen: set<nat>, tag: nat, body: Bytes, rest: Bytes)
    requires |st| == |d.fields| && UnknownTag(d, tag)
    requires body != [] && body[|body| - 1] < 128 && forall i :: 0 <= i < |body| - 1 ==> body[i] >= 128
    ensures Meets(d, st, seen, tag, 0, body + rest) == DecLoop(d, st, seen, rest)
  {
    MeetsUnknown(d, st, seen, tag, 0, body + rest);
    VarintEnds(body, rest);
    assert (body + rest)[|body|..] == rest;
  }

  /** eight or four bytes; */
  lemma UnknownFixed(d: Desc, st: Message, seen: set<nat>, tag: nat, wt: nat, body: Bytes, rest: Bytes)
    requires |st| == |d.fields| && UnknownTag(d, tag) && ((wt == 1 && |body| == 8) || (wt == 5 && |body| == 4))
    ensures Meets(d, st, seen, tag, wt, body + rest) == DecLoop(d, st, seen, rest)
  {
    MeetsUnknown(d, st, seen, tag, wt, body + rest);
    assert (body + rest)[|body|..] == rest;
  }

  /** as many bytes as the length says; */
  lemma UnknownText(d: Desc, st: Message, seen: set<nat>, tag: nat, body: Bytes, rest: Bytes)
    requires |st| == |d.fields| && UnknownTag(d, tag) && |body| < 0x1_0000_0000
    ensures Meets(d, st, seen, tag, 2, Behind(body) + rest) == DecLoop(d, st, seen, rest)
  {
    MeetsUnknown(d, st, seen, tag, 2, Behind(body) + rest);
    FramedInverts(body, rest);
    assert (Behind(body) + rest)[|Behind(body)|..] == rest;
  }

  /** and any other wire type ends it all. */
  lemma UnknownWireType(d: Desc, st: Message, seen: set<nat>, tag: nat, wt: nat, rest: Bytes)
    requires |st| == |d.fields| && UnknownTag(d, tag) && wt < 8 && wt !in {0, 1, 2, 5}
    ensures Meets(d, st, seen, tag, wt, rest) == None
  {
    MeetsUnknown(d, st, seen, tag, wt, rest);
  }

  lemma {:induction false} VarintEnds(body: Bytes, rest: Bytes)
    requires body != [] && body[|body| - 1] < 128 && forall i :: 0 <= i < |body| - 1 ==> body[i] >= 128
    ensures VarintLength(body + rest) == |body|
    decreases |body|
  {
    if 1 < |body| {
      assert (body + rest)[1..] == body[1..] + rest;
      VarintEnds(body[1..], rest);
    }
  }

  /** Tag 0 ends it all. */
  lemma TagZero(d: Desc, st: Message, seen: set<nat>, wt: nat, rest: Bytes)
    requires |st| == |d.fields| && wt < 8
    ensures Meets(d, st, seen, 0, wt, rest) == None
  {
    Dec32Means(wt, rest);
  }
}
