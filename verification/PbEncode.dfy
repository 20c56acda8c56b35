/** The encoder: every message once to measure it, then again to write it, down through the submessages. */
module PbEncode {
  import opened Machine
  import opened PbWire
  import opened PbModel
  import opened PbStream

  method EncodeTag(s: OStream, wt: nat, tag: nat) returns (ok: bool)
    requires s.Valid() && 8 * tag + wt < U64_MOD
    modifies s, s.buf
    ensures s.Valid() && forall k :: 0 <= k < s.base ==> s.buf[k] == old(s.buf[k])
    ensures ok <==> old(s.Room(|Tag(tag, wt)|))
    ensures ok ==> s.sent == old(s.sent) + Tag(tag, wt)
  {
    ok := s.WriteVarint(8 * tag + wt);
  }

  method EncodeString(s: OStream, b: Bytes) returns (ok: bool)
    requires s.Valid() && |b| < U64_MOD
    modifies s, s.buf
    ensures s.Valid() && forall k :: 0 <= k < s.base ==> s.buf[k] == old(s.buf[k])
    ensures ok <==> old(s.Room(|Delimited(b)|))
    ensures ok ==> s.sent == old(s.sent) + Delimited(b)
  {
    ok := s.WriteVarint(|b|);
    if !ok {
      return;
    }
    Assoc(old(s.sent), Base128(|b|), b);
    ok := s.Write(b);
  }

  method EncodeNumber(s: OStream, t: LType, size: nat, n: int) returns (ok: bool)
    requires s.Valid() && Packable(t) && SizeOk(t, size) && NumFits(t, size, n)
    modifies s, s.buf
    ensures s.Valid() && forall k :: 0 <= k < s.base ==> s.buf[k] == old(s.buf[k])
    ensures ok <==> old(s.Room(|EncNum(t, size, n)|))
    ensures ok ==> s.sent == old(s.sent) + EncNum(t, size, n)
  {
    if t.LFixed32? || t.LFixed64? {
      ok := s.Write(LittleEndian(n, size));
    } else if t.LSvarint? {
      ok := s.WriteVarint(ZigZag(n));
    } else if t.LVarint? {
      ok := s.WriteVarint(ToU64(n));
    } else {
      ok := s.WriteVarint(n);
    }
  }

  /** Whether the stream takes what is to be encoded. */
  ghost predicate Takes(s: OStream, e: Option<Bytes>)
    reads s
  {
    e.Some? && s.Room(|e.value|)
  }

  /** Every submessage, at every depth, has an encoding whose length is a size_t. */
  ghost predicate Measured(d: Desc, m: Message)
    requires DescOk(d) && MessageOk(d, m)
    decreases d, 2
  {
    forall i :: 0 <= i < |m| ==> FieldOk(d.fields[i]) && PartOk(d.fields[i], m[i]) && MeasuredPart(d.fields[i], m[i])
  }

  ghost predicate MeasuredPart(f: Field, items: seq<Value>)
    requires FieldOk(f) && PartOk(f, items)
    decreases f, 1
  {
    forall k :: 0 <= k < |items| ==> ValueOk(f.ltype, f.size, items[k]) && MeasuredValue(f.ltype, f.size, items[k])
  }

  ghost predicate MeasuredValue(t: LType, size: nat, v: Value)
    requires ValueOk(t, size, v) && (t.LSub? ==> DescOk(t.desc))
    decreases t, 0
  {
    t.LSub? ==>
      && Measured(t.desc, v.parts)
      && (EncMsg(t.desc, v.parts).Some? ==> |EncMsg(t.desc, v.parts).value| < U32_MOD)
  }

  // ---------------------------------------------------------------- values

  method EncodeValue(s: OStream, t: LType, size: nat, v: Value) returns (ok: bool)
    requires s.Valid() && SizeOk(t, size) && size <= SIZE_MAX && ValueOk(t, size, v) && (t.LSub? ==> DescOk(t.desc))
    requires MeasuredValue(t, size, v)
    modifies s, s.buf
    ensures s.Valid() && forall k :: 0 <= k < s.base ==> s.buf[k] == old(s.buf[k])
    ensures ok <==> old(Takes(s, EncValue(t, size, v)))
    ensures ok ==> s.sent == old(s.sent) + EncValue(t, size, v).value
    decreases t, 0
  {
    match t
    case LBytes =>
      if |v.s| + 2 > size {
        return false;
      }
      ok := EncodeString(s, v.s);
    case LString =>
      if |v.s| + 1 > size {
        return false;
      }
      ok := EncodeString(s, v.s);
    case LFixedBytes =>
      ok := EncodeString(s, v.s);
    case LSub(d) =>
      ok := EncodeSubmessage(s, d, v.parts);
    case _ =>
      ok := EncodeNumber(s, t, size, v.n);
  }

  /** Measures the message, writes the length, then writes the message into a window of just that size.
      The second pass fills the window exactly: its size cannot have changed. */
  method EncodeSubmessage(s: OStream, d: Desc, m: Message) returns (ok: bool)
    requires s.Valid() && DescOk(d) && MessageOk(d, m)
    requires Measured(d, m) && (EncMsg(d, m).Some? ==> |EncMsg(d, m).value| < U32_MOD)
    modifies s, s.buf
    ensures s.Valid() && forall k :: 0 <= k < s.base ==> s.buf[k] == old(s.buf[k])
    ensures ok <==> EncMsg(d, m).Some? && old(s.Room(|Delimited(EncMsg(d, m).value)|))
    ensures ok ==> s.sent == old(s.sent) + Delimited(EncMsg(d, m).value)
    decreases d, 9
  {
    var size;
    ok, size := EncodedSize(d, m);
    if !ok {
      return;
    }
    ok := s.WriteVarint(size);
    if !ok {
      return;
    }
    Assoc(old(s.sent), Base128(size), EncMsg(d, m).value);
    if s.sizing {
      s.WriteSize(size, EncMsg(d, m).value);
      return true;
    }
    if s.written + size > s.maxSize {
      return false;
    }
    ok := EncodeWindow(s, d, m, size);
  }

  /** The length of a message's encoding, without writing it. */
  method EncodedSize(d: Desc, m: Message) returns (ok: bool, size: nat)
    requires DescOk(d) && MessageOk(d, m) && Measured(d, m)
    ensures ok <==> EncMsg(d, m).Some?
    ensures ok ==> size == |EncMsg(d, m).value|
    decreases d, 8
  {
    var measure := new OStream.Sizing();
    ok := Encode(measure, d, m);
    size := measure.written;
  }

  method EncodeWindow(s: OStream, d: Desc, m: Message, size: nat) returns (ok: bool)
    requires s.Valid() && DescOk(d) && MessageOk(d, m) && Measured(d, m)
    requires EncMsg(d, m).Some? && size == |EncMsg(d, m).value| && !s.sizing && s.written + size <= s.maxSize
    modifies s, s.buf
    ensures s.Valid() && forall k :: 0 <= k < s.base ==> s.buf[k] == old(s.buf[k])
    ensures ok && s.sent == old(s.sent) + EncMsg(d, m).value
    decreases d, 8
  {
    ghost var had, e := s.buf[s.base..s.state], EncMsg(d, m).value;
    var sub := new OStream(s.buf, s.state, size);
    ok := Encode(sub, d, m);
    assert s.buf[s.base..s.state] == had;
    Behind(s.buf[..], s.base, s.state, sub.state);
    assert s.buf[s.base..sub.state] == had + e;
    s.written, s.sent := s.written + sub.written, s.sent + sub.sent;
    s.state := sub.state;
    if sub.written != size {
      assert false;
    }
  }

  lemma Behind(b: Bytes, from: nat, at: nat, to: nat)
    requires from <= at <= to <= |b|
    ensures b[from..to] == b[from..at] + b[at..to]
  {
  }

  method Encode(s: OStream, d: Desc, m: Message) returns (ok: bool)
    requires s.Valid() && DescOk(d) && MessageOk(d, m) && Measured(d, m)
    modifies s, s.buf
    ensures s.Valid() && forall k :: 0 <= k < s.base ==> s.buf[k] == old(s.buf[k])
    ensures ok <==> old(Takes(s, EncMsg(d, m)))
    ensures ok ==> s.sent == old(s.sent) + EncMsg(d, m).value
    decreases d, 7
  {
    ghost var done: Bytes := [];
    var i := 0;
    ok := true;
    assert Takes(s, EncMsg(d, m)) <==> Takes(s, EncFrom(d, m, i));
    while i < |m|
      invariant 0 <= i <= |m| && s.Valid() && forall k :: 0 <= k < s.base ==> s.buf[k] == old(s.buf[k])
      invariant Takes(s, EncFrom(d, m, i)) <==> old(Takes(s, EncMsg(d, m)))
      invariant EncFrom(d, m, i).Some? ==>
        EncMsg(d, m).Some? && s.sent + EncFrom(d, m, i).value == old(s.sent) + EncMsg(d, m).value
    {
      ok := EncodeField(s, d.fields[i], m[i]);
      if !ok {
        return;
      }
      i := i + 1;
    }
  }

  // ---------------------------------------------------------------- fields

  /** An absent optional field is nothing; an array is packed if its type allows. */
  method EncodeField(s: OStream, f: Field, items: seq<Value>) returns (ok: bool)
    requires s.Valid() && FieldOk(f) && PartOk(f, items) && MeasuredPart(f, items)
    modifies s, s.buf
    ensures s.Valid() && forall k :: 0 <= k < s.base ==> s.buf[k] == old(s.buf[k])
    ensures ok <==> EncField(f, items).Some? && old(s.Room(|EncField(f, items).value|))
    ensures ok ==> s.sent == old(s.sent) + EncField(f, items).value
    decreases f, 6
  {
    if f.htype.Repeated? {
      ok := EncodeArray(s, f, items);
    } else {
      ok := EncodeEach(s, f, items);
    }
  }

  method EncodeArray(s: OStream, f: Field, items: seq<Value>) returns (ok: bool)
    requires s.Valid() && FieldOk(f) && PartOk(f, items) && MeasuredPart(f, items) && f.htype.Repeated?
    modifies s, s.buf
    ensures s.Valid() && forall k :: 0 <= k < s.base ==> s.buf[k] == old(s.buf[k])
    ensures ok <==> EncField(f, items).Some? && old(s.Room(|EncField(f, items).value|))
    ensures ok ==> s.sent == old(s.sent) + EncField(f, items).value
    decreases f, 5
  {
    if items == [] {
      return true;
    }
    if |items| > f.cap {
      return false;
    }
    if Packable(f.ltype) {
      ok := EncodeTag(s, WT_STRING, f.tag);
      if !ok {
        return;
      }
      Assoc(old(s.sent), Tag(f.tag, WT_STRING), Delimited(EncPacked(f.ltype, f.size, items)));
      ok := EncodePacked(s, f.ltype, f.size, items);
    } else {
      ok := EncodeEach(s, f, items);
    }
  }

  method EncodePacked(s: OStream, t: LType, size: nat, items: seq<Value>) returns (ok: bool)
    requires s.Valid() && Packable(t) && SizeOk(t, size) && |items| <= SIZE_MAX
    requires forall k :: 0 <= k < |items| ==> ValueOk(t, size, items[k])
    modifies s, s.buf
    ensures s.Valid() && forall k :: 0 <= k < s.base ==> s.buf[k] == old(s.buf[k])
    ensures ok <==> old(s.Room(|Delimited(EncPacked(t, size, items))|))
    ensures ok ==> s.sent == old(s.sent) + Delimited(EncPacked(t, size, items))
  {
    var total := PackedSize(t, size, items);
    ok := s.WriteVarint(total);
    if !ok {
      return;
    }
    Assoc(old(s.sent), Base128(total), EncPacked(t, size, items));
    if s.sizing {
      s.WriteSize(total, EncPacked(t, size, items));
      return true;
    }
    ok := EncodeNumbers(s, t, size, items);
  }

  /** The bytes a packed array will take: by multiplication, or by a measuring stream. */
  method PackedSize(t: LType, size: nat, items: seq<Value>) returns (total: nat)
    requires Packable(t) && SizeOk(t, size) && |items| <= SIZE_MAX
    requires forall k :: 0 <= k < |items| ==> ValueOk(t, size, items[k])
    ensures total == |EncPacked(t, size, items)| <= 10 * |items|
  {
    PackedBound(t, size, items);
    if t.LFixed32? {
      total := 4 * |items|;
    } else if t.LFixed64? {
      total := 8 * |items|;
    } else {
      var measure := new OStream.Sizing();
      var ok := EncodeNumbers(measure, t, size, items);
      total := measure.written;
    }
  }

  lemma {:induction false} PackedBound(t: LType, size: nat, items: seq<Value>)
    requires Packable(t) && SizeOk(t, size)
    requires forall k :: 0 <= k < |items| ==> ValueOk(t, size, items[k])
    ensures |EncPacked(t, size, items)| <= 10 * |items|
    ensures t.LFixed32? || t.LFixed64? ==> |EncPacked(t, size, items)| == size * |items|
    decreases |items|
  {
    if items != [] {
      assert ValueOk(t, size, items[0]);
      NumberBound(t, size, items[0].n);
      PackedBound(t, size, items[1..]);
    }
  }

  lemma NumberBound(t: LType, size: nat, n: int)
    requires Packable(t) && SizeOk(t, size) && NumFits(t, size, n)
    ensures |EncNum(t, size, n)| <= 10
    ensures t.LFixed32? || t.LFixed64? ==> |EncNum(t, size, n)| == size
  {
    if t.LSvarint? {
      Dec64Inverts(ZigZag(n), []);
    } else if t.LVarint? {
      Dec64Inverts(ToU64(n), []);
    } else if t.LUvarint? || t.LBool? {
      Dec64Inverts(n, []);
    }
  }

  method EncodeNumbers(s: OStream, t: LType, size: nat, items: seq<Value>) returns (ok: bool)
    requires s.Valid() && Packable(t) && SizeOk(t, size)
    requires forall k :: 0 <= k < |items| ==> ValueOk(t, size, items[k])
    modifies s, s.buf
    ensures s.Valid() && forall k :: 0 <= k < s.base ==> s.buf[k] == old(s.buf[k])
    ensures ok <==> old(s.Room(|EncPacked(t, size, items)|))
    ensures ok ==> s.sent == old(s.sent) + EncPacked(t, size, items)
  {
    ghost var rest, end, fits := items, s.sent + EncPacked(t, size, items), s.Room(|EncPacked(t, size, items)|);
    var i := 0;
    ok := true;
    while i < |items|
      invariant 0 <= i <= |items| && s.Valid() && forall k :: 0 <= k < s.base ==> s.buf[k] == old(s.buf[k])
      invariant rest == items[i..] && (forall k :: 0 <= k < |rest| ==> ValueOk(t, size, rest[k]))
      invariant ok && Awaits(s, EncPacked(t, size, rest), end, fits)
    {
      ok := EncodeNext(s, t, size, items[i], rest, end, fits);
      if !ok {
        return;
      }
      i, rest := i + 1, rest[1..];
    }
  }

  /** With `left` still to be written the stream will end as it should, and `fits` says whether there is room. */
  ghost predicate Awaits(s: OStream, left: Bytes, end: Bytes, fits: bool)
    reads s
  {
    s.sent + left == end && (s.Room(|left|) <==> fits)
  }

  method EncodeNext(s: OStream, t: LType, size: nat, v: Value, ghost rest: seq<Value>,
                    ghost end: Bytes, ghost fits: bool)
    returns (ok: bool)
    requires s.Valid() && Packable(t) && SizeOk(t, size) && rest != [] && v == rest[0]
    requires forall k :: 0 <= k < |rest| ==> ValueOk(t, size, rest[k])
    requires Awaits(s, EncPacked(t, size, rest), end, fits)
    modifies s, s.buf
    ensures s.Valid() && forall k :: 0 <= k < s.base ==> s.buf[k] == old(s.buf[k])
    ensures !ok ==> !fits
    ensures ok ==> Awaits(s, EncPacked(t, size, rest[1..]), end, fits)
  {
    assert ValueOk(t, size, v);
    Assoc(s.sent, EncNum(t, size, v.n), EncPacked(t, size, rest[1..]));
    ok := EncodeNumber(s, t, size, v.n);
  }

  /** Each value behind its own tag. */
  method EncodeEach(s: OStream, f: Field, items: seq<Value>) returns (ok: bool)
    requires s.Valid() && FieldOk(f) && PartOk(f, items) && MeasuredPart(f, items)
    modifies s, s.buf
    ensures s.Valid() && forall k :: 0 <= k < s.base ==> s.buf[k] == old(s.buf[k])
    ensures ok <==> EncEach(f, items).Some? && old(s.Room(|EncEach(f, items).value|))
    ensures ok ==> s.sent == old(s.sent) + EncEach(f, items).value
    decreases f, 4
  {
    var i := 0;
    ok := true;
    assert items[0..] == items;
    while i < |items|
      invariant 0 <= i <= |items| && s.Valid() && forall k :: 0 <= k < s.base ==> s.buf[k] == old(s.buf[k])
      invariant EncEach(f, items[i..]).Some? <==> EncEach(f, items).Some?
      invariant EncEach(f, items).Some? ==>
        && (s.Room(|EncEach(f, items[i..]).value|) <==> old(s.Room(|EncEach(f, items).value|)))
        && s.sent + EncEach(f, items[i..]).value == old(s.sent) + EncEach(f, items).value
      invariant ok
    {
      EachSplit(f, items, i, s.sent);
      ok := EncodeTagged(s, f, items[i]);
      if !ok {
        return;
      }
      i := i + 1;
    }
  }

  lemma EachSplit(f: Field, items: seq<Value>, i: nat, sent: Bytes)
    requires FieldOk(f) && PartOk(f, items) && i < |items|
    ensures var e, more := EncTagged(f, items[i]), EncEach(f, items[i + 1..]);
      && EncEach(f, items[i..]) == Then(e, more)
      && (e.Some? && more.Some? ==> sent + EncEach(f, items[i..]).value == sent + e.value + more.value)
  {
    assert items[i..][0] == items[i] && items[i..][1..] == items[i + 1..];
  }

  method EncodeTagged(s: OStream, f: Field, v: Value) returns (ok: bool)
    requires s.Valid() && FieldOk(f) && ValueOk(f.ltype, f.size, v) && MeasuredValue(f.ltype, f.size, v)
    modifies s, s.buf
    ensures s.Valid() && forall k :: 0 <= k < s.base ==> s.buf[k] == old(s.buf[k])
    ensures ok <==> EncTagged(f, v).Some? && old(s.Room(|EncTagged(f, v).value|))
    ensures ok ==> s.sent == old(s.sent) + EncTagged(f, v).value
    decreases f, 3
  {
    ok := EncodeTag(s, WireType(f.ltype), f.tag);
    if !ok {
      return;
    }
    ok := EncodeValue(s, f.ltype, f.size, v);
    if ok {
      Assoc(old(s.sent), Tag(f.tag, WireType(f.ltype)), EncValue(f.ltype, f.size, v).value);
    }
  }
}
