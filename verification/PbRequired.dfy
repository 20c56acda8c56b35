/** Required fields: no message without a watched one is accepted, whoever wrote it. */
module PbRequired {
  import opened Machine
  import opened PbWire
  import opened PbModel
  import opened PbRoundTrip
  import opened PbCompat

  // ---------------------------------------------------------------- any bytes at all

  /** The bytes hold this tag, stepping from each tag over its value to the next. */
  predicate Occurs(s: Bytes, tag: nat)
    decreases |s|
  {
    var t := Dec32(s);
    && s != [] && t.Parsed?
    && (t.value / 8 == tag
        || (var rest := s[t.used..];
            var n := Skip(t.value % 8, rest);
            n.Some? && Occurs(rest[n.value..], tag)))
  }

  lemma {:induction false} Dec64Length(s: seq<u8>, n: nat, result: nat)
    requires n <= |s| && Dec64At(s, n, result).Parsed?
    ensures VarintLength(s[n..]) == Dec64At(s, n, result).used - n
    decreases |s| - n
  {
    var t := s[n..];
    assert t[0] == s[n] && t[1..] == s[n + 1..];
    if s[n] >= 128 {
      Dec64Length(s, n + 1, Low64(result + s[n] % 128 * Pow128(n)));
    }
  }

  lemma {:induction false} Dec32Length(s: seq<u8>, n: nat, result: u32)
    requires n <= |s| && Dec32At(s, n, result).Parsed?
    ensures VarintLength(s[n..]) == Dec32At(s, n, result).used - n
    decreases |s| - n
  {
    var t := s[n..];
    assert t[0] == s[n] && t[1..] == s[n + 1..];
    if s[n] >= 128 {
      Dec32Length(s, n + 1, if 7 * n >= 32 then result else Low32(result + s[n] % 128 * Pow128(n)));
    }
  }

  lemma NumberLength(t: LType, size: nat, s: Bytes)
    requires Packable(t) && SizeOk(t, size) && DecNum(t, size, s).Parsed?
    ensures Skip(WireType(t), s) == Some(DecNum(t, size, s).used)
  {
    assert s[0..] == s;
    if t.LBool? {
      if s[0] >= 128 {
        Dec32Length(s, 1, s[0] % 128);
      }
    } else if !t.LFixed32? && !t.LFixed64? {
      Dec64Length(s, 0, 0);
    }
  }

  /** A known field takes the bytes that an unknown one would be skipped by. */
  lemma FieldLength(f: Field, items: seq<Value>, wt: nat, s: Bytes)
    requires FieldOk(f) && DecField(f, items, wt, s).Parsed?
    ensures Skip(wt, s) == Some(DecField(f, items, wt, s).used)
  {
    if !(f.htype.Repeated? && wt == WT_STRING) && Packable(f.ltype) {
      NumberLength(f.ltype, f.size, s);
    }
  }

  lemma {:induction false} LoopNeeds(d: Desc, m: Message, seen: set<nat>, s: Bytes, i: nat)
    requires DescOk(d) && |m| == |d.fields| && DecLoop(d, m, seen, s).Some?
    requires i < |d.fields| && d.fields[i].htype.Required? && RequiredBefore(d.fields, i) < 64 && i !in seen
    ensures Occurs(s, d.fields[i].tag)
    decreases |s|
  {
    if s != [] {
      var t := Dec32(s);
      var rest, wt, k := s[t.used..], t.value % 8, FindTag(d.fields, t.value / 8);
      if k == |d.fields| {
        LoopNeeds(d, m, seen, rest[Skip(wt, rest).value..], i);
      } else if k != i {
        assert FieldOk(d.fields[k]);
        var x := DecField(d.fields[k], m[k], wt, rest);
        FieldLength(d.fields[k], m[k], wt, rest);
        LoopNeeds(d, m[k := x.value], seen + {k}, rest[x.used..], i);
      }
    }
  }

  /** Whatever the bytes: a message in which a required field never occurs is refused. The first 64 required fields of
      a descriptor are watched. */
  lemma RequiredOccurs(d: Desc, s: Bytes, i: nat)
    requires DescOk(d) && i < |d.fields| && d.fields[i].htype.Required? && RequiredBefore(d.fields, i) < 64
    requires !Occurs(s, d.fields[i].tag)
    ensures DecMsg(d, s) == None
  {
    if DecMsg(d, s).Some? {
      LoopNeeds(d, Defaults(d), {}, s, i);
    }
  }

  // ---------------------------------------------------------------- an older writer

  /** Where field `i` of the older descriptor is in the newer one. */
  function Up(i: nat, k: nat): nat {
    if i < k then i else i + 1
  }

  predicate GotUpTo(d: Desc, m: Message, k: nat, i: nat, st: Message, seen: set<nat>) {
    && k < |d.fields| == |st| == |m| + 1 && i <= |m| && k !in seen && st[k] == DefaultItems(d.fields[k])
    && (forall j :: 0 <= j < i ==> st[Up(j, k)] == m[j] && (m[j] != [] ==> Up(j, k) in seen))
    && (forall j :: i <= j < |m| ==> st[Up(j, k)] == DefaultItems(d.fields[Up(j, k)]))
  }

  /** The reader insists on field `k`. */
  predicate Insists(d: Desc, k: nat)
    requires k < |d.fields|
  {
    d.fields[k].htype.Required? && RequiredBefore(d.fields, k) < 64
  }

  lemma GotNext(d: Desc, m: Message, k: nat, i: nat, st: Message, seen: set<nat>)
    requires GotUpTo(d, m, k, i, st, seen) && i < |m|
    ensures GotUpTo(d, m, k, i + 1, st[Up(i, k) := m[i]], Met(seen, Up(i, k), m[i]))
  {
  }

  /** The message as the newer reader has it: the missing field as it starts out. */
  function Filled(d: Desc, m: Message, k: nat): (r: Message)
    requires k < |d.fields| && k <= |m|
  {
    m[..k] + [DefaultItems(d.fields[k])] + m[k..]
  }

  lemma GotAll(d: Desc, m: Message, k: nat, st: Message, seen: set<nat>)
    requires DescOk(d) && k < |d.fields| && MessageOk(Older(d, k), m) && GotUpTo(d, m, k, |m|, st, seen)
    ensures st == Filled(d, m, k) && (AllSeen(d, seen) <==> !Insists(d, k))
  {
    var o, r := Older(d, k), Filled(d, m, k);
    forall j | 0 <= j < |st|
      ensures st[j] == r[j]
    {
      if j != k {
        var i := if j < k then j else j - 1;
        assert Up(i, k) == j && r[j] == m[i];
      }
    }
    forall j | 0 <= j < |d.fields| && j != k && d.fields[j].htype.Required?
      ensures j in seen
    {
      var i := if j < k then j else j - 1;
      assert Up(i, k) == j && o.fields[i] == d.fields[j];
      assert PartOk(o.fields[i], m[i]);
    }
  }

  lemma {:induction false} NewerLoop(d: Desc, m: Message, k: nat, i: nat, st: Message, seen: set<nat>)
    requires DescOk(d) && k < |d.fields| && DescOk(Older(d, k)) && MessageOk(Older(d, k), m)
    requires GotUpTo(d, m, k, i, st, seen)
    requires EncFrom(Older(d, k), m, i).Some? && |EncFrom(Older(d, k), m, i).value| < U32_MOD
    ensures DecLoop(d, st, seen, EncFrom(Older(d, k), m, i).value) ==
      if Insists(d, k) then None else Some(Filled(d, m, k))
    decreases |m| - i
  {
    var o := Older(d, k);
    if i == |m| {
      GotAll(d, m, k, st, seen);
    } else {
      EncFromFirst(o, m, i);
      FieldStep(d, Up(i, k), st, seen, m[i], EncFrom(o, m, i + 1).value);
      GotNext(d, m, k, i, st, seen);
      NewerLoop(d, m, k, i + 1, st[Up(i, k) := m[i]], Met(seen, Up(i, k), m[i]));
    }
  }

  /** A message from a writer whose descriptor lacks one of the reader's fields is read, with that field as it starts
      out, if and only if the reader does not insist on it. */
  lemma OlderWriterExactly(d: Desc, m: Message, k: nat)
    requires DescOk(d) && k < |d.fields| && DescOk(Older(d, k)) && MessageOk(Older(d, k), m)
    requires EncMsg(Older(d, k), m).Some? && |EncMsg(Older(d, k), m).value| < U32_MOD
    ensures DecMsg(d, EncMsg(Older(d, k), m).value) == if Insists(d, k) then None else Some(Filled(d, m, k))
  {
    NewerLoop(d, m, k, 0, Defaults(d), {});
  }

  /** What a message starts out as: nothing in optional and repeated fields, and in required ones zero, no text, zeros
      for text of fixed length, and messages that start out so. */
  predicate Blank(f: Field, items: seq<Value>)
    decreases f, 0
  {
    if !f.htype.Required? then items == []
    else
      && |items| == 1
      && match f.ltype
         case LSub(d) => items[0].Msg? && BlankMessage(d, items[0].parts)
         case LFixedBytes =>
           items[0].Text? && |items[0].s| == f.size && forall i :: 0 <= i < f.size ==> items[0].s[i] == 0
         case LBytes => items[0] == Text([])
         case LString => items[0] == Text([])
         case _ => items[0] == Num(0)
  }

  predicate BlankMessage(d: Desc, m: Message)
    decreases d, 1
  {
    |m| == |d.fields| && forall i :: 0 <= i < |m| ==> Blank(d.fields[i], m[i])
  }

  lemma {:induction false} StartsBlank(d: Desc)
    ensures BlankMessage(d, Defaults(d))
    decreases d, 0
  {
    forall i | 0 <= i < |d.fields|
      ensures Blank(d.fields[i], Defaults(d)[i])
    {
      var f := d.fields[i];
      assert Defaults(d)[i] == DefaultItems(f);
      if f.htype.Required? && f.ltype.LSub? {
        StartsBlank(f.ltype.desc);
      }
    }
  }
}
