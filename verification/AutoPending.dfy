/** What the pending table holds for each target, over every run of the automation machine. */
module AutoPending {
  import opened Machine
  import opened AutoRules

  /** The actions pending for a target, in table order. */
  function Pending(t: Table, target: Ieee): seq<Pend> {
    if t == [] then []
    else (if Aims(t[0], target) then [t[0].value] else []) + Pending(t[1..], target)
  }

  function Free(t: Table): nat {
    if t == [] then 0 else (if t[0].None? then 1 else 0) + Free(t[1..])
  }

  lemma {:induction false} PendingAppend(a: Table, b: Table, target: Ieee)
    ensures Pending(a + b, target) == Pending(a, target) + Pending(b, target)
    ensures Free(a + b) == Free(a) + Free(b)
  {
    if a == [] {
      assert a + b == b;
    } else {
      assert (a + b)[0] == a[0] && (a + b)[1..] == a[1..] + b;
      PendingAppend(a[1..], b, target);
      Assoc(if Aims(a[0], target) then [a[0].value] else [], Pending(a[1..], target), Pending(b, target));
    }
  }

  /** Changing one entry changes what is pending at that place only. */
  lemma PendingUpdate(t: Table, k: nat, x: Option<Pend>, target: Ieee)
    requires k < |t|
    ensures Pending(t, target) == Pending(t[..k], target) + Pending([t[k]], target) + Pending(t[k + 1..], target)
    ensures Pending(t[k := x], target) == Pending(t[..k], target) + Pending([x], target) + Pending(t[k + 1..], target)
    ensures Free(t[k := x]) == Free(t) - (if t[k].None? then 1 else 0) + if x.None? then 1 else 0
  {
    var l, r := t[..k], t[k + 1..];
    assert t == (l + [t[k]]) + r && t[k := x] == (l + [x]) + r;
    PendingAppend(l + [t[k]], r, target);
    PendingAppend(l, [t[k]], target);
    PendingAppend(l + [x], r, target);
    PendingAppend(l, [x], target);
  }

  lemma {:induction false} PendingCancel(t: Table, x: Ieee, target: Ieee)
    ensures Pending(Cancel(t, x), target) == if target == x then [] else Pending(t, target)
  {
    if t != [] {
      assert Cancel(t, x)[1..] == Cancel(t[1..], x);
      PendingCancel(t[1..], x, target);
    }
  }

  lemma {:induction false} NothingPending(t: Table, target: Ieee)
    requires forall i :: 0 <= i < |t| ==> !Aims(t[i], target)
    ensures Pending(t, target) == []
  {
    if t != [] {
      NothingPending(t[1..], target);
    }
  }

  lemma {:induction false} FreeExists(t: Table)
    ensures FirstFree(t) < |t| <==> 0 < Free(t)
  {
    if t != [] {
      FreeExists(t[1..]);
    }
  }

  /** Queueing appends to what is pending for the target, if the table has room and nothing
      for the target lies beyond the first free entry; other targets are untouched. */
  lemma QueueAppends(t: Table, p: Pend, target: Ieee)
    requires forall i :: FirstFree(t) <= i < |t| ==> !Aims(t[i], p.target)
    ensures Pending(Queue(t, p), target) ==
      if target == p.target && 0 < Free(t) then Pending(t, target) + [p] else Pending(t, target)
    ensures Free(Queue(t, p)) == if 0 < Free(t) then Free(t) - 1 else 0
  {
    var k := FirstFree(t);
    FreeExists(t);
    if k < |t| {
      PendingUpdate(t, k, Some(p), target);
      if target == p.target {
        NothingPending(t[k + 1..], target);
      }
    }
  }

  /** What a firing wants done, in order. */
  function Wanted(r: Rule, now: u32, firing: nat): seq<Pend> {
    if r.action == ActOn then
      [Pend(r.target, ActOn, now, r.id, firing)] +
      (if 0 < r.delay then [Pend(r.target, ActOff, Later(now, r.delay), r.id, firing)] else [])
    else
      [Pend(r.target, r.action, if 0 < r.delay then Later(now, r.delay) else now, r.id, firing)]
  }

  function Min(a: nat, b: nat): nat {
    if a < b then a else b
  }

  lemma FirstFreeAfterQueue(t: Table, p: Pend)
    requires FirstFree(t) < |t|
    ensures FirstFree(t) < FirstFree(Queue(t, p))
  {
    var k, q := FirstFree(t), Queue(t, p);
    assert forall i :: 0 <= i <= k ==> q[i].Some?;
  }

  /** After a firing the target's pending actions are exactly the wanted ones, as many of them in
      order as the table has room for: an ON always comes before its OFF, and an OFF is never
      queued without it. Other targets are untouched. */
  lemma FiringReplaces(t: Table, r: Rule, now: u32, firing: nat, target: Ieee)
    ensures var want, room := Wanted(r, now, firing), Free(Cancel(t, r.target));
      Pending(FireTable(t, r, now, firing), target) ==
        if target == r.target then want[..Min(room, |want|)] else Pending(t, target)
  {
    var t1, want := Cancel(t, r.target), Wanted(r, now, firing);
    PendingCancel(t, r.target, target);
    QueueAppends(t1, want[0], target);
    if r.action == ActOn && 0 < r.delay {
      QueueTwo(t1, want[0], want[1], target);
    }
  }

  lemma QueueTwo(t: Table, p: Pend, q: Pend, target: Ieee)
    requires p.target == q.target && forall i :: 0 <= i < |t| ==> !Aims(t[i], p.target)
    ensures Pending(Queue(Queue(t, p), q), target) ==
      if target == p.target then [p, q][..Min(Free(t), 2)] else Pending(t, target)
  {
    FreeExists(t);
    QueueAppends(t, p, target);
    if FirstFree(t) < |t| {
      FirstFreeAfterQueue(t, p);
    }
    QueueAppends(Queue(t, p), q, target);
    NothingPending(t, p.target);
  }

  // ---------------------------------------------------------------- the invariant over runs

  /** A target's pending actions: at most two, all from its latest firing; two of them are an ON and the OFF
      that ends it. If the clock never wrapped the ON falls due first. */
  predicate GroupOk(ps: seq<Pend>, last: Option<nat>, inTime: bool) {
    && |ps| <= 2
    && (forall i :: 0 <= i < |ps| ==> last == Some(ps[i].firing))
    && (|ps| == 2 ==> ps[0].ruleId == ps[1].ruleId && ps[0].action == ActOn && ps[1].action == ActOff)
    && (|ps| == 2 && inTime ==> ps[0].due < ps[1].due)
  }

  function LatestOf(latest: map<Ieee, nat>, target: Ieee): Option<nat> {
    if target in latest then Some(latest[target]) else None
  }

  ghost predicate TableOk(s: State, inTime: bool) {
    forall x: Ieee :: GroupOk(Pending(s.pend, x), LatestOf(s.latest, x), inTime)
  }

  lemma WantedOk(r: Rule, now: u32, firing: nat, m: nat, inTime: bool)
    requires m <= |Wanted(r, now, firing)| && (inTime ==> now + r.delay < U32_MOD)
    ensures GroupOk(Wanted(r, now, firing)[..m], Some(firing), inTime)
  {
  }

  lemma FireOwn(s: State, r: Rule, inTime: bool)
    requires inTime ==> s.now + r.delay < U32_MOD
    ensures GroupOk(Pending(Fire(s, r).pend, r.target), Some(s.firings + 1), inTime)
  {
    var k := s.firings + 1;
    var want, room := Wanted(r, s.now, k), Free(Cancel(s.pend, r.target));
    FiringReplaces(s.pend, r, s.now, k, r.target);
    WantedOk(r, s.now, k, Min(room, |want|), inTime);
  }

  lemma FireOther(s: State, r: Rule, x: Ieee)
    requires x != r.target
    ensures Pending(Fire(s, r).pend, x) == Pending(s.pend, x)
  {
    FiringReplaces(s.pend, r, s.now, s.firings + 1, x);
  }

  lemma FireKeeps(s: State, r: Rule, inTime: bool)
    requires TableOk(s, inTime) && (inTime ==> s.now + r.delay < U32_MOD)
    ensures TableOk(Fire(s, r), inTime)
  {
    var s' := Fire(s, r);
    FireOwn(s, r, inTime);
    forall x: Ieee
      ensures GroupOk(Pending(s'.pend, x), LatestOf(s'.latest, x), inTime)
    {
      if x != r.target {
        FireOther(s, r, x);
      }
    }
  }

  lemma CancelKeeps(s: State, target: Ieee, s': State, inTime: bool)
    requires TableOk(s, inTime) && s'.pend == Cancel(s.pend, target) && s'.latest == s.latest
    ensures TableOk(s', inTime)
  {
    forall x: Ieee
      ensures GroupOk(Pending(s'.pend, x), LatestOf(s'.latest, x), inTime)
    {
      PendingCancel(s.pend, target, x);
    }
  }

  lemma GroupWithout(a: seq<Pend>, b: seq<Pend>, c: seq<Pend>, last: Option<nat>, inTime: bool)
    requires GroupOk(a + b + c, last, inTime)
    ensures GroupOk(a + c, last, inTime)
  {
    var ps, qs := a + b + c, a + c;
    assert forall i :: 0 <= i < |qs| ==> qs[i] == ps[if i < |a| then i else i + |b|];
    assert |qs| == 2 ==> b == [];
  }

  lemma TakeKeeps(s: State, inTime: bool)
    requires TableOk(s, inTime)
    ensures TableOk(TakeDue(s).0, inTime)
  {
    var k := BestDue(s.pend, s.now, |s.pend|);
    if k < |s.pend| {
      var t := s.pend[k := None];
      forall x: Ieee
        ensures GroupOk(Pending(t, x), LatestOf(s.latest, x), inTime)
      {
        var a, b, c := Pending(s.pend[..k], x), Pending([s.pend[k]], x), Pending(s.pend[k + 1..], x);
        PendingUpdate(s.pend, k, None, x);
        GroupWithout(a, b, c, LatestOf(s.latest, x), inTime);
        assert a + [] + c == a + c;
      }
    }
  }

  /** No rule's delay reaches past the end of the millisecond clock. */
  predicate DelaysFit(slots: seq<Slot>, now: nat) {
    forall i :: 0 <= i < |slots| ==> now + slots[i].rule.delay < U32_MOD
  }

  lemma {:induction false} EvalKeeps(s: State, e: Event, i: nat, inTime: bool)
    requires TableOk(s, inTime) && i <= |s.slots| && (inTime ==> DelaysFit(s.slots, s.now))
    ensures TableOk(EvalFrom(s, e, i), inTime)
    decreases |s.slots| - i
  {
    if i < |s.slots| {
      var s1 := EvalAt(s, e, i);
      assert inTime ==> DelaysFit(s1.slots, s1.now);
      EvalAtKeeps(s, e, i, inTime);
      EvalKeeps(s1, e, i + 1, inTime);
    }
  }

  lemma EvalAtKeeps(s: State, e: Event, i: nat, inTime: bool)
    requires TableOk(s, inTime) && i < |s.slots| && (inTime ==> DelaysFit(s.slots, s.now))
    ensures TableOk(EvalAt(s, e, i), inTime)
  {
    var x := s.slots[i];
    var latched := Match(x.rule, e, x.latched).1;
    var s1 := s.(slots := s.slots[i := x.(latched := latched)]);
    assert TableOk(s1, inTime);
    FireKeeps(s1, x.rule, inTime);
  }

  lemma {:induction false} PollKeeps(s: State, minutes: int, i: nat, inTime: bool)
    requires TableOk(s, inTime) && i <= |s.slots| && (inTime ==> DelaysFit(s.slots, s.now))
    ensures TableOk(PollFrom(s, minutes, i), inTime)
    decreases |s.slots| - i
  {
    if i < |s.slots| {
      var s1 := PollAt(s, minutes, i);
      assert inTime ==> DelaysFit(s1.slots, s1.now);
      PollAtKeeps(s, minutes, i, inTime);
      PollKeeps(s1, minutes, i + 1, inTime);
    }
  }

  lemma PollAtKeeps(s: State, minutes: int, i: nat, inTime: bool)
    requires TableOk(s, inTime) && i < |s.slots| && (inTime ==> DelaysFit(s.slots, s.now))
    ensures TableOk(PollAt(s, minutes, i), inTime)
  {
    var x := s.slots[i];
    var s1 := s.(slots := s.slots[i := x.(timeFired := x.rule.thresh == minutes)]);
    assert TableOk(s1, inTime);
    FireKeeps(s1, x.rule, inTime);
  }

  /** The clock and the rules' delays leave no room for a wrap in this operation. */
  predicate InTime(s: State, op: Op) {
    match op
    case Eval(e) => DelaysFit(s.slots, s.now)
    case Poll(dt, minutes) => s.now + dt < U32_MOD && DelaysFit(s.slots, s.now + dt)
    case _ => true
  }

  lemma DoKeeps(s: State, op: Op, inTime: bool)
    requires TableOk(s, inTime) && (inTime ==> InTime(s, op))
    ensures TableOk(Do(s, op), inTime)
  {
    match op {
      case Add(r) =>
        assert Do(s, op).pend == s.pend && Do(s, op).latest == s.latest;
      case SetEnabled(id, on) =>
        var k := Find(s.slots, id);
        if k < |s.slots| && !on {
          CancelKeeps(s, s.slots[k].rule.target, Do(s, op), inTime);
        }
      case Remove(id) =>
        var k := Find(s.slots, id);
        if k < |s.slots| {
          CancelKeeps(s, s.slots[k].rule.target, Do(s, op), inTime);
        }
      case Eval(e) => EvalKeeps(s, e, 0, inTime);
      case Poll(dt, minutes) =>
        var s1 := s.(now := (s.now + dt) % U32_MOD);
        assert TableOk(s1, inTime);
        if minutes.Some? {
          PollKeeps(s1, minutes.value, 0, inTime);
        }
      case Take => TakeKeeps(s, inTime);
    }
  }

  function Run(s: State, ops: seq<Op>): State
    decreases |ops|
  {
    if ops == [] then s else Run(Do(s, ops[0]), ops[1..])
  }

  predicate RunInTime(s: State, ops: seq<Op>)
    decreases |ops|
  {
    ops == [] || (InTime(s, ops[0]) && RunInTime(Do(s, ops[0]), ops[1..]))
  }

  lemma {:induction false} RunKeeps(s: State, ops: seq<Op>, inTime: bool)
    requires TableOk(s, inTime) && (inTime ==> RunInTime(s, ops))
    ensures TableOk(Run(s, ops), inTime)
    decreases |ops|
  {
    if ops != [] {
      DoKeeps(s, ops[0], inTime);
      RunKeeps(Do(s, ops[0]), ops[1..], inTime);
    }
  }

  /** Over every run, whatever is pending for a target comes from its single latest firing: one action, or an
      ON and its OFF; in a run in which the millisecond clock does not wrap the OFF is due later. */
  lemma PendingOverRuns(ops: seq<Op>)
    ensures TableOk(Run(InitState(), ops), RunInTime(InitState(), ops))
  {
    forall x: Ieee
      ensures Pending(InitState().pend, x) == []
    {
      NothingPending(InitState().pend, x);
    }
    RunKeeps(InitState(), ops, RunInTime(InitState(), ops));
  }
}
