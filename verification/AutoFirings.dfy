/** What pending actions come from, over every run: each was asked for by a firing that the logs show. */
module AutoFirings {
  import opened Machine
  import opened AutoRules
  import opened AutoPending
  import opened AutoEdges

  /** The action is one that this firing asks for: an ON at once, the OFF that ends it after the rule's delay, or any
      other action after the delay. The millisecond clock has 32 bits. */
  predicate Asks(f: Fired, p: Pend) {
    var end := (f.at + f.r.delay) % 0x1_0000_0000;
    && p.target == f.r.target && p.ruleId == f.r.id
    && if f.r.action == ActOn then
         (p.action == ActOn && p.due == f.at % 0x1_0000_0000) || (p.action == ActOff && f.r.delay > 0 && p.due == end)
       else p.action == f.r.action && p.due == end
  }

  predicate FromFiring(fired: seq<Fired>, x: Option<Pend>) {
    x.Some? ==> 0 < x.value.firing <= |fired| && Asks(fired[x.value.firing - 1], x.value)
  }

  predicate TableFrom(t: Table, fired: seq<Fired>) {
    forall j :: 0 <= j < |t| ==> FromFiring(fired, t[j])
  }

  predicate Sourced(t: Traced) {
    && |t.s.slots| <= 32 && |t.s.pend| == 8 && t.s.now == t.elapsed % 0x1_0000_0000
    && t.s.firings == |t.fired| && t.s.lastId == (if t.fired == [] then 0 else t.fired[|t.fired| - 1].r.id)
    && TableFrom(t.s.pend, t.fired)
  }

  lemma FromMore(t: Table, fired: seq<Fired>, f: Fired)
    requires TableFrom(t, fired)
    ensures TableFrom(t, fired + [f])
  {
    forall j | 0 <= j < |t|
      ensures FromFiring(fired + [f], t[j])
    {
      assert FromFiring(fired, t[j]);
    }
  }

  lemma CancelFrom(t: Table, target: Ieee, fired: seq<Fired>)
    requires TableFrom(t, fired)
    ensures TableFrom(Cancel(t, target), fired)
  {
    forall j | 0 <= j < |t|
      ensures FromFiring(fired, Cancel(t, target)[j])
    {
      assert FromFiring(fired, t[j]);
    }
  }

  lemma QueueFrom(t: Table, p: Pend, fired: seq<Fired>)
    requires TableFrom(t, fired) && FromFiring(fired, Some(p))
    ensures TableFrom(Queue(t, p), fired)
  {
    forall j | 0 <= j < |t|
      ensures FromFiring(fired, Queue(t, p)[j])
    {
      assert FromFiring(fired, t[j]);
    }
  }

  lemma LaterIs(at: nat, now: u32, delay: u32)
    requires now == at % U32_MOD
    ensures Later(now, delay) == (at + delay) % U32_MOD && (delay == 0 ==> now == (at + delay) % U32_MOD)
  {
  }

  /** A firing at the end of the list. */
  lemma FireFrom(s: State, fired: seq<Fired>, r: Rule, at: nat)
    requires TableFrom(s.pend, fired) && s.firings == |fired| && s.now == at % U32_MOD
    ensures TableFrom(Fire(s, r).pend, fired + [Fired(r, at)])
  {
    var all, k := fired + [Fired(r, at)], s.firings + 1;
    var t1 := Cancel(s.pend, r.target);
    LaterIs(at, s.now, r.delay);
    FromMore(s.pend, fired, Fired(r, at));
    CancelFrom(s.pend, r.target, all);
    if r.action == ActOn {
      var on := Pend(r.target, ActOn, s.now, r.id, k);
      QueueFrom(t1, on, all);
      if 0 < r.delay {
        QueueFrom(Queue(t1, on), Pend(r.target, ActOff, Later(s.now, r.delay), r.id, k), all);
      }
    } else {
      QueueFrom(t1, Pend(r.target, r.action, if 0 < r.delay then Later(s.now, r.delay) else s.now, r.id, k), all);
    }
  }

  /** A rule that does not meet an event, or meets it without firing, changes nothing but its latch. */
  lemma EvalAtKeeps(t: Traced, e: Event, i: nat)
    requires Shaped(t) && Sourced(t) && i < |t.s.slots|
    ensures Sourced(TEvalAt(t, e, i))
  {
    var x := t.s.slots[i];
    FireFrom(t.s.(slots := t.s.slots[i := x.(latched := true)]), t.fired, x.rule, t.elapsed);
  }

  lemma PollAtKeeps(t: Traced, minutes: int, i: nat)
    requires Shaped(t) && Sourced(t) && i < |t.s.slots|
    ensures Sourced(TPollAt(t, minutes, i))
  {
    var x := t.s.slots[i];
    FireFrom(t.s.(slots := t.s.slots[i := x.(timeFired := true)]), t.fired, x.rule, t.elapsed);
  }

  lemma {:induction false} EvalKeeps(t: Traced, e: Event, i: nat)
    requires Shaped(t) && Sourced(t) && i <= |t.s.slots|
    ensures Sourced(TEvalFrom(t, e, i))
    decreases |t.s.slots| - i
  {
    if i < |t.s.slots| {
      EvalAtKeeps(t, e, i);
      EvalKeeps(TEvalAt(t, e, i), e, i + 1);
    }
  }

  lemma {:induction false} PollKeeps(t: Traced, minutes: int, i: nat)
    requires Shaped(t) && Sourced(t) && i <= |t.s.slots|
    ensures Sourced(TPollFrom(t, minutes, i))
    decreases |t.s.slots| - i
  {
    if i < |t.s.slots| {
      PollAtKeeps(t, minutes, i);
      PollKeeps(TPollAt(t, minutes, i), minutes, i + 1);
    }
  }

  lemma TakeKeeps(t: Traced)
    requires Shaped(t) && Sourced(t)
    ensures Sourced(TDo(t, Take))
  {
    var p := TakeDue(t.s).0.pend;
    forall j | 0 <= j < |p|
      ensures FromFiring(t.fired, p[j])
    {
      assert FromFiring(t.fired, t.s.pend[j]);
    }
  }

  lemma TickKeeps(t: Traced, dt: u32)
    requires Sourced(t)
    ensures Sourced(Ticked(t, dt))
  {
  }

  lemma DoKeeps(t: Traced, op: Op)
    requires Shaped(t) && Sourced(t)
    ensures Sourced(TDo(t, op))
  {
    match op {
      case Add(r) =>
      case SetEnabled(id, on) =>
        var k := Find(t.s.slots, id);
        if k < |t.s.slots| {
          CancelFrom(t.s.pend, t.s.slots[k].rule.target, t.fired);
        }
      case Remove(id) =>
        var k := Find(t.s.slots, id);
        if k < |t.s.slots| {
          CancelFrom(t.s.pend, t.s.slots[k].rule.target, t.fired);
        }
      case Eval(e) => EvalKeeps(t, e, 0);
      case Poll(dt, minutes) =>
        TickKeeps(t, dt);
        if minutes.Some? {
          PollKeeps(Ticked(t, dt), minutes.value, 0);
        }
      case Take => TakeKeeps(t);
    }
  }

  lemma {:induction false} RunKeeps(t: Traced, ops: seq<Op>)
    requires Shaped(t) && Sourced(t)
    ensures Sourced(TRun(t, ops))
    decreases |ops|
  {
    if ops != [] {
      DoKeeps(t, ops[0]);
      RunKeeps(TDo(t, ops[0]), ops[1..]);
    }
  }

  /** Over every run: rules fire only where the logs show it, and every pending action is one that its firing asked
      for; there are at most 32 rules and 8 pending actions. */
  lemma PendingIsAskedFor(ops: seq<Op>)
    ensures Sourced(TRun(Start(), ops))
  {
    RunKeeps(Start(), ops);
  }

  /** Whatever happened before, nothing is pending for a rule's target after the rule is disabled or removed. */
  lemma StoppedLeavesNothing(s: State, id: u16)
    requires Find(s.slots, id) < |s.slots|
    ensures var target := s.slots[Find(s.slots, id)].rule.target;
      && Pending(Do(s, SetEnabled(id, false)).pend, target) == []
      && Pending(Do(s, Remove(id)).pend, target) == []
  {
    var target := s.slots[Find(s.slots, id)].rule.target;
    PendingCancel(s.pend, target, target);
  }
}
