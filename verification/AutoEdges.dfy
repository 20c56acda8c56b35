/** When rules fire and what comes of it, over every run: each rule carries along what it met and when it fired. */
module AutoEdges {
  import opened Machine
  import opened AutoRules

  /** What a rule met, device events or minutes of the clock, and whether it fired at each. */
  datatype Log<T> = Log(met: seq<T>, fires: seq<bool>)

  /** A firing: the rule as it was, and the milliseconds polled until then. */
  datatype Fired = Fired(r: Rule, at: nat)

  // For each rule, in the rules' order: the rule as it was added, what it was last told of being enabled, and its
  // logs. For all of them: the firings, and the milliseconds polled.
  datatype Traced = Traced(
    s: State, given: seq<Rule>, told: seq<bool>, device: seq<Log<Event>>, clock: seq<Log<int>>,
    fired: seq<Fired>, elapsed: nat)

  function Start(): Traced {
    Traced(InitState(), [], [], [], [], [], 0)
  }

  function Record<T>(l: Log<T>, x: T, fired: bool): Log<T> {
    Log(l.met + [x], l.fires + [fired])
  }

  /** The device event meets what a rule waits for: a level above the rule's, or a device that is on. */
  predicate EventHolds(trig: Trigger, thresh: int, e: Event) {
    if trig == TrigTempGt then e.level as int > thresh else e.on
  }

  function EventConds(trig: Trigger, thresh: int, met: seq<Event>): seq<bool> {
    seq(|met|, k requires 0 <= k < |met| => EventHolds(trig, thresh, met[k]))
  }

  function ClockConds(thresh: int, met: seq<int>): seq<bool> {
    seq(|met|, k requires 0 <= k < |met| => met[k] == thresh)
  }

  lemma CondsAppend(trig: Trigger, thresh: int, met: seq<Event>, e: Event)
    ensures EventConds(trig, thresh, met + [e]) == EventConds(trig, thresh, met) + [EventHolds(trig, thresh, e)]
  {
  }

  lemma ClockCondsAppend(thresh: int, met: seq<int>, m: int)
    ensures ClockConds(thresh, met + [m]) == ClockConds(thresh, met) + [m == thresh]
  {
  }

  /** True exactly where the condition became true: it holds now and did not at the occasion before. */
  function Rising(c: seq<bool>): (r: seq<bool>)
    ensures |r| == |c| && forall k :: 0 <= k < |c| ==> (r[k] <==> c[k] && (k == 0 || !c[k - 1]))
  {
    seq(|c|, k requires 0 <= k < |c| => c[k] && (k == 0 || !c[k - 1]))
  }

  function LastOf(c: seq<bool>): bool {
    c != [] && c[|c| - 1]
  }

  lemma RisingAppend(c: seq<bool>, x: bool)
    ensures Rising(c + [x]) == Rising(c) + [x && !LastOf(c)]
  {
  }

  predicate Shaped(t: Traced) {
    |t.given| == |t.told| == |t.device| == |t.clock| == |t.s.slots|
  }

  // ---------------------------------------------------------------- the machine with its logs

  /** Rule `i` meets an event, if it is enabled and waits for the event's device. What is logged as firing is that a
      firing took place. */
  function TEvalAt(t: Traced, e: Event, i: nat): (r: Traced)
    requires Shaped(t) && i < |t.s.slots|
    ensures Shaped(r) && |r.device| == |t.device|
  {
    var r, s1 := t.s.slots[i].rule, EvalAt(t.s, e, i);
    var fires := s1.firings != t.s.firings;
    if r.enabled && r.trig != TrigTime && r.trigIeee == e.ieee then
      t.(s := s1, device := t.device[i := Record(t.device[i], e, fires)],
         fired := if fires then t.fired + [Fired(r, t.elapsed)] else t.fired)
    else t.(s := s1)
  }

  function TEvalFrom(t: Traced, e: Event, i: nat): (r: Traced)
    requires Shaped(t) && i <= |t.s.slots|
    ensures Shaped(r)
    decreases |t.s.slots| - i
  {
    if i == |t.s.slots| then t else TEvalFrom(TEvalAt(t, e, i), e, i + 1)
  }

  function TPollAt(t: Traced, minutes: int, i: nat): (r: Traced)
    requires Shaped(t) && i < |t.s.slots|
    ensures Shaped(r) && |r.device| == |t.device|
  {
    var r, s1 := t.s.slots[i].rule, PollAt(t.s, minutes, i);
    var fires := s1.firings != t.s.firings;
    if r.enabled && r.trig == TrigTime then
      t.(s := s1, clock := t.clock[i := Record(t.clock[i], minutes, fires)],
         fired := if fires then t.fired + [Fired(r, t.elapsed)] else t.fired)
    else t.(s := s1)
  }

  function TPollFrom(t: Traced, minutes: int, i: nat): (r: Traced)
    requires Shaped(t) && i <= |t.s.slots|
    ensures Shaped(r)
    decreases |t.s.slots| - i
  {
    if i == |t.s.slots| then t else TPollFrom(TPollAt(t, minutes, i), minutes, i + 1)
  }

  function Ticked(t: Traced, dt: u32): Traced {
    t.(s := t.s.(now := (t.s.now + dt) % U32_MOD), elapsed := t.elapsed + dt)
  }

  /** A rule comes with empty logs, at the end, while there are fewer than 32; it is given the machine's next number
      if it has none. */
  function TAdd(t: Traced, r: Rule): (t': Traced)
    requires Shaped(t)
    ensures Shaped(t')
  {
    var s1 := AddRule(t.s, r);
    if |t.s.slots| >= 32 then t
    else
      t.(s := s1, given := t.given + [if r.id == 0 then r.(id := t.s.nextId) else r], told := t.told + [r.enabled],
         device := t.device + [Log([], [])], clock := t.clock + [Log([], [])])
  }

  function TRemove(t: Traced, id: u16): (t': Traced)
    requires Shaped(t)
    ensures Shaped(t')
  {
    var k, s1 := Find(t.s.slots, id), RemoveRule(t.s, id);
    if k == |t.s.slots| then t.(s := s1)
    else
      t.(s := s1, given := t.given[..k] + t.given[k + 1..], told := t.told[..k] + t.told[k + 1..],
         device := t.device[..k] + t.device[k + 1..], clock := t.clock[..k] + t.clock[k + 1..])
  }

  function TDo(t: Traced, op: Op): (r: Traced)
    requires Shaped(t)
    ensures Shaped(r)
  {
    match op
    case Add(r) => TAdd(t, r)
    case SetEnabled(id, on) =>
      var k, s1 := Find(t.s.slots, id), Enable(t.s, id, on);
      if k == |t.s.slots| then t.(s := s1) else t.(s := s1, told := t.told[k := on])
    case Remove(id) => TRemove(t, id)
    case Eval(e) => TEvalFrom(t, e, 0)
    case Poll(dt, minutes) =>
      if minutes.None? then Ticked(t, dt) else TPollFrom(Ticked(t, dt), minutes.value, 0)
    case Take => t.(s := TakeDue(t.s).0)
  }

  lemma {:induction false} TEvalIsEval(t: Traced, e: Event, i: nat)
    requires Shaped(t) && i <= |t.s.slots|
    ensures TEvalFrom(t, e, i).s == EvalFrom(t.s, e, i)
    decreases |t.s.slots| - i
  {
    if i < |t.s.slots| {
      TEvalIsEval(TEvalAt(t, e, i), e, i + 1);
    }
  }

  lemma {:induction false} TPollIsPoll(t: Traced, minutes: int, i: nat)
    requires Shaped(t) && i <= |t.s.slots|
    ensures TPollFrom(t, minutes, i).s == PollFrom(t.s, minutes, i)
    decreases |t.s.slots| - i
  {
    if i < |t.s.slots| {
      TPollIsPoll(TPollAt(t, minutes, i), minutes, i + 1);
    }
  }

  /** The logs only watch: the machine underneath does what it does without them. */
  lemma LogsOnlyWatch(t: Traced, op: Op)
    requires Shaped(t)
    ensures TDo(t, op).s == Do(t.s, op)
  {
    match op {
      case Eval(e) => TEvalIsEval(t, e, 0);
      case Poll(dt, minutes) =>
        if minutes.Some? {
          TPollIsPoll(Ticked(t, dt), minutes.value, 0);
        }
      case _ =>
    }
  }

  // ---------------------------------------------------------------- the invariant

  predicate LogOk(fires: seq<bool>, conds: seq<bool>, latch: bool) {
    fires == Rising(conds) && latch == LastOf(conds)
  }

  predicate SlotOk(x: Slot, given: Rule, told: bool, device: Log<Event>, clock: Log<int>) {
    && x.rule == given.(enabled := told)
    && LogOk(device.fires, EventConds(given.trig, given.thresh, device.met), x.latched)
    && LogOk(clock.fires, ClockConds(given.thresh, clock.met), x.timeFired)
  }

  predicate RuleOk(t: Traced, i: nat)
    requires Shaped(t) && i < |t.s.slots|
  {
    SlotOk(t.s.slots[i], t.given[i], t.told[i], t.device[i], t.clock[i])
  }

  predicate AllOk(t: Traced) {
    Shaped(t) && forall i :: 0 <= i < |t.s.slots| ==> RuleOk(t, i)
  }

  lemma EvalAtSlot(t: Traced, e: Event, i: nat)
    requires AllOk(t) && i < |t.s.slots|
    ensures RuleOk(TEvalAt(t, e, i), i)
  {
    var r, met := t.s.slots[i].rule, t.device[i].met;
    assert RuleOk(t, i);
    if r.enabled && r.trig != TrigTime && r.trigIeee == e.ieee {
      CondsAppend(r.trig, r.thresh, met, e);
      RisingAppend(EventConds(r.trig, r.thresh, met), EventHolds(r.trig, r.thresh, e));
    }
  }

  lemma EvalAtKeeps(t: Traced, e: Event, i: nat)
    requires AllOk(t) && i < |t.s.slots|
    ensures AllOk(TEvalAt(t, e, i))
  {
    EvalAtSlot(t, e, i);
    forall j | 0 <= j < |t.s.slots|
      ensures RuleOk(TEvalAt(t, e, i), j)
    {
      assert RuleOk(t, j);
    }
  }

  lemma {:induction false} EvalKeeps(t: Traced, e: Event, i: nat)
    requires AllOk(t) && i <= |t.s.slots|
    ensures AllOk(TEvalFrom(t, e, i))
    decreases |t.s.slots| - i
  {
    if i < |t.s.slots| {
      EvalAtKeeps(t, e, i);
      EvalKeeps(TEvalAt(t, e, i), e, i + 1);
    }
  }

  lemma PollAtSlot(t: Traced, minutes: int, i: nat)
    requires AllOk(t) && i < |t.s.slots|
    ensures RuleOk(TPollAt(t, minutes, i), i)
  {
    var r, met := t.s.slots[i].rule, t.clock[i].met;
    assert RuleOk(t, i);
    if r.enabled && r.trig == TrigTime {
      ClockCondsAppend(r.thresh, met, minutes);
      RisingAppend(ClockConds(r.thresh, met), minutes == r.thresh);
    }
  }

  lemma PollAtKeeps(t: Traced, minutes: int, i: nat)
    requires AllOk(t) && i < |t.s.slots|
    ensures AllOk(TPollAt(t, minutes, i))
  {
    PollAtSlot(t, minutes, i);
    forall j | 0 <= j < |t.s.slots|
      ensures RuleOk(TPollAt(t, minutes, i), j)
    {
      assert RuleOk(t, j);
    }
  }

  lemma {:induction false} PollKeeps(t: Traced, minutes: int, i: nat)
    requires AllOk(t) && i <= |t.s.slots|
    ensures AllOk(TPollFrom(t, minutes, i))
    decreases |t.s.slots| - i
  {
    if i < |t.s.slots| {
      PollAtKeeps(t, minutes, i);
      PollKeeps(TPollAt(t, minutes, i), minutes, i + 1);
    }
  }

  /** Removing a rule moves the latches and logs of the rules behind it together. */
  lemma RemoveKeeps(t: Traced, id: u16)
    requires AllOk(t)
    ensures AllOk(TDo(t, Remove(id)))
  {
    var k, t1 := Find(t.s.slots, id), TDo(t, Remove(id));
    forall j | 0 <= j < |t1.s.slots|
      ensures RuleOk(t1, j)
    {
      assert RuleOk(t, if j < k then j else j + 1);
    }
  }

  lemma SameRules(t: Traced, t1: Traced)
    requires AllOk(t) && t1.s.slots == t.s.slots && t1.given == t.given && t1.told == t.told
    requires t1.device == t.device && t1.clock == t.clock
    ensures AllOk(t1)
  {
    forall j | 0 <= j < |t.s.slots|
      ensures RuleOk(t1, j)
    {
      assert RuleOk(t, j);
    }
  }

  lemma EnableKeeps(t: Traced, id: u16, on: bool)
    requires AllOk(t)
    ensures AllOk(TDo(t, SetEnabled(id, on)))
  {
    forall j | 0 <= j < |t.s.slots|
      ensures RuleOk(TDo(t, SetEnabled(id, on)), j)
    {
      assert RuleOk(t, j);
    }
  }

  lemma AddKeeps(t: Traced, r: Rule)
    requires AllOk(t)
    ensures AllOk(TDo(t, Add(r)))
  {
    var t1 := TDo(t, Add(r));
    forall j | 0 <= j < |t1.s.slots|
      ensures RuleOk(t1, j)
    {
      if j < |t.s.slots| {
        assert RuleOk(t, j);
      }
    }
  }

  lemma DoKeeps(t: Traced, op: Op)
    requires AllOk(t)
    ensures AllOk(TDo(t, op))
  {
    match op {
      case Add(r) => AddKeeps(t, r);
      case SetEnabled(id, on) => EnableKeeps(t, id, on);
      case Remove(id) => RemoveKeeps(t, id);
      case Eval(e) => EvalKeeps(t, e, 0);
      case Poll(dt, minutes) =>
        SameRules(t, Ticked(t, dt));
        if minutes.Some? {
          PollKeeps(Ticked(t, dt), minutes.value, 0);
        }
      case Take => SameRules(t, TDo(t, op));
    }
  }

  function TRun(t: Traced, ops: seq<Op>): (r: Traced)
    requires Shaped(t)
    ensures Shaped(r)
    decreases |ops|
  {
    if ops == [] then t else TRun(TDo(t, ops[0]), ops[1..])
  }

  lemma {:induction false} RunKeeps(t: Traced, ops: seq<Op>)
    requires AllOk(t)
    ensures AllOk(TRun(t, ops))
    decreases |ops|
  {
    if ops != [] {
      DoKeeps(t, ops[0]);
      RunKeeps(TDo(t, ops[0]), ops[1..]);
    }
  }

  /** Over every run of additions, removals, enabling, events, polls and takings, and for each rule: of the events of
      its device that it met while enabled, it has fired exactly at those at which the device was on, or above the
      rule's level, and was not so at the one before. */
  lemma FiresAtRisingEdges(ops: seq<Op>, i: nat, k: nat)
    requires i < |TRun(Start(), ops).s.slots| && k < |TRun(Start(), ops).device[i].met|
    ensures var t := TRun(Start(), ops);
      var r, met := t.s.slots[i].rule, t.device[i].met;
      && |t.device[i].fires| == |met|
      && (r.trig == TrigTempGt ==>
            (t.device[i].fires[k] <==>
               met[k].level as int > r.thresh && (k == 0 || met[k - 1].level as int <= r.thresh)))
      && (r.trig != TrigTempGt ==> (t.device[i].fires[k] <==> met[k].on && (k == 0 || !met[k - 1].on)))
  {
    RunKeeps(Start(), ops);
    assert RuleOk(TRun(Start(), ops), i);
  }

  /** And of the minutes at which it met the clock, exactly at those that are the rule's and came after others. */
  lemma FiresAtTheMinute(ops: seq<Op>, i: nat, k: nat)
    requires i < |TRun(Start(), ops).s.slots| && k < |TRun(Start(), ops).clock[i].met|
    ensures var t := TRun(Start(), ops);
      var r, met := t.s.slots[i].rule, t.clock[i].met;
      && |t.clock[i].fires| == |met|
      && (t.clock[i].fires[k] <==> met[k] == r.thresh && (k == 0 || met[k - 1] != r.thresh))
  {
    RunKeeps(Start(), ops);
    assert RuleOk(TRun(Start(), ops), i);
  }

  /** Rules stay as they were added, but for being enabled, which is as they were last told. */
  lemma EnabledAsTold(ops: seq<Op>, i: nat)
    requires i < |TRun(Start(), ops).s.slots|
    ensures var t := TRun(Start(), ops); t.s.slots[i].rule == t.given[i].(enabled := t.told[i])
  {
    RunKeeps(Start(), ops);
    assert RuleOk(TRun(Start(), ops), i);
  }
}
