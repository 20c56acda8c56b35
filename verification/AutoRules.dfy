/** The automation rules as a machine on values: rules with their edge latches, and a table of
    pending actions. Everything here is what the engine's methods are proved to compute. */
module AutoRules {
  import opened Machine

  const RULE_MAX := 32
  const PEND_MAX := 8

  // Device addresses are only ever compared.
  type Ieee = nat

  datatype Trigger = TrigOn | TrigOccupied | TrigTempGt | TrigTime
  datatype Action = ActOn | ActOff | ActToggle

  datatype Rule = Rule(
    id: u16, enabled: bool, trigIeee: Ieee, trig: Trigger, thresh: int,
    target: Ieee, action: Action, delay: u32)

  /** A rule with its two edge latches. */
  datatype Slot = Slot(rule: Rule, latched: bool, timeFired: bool)

  // `firing` numbers the rule firing that queued the action; it is history, not used by the machine.
  datatype Pend = Pend(target: Ieee, action: Action, due: u32, ruleId: u16, firing: nat)

  type Table = seq<Option<Pend>>

  // `firings` and `latest` are history: how many rules have fired, and each target's last firing.
  datatype State = State(
    slots: seq<Slot>, pend: Table, now: u32, nextId: u16, lastId: u16,
    firings: nat, latest: map<Ieee, nat>)

  /** What the rules see of a changed device. */
  datatype Event = Event(ieee: Ieee, on: bool, level: u8)

  function InitState(): State {
    State([], seq(PEND_MAX, _ => None), 0, 1, 0, 0, map[])
  }

  // ---------------------------------------------------------------- the pending table

  predicate Aims(x: Option<Pend>, target: Ieee) {
    x.Some? && x.value.target == target
  }

  function Cancel(t: Table, target: Ieee): (r: Table)
    ensures |r| == |t| && forall i :: 0 <= i < |t| ==> r[i] == if Aims(t[i], target) then None else t[i]
  {
    seq(|t|, i requires 0 <= i < |t| => if Aims(t[i], target) then None else t[i])
  }

  function FirstFree(t: Table): (k: nat)
    ensures k <= |t|
    ensures forall i :: 0 <= i < k ==> t[i].Some?
    ensures k < |t| ==> t[k].None?
  {
    if t == [] || t[0].None? then 0 else 1 + FirstFree(t[1..])
  }

  /** Stores the action in the first free entry; drops it if there is none. */
  function Queue(t: Table, p: Pend): (r: Table)
    ensures |r| == |t|
  {
    var k := FirstFree(t);
    if k < |t| then t[k := Some(p)] else t
  }

  function Later(now: u32, delay: u32): u32 {
    (now + delay) % U32_MOD
  }

  /** The table after rule `r` fires: everything pending for its target is cancelled; an ON with
      a delay also queues the OFF that ends it. */
  function FireTable(t: Table, r: Rule, now: u32, firing: nat): (t': Table)
    ensures |t'| == |t|
  {
    var t1 := Cancel(t, r.target);
    if r.action == ActOn then
      var t2 := Queue(t1, Pend(r.target, ActOn, now, r.id, firing));
      if 0 < r.delay then Queue(t2, Pend(r.target, ActOff, Later(now, r.delay), r.id, firing)) else t2
    else
      Queue(t1, Pend(r.target, r.action, if 0 < r.delay then Later(now, r.delay) else now, r.id, firing))
  }

  function Fire(s: State, r: Rule): (s': State)
    ensures |s'.pend| == |s.pend|
  {
    var k := s.firings + 1;
    s.(pend := FireTable(s.pend, r, s.now, k), lastId := r.id, firings := k, latest := s.latest[r.target := k])
  }

  // ---------------------------------------------------------------- edges

  /** Whether the rule watches this device and is triggered by devices at all. */
  predicate Watches(r: Rule, e: Event) {
    r.trig != TrigTime && r.trigIeee == e.ieee
  }

  predicate Condition(r: Rule, e: Event) {
    if r.trig == TrigTempGt then e.level > r.thresh else e.on
  }

  /** One rule meets one event: whether it fires, and its latch afterwards. */
  function Match(r: Rule, e: Event, latched: bool): (bool, bool) {
    if !Watches(r, e) then (false, latched)
    else if Condition(r, e) then (!latched, true)
    else (false, false)
  }

  function EvalAt(s: State, e: Event, i: nat): (r: State)
    requires i < |s.slots|
    ensures |r.slots| == |s.slots| && |r.pend| == |s.pend|
  {
    var x := s.slots[i];
    if !x.rule.enabled then s
    else
      var (fires, latched) := Match(x.rule, e, x.latched);
      var s1 := s.(slots := s.slots[i := x.(latched := latched)]);
      if fires then Fire(s1, x.rule) else s1
  }

  /** Rules from `i` on meet the event in order. */
  function EvalFrom(s: State, e: Event, i: nat): (r: State)
    requires i <= |s.slots|
    ensures |r.slots| == |s.slots| && |r.pend| == |s.pend|
    decreases |s.slots| - i
  {
    if i == |s.slots| then s else EvalFrom(EvalAt(s, e, i), e, i + 1)
  }

  function PollAt(s: State, minutes: int, i: nat): (r: State)
    requires i < |s.slots|
    ensures |r.slots| == |s.slots| && |r.pend| == |s.pend|
  {
    var x := s.slots[i];
    if !x.rule.enabled || x.rule.trig != TrigTime then s
    else
      var at := x.rule.thresh == minutes;
      var s1 := s.(slots := s.slots[i := x.(timeFired := at)]);
      if at && !x.timeFired then Fire(s1, x.rule) else s1
  }

  function PollFrom(s: State, minutes: int, i: nat): (r: State)
    requires i <= |s.slots|
    ensures |r.slots| == |s.slots| && |r.pend| == |s.pend|
    decreases |s.slots| - i
  {
    if i == |s.slots| then s else PollFrom(PollAt(s, minutes, i), minutes, i + 1)
  }

  // ---------------------------------------------------------------- the operations

  /** `minutes` is the time of day, if the clock knows it. */
  datatype Op =
    | Add(r: Rule)
    | SetEnabled(id: u16, on: bool)
    | Remove(id: u16)
    | Eval(e: Event)
    | Poll(dt: u32, minutes: Option<int>)
    | Take

  /** Index of the first rule with an id; the number of rules if there is none. */
  function Find(slots: seq<Slot>, id: u16): (k: nat)
    ensures k <= |slots|
    ensures k < |slots| ==> slots[k].rule.id == id
    ensures forall i :: 0 <= i < k ==> slots[i].rule.id != id
  {
    if slots == [] || slots[0].rule.id == id then 0 else 1 + Find(slots[1..], id)
  }

  function AddRule(s: State, r: Rule): State {
    if |s.slots| >= RULE_MAX then s
    else
      var id := if r.id == 0 then s.nextId else r.id;
      var nextId := if r.id == 0 || r.id >= s.nextId then (id + 1) % U16_MOD else s.nextId;
      s.(slots := s.slots + [Slot(r.(id := id), false, false)], nextId := nextId)
  }

  function Enable(s: State, id: u16, on: bool): State {
    var k := Find(s.slots, id);
    if k == |s.slots| then s
    else
      var x := s.slots[k];
      s.(slots := s.slots[k := x.(rule := x.rule.(enabled := on))],
         pend := if on then s.pend else Cancel(s.pend, x.rule.target))
  }

  function RemoveRule(s: State, id: u16): State {
    var k := Find(s.slots, id);
    if k == |s.slots| then s
    else s.(slots := s.slots[..k] + s.slots[k + 1..], pend := Cancel(s.pend, s.slots[k].rule.target))
  }

  function PollRules(s: State, dt: u32, minutes: Option<int>): State {
    var s1 := s.(now := (s.now + dt) % U32_MOD);
    if minutes.None? then s1 else PollFrom(s1, minutes.value, 0)
  }

  predicate IsDue(x: Option<Pend>, now: u32) {
    x.Some? && x.value.due <= now
  }

  /** Among the first `n` entries, the due one with the smallest due time, the last of several;
      the table's size if none is due. */
  function BestDue(t: Table, now: u32, n: nat): (k: nat)
    requires n <= |t|
    ensures k < n || k == |t|
    ensures k < |t| ==> IsDue(t[k], now)
    ensures k < |t| ==> forall i :: 0 <= i < n && IsDue(t[i], now) ==> t[k].value.due <= t[i].value.due
    ensures k < |t| ==> forall i :: k < i < n && IsDue(t[i], now) ==> t[k].value.due < t[i].value.due
    ensures k == |t| ==> forall i :: 0 <= i < n ==> !IsDue(t[i], now)
  {
    if n == 0 then |t|
    else
      var k := BestDue(t, now, n - 1);
      if IsDue(t[n - 1], now) && (k == |t| || t[n - 1].value.due <= t[k].value.due) then n - 1 else k
  }

  /** Takes the action to be done next, if any is due. */
  function TakeDue(s: State): (r: (State, Option<Pend>))
    ensures |r.0.pend| == |s.pend|
  {
    var k := BestDue(s.pend, s.now, |s.pend|);
    if k == |s.pend| then (s, None) else (s.(pend := s.pend[k := None]), s.pend[k])
  }

  function Do(s: State, op: Op): State {
    match op
    case Add(r) => AddRule(s, r)
    case SetEnabled(id, on) => Enable(s, id, on)
    case Remove(id) => RemoveRule(s, id)
    case Eval(e) => EvalFrom(s, e, 0)
    case Poll(dt, minutes) => PollRules(s, dt, minutes)
    case Take => TakeDue(s).0
  }
}
