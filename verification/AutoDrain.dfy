/** Draining the pending table: what the home loop delivers, in what order, and what it leaves. */
module AutoDrain {
  import opened Machine
  import opened AutoRules
  import opened AutoPending

  function Used(t: Table): nat {
    if t == [] then 0 else (if t[0].Some? then 1 else 0) + Used(t[1..])
  }

  lemma {:induction false} UsedDrops(t: Table, k: nat)
    requires k < |t| && t[k].Some?
    ensures Used(t[k := None]) == Used(t) - 1
  {
    if 0 < k {
      assert t[k := None][1..] == t[1..][k - 1 := None];
      UsedDrops(t[1..], k - 1);
    } else {
      assert t[k := None][1..] == t[1..];
    }
  }

  lemma TakeUses(s: State)
    ensures TakeDue(s).1.Some? ==> Used(TakeDue(s).0.pend) == Used(s.pend) - 1
    ensures TakeDue(s).0.now == s.now
  {
    var k := BestDue(s.pend, s.now, |s.pend|);
    if k < |s.pend| {
      UsedDrops(s.pend, k);
    }
  }

  /** Takes actions until none is due: the state left and the actions in the order taken. */
  function Drain(s: State): (State, seq<Pend>)
    decreases Used(s.pend)
  {
    TakeUses(s);
    var (s1, p) := TakeDue(s);
    if p.None? then (s1, [])
    else
      var (s2, ps) := Drain(s1);
      (s2, [p.value] + ps)
  }

  /** The table without its due actions. */
  function Undue(t: Table, now: u32): (r: Table)
    ensures |r| == |t| && forall i :: 0 <= i < |t| ==> r[i] == if IsDue(t[i], now) then None else t[i]
  {
    seq(|t|, i requires 0 <= i < |t| => if IsDue(t[i], now) then None else t[i])
  }

  function DueList(t: Table, now: u32): seq<Pend> {
    if t == [] then []
    else (if IsDue(t[0], now) then [t[0].value] else []) + DueList(t[1..], now)
  }

  lemma {:induction false} DueListWithout(t: Table, now: u32, k: nat)
    requires k < |t| && IsDue(t[k], now)
    ensures multiset(DueList(t, now)) == multiset(DueList(t[k := None], now)) + multiset{t[k].value}
  {
    var t' := t[k := None];
    if 0 < k {
      assert t'[1..] == t[1..][k - 1 := None];
      DueListWithout(t[1..], now, k - 1);
    } else {
      assert t'[1..] == t[1..];
    }
  }

  lemma {:induction false} NoDueList(t: Table, now: u32)
    requires forall i :: 0 <= i < |t| ==> !IsDue(t[i], now)
    ensures DueList(t, now) == []
  {
    if t != [] {
      NoDueList(t[1..], now);
    }
  }

  lemma {:induction false} DrainLeaves(s: State)
    ensures Drain(s).0 == s.(pend := Undue(s.pend, s.now))
    decreases Used(s.pend)
  {
    TakeUses(s);
    var (s1, p) := TakeDue(s);
    if p.Some? {
      DrainLeaves(s1);
    }
    UndueAgain(s);
  }

  lemma UndueAgain(s: State)
    ensures Undue(TakeDue(s).0.pend, s.now) == Undue(s.pend, s.now)
    ensures TakeDue(s).1.None? ==> Undue(s.pend, s.now) == s.pend
  {
  }

  lemma {:induction false} DrainTakes(s: State)
    ensures multiset(Drain(s).1) == multiset(DueList(s.pend, s.now))
    decreases Used(s.pend)
  {
    TakeUses(s);
    var (s1, p) := TakeDue(s);
    var k := BestDue(s.pend, s.now, |s.pend|);
    if p.None? {
      NoDueList(s.pend, s.now);
    } else {
      DrainTakes(s1);
      DueListWithout(s.pend, s.now, k);
    }
  }

  /** Draining delivers every due action once and leaves exactly the others. */
  lemma DrainDelivers(s: State)
    ensures Drain(s).0 == s.(pend := Undue(s.pend, s.now))
    ensures multiset(Drain(s).1) == multiset(DueList(s.pend, s.now))
  {
    DrainLeaves(s);
    DrainTakes(s);
  }

  // ---------------------------------------------------------------- the order of delivery

  predicate Sorted(ps: seq<Pend>) {
    forall i, j :: 0 <= i < j < |ps| ==> ps[i].due <= ps[j].due
  }

  /** The entry of the table that holds an action; the table's size if none does. */
  function HeldAt(t: Table, p: Pend): (k: nat)
    ensures k < |t| <==> Some(p) in t
    ensures k < |t| ==> t[k] == Some(p)
  {
    if t == [] || t[0] == Some(p) then 0 else 1 + HeldAt(t[1..], p)
  }

  /** What is delivered was pending and due. */
  lemma {:induction false} DrainWasDue(s: State)
    ensures forall p :: p in Drain(s).1 ==> Some(p) in s.pend && p.due <= s.now
    decreases Used(s.pend)
  {
    TakeUses(s);
    var (s1, p) := TakeDue(s);
    if p.Some? {
      DrainWasDue(s1);
      assert s.pend[BestDue(s.pend, s.now, |s.pend|)] == p;
      forall q | q in Drain(s).1 && q != p.value
        ensures Some(q) in s.pend
      {
        var k := HeldAt(s1.pend, q);
        assert s.pend[k] == s1.pend[k];
      }
    }
  }

  lemma TakenIsLeast(s: State, q: Pend)
    requires Some(q) in s.pend && q.due <= s.now
    ensures TakeDue(s).1.Some? && TakeDue(s).1.value.due <= q.due
  {
    var k := HeldAt(s.pend, q);
    assert IsDue(s.pend[k], s.now);
  }

  lemma SortedCons(p: Pend, rest: seq<Pend>)
    requires Sorted(rest) && forall q :: q in rest ==> p.due <= q.due
    ensures Sorted([p] + rest)
  {
  }

  /** Actions are delivered in the order they fall due. */
  lemma {:induction false} DrainSorted(s: State)
    ensures Sorted(Drain(s).1)
    decreases Used(s.pend)
  {
    TakeUses(s);
    var (s1, p) := TakeDue(s);
    if p.Some? {
      DrainSorted(s1);
      DrainWasDue(s);
      var rest := Drain(s1).1;
      forall q | q in rest
        ensures p.value.due <= q.due
      {
        assert q in Drain(s).1;
        TakenIsLeast(s, q);
      }
      SortedCons(p.value, rest);
    }
  }

  /** Two entries for one target are all that is pending for it, in table order. */
  lemma TwoPending(t: Table, a: nat, b: nat, x: Ieee)
    requires a < b < |t| && Aims(t[a], x) && Aims(t[b], x) && |Pending(t, x)| <= 2
    ensures Pending(t, x) == [t[a].value, t[b].value]
  {
    PendingUpdate(t, b, None, x);
    PendingUpdate(t[..b], a, None, x);
    assert t[..b][a] == t[a];
  }

  /** Two actions for one target in one drain: the ON and the OFF of one firing, the ON first unless the clock
      wrapped. */
  predicate OneFiring(p: Pend, q: Pend, last: Option<nat>, inTime: bool) {
    && q == p.(action := q.action, due := q.due) && last == Some(p.firing)
    && (if p.action == ActOn then q.action == ActOff else p.action == ActOff && q.action == ActOn)
    && (inTime ==> p.action == ActOn && p.due < q.due)
  }

  /** The first action taken and a later one for its target. */
  lemma FirstPair(s: State, inTime: bool, k: nat, q: Pend)
    requires TableOk(s, inTime) && k == BestDue(s.pend, s.now, |s.pend|) < |s.pend|
    requires Some(q) in s.pend[k := None] && q.target == s.pend[k].value.target && q.due <= s.now
    ensures OneFiring(s.pend[k].value, q, LatestOf(s.latest, q.target), inTime)
  {
    var m, t, x := HeldAt(s.pend[k := None], q), s.pend, q.target;
    assert m != k && t[m] == Some(q);
    assert GroupOk(Pending(t, x), LatestOf(s.latest, x), inTime);
    if m < k {
      TwoPending(t, m, k, x);
    } else {
      TwoPending(t, k, m, x);
    }
  }

  lemma {:induction false} DrainPairs(s: State, inTime: bool, i: nat, j: nat)
    requires TableOk(s, inTime) && i < j < |Drain(s).1| && Drain(s).1[i].target == Drain(s).1[j].target
    ensures OneFiring(Drain(s).1[i], Drain(s).1[j], LatestOf(s.latest, Drain(s).1[i].target), inTime)
    decreases Used(s.pend)
  {
    TakeUses(s);
    TakeKeeps(s, inTime);
    var (s1, p) := TakeDue(s);
    var rest := Drain(s1).1;
    assert Drain(s).1[j] == rest[j - 1];
    if i == 0 {
      DrainWasDue(s1);
      FirstPair(s, inTime, BestDue(s.pend, s.now, |s.pend|), rest[j - 1]);
    } else {
      DrainPairs(s1, inTime, i - 1, j - 1);
    }
  }

  /** After every run, two actions drained together for one target are the ON and the OFF of its single latest
      firing, and in a run in which the clock does not wrap the ON is delivered first. */
  lemma OnBeforeOff(ops: seq<Op>, i: nat, j: nat)
    requires i < j < |Drain(Run(InitState(), ops)).1|
    requires Drain(Run(InitState(), ops)).1[i].target == Drain(Run(InitState(), ops)).1[j].target
    ensures var s := Run(InitState(), ops); var ps := Drain(s).1;
      OneFiring(ps[i], ps[j], LatestOf(s.latest, ps[i].target), RunInTime(InitState(), ops))
  {
    PendingOverRuns(ops);
    DrainPairs(Run(InitState(), ops), RunInTime(InitState(), ops), i, j);
  }

  // ---------------------------------------------------------------- when the clock wraps

  /** Whether `p` is delivered before `q`. */
  ghost predicate Before(ps: seq<Pend>, p: Pend, q: Pend) {
    exists i, j :: 0 <= i < j < |ps| && ps[i] == p && ps[j] == q
  }

  lemma {:induction false} PendingHeld(t: Table, x: Ieee, p: Pend)
    requires p in Pending(t, x)
    ensures Some(p) in t
  {
    if !(Aims(t[0], x) && t[0].value == p) {
      PendingHeld(t[1..], x, p);
    }
  }

  lemma {:induction false} DueListed(t: Table, now: u32, k: nat)
    requires k < |t| && IsDue(t[k], now)
    ensures t[k].value in DueList(t, now)
  {
    if 0 < k {
      DueListed(t[1..], now, k - 1);
    }
  }

  /** A pending action is delivered if it is due, and stays pending if it is not. */
  lemma HeldDrains(s: State, p: Pend)
    requires Some(p) in s.pend
    ensures if p.due <= s.now then p in Drain(s).1 else p !in Drain(s).1 && Some(p) in Drain(s).0.pend
  {
    var k := HeldAt(s.pend, p);
    DrainDelivers(s);
    if p.due <= s.now {
      DueListed(s.pend, s.now, k);
      assert p in multiset(DueList(s.pend, s.now));
    } else {
      DrainWasDue(s);
      assert Drain(s).0.pend[k] == Some(p);
    }
  }

  function NotDue(ps: seq<Pend>, now: u32): seq<Pend> {
    if ps == [] then [] else (if ps[0].due <= now then [] else [ps[0]]) + NotDue(ps[1..], now)
  }

  lemma {:induction false} PendingUndue(t: Table, now: u32, x: Ieee)
    ensures Pending(Undue(t, now), x) == NotDue(Pending(t, x), now)
  {
    if t != [] {
      assert Undue(t, now)[1..] == Undue(t[1..], now);
      PendingUndue(t[1..], now, x);
      var rest := Pending(t[1..], x);
      assert Pending(t, x) == if Aims(t[0], x) then [t[0].value] + rest else rest;
      assert Aims(t[0], x) ==> ([t[0].value] + rest)[1..] == rest;
    }
  }

  /** What is left of two actions of which the first is due. */
  lemma UndueOfTwo(s: State, x: Ieee, p: Pend, q: Pend)
    requires Pending(s.pend, x) == [p, q] && p.due <= s.now
    ensures Pending(Drain(s).0.pend, x) == if q.due <= s.now then [] else [q]
  {
    var now := s.now;
    DrainLeaves(s);
    PendingUndue(s.pend, now, x);
    assert [p, q][1..] == [q] && NotDue([q], now) == if q.due <= now then [] else [q];
  }

  /** What is delivered of an action due now and another: the other first, if it falls due before. */
  lemma BeforeOfTwo(s: State, x: Ieee, p: Pend, q: Pend)
    requires Pending(s.pend, x) == [p, q] && p.due == s.now && q.due != s.now
    ensures Before(Drain(s).1, q, p) <==> q.due < s.now
  {
    var ps := Drain(s).1;
    PendingHeld(s.pend, x, p);
    PendingHeld(s.pend, x, q);
    HeldDrains(s, p);
    HeldDrains(s, q);
    if q.due < s.now {
      DrainSorted(s);
      var i, j :| 0 <= i < |ps| && 0 <= j < |ps| && ps[i] == q && ps[j] == p;
      assert i < j;
    }
  }

  /** What is delivered and what is left of an ON due now and an OFF `delay` later. */
  lemma OnAndOff(s: State, on: Pend, off: Pend, delay: u32)
    requires Pending(s.pend, on.target) == [on, off] && on.due == s.now
    requires off.due == Later(s.now, delay) && 0 < delay
    ensures Before(Drain(s).1, off, on) <==> U32_MOD <= s.now + delay
    ensures Pending(Drain(s).0.pend, on.target) == if U32_MOD <= s.now + delay then [] else [off]
  {
    assert off.due == if U32_MOD <= s.now + delay then s.now + delay - U32_MOD else s.now + delay;
    BeforeOfTwo(s, on.target, on, off);
    UndueOfTwo(s, on.target, on, off);
  }

  /** A delayed OFF is delivered before its ON exactly when the clock wraps between them, and then nothing is
      left pending for the target; otherwise the OFF stays pending. */
  lemma OffFirstExactly(s: State, r: Rule)
    requires r.action == ActOn && 0 < r.delay && 2 <= Free(Cancel(s.pend, r.target))
    ensures var k, (s1, ps) := s.firings + 1, Drain(Fire(s, r));
      var on, off := Pend(r.target, ActOn, s.now, r.id, k), Pend(r.target, ActOff, Later(s.now, r.delay), r.id, k);
      && (Before(ps, off, on) <==> U32_MOD <= s.now + r.delay)
      && Pending(s1.pend, r.target) == if U32_MOD <= s.now + r.delay then [] else [off]
  {
    var k := s.firings + 1;
    var on, off := Pend(r.target, ActOn, s.now, r.id, k), Pend(r.target, ActOff, Later(s.now, r.delay), r.id, k);
    FiresTwo(s, r, on, off);
    OnAndOff(Fire(s, r), on, off, r.delay);
  }

  lemma FiresTwo(s: State, r: Rule, on: Pend, off: Pend)
    requires r.action == ActOn && 0 < r.delay && 2 <= Free(Cancel(s.pend, r.target))
    requires on == Pend(r.target, ActOn, s.now, r.id, s.firings + 1)
    requires off == on.(action := ActOff, due := Later(s.now, r.delay))
    ensures Pending(Fire(s, r).pend, r.target) == [on, off]
  {
    FiringReplaces(s.pend, r, s.now, s.firings + 1, r.target);
  }

  /** The last action delivered for a target. */
  ghost predicate LastHeard(ps: seq<Pend>, x: Ieee, a: Action) {
    exists j :: 0 <= j < |ps| && ps[j].target == x && ps[j].action == a
      && forall m :: j < m < |ps| ==> ps[m].target != x
  }

  /** A run in which this happens: a rule is added, the clock comes to its last millisecond, and the rule fires.
      Its target is left switched on. */
  lemma WrapRunLeavesOn(r: Rule, e: Event)
    requires r.enabled && r.action == ActOn && 0 < r.delay && Watches(r, e) && Condition(r, e) && r.id != 0
    ensures var (s, ps) := Drain(Run(InitState(), [Add(r), Poll(U32_MOD - 1, None), Eval(e)]));
      LastHeard(ps, r.target, ActOn) && Pending(s.pend, r.target) == []
  {
    var ops := [Add(r), Poll(U32_MOD - 1, None), Eval(e)];
    var s := FiredLate(r, e);
    OffFirstExactly(s, r);
    var ps := Drain(Fire(s, r)).1;
    var i, j :| 0 <= i < j < |ps| && ps[i].target == ps[j].target == r.target
      && ps[i].action == ActOff && ps[j].action == ActOn;
    PendingOverRuns(ops);
    forall m | j < m < |ps|
      ensures ps[m].target != r.target
    {
      if ps[m].target == r.target {
        OnBeforeOff(ops, i, m);
        OnBeforeOff(ops, j, m);
      }
    }
  }

  /** The state in which the rule of that run fires. */
  lemma FiredLate(r: Rule, e: Event) returns (s: State)
    requires r.enabled && Watches(r, e) && Condition(r, e) && r.id != 0
    ensures Run(InitState(), [Add(r), Poll(U32_MOD - 1, None), Eval(e)]) == Fire(s, r)
    ensures s.now == U32_MOD - 1 && 2 <= Free(Cancel(s.pend, r.target))
  {
    var s1 := Do(InitState(), Add(r));
    var s2 := Do(s1, Poll(U32_MOD - 1, None));
    s := s2.(slots := [Slot(r, true, false)]);
    assert s1.slots == [Slot(r, false, false)];
    assert s2.slots[0 := Slot(r, true, false)] == s.slots;
    assert EvalAt(s2, e, 0) == Fire(s, r);
    assert Do(s2, Eval(e)) == EvalFrom(Fire(s, r), e, 1) == Fire(s, r);
    RunThree(InitState(), Add(r), Poll(U32_MOD - 1, None), Eval(e));
    assert Cancel(s.pend, r.target) == InitState().pend;
  }

  lemma RunThree(s: State, a: Op, b: Op, c: Op)
    ensures Run(s, [a, b, c]) == Do(Do(Do(s, a), b), c)
  {
    assert [a, b, c][1..] == [b, c] && [b, c][1..] == [c] && [c][1..] == [];
    assert Run(Do(Do(s, a), b), [c]) == Do(Do(Do(s, a), b), c);
  }
}
