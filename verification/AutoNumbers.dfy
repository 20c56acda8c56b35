/** The numbers of rules and the times of actions, in numbers. */
module AutoNumbers {
  import opened Machine
  import opened AutoRules
  import opened AutoPending
  import opened AutoDrain

  // ---------------------------------------------------------------- the numbers of rules

  /** All rules have numbers from 1 up to, but not including, the next one. */
  predicate Numbered(s: State) {
    0 < s.nextId && forall i :: 0 <= i < |s.slots| ==> 0 < s.slots[i].rule.id < s.nextId
  }

  /** The rule that this operation adds gets the last number there is. */
  predicate TakesLast(s: State, op: Op) {
    op.Add? && |s.slots| < 32 && (if op.r.id == 0 then s.nextId == 0xFFFF else op.r.id == 0xFFFF)
  }

  lemma {:induction false} EvalSameRules(s: State, e: Event, i: nat)
    requires i <= |s.slots|
    ensures var r := EvalFrom(s, e, i);
      r.nextId == s.nextId && forall j :: 0 <= j < |s.slots| ==> r.slots[j].rule == s.slots[j].rule
    decreases |s.slots| - i
  {
    if i < |s.slots| {
      EvalSameRules(EvalAt(s, e, i), e, i + 1);
    }
  }

  lemma {:induction false} PollSameRules(s: State, minutes: int, i: nat)
    requires i <= |s.slots|
    ensures var r := PollFrom(s, minutes, i);
      r.nextId == s.nextId && forall j :: 0 <= j < |s.slots| ==> r.slots[j].rule == s.slots[j].rule
    decreases |s.slots| - i
  {
    if i < |s.slots| {
      PollSameRules(PollAt(s, minutes, i), minutes, i + 1);
    }
  }

  lemma AddNumbers(s: State, r: Rule)
    requires Numbered(s) && !TakesLast(s, Add(r))
    ensures Numbered(AddRule(s, r))
  {
  }

  lemma RemoveNumbers(s: State, id: u16)
    requires Numbered(s)
    ensures Numbered(RemoveRule(s, id))
  {
    var k, s1 := Find(s.slots, id), RemoveRule(s, id);
    if k < |s.slots| {
      assert forall i :: 0 <= i < |s1.slots| ==> s1.slots[i] == s.slots[if i < k then i else i + 1];
    }
  }

  lemma DoNumbers(s: State, op: Op)
    requires Numbered(s) && !TakesLast(s, op)
    ensures Numbered(Do(s, op))
  {
    match op {
      case Add(r) => AddNumbers(s, r);
      case SetEnabled(id, on) =>
      case Remove(id) => RemoveNumbers(s, id);
      case Eval(e) => EvalSameRules(s, e, 0);
      case Poll(dt, minutes) =>
        if minutes.Some? {
          PollSameRules(s.(now := (s.now + dt) % U32_MOD), minutes.value, 0);
        }
      case Take =>
    }
  }

  predicate NeverLast(s: State, ops: seq<Op>)
    decreases |ops|
  {
    ops != [] ==> !TakesLast(s, ops[0]) && NeverLast(Do(s, ops[0]), ops[1..])
  }

  lemma {:induction false} RunNumbers(s: State, ops: seq<Op>)
    requires Numbered(s) && NeverLast(s, ops)
    ensures Numbered(Run(s, ops))
    decreases |ops|
  {
    if ops != [] {
      DoNumbers(s, ops[0]);
      RunNumbers(Do(s, ops[0]), ops[1..]);
    }
  }

  /** A rule that is added without a number gets one, and none that another rule has. */
  predicate AddsFresh(s: State, r: Rule)
    requires |s.slots| < 32
  {
    var slots := Do(s, Add(r)).slots;
    && |slots| == |s.slots| + 1 && slots[|s.slots|].rule == r.(id := slots[|s.slots|].rule.id)
    && 0 < slots[|s.slots|].rule.id
    && forall i :: 0 <= i < |s.slots| ==> slots[i] == s.slots[i] && slots[i].rule.id != slots[|s.slots|].rule.id
  }

  /** Over every run in which no rule got the last number. */
  lemma NumbersAreFresh(ops: seq<Op>, r: Rule)
    requires NeverLast(InitState(), ops) && |Run(InitState(), ops).slots| < 32 && r.id == 0
    ensures AddsFresh(Run(InitState(), ops), r)
  {
    RunNumbers(InitState(), ops);
  }

  /** And then not: the rule after it gets number 0, which means none. */
  lemma LastNumberExactly(ops: seq<Op>, first: Rule, r: Rule)
    requires NeverLast(InitState(), ops) && |Run(InitState(), ops).slots| < 31 && r.id == 0
    ensures var s := Run(InitState(), ops); AddsFresh(Do(s, Add(first)), r) <==> !TakesLast(s, Add(first))
  {
    var s := Run(InitState(), ops);
    RunNumbers(InitState(), ops);
    if !TakesLast(s, Add(first)) {
      DoNumbers(s, Add(first));
    }
  }

  // ---------------------------------------------------------------- the times of actions

  lemma {:induction false} DueListIsDue(t: Table, now: u32, p: Pend)
    ensures p in DueList(t, now) ==> p.due <= now && Some(p) in t
  {
    if t != [] {
      DueListIsDue(t[1..], now, p);
    }
  }

  /** What a drain delivers was pending and due by the clock, and what it leaves is not due yet and is where it was. */
  lemma DrainByTheClock(s: State)
    ensures forall p :: p in Drain(s).1 ==> p.due <= s.now && Some(p) in s.pend
    ensures var t := Drain(s).0.pend;
      && |t| == |s.pend|
      && forall i :: 0 <= i < |t| ==>
           t[i] == if s.pend[i].Some? && s.pend[i].value.due <= s.now then None else s.pend[i]
  {
    DrainDelivers(s);
    forall p | p in Drain(s).1
      ensures p.due <= s.now && Some(p) in s.pend
    {
      assert p in multiset(Drain(s).1);
      DueListIsDue(s.pend, s.now, p);
    }
  }
}
