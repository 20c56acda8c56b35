/** The automation engine: three parallel arrays for the rules and their latches, an array of pending
    actions, all changed in place, proved to compute the machine of AutoRules. */
module AutoEngine {
  import opened Machine
  import opened AutoRules

  /** The machine's view of the parallel arrays. */
  function Slots(rs: seq<Rule>, ls: seq<bool>, ts: seq<bool>): (r: seq<Slot>)
    requires |ls| == |rs| == |ts|
    ensures |r| == |rs| && forall i :: 0 <= i < |rs| ==> r[i] == Slot(rs[i], ls[i], ts[i])
  {
    seq(|rs|, i requires 0 <= i < |rs| && |ls| == |rs| == |ts| => Slot(rs[i], ls[i], ts[i]))
  }

  function Without(s: seq<Slot>, k: nat): seq<Slot>
    requires k < |s|
  {
    s[..k] + s[k + 1..]
  }

  class Engine {
    const rules: array<Rule>
    const latched: array<bool>
    const timeFired: array<bool>
    const pend: array<Option<Pend>>
    var n: nat
    var now: u32
    var nextId: u16
    var lastId: u16
    // History: the number of firings so far, and each target's last firing.
    var firings: nat
    ghost var latest: map<Ieee, nat>

    ghost predicate Valid()
      reads this
    {
      && rules.Length == latched.Length == timeFired.Length == RULE_MAX && pend.Length == PEND_MAX
      && latched != timeFired && n <= RULE_MAX
    }

    ghost function Model(): (s: State)
      requires Valid()
      reads this, rules, latched, timeFired, pend
      ensures |s.slots| == n && |s.pend| == PEND_MAX
    {
      State(Slots(rules[..n], latched[..n], timeFired[..n]), pend[..], now, nextId, lastId, firings, latest)
    }

    constructor ()
      ensures Valid() && Model() == InitState()
      ensures fresh(rules) && fresh(latched) && fresh(timeFired) && fresh(pend)
    {
      rules := new Rule[RULE_MAX](_ => Rule(0, false, 0, TrigOn, 0, 0, ActOn, 0));
      latched := new bool[RULE_MAX](_ => false);
      timeFired := new bool[RULE_MAX](_ => false);
      pend := new Option<Pend>[PEND_MAX](_ => None);
      n, now, nextId, lastId, firings, latest := 0, 0, 1, 0, 0, map[];
    }

    method FindId(id: u16) returns (k: nat)
      requires Valid()
      ensures k == Find(Model().slots, id)
    {
      k := 0;
      while k < n && rules[k].id != id
        invariant 0 <= k <= n
        invariant forall i :: 0 <= i < k ==> rules[i].id != id
      {
        k := k + 1;
      }
      FindUnique(Model().slots, id, k);
    }

    method CancelPending(target: Ieee)
      requires Valid()
      modifies pend
      ensures pend[..] == Cancel(old(pend[..]), target)
    {
      var i := 0;
      while i < PEND_MAX
        invariant 0 <= i <= PEND_MAX
        invariant forall k :: 0 <= k < i ==> pend[k] == if Aims(old(pend[k]), target) then None else old(pend[k])
        invariant forall k :: i <= k < PEND_MAX ==> pend[k] == old(pend[k])
      {
        if pend[i].Some? && pend[i].value.target == target {
          pend[i] := None;
        }
        i := i + 1;
      }
    }

    method QueueAct(p: Pend) returns (e: Err)
      requires Valid()
      modifies pend
      ensures pend[..] == Queue(old(pend[..]), p)
      ensures e == if FirstFree(old(pend[..])) < PEND_MAX then OK else NOSPC
    {
      var i := 0;
      while i < PEND_MAX && pend[i].Some?
        invariant 0 <= i <= PEND_MAX
        invariant forall k :: 0 <= k < i ==> pend[k].Some?
      {
        i := i + 1;
      }
      FirstFreeUnique(pend[..], i);
      if i < PEND_MAX {
        pend[i] := Some(p);
        return OK;
      }
      e := NOSPC;
    }

    /** Queues what the rule does; the caller has noted the rule as the last one fired. */
    method FireRule(r: Rule)
      requires Valid() && lastId == r.id
      modifies pend, this`firings, this`latest
      ensures Valid() && Model() == Fire(old(Model()), r)
    {
      QueueFiring(r, firings + 1);
      firings, latest := firings + 1, latest[r.target := firings + 1];
    }

    method QueueFiring(r: Rule, k: nat)
      requires Valid()
      modifies pend
      ensures pend[..] == FireTable(old(pend[..]), r, now, k)
    {
      CancelPending(r.target);
      var e;
      if r.action == ActOn {
        e := QueueAct(Pend(r.target, ActOn, now, r.id, k));
        if r.delay > 0 {
          e := QueueAct(Pend(r.target, ActOff, Later(now, r.delay), r.id, k));
        }
      } else {
        var due := now;
        if r.delay > 0 {
          due := Later(now, r.delay);
        }
        e := QueueAct(Pend(r.target, r.action, due, r.id, k));
      }
    }

    method MatchAttr(i: nat, e: Event) returns (hit: bool)
      requires Valid() && i < n
      modifies latched
      ensures (hit, latched[i]) == Match(rules[i], e, old(latched[i]))
      ensures latched[..] == old(latched[..])[i := latched[i]]
    {
      var r := rules[i];
      hit := false;
      if r.trig == TrigTime || r.trigIeee != e.ieee {
        return;
      }
      var holds := if r.trig == TrigTempGt then e.level > r.thresh else e.on;
      if holds {
        if !latched[i] {
          latched[i] := true;
          hit := true;
        }
      } else {
        latched[i] := false;
      }
    }

    method EvalRule(i: nat, e: Event) returns (hit: bool)
      requires Valid() && i < n
      modifies latched, pend, this`firings, this`latest, this`lastId
      ensures Valid() && Model() == EvalAt(old(Model()), e, i)
      ensures hit <==> firings != old(firings)
    {
      hit := false;
      if !rules[i].enabled {
        return;
      }
      ghost var before := latched[..n];
      hit := MatchAttr(i, e);
      assert latched[..n] == before[i := latched[i]];
      if hit {
        lastId := rules[i].id;
        FireRule(rules[i]);
      }
    }

    /** Every enabled rule meets the event; the result says whether any fired. */
    method Eval(e: Event) returns (r: Err)
      requires Valid()
      modifies latched, pend, this`firings, this`latest, this`lastId
      ensures Valid() && Model() == EvalFrom(old(Model()), e, 0)
      ensures r == if firings != old(firings) then OK else NOENT
    {
      var i, hit := 0, false;
      while i < n
        invariant 0 <= i <= n == old(n) && Valid()
        invariant EvalFrom(Model(), e, i) == EvalFrom(old(Model()), e, 0)
        invariant firings >= old(firings) && (hit <==> firings != old(firings))
      {
        EvalCounts(Model(), e, i);
        var h := EvalRule(i, e);
        hit := hit || h;
        i := i + 1;
      }
      r := if hit then OK else NOENT;
    }

    method PollRule(i: nat, minutes: int)
      requires Valid() && i < n
      modifies timeFired, pend, this`firings, this`latest, this`lastId
      ensures Valid() && Model() == PollAt(old(Model()), minutes, i)
    {
      var r := rules[i];
      if !r.enabled || r.trig != TrigTime {
        return;
      }
      if r.thresh == minutes {
        if !timeFired[i] {
          SetTimeFired(i, true);
          lastId := r.id;
          FireRule(r);
        } else {
          assert Model().slots[i := Model().slots[i]] == Model().slots;
        }
      } else {
        SetTimeFired(i, false);
      }
    }

    method SetTimeFired(i: nat, at: bool)
      requires Valid() && i < n
      modifies timeFired
      ensures Model() == old(Model()).(slots := old(Model()).slots[i := old(Model()).slots[i].(timeFired := at)])
    {
      ghost var before := timeFired[..n];
      timeFired[i] := at;
      assert timeFired[..n] == before[i := at];
    }

    method Poll(dt: u32, minutes: Option<int>)
      requires Valid()
      modifies timeFired, pend, this`firings, this`latest, this`lastId, this`now
      ensures Valid() && Model() == PollRules(old(Model()), dt, minutes)
    {
      ghost var s := Model();
      Advance(dt);
      if minutes.Some? {
        PollTwoSteps(s, dt, minutes.value);
        PollLoop(minutes.value);
      }
    }

    method Advance(dt: u32)
      requires Valid()
      modifies this`now
      ensures Valid() && Model() == PollRules(old(Model()), dt, None)
    {
      now := (now + dt) % U32_MOD;
    }

    method PollLoop(minutes: int)
      requires Valid()
      modifies timeFired, pend, this`firings, this`latest, this`lastId
      ensures Valid() && Model() == PollFrom(old(Model()), minutes, 0)
    {
      ghost var s := Model();
      var i := 0;
      while i < n
        invariant 0 <= i <= n == old(n) && Valid()
        invariant PollFrom(Model(), minutes, i) == PollFrom(s, minutes, 0)
      {
        PollRule(i, minutes);
        i := i + 1;
      }
    }

    method Add(r: Rule) returns (e: Err)
      requires Valid()
      modifies rules, latched, timeFired, this`n, this`nextId
      ensures Valid() && Model() == AddRule(old(Model()), r)
      ensures e == if old(n) < RULE_MAX then OK else NOSPC
    {
      if n >= RULE_MAX {
        return NOSPC;
      }
      var id := r.id;
      if r.id == 0 {
        id := nextId;
        nextId := (nextId + 1) % U16_MOD;
      } else if r.id >= nextId {
        nextId := (r.id + 1) % U16_MOD;
      }
      Append(r.(id := id));
      e := OK;
    }

    method Append(r: Rule)
      requires Valid() && n < RULE_MAX
      modifies rules, latched, timeFired, this`n
      ensures Valid() && Model() == old(Model()).(slots := old(Model()).slots + [Slot(r, false, false)])
    {
      rules[n] := r;
      latched[n] := false;
      timeFired[n] := false;
      n := n + 1;
      ghost var now, was := Model().slots, old(Model().slots);
      forall j | 0 <= j < n - 1
        ensures now[j] == was[j]
      {
      }
    }

    method SetEnabled(id: u16, on: bool) returns (e: Err)
      requires Valid()
      modifies rules, pend
      ensures Valid() && Model() == Enable(old(Model()), id, on)
      ensures e == if Find(old(Model()).slots, id) < n then OK else NOENT
    {
      var k := FindId(id);
      if k == n {
        return NOENT;
      }
      rules[k] := rules[k].(enabled := on);
      if !on {
        CancelPending(rules[k].target);
      }
      e := OK;
    }

    /** Removes the first rule with the id; the rules behind it move up with their latches. */
    method Remove(id: u16) returns (e: Err)
      requires Valid()
      modifies rules, latched, timeFired, pend, this`n
      ensures Valid() && Model() == RemoveRule(old(Model()), id)
      ensures e == if Find(old(Model()).slots, id) < old(n) then OK else NOENT
    {
      var k := FindId(id);
      if k == n {
        return NOENT;
      }
      CancelPending(rules[k].target);
      RemoveAt(k);
      e := OK;
    }

    method RemoveAt(k: nat)
      requires Valid() && k < n
      modifies rules, latched, timeFired, this`n
      ensures Valid() && Model() == old(Model()).(slots := Without(old(Model()).slots, k))
    {
      ShiftDown(k);
      n := n - 1;
      rules[n] := Rule(0, false, 0, TrigOn, 0, 0, ActOn, 0);
      latched[n] := false;
      timeFired[n] := false;
      ghost var now, was := Model().slots, old(Model().slots);
      forall j | 0 <= j < n
        ensures now[j] == was[if j < k then j else j + 1]
      {
      }
      assert now == Without(was, k);
    }

    method ShiftDown(k: nat)
      requires Valid() && k < n
      modifies rules, latched, timeFired
      ensures forall j :: 0 <= j < n - 1 ==>
        && rules[j] == old(rules[if j < k then j else j + 1])
        && latched[j] == old(latched[if j < k then j else j + 1])
        && timeFired[j] == old(timeFired[if j < k then j else j + 1])
    {
      var i := k;
      while i + 1 < n
        invariant k <= i < n
        invariant forall j :: 0 <= j < i ==>
          && rules[j] == old(rules[if j < k then j else j + 1])
          && latched[j] == old(latched[if j < k then j else j + 1])
          && timeFired[j] == old(timeFired[if j < k then j else j + 1])
        invariant forall j :: i <= j < n ==>
          rules[j] == old(rules[j]) && latched[j] == old(latched[j]) && timeFired[j] == old(timeFired[j])
      {
        rules[i] := rules[i + 1];
        latched[i] := latched[i + 1];
        timeFired[i] := timeFired[i + 1];
        i := i + 1;
      }
    }

    /** Takes the due action that fell due first. */
    method Take() returns (e: Err, p: Option<Pend>)
      requires Valid()
      modifies pend
      ensures Valid() && (Model(), p) == TakeDue(old(Model()))
      ensures e == if p.Some? then OK else NOENT
    {
      var i, best, soon := 0, PEND_MAX, 0xFFFF_FFFF;
      while i < PEND_MAX
        invariant 0 <= i <= PEND_MAX
        invariant best == BestDue(pend[..], now, i)
        invariant best < PEND_MAX ==> soon == pend[best].value.due
        invariant best == PEND_MAX ==> soon == 0xFFFF_FFFF
      {
        if pend[i].Some? && pend[i].value.due <= now && pend[i].value.due <= soon {
          soon := pend[i].value.due;
          best := i;
        }
        i := i + 1;
      }
      if best >= PEND_MAX {
        return NOENT, None;
      }
      p := pend[best];
      pend[best] := None;
      e := OK;
    }
  }

  lemma {:induction false} FindUnique(slots: seq<Slot>, id: u16, k: nat)
    requires k <= |slots| && (k < |slots| ==> slots[k].rule.id == id)
    requires forall i :: 0 <= i < k ==> slots[i].rule.id != id
    ensures Find(slots, id) == k
  {
    var f := Find(slots, id);
  }

  lemma FirstFreeUnique(t: Table, k: nat)
    requires k <= |t| && (k < |t| ==> t[k].None?) && forall i :: 0 <= i < k ==> t[i].Some?
    ensures FirstFree(t) == k
  {
    var f := FirstFree(t);
  }

  /** A poll moves the clock, then looks at the rules. */
  lemma PollTwoSteps(s: State, dt: u32, minutes: int)
    ensures PollRules(s, dt, Some(minutes)) == PollFrom(PollRules(s, dt, None), minutes, 0)
  {
  }

  /** Firings are only ever counted up. */
  lemma EvalCounts(s: State, e: Event, i: nat)
    requires i < |s.slots|
    ensures EvalAt(s, e, i).firings >= s.firings
  {
  }
}
