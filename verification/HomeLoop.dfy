/** The home service: commands change devices and tell the rules; due actions are drained with the
    rules switched off. */
module HomeLoop {
  import opened Machine
  import opened AutoRules
  import opened AutoDrain
  import opened AutoEngine
  import opened HomeDevices

  /** The rules and the devices when nothing is left due. */
  function Drained(s: State, devs: seq<Dev>, radio: bool, digits: nat): (State, seq<Dev>) {
    (Drain(s).0, ApplyAll(devs, Drain(s).1, radio, digits))
  }

  /** The same, when action `p` has been taken but not applied, or nothing was left to take. */
  function AfterTake(s: State, p: Option<Pend>, devs: seq<Dev>, radio: bool, digits: nat): (State, seq<Dev>) {
    if p.None? then (s, devs) else Drained(s, Apply(devs, p.value, radio, digits), radio, digits)
  }

  lemma TakeSteps(s: State, devs: seq<Dev>, radio: bool, digits: nat)
    ensures AfterTake(TakeDue(s).0, TakeDue(s).1, devs, radio, digits) == Drained(s, devs, radio, digits)
    ensures TakeDue(s).1.Some? ==> Used(TakeDue(s).0.pend) < Used(s.pend)
    ensures Used(TakeDue(s).0.pend) <= Used(s.pend)
  {
    TakeUses(s);
    var (s1, p) := TakeDue(s);
    if p.Some? {
      var ps := [p.value] + Drain(s1).1;
      assert Drain(s).1 == ps && ps[0] == p.value && ps[1..] == Drain(s1).1;
    } else {
      assert s1 == s;
    }
  }

  class Home {
    const auto: Engine
    const digits: nat
    var devs: seq<Dev>
    var autoApply: bool
    var radio: bool
    var gen: u32
    // History: the device states handed to the change callback.
    ghost var shown: seq<Dev>

    ghost predicate Valid()
      reads this, auto
    {
      auto.Valid() && digits == HEX_DIGITS && |devs| <= DEV_MAX
    }

    constructor (devices: seq<Dev>, radioUp: bool)
      requires |devices| <= DEV_MAX
      ensures Valid() && !autoApply && devs == devices && radio == radioUp && shown == []
      ensures auto.Model() == InitState() && fresh(auto)
      ensures fresh(auto.rules) && fresh(auto.latched) && fresh(auto.timeFired) && fresh(auto.pend)
    {
      auto := new Engine();
      digits, devs, autoApply, radio, gen, shown := HEX_DIGITS, devices, false, radioUp, 0, [];
    }

    method Find(id: string) returns (k: nat)
      requires Valid()
      ensures k == Lookup(devs, id, digits)
    {
      k := 0;
      while k < |devs| && !Known(devs[k], id, digits)
        invariant 0 <= k <= |devs|
        invariant forall i :: 0 <= i < k ==> !Known(devs[i], id, digits)
      {
        k := k + 1;
      }
      ghost var f := Lookup(devs, id, digits);
    }

    /** Shows the device to the callback, and to the rules unless a due action is being applied. */
    method NotifyAt(k: nat)
      requires Valid() && k < |devs|
      modifies this`shown, auto.latched, auto.pend, auto`firings, auto`latest, auto`lastId
      ensures Valid() && shown == old(shown) + [devs[k]]
      ensures auto.Model() ==
        if autoApply then old(auto.Model()) else EvalFrom(old(auto.Model()), EventOf(devs[k]), 0)
    {
      shown := shown + [devs[k]];
      if !autoApply {
        var e := auto.Eval(EventOf(devs[k]));
      }
    }

    /** A command by name or printed address. Only a command that took effect is shown to anyone. */
    method Command(id: string, c: Cmd) returns (e: Err)
      requires Valid()
      modifies this`devs, this`gen, this`shown, auto.latched, auto.pend, auto`firings, auto`latest, auto`lastId
      ensures Valid() && (devs, e) == Commanded(old(devs), id, c, radio, digits)
      ensures e != OK ==> auto.Model() == old(auto.Model()) && shown == old(shown) && gen == old(gen)
      ensures e == OK ==>
        var k := Lookup(old(devs), id, digits);
        && shown == old(shown) + [devs[k]] && gen == (old(gen) + 1) % U32_MOD
        && auto.Model() == if autoApply then old(auto.Model()) else EvalFrom(old(auto.Model()), EventOf(devs[k]), 0)
    {
      if id == "" {
        return NOENT;
      }
      var k := Find(id);
      if k == |devs| {
        return NOENT;
      }
      e := Switch(k, c);
      if e == OK {
        Publish(k);
      }
    }

    /** Sets the device, and puts it back if the radio cannot send. */
    method Switch(k: nat, c: Cmd) returns (e: Err)
      requires Valid() && k < |devs|
      modifies this`devs
      ensures Valid() && e == if !old(devs)[k].switchable then INVAL else if !radio then IO else OK
      ensures devs == if e == OK then old(devs)[k := Switched(old(devs)[k], c)] else old(devs)
    {
      var was := devs[k];
      if !was.switchable {
        return INVAL;
      }
      devs := devs[k := Switched(was, c)];
      if !radio {
        devs := devs[k := was];
        assert devs == old(devs);
        return IO;
      }
      e := OK;
    }

    method Publish(k: nat)
      requires Valid() && k < |devs|
      modifies this`gen, this`shown, auto.latched, auto.pend, auto`firings, auto`latest, auto`lastId
      ensures Valid() && shown == old(shown) + [devs[k]] && gen == (old(gen) + 1) % U32_MOD
      ensures auto.Model() ==
        if autoApply then old(auto.Model()) else EvalFrom(old(auto.Model()), EventOf(devs[k]), 0)
    {
      gen := (gen + 1) % U32_MOD;
      NotifyAt(k);
    }

    method FindAddress(ieee: Ieee) returns (k: nat)
      requires Valid()
      ensures k == FindDev(devs, ieee)
    {
      k := 0;
      while k < |devs| && devs[k].ieee != ieee
        invariant 0 <= k <= |devs|
        invariant forall i :: 0 <= i < k ==> devs[i].ieee != ieee
      {
        k := k + 1;
      }
      ghost var f := FindDev(devs, ieee);
    }

    /** Applies one action that was taken from the table; the rules do not see what it does. */
    method ApplyAct(p: Pend)
      requires Valid() && !autoApply
      modifies this`devs, this`gen, this`shown, this`autoApply
      modifies auto.latched, auto.pend, auto`firings, auto`latest, auto`lastId
      ensures Valid() && !autoApply && auto.Model() == old(auto.Model())
      ensures devs == Apply(old(devs), p, radio, digits)
    {
      var c := Cmd(p.action != ActOff, None);
      if p.action == ActToggle {
        var k := FindAddress(p.target);
        if k == |devs| {
          return;
        }
        c := Cmd(!devs[k].on, None);
      }
      autoApply := true;
      var e := Command(Hex(p.target, digits), c);
      autoApply := false;
    }

    /** Applies due actions until none is left: the table and the devices end as the drain says,
        whatever the commands did on the way. Each round frees one entry of the table. */
    method ApplyDue()
      requires Valid() && !autoApply
      modifies this`devs, this`gen, this`shown, this`autoApply
      modifies auto.latched, auto.pend, auto`firings, auto`latest, auto`lastId
      ensures Valid() && !autoApply
      ensures (auto.Model(), devs) == Drained(old(auto.Model()), old(devs), radio, digits)
    {
      ghost var end := Drained(auto.Model(), devs, radio, digits);
      TakeSteps(auto.Model(), devs, radio, digits);
      var e, p := auto.Take();
      while e == OK
        invariant Valid() && !autoApply && (e == OK <==> p.Some?)
        invariant AfterTake(auto.Model(), p, devs, radio, digits) == end
        decreases Used(auto.Model().pend), e == OK
      {
        ApplyAct(p.value);
        TakeSteps(auto.Model(), devs, radio, digits);
        e, p := auto.Take();
      }
    }

    /** One turn of the home loop: the rules look at the clock, then everything due is done. */
    method Poll(dt: u32, minutes: Option<int>)
      requires Valid() && !autoApply
      modifies this`devs, this`gen, this`shown, this`autoApply
      modifies auto.latched, auto.timeFired, auto.pend, auto`firings, auto`latest, auto`lastId, auto`now
      ensures Valid() && !autoApply
      ensures (auto.Model(), devs) == Drained(PollRules(old(auto.Model()), dt, minutes), old(devs), radio, digits)
    {
      auto.Poll(dt, minutes);
      ApplyDue();
    }
  }

  /** What one turn of the home loop leaves: nothing due is pending, everything else is still pending
      where it was, and each switchable device is as the due actions aimed at it made it, earliest first. */
  lemma DrainedMeans(s: State, devs: seq<Dev>, radio: bool, digits: nat, k: nat)
    requires DeviceTable(devs, digits) && 0 < digits && k < |devs|
    requires forall i :: 0 <= i < |Drain(s).1| ==> Unconfused(devs, k, Drain(s).1[i].target, digits)
    ensures var (s1, devs1) := Drained(s, devs, radio, digits);
      && s1 == s.(pend := Undue(s.pend, s.now))
      && Sorted(Drain(s).1) && multiset(Drain(s).1) == multiset(DueList(s.pend, s.now))
      && SameTable(devs1, devs)
      && devs1[k].on ==
        if radio && devs[k].switchable then OnAfter(devs[k].on, Drain(s).1, devs[k].ieee) else devs[k].on
  {
    DrainDelivers(s);
    DrainSorted(s);
    ApplyAllPerDevice(devs, Drain(s).1, radio, digits, k);
  }
}
