/** The home over whole runs of commands and turns of its loop: what the devices end as, and what the rules are
    shown. */
module HomeRuns {
  import opened Machine
  import opened AutoRules
  import opened AutoDrain
  import opened HomeDevices
  import opened HomeLoop

  const DIGITS := 16

  datatype World = World(s: State, devs: seq<Dev>, radio: bool)

  datatype Input =
    | Told(id: string, c: Cmd)
    | Turn(dt: u32, minutes: Option<int>)
    | Rules(op: Op)
    | Radio(up: bool)

  /** A device that was switched: by a command, perhaps with a level, or by an action. */
  datatype Switch = Switch(k: nat, on: bool, level: Option<u8>)

  /** What the rules were shown, and the number of switches up to and with the one it followed. */
  datatype Seen = Seen(e: Event, at: nat)

  datatype Story = Story(w: World, trail: seq<Switch>, seen: seq<Seen>)

  /** The switch that an action makes, if it reaches a device that can be switched. A toggle looks at the device it is
      aimed at, and is dropped without one. */
  function SwitchOf(devs: seq<Dev>, p: Pend, radio: bool): Option<Switch> {
    var k, d := Lookup(devs, Hex(p.target, DIGITS), DIGITS), FindDev(devs, p.target);
    if k == |devs| || !devs[k].switchable || !radio then None
    else
      match p.action
      case ActOn => Some(Switch(k, true, None))
      case ActOff => Some(Switch(k, false, None))
      case ActToggle => if d == |devs| then None else Some(Switch(k, !devs[d].on, None))
  }

  /** The switches that a list of actions makes. */
  function Switches(devs: seq<Dev>, ps: seq<Pend>, radio: bool): seq<Switch>
    decreases |ps|
  {
    if ps == [] then []
    else
      var x := SwitchOf(devs, ps[0], radio);
      (if x.Some? then [x.value] else []) + Switches(Apply(devs, ps[0], radio, DIGITS), ps[1..], radio)
  }

  /** A command that takes effect is shown to the rules; what a turn does is not. */
  function Next(t: Story, i: Input): Story {
    var w := t.w;
    match i
    case Told(id, c) =>
      var (devs, e) := Commanded(w.devs, id, c, w.radio, DIGITS);
      if e != OK then t
      else
        var k := Lookup(w.devs, id, DIGITS);
        var ev := EventOf(devs[k]);
        Story(World(EvalFrom(w.s, ev, 0), devs, w.radio), t.trail + [Switch(k, c.on, c.level)],
              t.seen + [Seen(ev, |t.trail| + 1)])
    case Turn(dt, minutes) =>
      var s := PollRules(w.s, dt, minutes);
      var (s1, devs) := Drained(s, w.devs, w.radio, DIGITS);
      Story(World(s1, devs, w.radio), t.trail + Switches(w.devs, Drain(s).1, w.radio), t.seen)
    case Rules(op) => t.(w := w.(s := Do(w.s, op)))
    case Radio(up) => t.(w := w.(radio := up))
  }

  function Run(t: Story, ins: seq<Input>): Story
    decreases |ins|
  {
    if ins == [] then t else Run(Next(t, ins[0]), ins[1..])
  }

  // ---------------------------------------------------------------- what the devices are

  /** The last switch of a device, and the last that came with a level. */
  function LastOn(trail: seq<Switch>, k: nat, was: bool): bool {
    if trail == [] then was
    else var n := |trail| - 1; if trail[n].k == k then trail[n].on else LastOn(trail[..n], k, was)
  }

  function LastLevel(trail: seq<Switch>, k: nat, was: u8): u8 {
    if trail == [] then was
    else
      var n := |trail| - 1;
      if trail[n].k == k && trail[n].level.Some? then trail[n].level.value else LastLevel(trail[..n], k, was)
  }

  /** Device `k` is as it was last switched, and otherwise as at the start. */
  predicate AsSwitched(d: Dev, was: Dev, trail: seq<Switch>, k: nat) {
    d == was.(on := LastOn(trail, k, was.on), level := LastLevel(trail, k, was.level))
  }

  predicate AllAsSwitched(devs: seq<Dev>, was: seq<Dev>, trail: seq<Switch>) {
    |devs| == |was| && forall k :: 0 <= k < |devs| ==> AsSwitched(devs[k], was[k], trail, k)
  }

  /** What was shown followed a switch, and is the device's address, its new state and its level. */
  predicate ShowsSwitch(x: Seen, was: seq<Dev>, trail: seq<Switch>) {
    && 0 < x.at <= |trail|
    && var k := trail[x.at - 1].k;
       k < |was| && x.e == Event(was[k].ieee, trail[x.at - 1].on, LastLevel(trail[..x.at], k, was[k].level))
  }

  predicate StoryOk(t: Story, was: seq<Dev>) {
    AllAsSwitched(t.w.devs, was, t.trail) && forall j :: 0 <= j < |t.seen| ==> ShowsSwitch(t.seen[j], was, t.trail)
  }

  function After(d: Dev, x: Switch): Dev {
    d.(on := x.on, level := if x.level.Some? then x.level.value else d.level)
  }

  lemma SwitchOne(devs: seq<Dev>, was: seq<Dev>, trail: seq<Switch>, x: Switch)
    requires AllAsSwitched(devs, was, trail) && x.k < |devs|
    ensures AllAsSwitched(devs[x.k := After(devs[x.k], x)], was, trail + [x])
  {
    var next, more := devs[x.k := After(devs[x.k], x)], trail + [x];
    assert more[..|trail|] == trail;
    forall k | 0 <= k < |devs|
      ensures AsSwitched(next[k], was[k], more, k)
    {
      assert AsSwitched(devs[k], was[k], trail, k);
    }
  }

  lemma ApplySwitches(devs: seq<Dev>, p: Pend, radio: bool)
    ensures var x := SwitchOf(devs, p, radio);
      Apply(devs, p, radio, DIGITS) ==
        if x.Some? && x.value.k < |devs| then devs[x.value.k := After(devs[x.value.k], x.value)] else devs
    ensures SwitchOf(devs, p, radio).Some? ==> SwitchOf(devs, p, radio).value.k < |devs|
  {
    assert |Hex(p.target, DIGITS)| == DIGITS;
  }

  lemma {:induction false} ActionsSwitch(devs: seq<Dev>, was: seq<Dev>, trail: seq<Switch>, ps: seq<Pend>, radio: bool)
    requires AllAsSwitched(devs, was, trail)
    ensures AllAsSwitched(ApplyAll(devs, ps, radio, DIGITS), was, trail + Switches(devs, ps, radio))
    decreases |ps|
  {
    if ps == [] {
      assert trail + [] == trail;
    } else {
      var x := SwitchOf(devs, ps[0], radio);
      var one := if x.Some? then [x.value] else [];
      var devs1 := Apply(devs, ps[0], radio, DIGITS);
      ApplySwitches(devs, ps[0], radio);
      if x.Some? {
        SwitchOne(devs, was, trail, x.value);
      } else {
        assert trail + [] == trail;
      }
      ActionsSwitch(devs1, was, trail + one, ps[1..], radio);
      Assoc(trail, one, Switches(devs1, ps[1..], radio));
    }
  }

  lemma ShownStays(seen: seq<Seen>, was: seq<Dev>, trail: seq<Switch>, more: seq<Switch>)
    requires forall j :: 0 <= j < |seen| ==> ShowsSwitch(seen[j], was, trail)
    ensures forall j :: 0 <= j < |seen| ==> ShowsSwitch(seen[j], was, trail + more)
  {
    forall j | 0 <= j < |seen|
      ensures ShowsSwitch(seen[j], was, trail + more)
    {
      assert ShowsSwitch(seen[j], was, trail);
      assert (trail + more)[..seen[j].at] == trail[..seen[j].at];
    }
  }

  lemma CommandKeeps(t: Story, was: seq<Dev>, id: string, c: Cmd)
    requires StoryOk(t, was)
    ensures StoryOk(Next(t, Told(id, c)), was)
  {
    var (devs, e) := Commanded(t.w.devs, id, c, t.w.radio, DIGITS);
    if e == OK {
      var k := Lookup(t.w.devs, id, DIGITS);
      var x := Switch(k, c.on, c.level);
      var trail := t.trail + [x];
      SwitchOne(t.w.devs, was, t.trail, x);
      ShownStays(t.seen, was, t.trail, [x]);
      assert trail[..|trail|] == trail;
      assert AsSwitched(devs[k], was[k], trail, k);
      assert ShowsSwitch(Seen(EventOf(devs[k]), |trail|), was, trail);
    }
  }

  lemma TurnKeeps(t: Story, was: seq<Dev>, dt: u32, minutes: Option<int>)
    requires StoryOk(t, was)
    ensures StoryOk(Next(t, Turn(dt, minutes)), was)
  {
    var ps := Drain(PollRules(t.w.s, dt, minutes)).1;
    ActionsSwitch(t.w.devs, was, t.trail, ps, t.w.radio);
    ShownStays(t.seen, was, t.trail, Switches(t.w.devs, ps, t.w.radio));
  }

  lemma {:induction false} RunKeeps(t: Story, was: seq<Dev>, ins: seq<Input>)
    requires StoryOk(t, was)
    ensures StoryOk(Run(t, ins), was)
    decreases |ins|
  {
    if ins != [] {
      match ins[0] {
        case Told(id, c) => CommandKeeps(t, was, id, c);
        case Turn(dt, minutes) => TurnKeeps(t, was, dt, minutes);
        case _ =>
      }
      RunKeeps(Next(t, ins[0]), was, ins[1..]);
    }
  }

  /** Over every run: a device is on as it was last switched, at the level that last came with a command, and keeps its
      name and address; the rules are shown, of every command that takes effect and of nothing else, the device's
      address, that it is on or off as commanded, and its level. */
  lemma DevicesAsSwitched(devs: seq<Dev>, radio: bool, ins: seq<Input>)
    ensures StoryOk(Run(Story(World(InitState(), devs, radio), [], []), ins), devs)
  {
    RunKeeps(Story(World(InitState(), devs, radio), [], []), devs, ins);
  }
}
