/** The home service on values: which device a command reaches, and what a list of due actions
    does to the devices. */
module HomeDevices {
  import opened Machine
  import opened AutoRules

  const HEX_DIGITS := 16

  /** Hexadecimal digits of an address, most significant first. */
  function Hex(v: nat, n: nat): (s: string)
    ensures |s| == n
  {
    if n == 0 then "" else Hex(v / 16, n - 1) + [Digit(v % 16)]
  }

  function Digit(d: nat): char
    requires d < 16
  {
    "0123456789abcdef"[d]
  }

  predicate IsDigit(c: char) {
    '0' <= c <= '9' || 'a' <= c <= 'f'
  }

  function DigitValue(c: char): int {
    if c <= '9' then c as int - '0' as int else c as int - 'a' as int + 10
  }

  /** The number that digits to the base 16 stand for, the highest first. */
  function NumberFrom(s: string): int {
    if s == "" then 0 else 16 * NumberFrom(s[..|s| - 1]) + DigitValue(s[|s| - 1])
  }

  /** An address prints as its digits, 0 to 9 and a to f. */
  lemma {:induction false} HexMeans(v: nat, n: nat)
    requires v < Pow16(n)
    ensures NumberFrom(Hex(v, n)) == v && forall i :: 0 <= i < n ==> IsDigit(Hex(v, n)[i])
  {
    if 0 < n {
      HexMeans(v / 16, n - 1);
      assert Hex(v, n)[..n - 1] == Hex(v / 16, n - 1) && Hex(v, n)[n - 1] == Digit(v % 16);
      DigitIs(v % 16);
      forall i | 0 <= i < n
        ensures IsDigit(Hex(v, n)[i])
      {
        assert i < n - 1 ==> Hex(v, n)[i] == Hex(v / 16, n - 1)[i];
      }
    }
  }

  lemma DigitIs(d: nat)
    requires d < 16
    ensures IsDigit(Digit(d)) && DigitValue(Digit(d)) == d
  {
  }

  function Pow16(n: nat): nat {
    if n == 0 then 1 else 16 * Pow16(n - 1)
  }

  /** Different addresses print differently. */
  lemma {:induction false} HexInjective(v: nat, w: nat, n: nat)
    requires v < Pow16(n) && w < Pow16(n) && Hex(v, n) == Hex(w, n)
    ensures v == w
  {
    if 0 < n {
      var a, b := Hex(v / 16, n - 1), Hex(w / 16, n - 1);
      assert Hex(v, n)[..n - 1] == a && Hex(w, n)[..n - 1] == b;
      assert Hex(v, n)[n - 1] == Digit(v % 16) && Hex(w, n)[n - 1] == Digit(w % 16);
      assert v % 16 == w % 16;
      HexInjective(v / 16, w / 16, n - 1);
    }
  }

  const DEV_MAX := 32

  /** `switchable` is false of the sensor kinds. */
  datatype Dev = Dev(ieee: Ieee, name: string, switchable: bool, on: bool, level: u8)

  /** What the rules see of a device. */
  function EventOf(d: Dev): Event {
    Event(d.ieee, d.on, d.level)
  }

  datatype Cmd = Cmd(on: bool, level: Option<u8>)

  predicate Known(d: Dev, id: string, digits: nat) {
    d.name == id || Hex(d.ieee, digits) == id
  }

  /** Index of the first device called `id`, by name or by printed address; their number if there is none. */
  function Lookup(devs: seq<Dev>, id: string, digits: nat): (k: nat)
    ensures k <= |devs|
    ensures k < |devs| ==> Known(devs[k], id, digits)
    ensures forall i :: 0 <= i < k ==> !Known(devs[i], id, digits)
  {
    if devs == [] || Known(devs[0], id, digits) then 0 else 1 + Lookup(devs[1..], id, digits)
  }

  function FindDev(devs: seq<Dev>, ieee: Ieee): (k: nat)
    ensures k <= |devs|
    ensures k < |devs| ==> devs[k].ieee == ieee
    ensures forall i :: 0 <= i < k ==> devs[i].ieee != ieee
  {
    if devs == [] || devs[0].ieee == ieee then 0 else 1 + FindDev(devs[1..], ieee)
  }

  /** The device table: addresses of 64 bits, no two alike. */
  predicate DeviceTable(devs: seq<Dev>, digits: nat) {
    && (forall i :: 0 <= i < |devs| ==> devs[i].ieee < Pow16(digits))
    && (forall i, j :: 0 <= i < j < |devs| ==> devs[i].ieee != devs[j].ieee)
  }

  /** A command sent to a printed address reaches the device with that address if and only if no
      device before it carries the address as its name. */
  lemma AddressReachesExactly(devs: seq<Dev>, ieee: Ieee, digits: nat)
    requires DeviceTable(devs, digits) && ieee < Pow16(digits)
    ensures Lookup(devs, Hex(ieee, digits), digits) == FindDev(devs, ieee) <==>
      forall i :: 0 <= i < FindDev(devs, ieee) ==> devs[i].name != Hex(ieee, digits)
  {
    var id := Hex(ieee, digits);
    var k, f := Lookup(devs, id, digits), FindDev(devs, ieee);
    if k < f {
      if Hex(devs[k].ieee, digits) == id {
        HexInjective(devs[k].ieee, ieee, digits);
      }
    } else if f < |devs| {
      assert Known(devs[f], id, digits);
    }
  }

  /** A device whose name is another's address takes that device's commands. */
  lemma NameCapturesAddress(digits: nat)
    requires digits == HEX_DIGITS
    ensures exists devs, ieee: nat ::
      && DeviceTable(devs, digits) && ieee < Pow16(digits) && FindDev(devs, ieee) < |devs|
      && Lookup(devs, Hex(ieee, digits), digits) != FindDev(devs, ieee)
  {
    var devs := [Dev(1, Hex(2, digits), true, false, 0), Dev(2, "lamp", true, false, 0)];
    Pow16Grows(digits);
    assert Known(devs[0], Hex(2, digits), digits);
    assert FindDev(devs, 2) == 1;
  }

  lemma {:induction false} Pow16Grows(n: nat)
    requires 0 < n
    ensures 16 <= Pow16(n)
  {
    if 1 < n {
      Pow16Grows(n - 1);
    }
  }

  // ---------------------------------------------------------------- commands

  function Switched(d: Dev, c: Cmd): Dev {
    d.(on := c.on, level := if c.level.Some? then c.level.value else d.level)
  }

  /** The devices after a command and its result: nothing changes unless the result is OK. */
  function Commanded(devs: seq<Dev>, id: string, c: Cmd, radio: bool, digits: nat): (r: (seq<Dev>, Err))
    ensures |r.0| == |devs|
  {
    var k := if id == "" then |devs| else Lookup(devs, id, digits);
    if k == |devs| then (devs, NOENT)
    else if !devs[k].switchable then (devs, INVAL)
    else if !radio then (devs, IO)
    else (devs[k := Switched(devs[k], c)], OK)
  }

  /** The command an action amounts to when its turn comes: a toggle looks at the device then,
      and is dropped when there is none. */
  function CommandOf(devs: seq<Dev>, p: Pend): Option<Cmd> {
    match p.action
    case ActOn => Some(Cmd(true, None))
    case ActOff => Some(Cmd(false, None))
    case ActToggle =>
      var k := FindDev(devs, p.target);
      if k == |devs| then None else Some(Cmd(!devs[k].on, None))
  }

  function Apply(devs: seq<Dev>, p: Pend, radio: bool, digits: nat): (r: seq<Dev>)
    ensures |r| == |devs|
  {
    var c := CommandOf(devs, p);
    if c.None? then devs else Commanded(devs, Hex(p.target, digits), c.value, radio, digits).0
  }

  function ApplyAll(devs: seq<Dev>, ps: seq<Pend>, radio: bool, digits: nat): (r: seq<Dev>)
    ensures |r| == |devs|
    decreases |ps|
  {
    if ps == [] then devs else ApplyAll(Apply(devs, ps[0], radio, digits), ps[1..], radio, digits)
  }

  function Turned(on: bool, a: Action): bool {
    match a case ActOn => true case ActOff => false case ActToggle => !on
  }

  /** What the actions aimed at one address make of an on/off state, in order. */
  function OnAfter(on: bool, ps: seq<Pend>, ieee: Ieee): bool
    decreases |ps|
  {
    if ps == [] then on
    else OnAfter(if ps[0].target == ieee then Turned(on, ps[0].action) else on, ps[1..], ieee)
  }

  /** What is sent to this address reaches device `k` if and only if the address is its own. */
  predicate Unconfused(devs: seq<Dev>, k: nat, ieee: Ieee, digits: nat)
    requires k < |devs|
  {
    Lookup(devs, Hex(ieee, digits), digits) == k <==> devs[k].ieee == ieee
  }

  /** The same devices, whatever their state. */
  predicate SameTable(a: seq<Dev>, b: seq<Dev>) {
    |a| == |b| && forall i :: 0 <= i < |a| ==> a[i] == b[i].(on := a[i].on)
  }

  lemma SameLooksUp(a: seq<Dev>, b: seq<Dev>, id: string, digits: nat)
    requires SameTable(a, b)
    ensures Lookup(a, id, digits) == Lookup(b, id, digits)
  {
    var j, k := Lookup(a, id, digits), Lookup(b, id, digits);
    assert j < |a| ==> Known(b[j], id, digits);
    assert k < |a| ==> Known(a[k], id, digits);
  }

  /** One action moves device `k` as the action says if it is aimed at it, and not at all otherwise. */
  lemma ApplyOne(devs: seq<Dev>, p: Pend, radio: bool, digits: nat, k: nat)
    requires DeviceTable(devs, digits) && k < |devs| && Unconfused(devs, k, p.target, digits) && 0 < digits
    ensures SameTable(Apply(devs, p, radio, digits), devs)
    ensures Apply(devs, p, radio, digits)[k].on ==
      if radio && devs[k].switchable && devs[k].ieee == p.target then Turned(devs[k].on, p.action) else devs[k].on
  {
    var f := FindDev(devs, p.target);
    assert devs[k].ieee == p.target ==> f == k;
  }

  /** A list of actions moves each device as the actions aimed at it say, in their order, if none of their
      addresses is confused with it; sensors, and every device while the radio is down, keep their state. */
  lemma {:induction false} ApplyAllPerDevice(devs: seq<Dev>, ps: seq<Pend>, radio: bool, digits: nat, k: nat)
    requires DeviceTable(devs, digits) && 0 < digits && k < |devs|
    requires forall i :: 0 <= i < |ps| ==> Unconfused(devs, k, ps[i].target, digits)
    ensures SameTable(ApplyAll(devs, ps, radio, digits), devs)
    ensures ApplyAll(devs, ps, radio, digits)[k].on ==
      if radio && devs[k].switchable then OnAfter(devs[k].on, ps, devs[k].ieee) else devs[k].on
    decreases |ps|
  {
    if ps != [] {
      ApplyOne(devs, ps[0], radio, digits, k);
      var devs1 := Apply(devs, ps[0], radio, digits);
      forall i | 0 <= i < |ps| - 1
        ensures Unconfused(devs1, k, ps[1..][i].target, digits)
      {
        assert Unconfused(devs, k, ps[i + 1].target, digits);
        SameLooksUp(devs1, devs, Hex(ps[i + 1].target, digits), digits);
      }
      ApplyAllPerDevice(devs1, ps[1..], radio, digits, k);
    }
  }
}
