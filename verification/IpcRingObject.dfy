/** The ring as the object the firmware manipulates: `ipc_ring_push` and `ipc_ring_pop` over slot
    storage changed in place. */
module IpcRingObject {
  import opened Machine
  import opened WrapArithmetic
  import opened IpcRing

  function SlotAt(slots: seq<Slot>, tail: u16, k: nat): (x: Slot)
    requires Sized(slots)
    ensures |x.body| == PAYLOAD_MAX
  {
    slots[SlotOf(U16_MOD, |slots|, tail + k)]
  }

  /** The unread slots, oldest first. */
  function QueueOf(slots: seq<Slot>, head: u16, tail: u16): (q: seq<Slot>)
    requires Sized(slots)
    ensures |q| == Used(head, tail)
    ensures forall k :: 0 <= k < |q| ==> q[k] == SlotAt(slots, tail, k)
    ensures forall k :: 0 <= k < |q| ==> |q[k].body| == PAYLOAD_MAX
  {
    seq(Used(head, tail), (k: nat) requires Sized(slots) => SlotAt(slots, tail, k))
  }

  predicate Clobbers(used: nat, tail: u16, n: nat)
    requires 0 < n
  {
    var r := U16_MOD % n;
    0 < r <= used && tail + used - r < U16_MOD <= tail + used
  }

  /** The queue after a push: the new slot is appended, and where the slot numbering jumps at the
      counter wrap it also replaces the unread slot `2^16 % n` places before the end. */
  function Pushed(q: seq<Slot>, tail: u16, n: nat, x: Slot): seq<Slot>
    requires 0 < n
  {
    (if Clobbers(|q|, tail, n) then q[|q| - U16_MOD % n := x] else q) + [x]
  }

  lemma UsedAfterPush(head: u16, tail: u16)
    ensures (tail + Used(head, tail)) % U16_MOD == head
    ensures Used(head, tail) < U16_MOD - 1 ==> Used(Succ(head), tail) == Used(head, tail) + 1
  {
  }

  lemma UsedAfterPop(head: u16, tail: u16)
    requires Used(head, tail) != 0
    ensures Used(head, Succ(tail)) == Used(head, tail) - 1
  {
  }

  lemma SuccSlot(n: nat, tail: u16, k: nat)
    requires 0 < n <= U16_MOD
    ensures SlotOf(U16_MOD, n, Succ(tail) + k) == SlotOf(U16_MOD, n, tail + (k + 1))
  {
    assert (Succ(tail) + k) % U16_MOD == (tail + 1 + k) % U16_MOD;
  }

  lemma PushQueue(slots: seq<Slot>, head: u16, tail: u16, x: Slot)
    requires Sized(slots) && |x.body| == PAYLOAD_MAX
    requires Used(head, tail) < |slots|
    ensures var s' := slots[SlotOf(U16_MOD, |slots|, head) := x];
      && Used(Succ(head), tail) == Used(head, tail) + 1
      && QueueOf(s', Succ(head), tail) == Pushed(QueueOf(slots, head, tail), tail, |slots|, x)
  {
    var n, q := |slots|, QueueOf(slots, head, tail);
    var i := SlotOf(U16_MOD, n, head);
    var s' := slots[i := x];
    UsedAfterPush(head, tail);
    assert SlotOf(U16_MOD, n, tail + |q|) == i;
    forall k | 0 <= k < |q|
      ensures SlotAt(s', tail, k) == Pushed(q, tail, n, x)[k]
    {
      PushAt(slots, tail, |q|, x, k);
    }
    assert QueueOf(s', Succ(head), tail) == Pushed(q, tail, n, x);
  }

  /** The unread slot at `k` after a push onto `used` of them. */
  lemma PushAt(slots: seq<Slot>, tail: u16, used: nat, x: Slot, k: nat)
    requires Sized(slots) && |x.body| == PAYLOAD_MAX && k < used < |slots|
    ensures var n := |slots|;
      SlotAt(slots[SlotOf(U16_MOD, n, tail + used) := x], tail, k) ==
      if Clobbers(used, tail, n) && k == used - U16_MOD % n then x else SlotAt(slots, tail, k)
  {
    SlotCollision(U16_MOD, |slots|, tail + k, tail + used);
    CollisionIndex(used, tail, |slots|, k);
  }

  lemma CollisionIndex(used: nat, tail: u16, n: nat, k: nat)
    requires 0 < n && k < used < U16_MOD
    ensures (tail + k) / U16_MOD != (tail + used) / U16_MOD && used - k == U16_MOD % n
            <==> Clobbers(used, tail, n) && k == used - U16_MOD % n
  {
    assert tail + used < 2 * U16_MOD;
  }

  lemma PopQueue(slots: seq<Slot>, head: u16, tail: u16)
    requires Sized(slots) && Used(head, tail) != 0
    ensures Used(head, Succ(tail)) == Used(head, tail) - 1
    ensures QueueOf(slots, head, Succ(tail)) == QueueOf(slots, head, tail)[1..]
  {
    UsedAfterPop(head, tail);
    forall k: nat
      ensures SlotAt(slots, Succ(tail), k) == SlotAt(slots, tail, k + 1)
    {
      SuccSlot(|slots|, tail, k);
    }
  }

  /** Between the two cores' steps the object's queue is the messages sent and not yet released. */
  lemma QueueIsUnread(s: State)
    requires Inv(s)
    ensures var q := QueueOf(s.slots, s.head, s.tail);
      |q| == |s.sent| - s.popped && forall k :: 0 <= k < |q| ==> Holds(q[k], s.sent[s.popped + k])
  {
    UsedIsDistance(s);
    var n := |s.slots|;
    forall k | 0 <= k < |s.sent| - s.popped
      ensures Holds(SlotAt(s.slots, s.tail, k), s.sent[s.popped + k])
    {
      assert (s.tail + k) % U16_MOD == (s.popped + k) % U16_MOD;
      assert SlotOf(U16_MOD, n, s.tail + k) == SlotOf(U16_MOD, n, s.popped + k);
    }
  }

  function PushResult(used: nat, n: nat, hdr: Hdr, payload: Option<seq<u8>>): Err {
    if HdrValidate(hdr) != OK then HdrValidate(hdr)
    else if 0 < hdr.len && payload.None? then INVAL
    else if used >= n then NOSPC
    else OK
  }

  function PopResult(q: seq<Slot>, cap: nat, buffer: bool): Err {
    if q == [] then NOENT
    else if HdrValidate(q[0].hdr) != OK then HdrValidate(q[0].hdr)
    else if cap < q[0].hdr.len then NOSPC
    else if 0 < q[0].hdr.len && !buffer then INVAL
    else OK
  }

  /** A message leaves the ring when it is delivered or when its header is rejected. */
  predicate PopTakes(q: seq<Slot>, cap: nat, buffer: bool) {
    q != [] && (HdrValidate(q[0].hdr) != OK || PopResult(q, cap, buffer) == OK)
  }

  class Ring {
    const slots: array<Slot>
    var head: u16
    var tail: u16

    ghost predicate Valid()
      reads this, slots
    {
      Sized(slots[..]) && Used(head, tail) <= slots.Length
    }

    ghost function Queue(): (q: seq<Slot>)
      requires Valid()
      reads this, slots
      ensures |q| == Used(head, tail) <= slots.Length
      ensures forall k :: 0 <= k < |q| ==> |q[k].body| == PAYLOAD_MAX
    {
      QueueOf(slots[..], head, tail)
    }

    constructor (storage: array<Slot>)
      requires Sized(storage[..])
      ensures slots == storage && Valid() && Queue() == []
    {
      slots := storage;
      head, tail := 0, 0;
    }

    method Push(hdr: Hdr, payload: Option<seq<u8>>) returns (e: Err)
      requires Valid()
      requires payload.Some? ==> hdr.len <= |payload.value|
      modifies this`head, slots
      ensures Valid()
      ensures e == PushResult(|old(Queue())|, slots.Length, hdr, payload)
      ensures e != OK ==> head == old(head) && slots[..] == old(slots[..])
      ensures e == OK ==> exists x: Slot ::
        && x.hdr == hdr && |x.body| == PAYLOAD_MAX
        && (0 < hdr.len ==> x.body[..hdr.len] == payload.value[..hdr.len])
        && Queue() == Pushed(old(Queue()), tail, slots.Length, x)
    {
      e := HdrValidate(hdr);
      if e != OK {
        return;
      }
      if 0 < hdr.len && payload.None? {
        return INVAL;
      }
      if Used(head, tail) >= slots.Length {
        return NOSPC;
      }
      var i := SlotOf(U16_MOD, slots.Length, head);
      slots[i] := Slot(hdr, slots[i].body);
      if 0 < hdr.len {
        slots[i] := Slot(slots[i].hdr, FillBody(slots[i].body, payload.value[..hdr.len]));
      }
      ghost var x := slots[i];
      assert slots[..] == old(slots[..])[i := x];
      PushQueue(old(slots[..]), head, tail, x);
      head := Succ(head);
    }

    method Pop(cap: nat, buffer: bool) returns (e: Err, m: Option<Msg>)
      requires Valid()
      modifies this`tail
      ensures Valid()
      ensures e == PopResult(old(Queue()), cap, buffer)
      ensures m ==
        if e == OK then Some(Msg(old(Queue())[0].hdr, old(Queue())[0].body[..old(Queue())[0].hdr.len])) else None
      ensures Queue() == if PopTakes(old(Queue()), cap, buffer) then old(Queue())[1..] else old(Queue())
    {
      m := None;
      if Used(head, tail) == 0 {
        return NOENT, m;
      }
      assert slots[SlotOf(U16_MOD, slots.Length, tail)] == Queue()[0];
      var x := slots[SlotOf(U16_MOD, slots.Length, tail)];
      e := HdrValidate(x.hdr);
      if e == OK {
        if cap < x.hdr.len {
          return NOSPC, m;
        }
        if 0 < x.hdr.len && !buffer {
          return INVAL, m;
        }
        m := Some(Msg(x.hdr, x.body[..x.hdr.len]));
      }
      PopQueue(slots[..], head, tail);
      tail := Succ(tail);
    }
  }
}
