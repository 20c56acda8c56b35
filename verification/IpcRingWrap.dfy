/** Why the side condition on the slot count is needed: for every slot count that does not divide
    2^16, and every bound above the remainder, there is a run that delivers the wrong message. */
module IpcRingWrap {
  import opened Machine
  import opened WrapArithmetic
  import opened IpcRing

  function SendOne(): seq<Action> {
    [Send(EP_SYS, 1, []), Produce, Produce, Produce, Produce]
  }

  function RecvOne(): seq<Action> {
    [Recv(PAYLOAD_MAX), Consume, Consume, Consume, Consume]
  }

  function Round(): seq<Action> {
    SendOne() + RecvOne()
  }

  function Rounds(k: nat): seq<Action> {
    if k == 0 then [] else Rounds(k - 1) + Round()
  }

  function Burst(k: nat): seq<Action> {
    if k == 0 then [] else Burst(k - 1) + SendOne()
  }

  lemma {:induction false} RunAppend(s: State, a: seq<Action>, c: seq<Action>, b: nat)
    requires Sized(s.slots)
    ensures Run(s, a + c) == Run(Run(s, a), c)
    ensures Bounded(s, a, b) && Bounded(Run(s, a), c, b) ==> Bounded(s, a + c, b)
    decreases |a|
  {
    if a == [] {
      assert a + c == c;
    } else {
      assert (a + c)[0] == a[0] && (a + c)[1..] == a[1..] + c;
      RunAppend(Do(s, a[0]), a[1..], c, b);
    }
  }

  function EmptyMsg(seqNo: u16): Msg {
    LinkMsg(EP_SYS, 1, seqNo, [])
  }

  /** The state after an undisturbed send of an empty message. */
  function AfterSend(s: State): State
    requires Sized(s.slots)
  {
    var i := SlotOf(U16_MOD, |s.slots|, s.head);
    var m := EmptyMsg(s.seqNo);
    s.(head := Succ(s.head), seqNo := Succ(s.seqNo), sent := s.sent + [m],
       slots := s.slots[i := Slot(m.hdr, s.slots[i].body)])
  }

  lemma RunFive(s: State, a: seq<Action>)
    requires Sized(s.slots) && |a| == 5
    ensures Run(s, a) == Do(Do(Do(Do(Do(s, a[0]), a[1]), a[2]), a[3]), a[4])
    ensures forall b: nat :: Bounded(s, a, b) <==>
      && Occupancy(s) <= b && Occupancy(Do(s, a[0])) <= b && Occupancy(Do(Do(s, a[0]), a[1])) <= b
      && Occupancy(Do(Do(Do(s, a[0]), a[1]), a[2])) <= b
      && Occupancy(Do(Do(Do(Do(s, a[0]), a[1]), a[2]), a[3])) <= b
      && Occupancy(Do(Do(Do(Do(Do(s, a[0]), a[1]), a[2]), a[3]), a[4])) <= b
  {
    var a1, a2, a3, a4 := a[1..], a[1..][1..], a[1..][1..][1..], a[1..][1..][1..][1..];
    assert a1[0] == a[1] && a2[0] == a[2] && a3[0] == a[3] && a4[0] == a[4] && a4[1..] == [];
    var s1 := Do(s, a[0]);
    var s2 := Do(s1, a[1]);
    var s3 := Do(s2, a[2]);
    var s4 := Do(s3, a[3]);
    assert Run(s4, a4) == Do(s4, a[4]);
    assert Run(s3, a3) == Run(s4, a4);
    assert Run(s2, a2) == Run(s3, a3);
    assert Run(s1, a1) == Run(s2, a2);
    forall b: nat
      ensures Bounded(s4, a4, b) <==> Occupancy(s4) <= b && Occupancy(Do(s4, a[4])) <= b
      ensures Bounded(s3, a3, b) <==> Occupancy(s3) <= b && Bounded(s4, a4, b)
      ensures Bounded(s2, a2, b) <==> Occupancy(s2) <= b && Bounded(s3, a3, b)
      ensures Bounded(s1, a1, b) <==> Occupancy(s1) <= b && Bounded(s2, a2, b)
    {
    }
  }

  lemma SendOneEffect(s: State, b: nat)
    requires Sized(s.slots) && s.prod.PIdle?
    requires Used(s.head, s.tail) < |s.slots|
    requires Occupancy(s) < b
    ensures Run(s, SendOne()) == AfterSend(s)
    ensures Bounded(s, SendOne(), b)
  {
    var a := SendOne();
    var i := SlotOf(U16_MOD, |s.slots|, s.head);
    var m := EmptyMsg(s.seqNo);
    var s1 := s.(prod := PLoaded(m, s.head));
    var s2 := s.(prod := PRoom(m, s.head));
    var s3 := s.(prod := PHdr(m, s.head), slots := s.slots[i := Slot(m.hdr, s.slots[i].body)]);
    assert FillBody(s.slots[i].body, []) == s.slots[i].body;
    var s4 := s3.(prod := PBody(m, s.head));
    assert s4.slots == s3.slots[i := Slot(m.hdr, FillBody(s.slots[i].body, m.payload))];
    assert Do(s, a[0]) == s1;
    assert Do(s1, a[1]) == s2;
    assert Do(s2, a[2]) == s3;
    assert Do(s3, a[3]) == s4;
    assert Do(s4, a[4]) == AfterSend(s);
    RunFive(s, a);
  }

  /** The state after an undisturbed receive, when the slot at the tail holds an empty message. */
  lemma RecvOneEffect(s: State, b: nat, h: Hdr)
    requires Sized(s.slots) && s.cons.CIdle?
    requires Used(s.head, s.tail) != 0
    requires h == s.slots[SlotOf(U16_MOD, |s.slots|, s.tail)].hdr && HdrValidate(h) == OK && h.len == 0
    requires Occupancy(s) <= b
    ensures Run(s, RecvOne()) == s.(tail := Succ(s.tail), got := s.got + [Msg(h, [])], popped := s.popped + 1)
    ensures Bounded(s, RecvOne(), b)
  {
    var a := RecvOne();
    var s1 := s.(cons := CLoaded(PAYLOAD_MAX, s.tail));
    var s2 := s.(cons := CReady(PAYLOAD_MAX, s.tail));
    var s3 := s.(cons := CHdr(h, s.tail));
    var s4 := s.(cons := CBody(Msg(h, []), s.tail));
    assert Do(s, a[0]) == s1;
    assert Do(s1, a[1]) == s2;
    assert Do(s2, a[2]) == s3;
    assert Do(s3, a[3]) == s4;
    RunFive(s, a);
  }

  /** Everything sent has been received, `k` messages in all. */
  predicate Quiet(s: State, k: nat) {
    && Sized(s.slots) && s.prod.PIdle? && s.cons.CIdle?
    && |s.sent| == |s.got| == s.popped == k
    && s.head == s.tail == s.seqNo == k % U16_MOD
  }

  lemma RoundIsQuiet(s: State, k: nat)
    requires Quiet(s, k)
    ensures Quiet(Run(s, Round()), k + 1)
    ensures Bounded(s, Round(), 1)
  {
    SendOneEffect(s, 1);
    var s1 := AfterSend(s);
    SuccPosition(k);
    assert Used(s1.head, s1.tail) != 0;
    RecvOneEffect(s1, 1, EmptyMsg(s.seqNo).hdr);
    RunAppend(s, SendOne(), RecvOne(), 1);
  }

  lemma {:induction false} RoundsAreQuiet(slots: seq<Slot>, k: nat)
    requires Sized(slots)
    ensures Quiet(Run(Init(slots), Rounds(k)), k)
    ensures Bounded(Init(slots), Rounds(k), 1)
  {
    if k > 0 {
      RoundsAreQuiet(slots, k - 1);
      RoundIsQuiet(Run(Init(slots), Rounds(k - 1)), k - 1);
      RunAppend(Init(slots), Rounds(k - 1), Round(), 1);
    }
  }

  /** `c` sends the consumer has not answered; only the last one's slot is described. */
  predicate Burdened(r: State, k: nat, c: nat, got: seq<Msg>) {
    && Sized(r.slots)
    && r.prod.PIdle? && r.cons.CIdle? && r.got == got && r.popped == k
    && |r.sent| == k + c
    && r.tail == k % U16_MOD && r.head == (k + c) % U16_MOD && r.seqNo == r.head
    && (0 < c ==> r.slots[SlotOf(U16_MOD, |r.slots|, k + c - 1)].hdr == EmptyMsg((k + c - 1) % U16_MOD).hdr)
  }

  lemma UsedOfResidues(k: nat, c: nat)
    requires c < U16_MOD
    ensures Used((k + c) % U16_MOD, k % U16_MOD) == c
  {
    assert (k % U16_MOD + c) % U16_MOD == (k + c) % U16_MOD;
  }

  lemma AfterSendBurdens(s: State, k: nat, c: nat)
    requires Burdened(s, k, c, s.got) && c < |s.slots|
    ensures Used(s.head, s.tail) == c
    ensures Burdened(AfterSend(s), k, c + 1, s.got)
  {
    UsedOfResidues(k, c);
    SuccPosition(k + c);
    SlotOfResidue(|s.slots|, k + c);
    var r := AfterSend(s);
    assert r.slots[SlotOf(U16_MOD, |s.slots|, k + c)].hdr == EmptyMsg(s.seqNo).hdr;
    assert |r.sent| == k + (c + 1);
  }

  lemma SendBurdens(s: State, k: nat, c: nat)
    requires Burdened(s, k, c, s.got) && c < |s.slots|
    ensures Burdened(Run(s, SendOne()), k, c + 1, s.got)
    ensures Bounded(s, SendOne(), c + 1)
  {
    AfterSendBurdens(s, k, c);
    SendOneEffect(s, c + 1);
  }

  lemma {:induction false} BurstBurdens(s: State, k: nat, c: nat)
    requires Quiet(s, k) && c <= |s.slots|
    ensures Burdened(Run(s, Burst(c)), k, c, s.got)
    ensures Bounded(s, Burst(c), c)
  {
    if c > 0 {
      BurstBurdens(s, k, c - 1);
      BoundedWeaken(s, Burst(c - 1), c - 1, c);
      SendBurdens(Run(s, Burst(c - 1)), k, c - 1);
      RunAppend(s, Burst(c - 1), SendOne(), c);
    }
  }

  lemma {:induction false} BoundedWeaken(s: State, acts: seq<Action>, b: nat, c: nat)
    requires Sized(s.slots) && b <= c && Bounded(s, acts, b)
    ensures Bounded(s, acts, c)
    decreases |acts|
  {
    if acts != [] {
      BoundedWeaken(Do(s, acts[0]), acts[1..], b, c);
    }
  }

  /** Receiving then delivers the last message of the burst in place of the first. */
  lemma RecvAfterBurst(s: State, r: nat)
    requires Burdened(s, U16_MOD - 1, r + 1, s.got) && |s.got| == U16_MOD - 1
    requires 0 < r == U16_MOD % |s.slots|
    ensures !Fifo(Run(s, RecvOne()))
    ensures Bounded(s, RecvOne(), r + 1)
  {
    var n, k := |s.slots|, U16_MOD - 1;
    SlotCollision(U16_MOD, n, k, k + r);
    assert SlotOf(U16_MOD, n, s.tail) == SlotOf(U16_MOD, n, k + r);
    var h := EmptyMsg((k + r) % U16_MOD).hdr;
    UsedOfResidues(k, r + 1);
    RecvOneEffect(s, r + 1, h);
    var got := s.got + [Msg(h, [])];
    assert got[k].hdr.seqNo == r - 1;
  }

  /** Send and receive `k` = 65535 messages one by one, send `r + 1` more, receive one: with `r` the
      remainder, the last message of the burst has landed on the unread slot of its first. */
  lemma WrapRunBreaksFifo(slots: seq<Slot>, k: nat, r: nat)
    requires Sized(slots) && k == U16_MOD - 1 && 0 < r == U16_MOD % |slots|
    ensures exists acts :: Bounded(Init(slots), acts, r + 1) && !Fifo(Run(Init(slots), acts))
  {
    var init := Init(slots);
    RoundsAreQuiet(slots, k);
    BoundedWeaken(init, Rounds(k), 1, r + 1);
    var s := Run(init, Rounds(k));
    BurstBurdens(s, k, r + 1);
    RunAppend(init, Rounds(k), Burst(r + 1), r + 1);
    RecvAfterBurst(Run(s, Burst(r + 1)), r);
    RunAppend(init, Rounds(k) + Burst(r + 1), RecvOne(), r + 1);
  }

  /** Every interleaving from an empty ring that keeps at most `b` slots in use is first-in first-out. */
  ghost predicate AlwaysFifo(slots: seq<Slot>, b: nat)
    requires Sized(slots)
  {
    forall acts :: Bounded(Init(slots), acts, b) ==> Fifo(Run(Init(slots), acts))
  }

  /** The exact condition. Over a ring of `n` slots, every interleaving that keeps at most `b` slots
      in use delivers in order and intact, if and only if `n` divides 2^16 or `b` is at most
      the remainder of 2^16 by `n`. */
  lemma FifoExactly(slots: seq<Slot>, b: nat)
    requires Sized(slots) && b <= |slots|
    ensures AlwaysFifo(slots, b) <==> Safe(|slots|, b)
  {
    if Safe(|slots|, b) {
      forall acts | Bounded(Init(slots), acts, b)
        ensures Fifo(Run(Init(slots), acts))
      {
        SafeRunsAreFifo(slots, acts, b);
      }
    } else {
      var r := U16_MOD % |slots|;
      WrapRunBreaksFifo(slots, U16_MOD - 1, r);
      var acts :| Bounded(Init(slots), acts, r + 1) && !Fifo(Run(Init(slots), acts));
      BoundedWeaken(Init(slots), acts, r + 1, b);
      assert Bounded(Init(slots), acts, b);
    }
  }

  /** Index bookkeeping, which holds whatever happens to the slots. */
  predicate Counted(s: State) {
    && Sized(s.slots)
    && s.popped <= |s.sent|
    && s.head == |s.sent| % U16_MOD && s.tail == s.popped % U16_MOD
    && Occupancy(s) <= |s.slots|
    && (!s.prod.PIdle? ==> s.prod.h == s.head)
    && (!s.cons.CIdle? ==> s.cons.t == s.tail)
    && (!s.cons.CIdle? && !s.cons.CLoaded? ==> s.popped < |s.sent|)
  }

  lemma StepCounts(s: State, a: Action)
    requires Counted(s)
    ensures Counted(Do(s, a))
  {
    var d := |s.sent| - s.popped;
    UsedOfResidues(s.popped, d);
    SuccPosition(|s.sent|);
    SuccPosition(s.popped);
  }

  lemma {:induction false} CountedRunsAreBounded(s: State, acts: seq<Action>)
    requires Counted(s)
    ensures Bounded(s, acts, |s.slots|)
    decreases |acts|
  {
    if acts != [] {
      StepCounts(s, acts[0]);
      CountedRunsAreBounded(Do(s, acts[0]), acts[1..]);
    }
  }

  ghost predicate EveryRunFifo(slots: seq<Slot>)
    requires Sized(slots)
  {
    forall acts :: Fifo(Run(Init(slots), acts))
  }

  /** With no bound assumed: every interleaving is first-in first-out
      if and only if the slot count divides 2^16. */
  lemma UnboundedFifoExactly(slots: seq<Slot>)
    requires Sized(slots)
    ensures EveryRunFifo(slots) <==> U16_MOD % |slots| == 0
  {
    FifoExactly(slots, |slots|);
    if AlwaysFifo(slots, |slots|) {
      forall acts
        ensures Fifo(Run(Init(slots), acts))
      {
        CountedRunsAreBounded(Init(slots), acts);
      }
    }
  }

  /** The shipped ring has 60 slots: it is first-in first-out while at most 16 are in use,
      and some run that uses 17 of them is not. */
  lemma ShippedRingNeedsAtMost16(slots: seq<Slot>)
    requires Sized(slots) && |slots| == 60
    ensures AlwaysFifo(slots, 16) && !AlwaysFifo(slots, 17)
  {
    FifoExactly(slots, 16);
    FifoExactly(slots, 17);
  }
}
