/** What the link carries, in terms of the calls: every message delivered has the destination, type and bytes that its
    send was called with, under a header that both cores know. */
module IpcLink {
  import opened Machine
  import opened WrapArithmetic
  import opened IpcRing
  import opened IpcRingWrap
  import opened IpcRingObject

  /** The arguments of a send. */
  datatype Call = Call(dst: u8, kind: u16, payload: seq<u8>)

  /** The calls of send that have published, in order, and the one under way. */
  datatype Log = Log(calls: seq<Call>, open: Option<Call>)

  /** A call is under way from its start, is over when the producer is idle again, and has published if the head
      index has moved by then. */
  function Note(s: State, log: Log, a: Action): Log
    requires Sized(s.slots)
  {
    var next := Do(s, a);
    if a.Send? && s.prod.PIdle? && |a.payload| <= 256 then log.(open := Some(Call(a.dst, a.kind, a.payload)))
    else if log.open.Some? && next.head != s.head then Log(log.calls + [log.open.value], None)
    else if next.prod.PIdle? then log.(open := None)
    else log
  }

  function NoteAll(s: State, log: Log, acts: seq<Action>): Log
    requires Sized(s.slots)
    decreases |acts|
  {
    if acts == [] then log else NoteAll(Do(s, acts[0]), Note(s, log, acts[0]), acts[1..])
  }

  /** The sends that published in a run from an empty ring. */
  function Calls(slots: seq<Slot>, acts: seq<Action>): seq<Call>
    requires Sized(slots)
  {
    NoteAll(Init(slots), Log([], None), acts).calls
  }

  /** The message of call number `k`. */
  predicate Carries(m: Msg, c: Call, k: nat) {
    && m.payload == c.payload && m.hdr.len == |c.payload| <= 256
    && m.hdr.kind == c.kind && m.hdr.dst == c.dst && m.hdr.src == (if c.dst == 4 then 4 else 1)
    && m.hdr.magic == 0xA55A && m.hdr.ver == 1 && m.hdr.flags == 0 && m.hdr.seqNo == k % 0x1_0000
  }

  predicate LogOk(s: State, log: Log) {
    && |log.calls| == |s.sent| && s.seqNo == |s.sent| % U16_MOD
    && (forall k :: 0 <= k < |s.sent| ==> Carries(s.sent[k], log.calls[k], k))
    && (s.prod.PIdle? <==> log.open.None?)
    && (s.prod.PIdle? || (s.prod.h == s.head && Carries(s.prod.m, log.open.value, |s.sent|)))
  }

  lemma NoteKeeps(s: State, log: Log, a: Action)
    requires Sized(s.slots) && LogOk(s, log)
    ensures LogOk(Do(s, a), Note(s, log, a))
  {
    SuccPosition(|s.sent|);
  }

  lemma {:induction false} NoteAllKeeps(s: State, log: Log, acts: seq<Action>)
    requires Sized(s.slots) && LogOk(s, log)
    ensures LogOk(Run(s, acts), NoteAll(s, log, acts))
    decreases |acts|
  {
    if acts != [] {
      NoteKeeps(s, log, acts[0]);
      NoteAllKeeps(Do(s, acts[0]), Note(s, log, acts[0]), acts[1..]);
    }
  }

  /** What was received are the first of the calls that published, each with its arguments. */
  predicate Delivered(got: seq<Msg>, calls: seq<Call>) {
    |got| <= |calls| && forall k :: 0 <= k < |got| ==> Carries(got[k], calls[k], k)
  }

  /** For every run: the link is first-in first-out if and only if it delivers what the calls asked for. */
  lemma FifoIsDelivered(slots: seq<Slot>, acts: seq<Action>)
    requires Sized(slots)
    ensures var s := Run(Init(slots), acts); Fifo(s) <==> Delivered(s.got, Calls(slots, acts))
  {
    var s, calls := Run(Init(slots), acts), Calls(slots, acts);
    NoteAllKeeps(Init(slots), Log([], None), acts);
    if Delivered(s.got, calls) {
      assert forall k :: 0 <= k < |s.got| ==> s.got[k] == s.sent[k];
      assert s.got == s.sent[..|s.got|];
    }
  }

  /** Over every interleaving within a safe occupancy the receiver gets what the sender was called with. */
  lemma SafeRunsDeliver(slots: seq<Slot>, acts: seq<Action>, b: nat)
    requires Sized(slots) && Safe(|slots|, b) && Bounded(Init(slots), acts, b)
    ensures Delivered(Run(Init(slots), acts).got, Calls(slots, acts))
  {
    SafeRunsAreFifo(slots, acts, b);
    FifoIsDelivered(slots, acts);
  }

  ghost predicate AlwaysDelivers(slots: seq<Slot>, b: nat)
    requires Sized(slots)
  {
    forall acts :: Bounded(Init(slots), acts, b) ==> Delivered(Run(Init(slots), acts).got, Calls(slots, acts))
  }

  /** And it does so over every interleaving with at most `b` slots in use exactly when the numbering is safe. */
  lemma DeliversExactly(slots: seq<Slot>, b: nat)
    requires Sized(slots) && b <= |slots|
    ensures AlwaysDelivers(slots, b) <==> 0x1_0000 % |slots| == 0 || b <= 0x1_0000 % |slots|
  {
    FifoExactly(slots, b);
    forall acts
      ensures Fifo(Run(Init(slots), acts)) <==> Delivered(Run(Init(slots), acts).got, Calls(slots, acts))
    {
      FifoIsDelivered(slots, acts);
    }
  }

  // ---------------------------------------------------------------- progress

  /** A send that is not interrupted and finds room publishes one message, the one it was called with. */
  lemma QuietSend(s: State, c: Call)
    requires Inv(s) && s.prod.PIdle? && |c.payload| <= 256 && |s.sent| - s.popped < |s.slots|
    ensures var r := Run(s, [Send(c.dst, c.kind, c.payload), Produce, Produce, Produce, Produce]);
      && r.prod.PIdle? && r.got == s.got && r.popped == s.popped && r.cons == s.cons
      && |r.sent| == |s.sent| + 1 && r.sent[..|s.sent|] == s.sent && Carries(r.sent[|s.sent|], c, |s.sent|)
  {
    var a := [Send(c.dst, c.kind, c.payload), Produce, Produce, Produce, Produce];
    UsedIsDistance(s);
    RunFive(s, a);
    var s1 := Do(s, a[0]);
    var s2 := Do(s1, a[1]);
    var s3 := Do(s2, a[2]);
    var s4 := Do(s3, a[3]);
    assert s4.prod == PBody(s1.prod.m, s.head) && s4.sent == s.sent;
    assert Do(s4, a[4]).sent == s.sent + [s1.prod.m];
  }

  /** A receive that is not interrupted delivers the oldest message if its buffer is large enough, and otherwise
      leaves it where it is. */
  lemma QuietRecv(s: State, cap: nat)
    requires Inv(s) && s.cons.CIdle? && s.popped < |s.sent|
    ensures var r := Run(s, [Recv(cap), Consume, Consume, Consume, Consume]);
      && r.cons.CIdle? && r.sent == s.sent && r.prod == s.prod
      && r.got == if |s.sent[s.popped].payload| <= cap then s.got + [s.sent[s.popped]] else s.got
  {
    var a := [Recv(cap), Consume, Consume, Consume, Consume];
    var m := s.sent[s.popped];
    UsedIsDistance(s);
    RunFive(s, a);
    SlotOfResidue(|s.slots|, s.popped);
    assert Holds(s.slots[SlotOf(U16_MOD, |s.slots|, s.popped)], m) && Proper(m, s.popped);
    var s1 := s.(cons := CLoaded(cap, s.tail));
    var s2 := s.(cons := CReady(cap, s.tail));
    assert Do(s, a[0]) == s1 && Do(s1, a[1]) == s2;
    if |m.payload| <= cap {
      var s3 := s.(cons := CHdr(m.hdr, s.tail));
      assert Do(s2, a[2]) == s3;
      assert Do(s3, a[3]) == s.(cons := CBody(m, s.tail));
    } else {
      assert Do(s2, a[2]) == s && Do(s, Consume) == s;
    }
  }

  // ---------------------------------------------------------------- which headers pass

  predicate GoodHeader(h: Hdr) {
    h.magic == 0xA55A && h.ver == 1 && h.len <= 256
  }

  /** The ring takes a message if its header is good, its bytes are there and there is room. */
  lemma PushExactly(used: nat, n: nat, hdr: Hdr, payload: Option<seq<u8>>)
    ensures PushResult(used, n, hdr, payload) == OK <==>
      GoodHeader(hdr) && (hdr.len == 0 || payload.Some?) && used < n
  {
  }

  /** The ring gives a message if its header is good and there is a buffer large enough; a message with a bad header is
      thrown away, and any other stays. */
  lemma PopExactly(q: seq<Slot>, cap: nat, buffer: bool)
    ensures PopResult(q, cap, buffer) == OK <==>
      q != [] && GoodHeader(q[0].hdr) && q[0].hdr.len <= cap && (q[0].hdr.len == 0 || buffer)
    ensures PopTakes(q, cap, buffer) <==> q != [] && (PopResult(q, cap, buffer) == OK || !GoodHeader(q[0].hdr))
  {
  }
}
