/** The inter-core message link: a producer core and a consumer core share a ring of slots
    through two 16-bit free-running indices. One core's `ipc_link_send` and the other core's
    `ipc_link_recv` are interleaved one shared access at a time; `Do` performs one such access.
    The peer's index is read once and may be stale by the time it is used. */
module IpcRing {
  import opened Machine
  import opened WrapArithmetic

  const MAGIC: u16 := 0xA55A
  const VERSION: u8 := 1
  const PAYLOAD_MAX := 256
  const EP_SYS: u8 := 1
  const EP_LOG: u8 := 4

  datatype Hdr = Hdr(magic: u16, ver: u8, src: u8, dst: u8, flags: u8, kind: u16, seqNo: u16, len: u16)

  // A slot keeps whatever bytes an earlier, longer message left behind its payload.
  datatype Slot = Slot(hdr: Hdr, body: seq<u8>)

  datatype Msg = Msg(hdr: Hdr, payload: seq<u8>)

  function HdrValidate(h: Hdr): Err {
    if h.magic != MAGIC then CORRUPT
    else if h.ver != VERSION then UNSUPPORTED
    else if h.len > PAYLOAD_MAX then INVAL
    else OK
  }

  function SourceOf(dst: u8): u8 {
    if dst == EP_LOG then EP_LOG else EP_SYS
  }

  function LinkMsg(dst: u8, kind: u16, seqNo: u16, payload: seq<u8>): Msg
    requires |payload| <= PAYLOAD_MAX
  {
    Msg(Hdr(MAGIC, VERSION, SourceOf(dst), dst, 0, kind, seqNo, |payload|), payload)
  }

  /** The slot after the header and then the payload have been copied over it. */
  function FillBody(body: seq<u8>, payload: seq<u8>): seq<u8>
    requires |payload| <= |body|
  {
    payload + body[|payload|..]
  }

  // ---------------------------------------------------------------- the two cores

  datatype Producer =
    | PIdle
    | PLoaded(m: Msg, h: u16)   // own head loaded
    | PRoom(m: Msg, h: u16)     // peer's tail read, room seen
    | PHdr(m: Msg, h: u16)      // header copied
    | PBody(m: Msg, h: u16)     // payload copied

  datatype Consumer =
    | CIdle
    | CLoaded(cap: nat, t: u16) // own tail loaded
    | CReady(cap: nat, t: u16)  // peer's head read, message seen
    | CHdr(hdr: Hdr, t: u16)    // header copied out and accepted
    | CBody(m: Msg, t: u16)     // payload copied out
    | CDrop(t: u16)             // header rejected

  // `sent`, `got` and `popped` record the history of publications, deliveries and releases.
  datatype State = State(
    head: u16, tail: u16, slots: seq<Slot>,
    prod: Producer, cons: Consumer, seqNo: u16,
    sent: seq<Msg>, got: seq<Msg>, popped: nat)

  datatype Action =
    | Send(dst: u8, kind: u16, payload: seq<u8>)
    | Produce
    | Recv(cap: nat)
    | Consume

  predicate Sized(slots: seq<Slot>) {
    && 0 < |slots| < U16_MOD
    && forall i :: 0 <= i < |slots| ==> |slots[i].body| == PAYLOAD_MAX
  }

  function Init(slots: seq<Slot>): State {
    State(0, 0, slots, PIdle, CIdle, 0, [], [], 0)
  }

  function Used(head: u16, tail: u16): u16 {
    (head - tail) % U16_MOD
  }

  function Succ(x: u16): u16 {
    (x + 1) % U16_MOD
  }

  function Do(s: State, a: Action): (r: State)
    requires Sized(s.slots)
    ensures Sized(r.slots) && |r.slots| == |s.slots|
  {
    match a
    case Send(dst, kind, payload) =>
      if s.prod.PIdle? && |payload| <= PAYLOAD_MAX
      then s.(prod := PLoaded(LinkMsg(dst, kind, s.seqNo, payload), s.head))
      else s
    case Produce => StepProducer(s)
    case Recv(cap) =>
      if s.cons.CIdle? then s.(cons := CLoaded(cap, s.tail)) else s
    case Consume => StepConsumer(s)
  }

  function StepProducer(s: State): (r: State)
    requires Sized(s.slots)
    ensures Sized(r.slots) && |r.slots| == |s.slots|
  {
    var n := |s.slots|;
    match s.prod
    case PIdle => s
    case PLoaded(m, h) =>
      s.(prod := if Used(h, s.tail) >= n then PIdle else PRoom(m, h))
    case PRoom(m, h) =>
      var i := SlotOf(U16_MOD, n, h);
      s.(prod := PHdr(m, h), slots := s.slots[i := Slot(m.hdr, s.slots[i].body)])
    case PHdr(m, h) =>
      var i := SlotOf(U16_MOD, n, h);
      if |m.payload| > PAYLOAD_MAX then s
      else s.(prod := PBody(m, h), slots := s.slots[i := Slot(s.slots[i].hdr, FillBody(s.slots[i].body, m.payload))])
    case PBody(m, h) =>
      s.(prod := PIdle, head := Succ(h), seqNo := Succ(s.seqNo), sent := s.sent + [m])
  }

  function StepConsumer(s: State): (r: State)
    requires Sized(s.slots)
    ensures Sized(r.slots) && |r.slots| == |s.slots|
  {
    var n := |s.slots|;
    match s.cons
    case CIdle => s
    case CLoaded(cap, t) =>
      s.(cons := if Used(s.head, t) == 0 then CIdle else CReady(cap, t))
    case CReady(cap, t) =>
      var h := s.slots[SlotOf(U16_MOD, n, t)].hdr;
      s.(cons := if HdrValidate(h) != OK then CDrop(t) else if h.len > cap then CIdle else CHdr(h, t))
    case CHdr(h, t) =>
      if h.len > PAYLOAD_MAX then s
      else s.(cons := CBody(Msg(h, s.slots[SlotOf(U16_MOD, n, t)].body[..h.len]), t))
    case CBody(m, t) =>
      s.(cons := CIdle, tail := Succ(t), got := s.got + [m], popped := s.popped + 1)
    case CDrop(t) =>
      s.(cons := CIdle, tail := Succ(t), popped := s.popped + 1)
  }

  /** Slots taken: published and not yet released, plus the one being filled. */
  function Occupancy(s: State): int {
    |s.sent| - s.popped + if s.prod.PRoom? || s.prod.PHdr? || s.prod.PBody? then 1 else 0
  }

  function Run(s: State, acts: seq<Action>): (r: State)
    requires Sized(s.slots)
    ensures Sized(r.slots) && |r.slots| == |s.slots|
    decreases |acts|
  {
    if acts == [] then s else Run(Do(s, acts[0]), acts[1..])
  }

  /** No state along the run holds more than `b` slots. */
  predicate Bounded(s: State, acts: seq<Action>, b: nat)
    requires Sized(s.slots)
    decreases |acts|
  {
    Occupancy(s) <= b && (acts != [] ==> Bounded(Do(s, acts[0]), acts[1..], b))
  }

  /** What the receiver was given is a prefix of what was sent, byte for byte,
      and its link sequence numbers count up from zero modulo 2^16. */
  predicate Fifo(s: State) {
    && |s.got| <= |s.sent|
    && s.got == s.sent[..|s.got|]
    && forall k :: 0 <= k < |s.got| ==> s.got[k].hdr.seqNo == k % U16_MOD
  }

  // ---------------------------------------------------------------- the invariant

  predicate Holds(x: Slot, m: Msg) {
    && |x.body| == PAYLOAD_MAX
    && x.hdr == m.hdr
    && |m.payload| == m.hdr.len <= PAYLOAD_MAX
    && x.body[..m.hdr.len] == m.payload
  }

  predicate Proper(m: Msg, k: nat) {
    HdrValidate(m.hdr) == OK && |m.payload| == m.hdr.len && m.hdr.seqNo == k % U16_MOD
  }

  predicate HistoryOk(s: State) {
    && s.popped <= |s.sent|
    && s.head == |s.sent| % U16_MOD && s.tail == s.popped % U16_MOD && s.seqNo == s.head
    && (forall k :: 0 <= k < |s.sent| ==> Proper(s.sent[k], k))
    && s.got == s.sent[..s.popped]
  }

  predicate SlotsOk(s: State)
    requires Sized(s.slots)
  {
    forall k :: s.popped <= k < |s.sent| ==> Holds(s.slots[SlotOf(U16_MOD, |s.slots|, k)], s.sent[k])
  }

  predicate ProducerOk(s: State)
    requires Sized(s.slots)
  {
    var x := s.slots[SlotOf(U16_MOD, |s.slots|, |s.sent|)];
    && (!s.prod.PIdle? ==> s.prod.h == s.head && Proper(s.prod.m, |s.sent|))
    && (s.prod.PHdr? ==> x.hdr == s.prod.m.hdr)
    && (s.prod.PBody? ==> Holds(x, s.prod.m))
  }

  predicate ConsumerOk(s: State) {
    && !s.cons.CDrop?
    && (!s.cons.CIdle? ==> s.cons.t == s.tail)
    && (s.cons.CReady? || s.cons.CHdr? || s.cons.CBody? ==> s.popped < |s.sent|)
    && (s.cons.CHdr? ==> s.popped < |s.sent| && s.cons.hdr == s.sent[s.popped].hdr)
    && (s.cons.CBody? ==> s.popped < |s.sent| && s.cons.m == s.sent[s.popped])
  }

  predicate Inv(s: State) {
    && Sized(s.slots)
    && HistoryOk(s)
    && Occupancy(s) <= |s.slots|
    && SlotsOk(s) && ProducerOk(s) && ConsumerOk(s)
  }

  /** The slot numbering is safe for a ring of `n` slots of which at most `b` are in use. */
  predicate Safe(n: nat, b: nat)
    requires 0 < n
  {
    U16_MOD % n == 0 || b <= U16_MOD % n
  }

  lemma SuccPosition(k: nat)
    ensures Succ(k % U16_MOD) == (k + 1) % U16_MOD
  {
  }

  lemma UsedIsDistance(s: State)
    requires HistoryOk(s) && |s.sent| - s.popped < U16_MOD
    ensures Used(s.head, s.tail) == |s.sent| - s.popped
  {
    var d := |s.sent| - s.popped;
    assert (s.popped % U16_MOD + d) % U16_MOD == |s.sent| % U16_MOD;
  }

  lemma SlotOfResidue(n: nat, k: nat)
    requires 0 < n <= U16_MOD
    ensures SlotOf(U16_MOD, n, k % U16_MOD) == SlotOf(U16_MOD, n, k)
  {
  }

  /** A slot being filled is none of the unread ones, if the numbering is safe. */
  lemma FreshSlot(s: State, b: nat, k: nat)
    requires Inv(s) && Safe(|s.slots|, b) && Occupancy(s) <= b
    requires s.prod.PRoom? || s.prod.PHdr?
    requires s.popped <= k < |s.sent|
    ensures SlotOf(U16_MOD, |s.slots|, k) != SlotOf(U16_MOD, |s.slots|, |s.sent|)
  {
    SlotCollision(U16_MOD, |s.slots|, k, |s.sent|);
  }

  lemma ProducerKeeps(s: State, b: nat)
    requires Inv(s) && Safe(|s.slots|, b) && Occupancy(s) <= b
    ensures Inv(StepProducer(s))
  {
    var n, s' := |s.slots|, StepProducer(s);
    SlotOfResidue(n, |s.sent|);
    if s.prod.PLoaded? {
      UsedIsDistance(s);
    } else if s.prod.PRoom? || s.prod.PHdr? {
      var i := SlotOf(U16_MOD, n, |s.sent|);
      forall k | s.popped <= k < |s.sent|
        ensures s'.slots[SlotOf(U16_MOD, n, k)] == s.slots[SlotOf(U16_MOD, n, k)]
      {
        FreshSlot(s, b, k);
      }
      if s.prod.PHdr? {
        assert s'.slots[i].body[..|s.prod.m.payload|] == s.prod.m.payload;
      }
    } else if s.prod.PBody? {
      SuccPosition(|s.sent|);
      assert s'.sent[..s.popped] == s.sent[..s.popped];
    }
  }

  lemma ConsumerKeeps(s: State)
    requires Inv(s)
    ensures Inv(StepConsumer(s))
  {
    SlotOfResidue(|s.slots|, s.popped);
    SuccPosition(s.popped);
    if s.cons.CLoaded? {
      UsedIsDistance(s);
    } else if s.cons.CReady? || s.cons.CHdr? {
      assert Holds(s.slots[SlotOf(U16_MOD, |s.slots|, s.popped)], s.sent[s.popped]);
    } else if s.cons.CBody? {
      assert s.sent[..s.popped + 1] == s.sent[..s.popped] + [s.sent[s.popped]];
    }
  }

  lemma StepKeeps(s: State, a: Action, b: nat)
    requires Inv(s) && Safe(|s.slots|, b) && Occupancy(s) <= b
    ensures Inv(Do(s, a))
  {
    match a {
      case Send(dst, kind, payload) =>
      case Produce => ProducerKeeps(s, b);
      case Recv(cap) =>
      case Consume => ConsumerKeeps(s);
    }
  }

  lemma {:induction false} RunKeeps(s: State, acts: seq<Action>, b: nat)
    requires Inv(s) && Safe(|s.slots|, b) && Bounded(s, acts, b)
    ensures Inv(Run(s, acts))
    decreases |acts|
  {
    if acts != [] {
      StepKeeps(s, acts[0], b);
      RunKeeps(Do(s, acts[0]), acts[1..], b);
    }
  }

  /** Safety over every interleaving whose occupancy stays within a safe bound. */
  lemma SafeRunsAreFifo(slots: seq<Slot>, acts: seq<Action>, b: nat)
    requires Sized(slots) && Safe(|slots|, b) && Bounded(Init(slots), acts, b)
    ensures Fifo(Run(Init(slots), acts))
    ensures Occupancy(Run(Init(slots), acts)) <= |slots|
  {
    RunKeeps(Init(slots), acts, b);
  }
}
