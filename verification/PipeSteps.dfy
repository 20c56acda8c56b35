/** The audio pipe between two cores: every byte a push stores or a pop reads is a step of its own, and so is
    the counter increment that publishes it. */
module PipeSteps {
  import opened Machine
  import opened WrapArithmetic
  import opened AudioPath

  /** Where the pushing core is: byte `i` of the `n` accepted is to be stored, or stored but not published. */
  datatype Producer = Ready | Store(src: seq<u8>, i: nat, n: nat) | Publish(src: seq<u8>, i: nat, n: nat)

  /** Where the popping core is: `dst` of `n` bytes are read, the last of them released or not. */
  datatype Consumer = Waiting | Get(dst: seq<u8>, n: nat) | Release(dst: seq<u8>, n: nat)

  // `pushed`, `popped` and `chunks` are history: bytes published, bytes released, and the results of finished pops.
  datatype Shared = Shared(
    data: seq<u8>, wr: u32, rd: u32, producer: Producer, consumer: Consumer,
    pushed: seq<u8>, popped: seq<u8>, chunks: seq<seq<u8>>)

  /** A step of the pushing core, with what it pushes next, or of the popping core, with what it asks for next. */
  datatype Step = Produce(src: seq<u8>) | Consume(n: nat)

  function Slot(pos: nat): (k: nat)
    ensures k < PIPE_CAP
  {
    SlotOf(U32_MOD, PIPE_CAP, pos)
  }

  function Used(s: Shared): u32 {
    (s.wr - s.rd) % U32_MOD
  }

  function Produced(s: Shared, src: seq<u8>): Shared
    requires |s.data| == PIPE_CAP
    requires !s.producer.Ready? ==> s.producer.i < |s.producer.src|
  {
    match s.producer
    case Ready =>
      var n := if Used(s) < PIPE_CAP then Min(|src|, PIPE_CAP - Used(s)) else 0;
      if n == 0 then s else s.(producer := Store(src, 0, n))
    case Store(src, i, n) => s.(data := s.data[Slot(s.wr) := src[i]], producer := Publish(src, i, n))
    case Publish(src, i, n) =>
      s.(wr := (s.wr + 1) % U32_MOD, pushed := s.pushed + [src[i]],
         producer := if i + 1 < n then Store(src, i + 1, n) else Ready)
  }

  function Consumed(s: Shared, n: nat): Shared
    requires |s.data| == PIPE_CAP
    requires s.consumer.Release? ==> s.consumer.dst != []
  {
    match s.consumer
    case Waiting =>
      var m := Min(n, Used(s));
      if m == 0 then s.(chunks := s.chunks + [[]]) else s.(consumer := Get([], m))
    case Get(dst, n) => s.(consumer := Release(dst + [s.data[Slot(s.rd)]], n))
    case Release(dst, n) =>
      var s1 := s.(rd := (s.rd + 1) % U32_MOD, popped := s.popped + [dst[|dst| - 1]]);
      if |dst| < n then s1.(consumer := Get(dst, n)) else s1.(consumer := Waiting, chunks := s.chunks + [dst])
  }

  // ---------------------------------------------------------------- the invariant

  /** What lies between the counters is what was published and not released. */
  predicate Holds(data: seq<u8>, pushed: seq<u8>, from: nat) {
    |data| == PIPE_CAP && forall k :: from <= k < |pushed| ==> data[Slot(k)] == pushed[k]
  }

  predicate CountersOk(s: Shared) {
    && s.wr == |s.pushed| % U32_MOD && s.rd == |s.popped| % U32_MOD
    && |s.popped| <= |s.pushed| <= |s.popped| + PIPE_CAP
    && s.popped == s.pushed[..|s.popped|]
    && Holds(s.data, s.pushed, |s.popped|)
  }

  predicate ProducerOk(s: Shared)
    requires |s.data| == PIPE_CAP
  {
    !s.producer.Ready? ==>
      && s.producer.i < s.producer.n <= |s.producer.src|
      && |s.pushed| + s.producer.n - s.producer.i <= |s.popped| + PIPE_CAP
      && (s.producer.Publish? ==> s.data[Slot(|s.pushed|)] == s.producer.src[s.producer.i])
  }

  predicate ConsumerOk(s: Shared) {
    match s.consumer
    case Waiting => Flat(s.chunks) == s.popped
    case Get(dst, n) => |dst| < n <= |s.pushed| - |s.popped| + |dst| && Flat(s.chunks) + dst == s.popped
    case Release(dst, n) =>
      && 0 < |dst| <= n <= |s.pushed| - |s.popped| + |dst| - 1
      && dst[|dst| - 1] == s.pushed[|s.popped|] && Flat(s.chunks) + dst[..|dst| - 1] == s.popped
  }

  predicate Ok(s: Shared) {
    CountersOk(s) && ProducerOk(s) && ConsumerOk(s)
  }

  lemma SameSlot(pos: nat)
    ensures Slot(pos % U32_MOD) == Slot(pos)
  {
  }

  lemma UsedIs(s: Shared)
    requires CountersOk(s)
    ensures Used(s) == |s.pushed| - |s.popped|
  {
  }

  /** Storing a byte in the next slot touches none that holds a byte not yet released. */
  lemma StoreFresh(data: seq<u8>, pushed: seq<u8>, from: nat, b: u8)
    requires Holds(data, pushed, from) && from <= |pushed| < from + PIPE_CAP
    ensures Holds(data[Slot(|pushed|) := b], pushed, from)
  {
    forall k | from <= k < |pushed|
      ensures Slot(k) != Slot(|pushed|)
    {
      NoCollisionWhenDivides(U32_MOD, PIPE_CAP, k, |pushed|);
    }
  }

  lemma NextCounter(pos: nat)
    ensures (pos % U32_MOD + 1) % U32_MOD == (pos + 1) % U32_MOD
  {
  }

  lemma PushStarts(s: Shared, src: seq<u8>)
    requires Ok(s) && s.producer.Ready?
    ensures Ok(Produced(s, src))
  {
    UsedIs(s);
  }

  lemma StoreKeeps(s: Shared, src: seq<u8>)
    requires Ok(s) && s.producer.Store?
    ensures Ok(Produced(s, src))
  {
    SameSlot(|s.pushed|);
    StoreFresh(s.data, s.pushed, |s.popped|, s.producer.src[s.producer.i]);
  }

  lemma PublishKeeps(s: Shared, src: seq<u8>)
    requires Ok(s) && s.producer.Publish?
    ensures Ok(Produced(s, src))
  {
    var b := s.producer.src[s.producer.i];
    var s1 := Produced(s, src);
    NextCounter(|s.pushed|);
    assert s1.pushed[..|s.popped|] == s.pushed[..|s.popped|];
    assert Holds(s1.data, s1.pushed, |s1.popped|);
  }

  lemma PopStarts(s: Shared, n: nat)
    requires Ok(s) && s.consumer.Waiting?
    ensures Ok(Consumed(s, n))
  {
    UsedIs(s);
    DecodeChunksAppend(s.chunks, []);
  }

  lemma GetKeeps(s: Shared, n: nat)
    requires Ok(s) && s.consumer.Get?
    ensures Ok(Consumed(s, n))
  {
    var dst := s.consumer.dst;
    SameSlot(|s.popped|);
    assert (dst + [s.data[Slot(s.rd)]])[..|dst|] == dst;
  }

  lemma PrefixGrows(a: seq<u8>, k: nat, b: u8)
    requires k < |a| && b == a[k]
    ensures a[..k] + [b] == a[..k + 1]
  {
  }

  lemma SplitLast(flat: seq<u8>, dst: seq<u8>)
    requires dst != []
    ensures flat + dst == (flat + dst[..|dst| - 1]) + [dst[|dst| - 1]]
  {
    assert dst == dst[..|dst| - 1] + [dst[|dst| - 1]];
    Assoc(flat, dst[..|dst| - 1], [dst[|dst| - 1]]);
  }

  lemma ReleaseKeeps(s: Shared, n: nat)
    requires Ok(s) && s.consumer.Release?
    ensures Ok(Consumed(s, n))
  {
    var dst, s1 := s.consumer.dst, Consumed(s, n);
    assert CountersOk(s1) by {
      NextCounter(|s.popped|);
      PrefixGrows(s.pushed, |s.popped|, dst[|dst| - 1]);
    }
    assert ConsumerOk(s1) by {
      SplitLast(Flat(s.chunks), dst);
      DecodeChunksAppend(s.chunks, dst);
    }
  }

  lemma DoKeeps(s: Shared, step: Step)
    requires Ok(s)
    ensures Ok(Do(s, step))
  {
    match step {
      case Produce(src) =>
        match s.producer {
          case Ready => PushStarts(s, src);
          case Store(_, _, _) => StoreKeeps(s, src);
          case Publish(_, _, _) => PublishKeeps(s, src);
        }
      case Consume(n) =>
        match s.consumer {
          case Waiting => PopStarts(s, n);
          case Get(_, _) => GetKeeps(s, n);
          case Release(_, _) => ReleaseKeeps(s, n);
        }
    }
  }

  function Do(s: Shared, step: Step): Shared
    requires Ok(s)
  {
    match step case Produce(src) => Produced(s, src) case Consume(n) => Consumed(s, n)
  }

  function Initial(): Shared {
    Shared(seq(PIPE_CAP, _ => 0), 0, 0, Ready, Waiting, [], [], [])
  }

  type SafeShared = s: Shared | Ok(s) witness Initial()

  function Run(s: SafeShared, steps: seq<Step>): SafeShared
    decreases |steps|
  {
    if steps == [] then s
    else
      DoKeeps(s, steps[0]);
      Run(Do(s, steps[0]), steps[1..])
  }

  /** Over every interleaving of the two cores' steps, what was popped is a prefix of what was pushed, byte for
      byte across any number of counter wraps, and the finished pops are a prefix of it. */
  lemma InterleavedFifo(steps: seq<Step>)
    ensures var s := Run(Initial(), steps);
      s.popped <= s.pushed && Flat(s.chunks) <= s.popped && |s.pushed| <= |s.popped| + PIPE_CAP
  {
    var s := Run(Initial(), steps);
    assert Ok(s);
  }

  // ---------------------------------------------------------------- the bytes lost

  /** A pop that starts when an odd number of bytes can be had. */
  predicate OddAsk(s: Shared, step: Step) {
    step.Consume? && s.consumer.Waiting? && Min(step.n, Used(s)) % 2 == 1
  }

  function OddAsks(s: SafeShared, steps: seq<Step>): nat
    decreases |steps|
  {
    if steps == [] then 0
    else
      DoKeeps(s, steps[0]);
      (if OddAsk(s, steps[0]) then 1 else 0) + OddAsks(Do(s, steps[0]), steps[1..])
  }

  /** The parity of the pop under way. */
  function UnderWay(c: Consumer): nat {
    match c case Waiting => 0 case Get(_, n) => n % 2 case Release(_, n) => n % 2
  }

  lemma OddReadsAppend(cs: seq<seq<u8>>, c: seq<u8>)
    ensures OddReads(cs + [c]) == OddReads(cs) + |c| % 2
  {
    assert (cs + [c])[..|cs|] == cs;
  }

  lemma StepCounts(s: Shared, step: Step)
    requires Ok(s)
    ensures var s1 := Do(s, step);
      OddReads(s1.chunks) + UnderWay(s1.consumer) ==
        OddReads(s.chunks) + UnderWay(s.consumer) + if OddAsk(s, step) then 1 else 0
  {
    if step.Consume? {
      OddReadsAppend(s.chunks, []);
      if s.consumer.Release? {
        OddReadsAppend(s.chunks, s.consumer.dst);
      }
    }
  }

  lemma {:induction false} RunCounts(s: SafeShared, steps: seq<Step>)
    ensures var r := Run(s, steps);
      OddReads(r.chunks) + UnderWay(r.consumer) == OddReads(s.chunks) + UnderWay(s.consumer) + OddAsks(s, steps)
    decreases |steps|
  {
    if steps != [] {
      DoKeeps(s, steps[0]);
      StepCounts(s, steps[0]);
      RunCounts(Do(s, steps[0]), steps[1..]);
    }
  }

  /** Over every interleaving, when no pop is under way: each pop that started when an odd number of bytes could be
      had lost one byte, and nothing else did; if there was none, what was decoded is the decoding of all that was
      popped. */
  lemma InterleavedLoss(steps: seq<Step>)
    ensures var s := Run(Initial(), steps);
      s.consumer.Waiting? ==>
        && |s.popped| == 2 * |DecodeChunks(s.chunks)| + OddAsks(Initial(), steps)
        && (OddAsks(Initial(), steps) == 0 ==> DecodeChunks(s.chunks) == Decode(s.popped))
  {
    var s := Run(Initial(), steps);
    RunCounts(Initial(), steps);
    BytesLost(s.chunks);
    if AllEven(s.chunks) {
      EvenReadsConserve(s.chunks);
    }
    assert Ok(s);
  }

  // ---------------------------------------------------------------- an odd read of even pushes

  lemma {:induction false} RunAppend(s: Shared, a: seq<Step>, b: seq<Step>)
    requires Ok(s)
    ensures Run(s, a + b) == Run(Run(s, a), b)
    decreases |a|
  {
    if a == [] {
      assert a + b == b;
    } else {
      assert (a + b)[0] == a[0] && (a + b)[1..] == a[1..] + b;
      DoKeeps(s, a[0]);
      RunAppend(Do(s, a[0]), a[1..], b);
    }
  }

  /** The five steps that store, publish, ask for, read and release one byte. */
  function OneByte(): seq<Step> {
    [Produce([]), Produce([])] + [Consume(CHUNK), Consume(CHUNK), Consume(CHUNK)]
  }

  lemma RunTwo(s: Shared, a: Step, b: Step)
    requires Ok(s)
    ensures Ok(Do(s, a)) && Run(s, [a, b]) == Do(Do(s, a), b)
  {
    DoKeeps(s, a);
    DoKeeps(Do(s, a), b);
    assert [a, b][1..] == [b] && [b][1..] == [];
    assert Run(Do(s, a), [b]) == Do(Do(s, a), b);
  }

  lemma RunThree(s: Shared, a: Step, b: Step, c: Step)
    requires Ok(s)
    ensures Ok(Do(s, a)) && Ok(Do(Do(s, a), b)) && Run(s, [a, b, c]) == Do(Do(Do(s, a), b), c)
  {
    DoKeeps(s, a);
    RunTwo(Do(s, a), b, c);
    assert [a, b, c][1..] == [b, c];
  }

  lemma PutByte(s: Shared)
    requires Ok(s) && s.producer.Store?
    ensures var s1, p := Run(s, [Produce([]), Produce([])]), s.producer;
      && s1.pushed == s.pushed + [p.src[p.i]]
      && (s1.popped, s1.chunks, s1.consumer) == (s.popped, s.chunks, s.consumer)
      && s1.producer == if p.i + 1 < p.n then Store(p.src, p.i + 1, p.n) else Ready
  {
    RunTwo(s, Produce([]), Produce([]));
  }

  lemma PopByte(s: Shared, b: u8)
    requires Ok(s) && s.consumer.Waiting? && s.pushed == s.popped + [b]
    ensures var s1 := Run(s, [Consume(CHUNK), Consume(CHUNK), Consume(CHUNK)]);
      && (s1.popped, s1.chunks, s1.consumer) == (s.pushed, s.chunks + [[b]], Waiting)
      && (s1.pushed, s1.producer) == (s.pushed, s.producer)
  {
    var c := Consume(CHUNK);
    RunThree(s, c, c, c);
    UsedIs(s);
    SameSlot(|s.popped|);
    var s1 := Do(s, c);
    assert s1 == s.(consumer := Get([], 1));
    var s2 := Do(s1, c);
    assert s2 == s.(consumer := Release([b], 1)) by {
      assert s.data[Slot(|s.popped|)] == s.pushed[|s.popped|];
    }
  }

  /** A byte published and popped before the next one is a chunk of its own. */
  lemma ByteAlone(s: Shared)
    requires Ok(s) && s.producer.Store? && s.consumer.Waiting? && s.pushed == s.popped
    ensures var s1, p := Run(s, OneByte()), s.producer; var b := p.src[p.i];
      && s1.pushed == s1.popped == s.pushed + [b] && s1.chunks == s.chunks + [[b]] && s1.consumer.Waiting?
      && s1.producer == if p.i + 1 < p.n then Store(p.src, p.i + 1, p.n) else Ready
  {
    var c := Consume(CHUNK);
    PutByte(s);
    RunAppend(s, [Produce([]), Produce([])], [c, c, c]);
    PopByte(Run(s, [Produce([]), Produce([])]), s.producer.src[s.producer.i]);
  }

  lemma BytesApart(a: u8, b: u8)
    ensures [] + [a] == [a] && [] + [[a]] == [[a]] && [a] + [b] == [a, b]
    ensures Decode([a, b]) == [Sample(a, b)] && DecodeChunks([[a]] + [[b]]) == []
  {
    DecodeChunksAppend([], [a]);
    DecodeChunksAppend([[a]], [b]);
    assert [] + [[a]] == [[a]];
  }

  /** A push of two bytes of which the other core pops the first before the second is published: both bytes
      come through, and the sample they are is lost. So even pushes are no protection while the cores interleave. */
  lemma EvenPushOddReads(a: u8, b: u8)
    ensures var s := Run(Initial(), [Produce([a, b])] + OneByte() + OneByte());
      && s.popped == s.pushed == [a, b] && s.producer.Ready? && s.consumer.Waiting?
      && Decode(s.pushed) == [Sample(a, b)] && DecodeChunks(s.chunks) == []
  {
    var s0, start := Initial(), [Produce([a, b])];
    DoKeeps(s0, start[0]);
    var s1 := Do(s0, start[0]);
    assert s1 == s0.(producer := Store([a, b], 0, 2));
    assert start[1..] == [] && Run(s0, start) == s1;
    RunAppend(s0, start + OneByte(), OneByte());
    RunAppend(s0, start, OneByte());
    ByteAlone(s1);
    ByteAlone(Run(s1, OneByte()));
    BytesApart(a, b);
  }
}
