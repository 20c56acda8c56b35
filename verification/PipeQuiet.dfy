/** The pipe while one of the cores is quiet: the byte steps of a whole push or pop do what the pipe object's
    methods promise. */
module PipeQuiet {
  import opened Machine
  import opened CounterRing
  import opened AudioPath
  import opened PipeSteps

  /** What the pipe holds. */
  function Content(s: SafeShared): seq<u8> {
    s.pushed[|s.popped|..]
  }

  /** It is what lies between the counters, as the pipe object reads it. */
  lemma ContentIsView(s: SafeShared)
    ensures Content(s) == View(s.data, s.rd, s.wr)
  {
    UsedIs(s);
    forall k | 0 <= k < |Content(s)|
      ensures At(s.data, s.rd, k) == Content(s)[k]
    {
      SlotFrom(|s.popped|, k);
    }
  }

  lemma SlotFrom(pos: nat, k: nat)
    ensures Slot(pos % U32_MOD + k) == Slot(pos + k)
  {
    assert (pos % U32_MOD + k) % U32_MOD == (pos + k) % U32_MOD;
  }

  /** Two steps for each of `k` bytes. */
  function Twice(step: Step, k: nat): seq<Step> {
    if k == 0 then [] else [step, step] + Twice(step, k - 1)
  }

  lemma RunOne(s: SafeShared, step: Step, more: seq<Step>)
    ensures Ok(Do(s, step)) && Run(s, [step] + more) == Run(Do(s, step), more)
  {
    DoKeeps(s, step);
    assert ([step] + more)[1..] == more;
  }

  /** `bytes` is found in `a` from `at` on. */
  predicate Found(a: seq<u8>, at: nat, bytes: seq<u8>) {
    at + |bytes| <= |a| && a[at..at + |bytes|] == bytes
  }

  lemma FoundTail(a: seq<u8>, at: nat, bytes: seq<u8>)
    requires Found(a, at, bytes) && bytes != []
    ensures bytes == [a[at]] + bytes[1..] && Found(a, at + 1, bytes[1..])
  {
    assert a[at] == bytes[0];
  }

  // ---------------------------------------------------------------- a push

  /** The rest of a push, two steps for each byte. */
  lemma {:induction false} PushRest(s: SafeShared, bytes: seq<u8>)
    requires s.producer.Store? && |bytes| == s.producer.n - s.producer.i
    requires Found(s.producer.src, s.producer.i, bytes)
    ensures var r := Run(s, Twice(Produce([]), |bytes|));
      && r.pushed == s.pushed + bytes
      && (r.popped, r.chunks, r.consumer, r.producer) == (s.popped, s.chunks, s.consumer, Ready)
    decreases |bytes|
  {
    var rest, more := bytes[1..], Twice(Produce([]), |bytes| - 1);
    FoundTail(s.producer.src, s.producer.i, bytes);
    PutByte(s);
    RunAppend(s, [Produce([]), Produce([])], more);
    if 1 < |bytes| {
      PushRest(Run(s, [Produce([]), Produce([])]), rest);
      Assoc(s.pushed, [bytes[0]], rest);
    } else {
      assert more == [] && rest == [] && bytes == [bytes[0]];
    }
  }

  /** A push while the other core is quiet takes as much as there is room for, at the back. */
  lemma QuietPush(s: SafeShared, src: seq<u8>)
    requires s.producer.Ready?
    ensures |Content(s)| <= 16384
    ensures var n := Min(|src|, 16384 - |Content(s)|);
      var r := Run(s, [Produce(src)] + Twice(Produce([]), n));
      && Content(r) == Content(s) + src[..n]
      && (r.popped, r.chunks, r.consumer, r.producer) == (s.popped, s.chunks, s.consumer, Ready)
  {
    UsedIs(s);
    var n := Min(|src|, PIPE_CAP - |Content(s)|);
    var s1 := Do(s, Produce(src));
    RunOne(s, Produce(src), Twice(Produce([]), n));
    if n == 0 {
      assert s1 == s && src[..0] == [];
    } else {
      assert s1 == s.(producer := Store(src, 0, n));
      assert src[0..n] == src[..n];
      PushRest(s1, src[..n]);
      ContentGrows(s.pushed, |s.popped|, src[..n]);
    }
  }

  lemma ContentGrows(a: seq<u8>, k: nat, b: seq<u8>)
    requires k <= |a|
    ensures (a + b)[k..] == a[k..] + b
  {
  }

  // ---------------------------------------------------------------- a pop

  lemma GetByte(s: SafeShared)
    requires s.consumer.Get?
    ensures |s.popped| < |s.pushed|
    ensures var c, b := s.consumer, s.pushed[|s.popped|];
      var r := Run(s, [Consume(0), Consume(0)]);
      && (r.popped, r.pushed, r.producer) == (s.popped + [b], s.pushed, s.producer)
      && (r.consumer, r.chunks) ==
           if |c.dst| + 1 < c.n then (Get(c.dst + [b], c.n), s.chunks) else (Waiting, s.chunks + [c.dst + [b]])
  {
    var b, step := s.pushed[|s.popped|], Consume(0);
    RunTwo(s, step, step);
    SameSlot(|s.popped|);
    assert s.data[Slot(|s.popped|)] == b;
    assert Do(s, step) == s.(consumer := Release(s.consumer.dst + [b], s.consumer.n));
  }

  /** The rest of a pop, two steps for each byte. */
  lemma {:induction false} PopRest(s: SafeShared, bytes: seq<u8>)
    requires s.consumer.Get? && |bytes| == s.consumer.n - |s.consumer.dst| && Found(s.pushed, |s.popped|, bytes)
    ensures var r := Run(s, Twice(Consume(0), |bytes|));
      && (r.popped, r.chunks) == (s.popped + bytes, s.chunks + [s.consumer.dst + bytes])
      && (r.pushed, r.producer, r.consumer) == (s.pushed, s.producer, Waiting)
    decreases |bytes|
  {
    var rest, more := bytes[1..], Twice(Consume(0), |bytes| - 1);
    FoundTail(s.pushed, |s.popped|, bytes);
    GetByte(s);
    RunAppend(s, [Consume(0), Consume(0)], more);
    if 1 < |bytes| {
      PopRest(Run(s, [Consume(0), Consume(0)]), rest);
      Assoc(s.popped, [bytes[0]], rest);
      Assoc(s.consumer.dst, [bytes[0]], rest);
    } else {
      assert more == [] && rest == [] && bytes == [bytes[0]];
    }
  }

  lemma ContentSplits(a: seq<u8>, k: nat, m: nat)
    requires k + m <= |a|
    ensures Found(a, k, a[k..][..m]) && a[k..] == a[k..][..m] + a[k + m..]
  {
  }

  /** A pop while the other core is quiet removes up to `n` bytes from the front. */
  lemma QuietPop(s: SafeShared, n: nat)
    requires s.consumer.Waiting?
    ensures var m := Min(n, |Content(s)|);
      var r := Run(s, [Consume(n)] + Twice(Consume(0), m));
      && r.chunks == s.chunks + [Content(s)[..m]] && Content(s) == Content(s)[..m] + Content(r)
      && (r.pushed, r.producer, r.consumer) == (s.pushed, s.producer, Waiting)
  {
    UsedIs(s);
    var m := Min(n, |Content(s)|);
    var bytes, s1 := Content(s)[..m], Do(s, Consume(n));
    ContentSplits(s.pushed, |s.popped|, m);
    RunOne(s, Consume(n), Twice(Consume(0), m));
    if m == 0 {
      assert s1 == s.(chunks := s.chunks + [[]]);
    } else {
      assert s1 == s.(consumer := Get([], m));
      PopRest(s1, bytes);
      assert [] + bytes == bytes;
    }
  }
}
