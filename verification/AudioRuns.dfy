/** Whole runs of the audio byte path: pushes by one core, fills by the other, and what they conserve. */
module AudioRuns {
  import opened Machine
  import opened AudioPath

  /** All bytes the pipe accepted, what it holds, the chunks read from it, and the number of samples queued. What
      the engine delivered and what it still queues are together the decoding of the chunks. */
  datatype Path = Path(pushed: seq<u8>, pipe: seq<u8>, chunks: seq<seq<u8>>, queued: nat)

  datatype PathOp = Push(src: seq<u8>) | Fill(frames: nat)

  function ReadChunk(p: Path): Path {
    var n := Min(CHUNK, |p.pipe|);
    p.(pipe := p.pipe[n..], chunks := p.chunks + [p.pipe[..n]])
  }

  function ReadChunks(p: Path, n: nat): Path {
    if n == 0 then p else ReadChunk(ReadChunks(p, n - 1))
  }

  function Accepted(p: Path, src: seq<u8>): (n: nat)
    ensures n <= |src|
  {
    if |p.pipe| < PIPE_CAP then Min(|src|, PIPE_CAP - |p.pipe|) else 0
  }

  function CountsOf(p: Path, frames: nat, ch: nat): Counts {
    Counts(|p.pipe|, p.queued, SampleCount(frames, ch))
  }

  /** The first chunk from `k` on that is not wanted, or the end of the budget. */
  function ReadCount(c: Counts, k: nat): (r: nat)
    requires k <= MAX_DECODES
    ensures k <= r <= MAX_DECODES
    decreases MAX_DECODES - k
  {
    if k < MAX_DECODES && Wants(c, k) then ReadCount(c, k + 1) else k
  }

  lemma {:induction false} ReadCountIsExact(c: Counts, k: nat)
    requires k <= MAX_DECODES && (k == 0 || Wants(c, k - 1))
    ensures ReadsExactly(c, ReadCount(c, k))
    decreases MAX_DECODES - k
  {
    if k < MAX_DECODES && Wants(c, k) {
      ReadCountIsExact(c, k + 1);
    }
  }

  lemma DeliveredThere(c: Counts, r: nat, ch: nat)
    requires ReadsExactly(c, r)
    ensures Delivered(c, r, ch) <= c.queued + Samples(c.n, r)
  {
  }

  function Filled(p: Path, frames: nat, ch: nat): Path {
    var c := CountsOf(p, frames, ch);
    var r := ReadCount(c, 0);
    ReadCountIsExact(c, 0);
    DeliveredThere(c, r, ch);
    ReadChunks(p, r).(queued := c.queued + Samples(c.n, r) - Delivered(c, r, ch))
  }

  function Do(p: Path, op: PathOp, ch: nat): Path {
    match op
    case Push(src) => var s := src[..Accepted(p, src)]; p.(pushed := p.pushed + s, pipe := p.pipe + s)
    case Fill(frames) => Filled(p, frames, ch)
  }

  function Run(p: Path, ops: seq<PathOp>, ch: nat): Path
    decreases |ops|
  {
    if ops == [] then p else Run(Do(p, ops[0], ch), ops[1..], ch)
  }

  lemma {:induction false} ChunkedIsReads(p: Path, read: seq<seq<u8>>, rest: seq<u8>)
    requires p.pipe == Flat(read) + rest && Chunked(|p.pipe|, read)
    ensures ReadChunks(p, |read|) == p.(pipe := rest, chunks := p.chunks + read)
    decreases |read|
  {
    if read == [] {
      assert p.chunks + read == p.chunks;
    } else {
      var c, last := read[..|read| - 1], read[|read| - 1];
      Assoc(Flat(c), last, rest);
      ChunkedIsReads(p, c, last + rest);
      OddExactly(p.pipe, c, last + rest);
      assert p.chunks + read == (p.chunks + c) + [last];
      assert (last + rest)[..|last|] == last && (last + rest)[|last|..] == rest;
    }
  }

  /** The engine's fill is the fill of this machine: what its contract promises determines what it leaves. */
  lemma FillIsFilled(p: Path, frames: nat, ch: nat, took: nat, queue: nat, read: seq<seq<u8>>, rest: seq<u8>)
    requires p.pipe == Flat(read) + rest && Chunked(|p.pipe|, read)
    requires FillAccount(CountsOf(p, frames, ch), ch, took, queue, read)
    ensures Do(p, Fill(frames), ch) == Path(p.pushed, rest, p.chunks + read, queue)
  {
    var c := CountsOf(p, frames, ch);
    ReadCountIsExact(c, 0);
    ReadsUnique(c, ReadCount(c, 0), |read|);
    ChunkedIsReads(p, read, rest);
  }

  // ---------------------------------------------------------------- what is conserved

  /** First in, first out: the chunks read and the pipe's bytes are what was pushed. */
  predicate InOrder(p: Path) {
    p.pushed == Flat(p.chunks) + p.pipe && |p.pipe| <= PIPE_CAP
  }

  lemma ReadKeeps(p: Path)
    requires InOrder(p)
    ensures InOrder(ReadChunk(p)) && |ReadChunk(p).pipe| == Left(|p.pipe|, 1)
    ensures OddReads(ReadChunk(p).chunks) + |ReadChunk(p).pipe| % 2 == OddReads(p.chunks) + |p.pipe| % 2
  {
    var n := Min(CHUNK, |p.pipe|);
    var c, rest := p.pipe[..n], p.pipe[n..];
    assert p.pipe == c + rest;
    ReadOne(p.chunks, c, rest);
    ChunkParity(|p.pipe|, 0, n, |rest|);
  }

  lemma ReadOne(cs: seq<seq<u8>>, c: seq<u8>, rest: seq<u8>)
    ensures Flat(cs + [c]) + rest == Flat(cs) + (c + rest)
    ensures OddReads(cs + [c]) == OddReads(cs) + |c| % 2
  {
    DecodeChunksAppend(cs, c);
    Assoc(Flat(cs), c, rest);
    assert (cs + [c])[..|cs|] == cs;
  }

  lemma {:induction false} ReadsKeep(p: Path, n: nat)
    requires InOrder(p)
    ensures InOrder(ReadChunks(p, n)) && |ReadChunks(p, n).pipe| == Left(|p.pipe|, n)
    ensures OddReads(ReadChunks(p, n).chunks) + |ReadChunks(p, n).pipe| % 2 == OddReads(p.chunks) + |p.pipe| % 2
  {
    if 0 < n {
      ReadsKeep(p, n - 1);
      ReadKeeps(ReadChunks(p, n - 1));
    }
  }

  predicate Loses(p: Path, op: PathOp, ch: nat) {
    op.Fill? && LosesByte(CountsOf(p, op.frames, ch))
  }

  /** How many of the fills met an odd number of bytes with too few samples queued and in whole chunks. */
  function Losses(p: Path, ops: seq<PathOp>, ch: nat): nat
    decreases |ops|
  {
    if ops == [] then 0
    else (if Loses(p, ops[0], ch) then 1 else 0) + Losses(Do(p, ops[0], ch), ops[1..], ch)
  }

  predicate EvenPushes(ops: seq<PathOp>) {
    forall k :: 0 <= k < |ops| && ops[k].Push? ==> |ops[k].src| % 2 == 0
  }

  lemma FillKeeps(p: Path, frames: nat, ch: nat)
    requires InOrder(p)
    ensures InOrder(Filled(p, frames, ch)) && (|p.pipe| % 2 == 0 ==> |Filled(p, frames, ch).pipe| % 2 == 0)
    ensures OddReads(Filled(p, frames, ch).chunks) ==
      OddReads(p.chunks) + if LosesByte(CountsOf(p, frames, ch)) then 1 else 0
  {
    var c := CountsOf(p, frames, ch);
    var r := ReadCount(c, 0);
    var q := ReadChunks(p, r);
    ReadCountIsExact(c, 0);
    ReadsKeep(p, r);
    LeftParity(c.n, r);
    LossByParity(c, r, |q.pipe|, OddReads(q.chunks) - OddReads(p.chunks));
  }

  lemma DoKeeps(p: Path, op: PathOp, ch: nat)
    requires InOrder(p)
    ensures InOrder(Do(p, op, ch))
    ensures OddReads(Do(p, op, ch).chunks) == OddReads(p.chunks) + if Loses(p, op, ch) then 1 else 0
  {
    match op {
      case Push(src) => Assoc(Flat(p.chunks), p.pipe, src[..Accepted(p, src)]);
      case Fill(frames) => FillKeeps(p, frames, ch);
    }
  }

  lemma {:induction false} RunKeeps(p: Path, ops: seq<PathOp>, ch: nat)
    requires InOrder(p)
    ensures InOrder(Run(p, ops, ch))
    ensures OddReads(Run(p, ops, ch).chunks) == OddReads(p.chunks) + Losses(p, ops, ch)
    decreases |ops|
  {
    if ops != [] {
      DoKeeps(p, ops[0], ch);
      RunKeeps(Do(p, ops[0], ch), ops[1..], ch);
    }
  }

  lemma {:induction false} EvenPushesLoseNothing(p: Path, ops: seq<PathOp>, ch: nat)
    requires InOrder(p) && |p.pipe| % 2 == 0 && EvenPushes(ops)
    ensures Losses(p, ops, ch) == 0
    decreases |ops|
  {
    if ops != [] {
      DoKeeps(p, ops[0], ch);
      assert |Do(p, ops[0], ch).pipe| % 2 == 0 by {
        if ops[0].Fill? {
          FillKeeps(p, ops[0].frames, ch);
        }
      }
      EvenPushesLoseNothing(Do(p, ops[0], ch), ops[1..], ch);
    }
  }

  const EMPTY := Path([], [], [], 0)

  /** Over every run of pushes and fills: each fill that finds an odd number of bytes, and too few samples queued
      and in the whole chunks, loses one byte, and nothing else does. If there is none, what was decoded and what
      the pipe still holds are the decoding of all that was pushed. Even pushes make sure of that. */
  lemma RunsConserve(ops: seq<PathOp>, ch: nat)
    ensures var p := Run(EMPTY, ops, ch);
      && |p.pushed| == 2 * |DecodeChunks(p.chunks)| + |p.pipe| + Losses(EMPTY, ops, ch)
      && (Losses(EMPTY, ops, ch) == 0 ==> DecodeChunks(p.chunks) + Decode(p.pipe) == Decode(p.pushed))
      && (EvenPushes(ops) ==> Losses(EMPTY, ops, ch) == 0)
  {
    var p := Run(EMPTY, ops, ch);
    RunKeeps(EMPTY, ops, ch);
    BytesLost(p.chunks);
    if Losses(EMPTY, ops, ch) == 0 {
      EvenReadsConserve(p.chunks);
      DecodeAppend(Flat(p.chunks), p.pipe);
    }
    if EvenPushes(ops) {
      EvenPushesLoseNothing(EMPTY, ops, ch);
    }
  }

  // ---------------------------------------------------------------- a run with an odd push

  /** A fill of one frame that finds one byte reads it and delivers nothing. */
  lemma FillOfOne(p: Path, a: u8)
    requires p.pipe == [a] && p.queued == 0
    ensures Do(p, Fill(1), 1) == Path(p.pushed, [], p.chunks + [[a]], 0)
  {
    var c := Counts(1, 0, 1);
    assert Wants(c, 0) && !Wants(c, 1) && ReadsExactly(c, 1);
    FlatOne([a]);
    OddExactly([a], [[a]], []);
    LossByParity(c, 1, 0, 1);
    FillIsFilled(p, 1, 1, 0, 0, [[a]], []);
  }

  /** A fill of one frame that finds three bytes reads them all and delivers one sample. */
  lemma FillOfThree(p: Path, b: u8, c: u8, d: u8)
    requires p.pipe == [b, c, d] && p.queued == 0
    ensures Do(p, Fill(1), 1) == Path(p.pushed, [], p.chunks + [[b, c, d]], 0)
  {
    var n := Counts(3, 0, 1);
    assert Wants(n, 0) && !Wants(n, 1) && ReadsExactly(n, 1);
    FlatOne([b, c, d]);
    OddExactly([b, c, d], [[b, c, d]], []);
    FillIsFilled(p, 1, 1, 1, 0, [[b, c, d]], []);
  }

  lemma FlatOne(c: seq<u8>)
    ensures Flat([c]) == c && c == Flat([c]) + []
  {
    DecodeChunksAppend([], c);
    assert [] + [c] == [c];
  }

  lemma PushAll(p: Path, src: seq<u8>, ch: nat)
    requires |p.pipe| + |src| <= PIPE_CAP
    ensures Do(p, Push(src), ch) == p.(pushed := p.pushed + src, pipe := p.pipe + src)
  {
    assert src[..|src|] == src;
  }

  lemma RunTwo(p: Path, a: PathOp, b: PathOp, ch: nat)
    ensures Run(p, [a, b], ch) == Do(Do(p, a, ch), b, ch)
  {
    assert [a, b][1..] == [b] && [b][1..] == [];
    assert Run(Do(p, a, ch), [b], ch) == Do(Do(p, a, ch), b, ch);
  }

  lemma RunFour(p: Path, a: PathOp, b: PathOp, c: PathOp, d: PathOp, ch: nat)
    ensures Run(p, [a, b, c, d], ch) == Run(Run(p, [a, b], ch), [c, d], ch)
  {
    RunTwo(p, a, b, ch);
    assert [a, b, c, d][1..] == [b, c, d] && [b, c, d][1..] == [c, d];
    assert Run(Do(p, a, ch), [b, c, d], ch) == Run(Do(Do(p, a, ch), b, ch), [c, d], ch);
  }

  /** After an odd push met by a fill every later sample is put together from the wrong bytes. */
  lemma OddPushMisaligns(a: u8, b: u8, c: u8, d: u8)
    ensures var p := Run(EMPTY, [Push([a]), Fill(1), Push([b, c, d]), Fill(1)], 1);
      && p.pushed == [a, b, c, d] && Decode(p.pushed) == [Sample(a, b), Sample(c, d)]
      && p.pipe == [] && DecodeChunks(p.chunks) == [Sample(b, c)]
  {
    var p1, p2 := Path([a], [a], [], 0), Path([a], [], [[a]], 0);
    RunFour(EMPTY, Push([a]), Fill(1), Push([b, c, d]), Fill(1), 1);
    RunTwo(EMPTY, Push([a]), Fill(1), 1);
    PushAll(EMPTY, [a], 1);
    assert [] + [a] == [a] && [] + [[a]] == [[a]];
    FillOfOne(p1, a);
    RunTwo(p2, Push([b, c, d]), Fill(1), 1);
    PushAll(p2, [b, c, d], 1);
    assert [a] + [b, c, d] == [a, b, c, d] && [] + [b, c, d] == [b, c, d];
    FillOfThree(Path([a, b, c, d], [b, c, d], [[a]], 0), b, c, d);
    DecodedTwo(a, b, c, d);
  }

  lemma DecodedTwo(a: u8, b: u8, c: u8, d: u8)
    ensures DecodeChunks([[a]] + [[b, c, d]]) == [Sample(b, c)]
    ensures Decode([a, b, c, d]) == [Sample(a, b), Sample(c, d)]
  {
    DecodeChunksAppend([], [a]);
    assert [] + [[a]] == [[a]];
    DecodeChunksAppend([[a]], [b, c, d]);
  }
}
