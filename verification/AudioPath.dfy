/** The audio byte path: the pipe shared by the two cores, the PCM sample queue, and the engine that
    decodes bytes into samples and fills output frames. Pipe and queue are both arrays addressed by
    two free-running 32-bit counters. */
module CounterRing {
  import opened Machine
  import opened WrapArithmetic

  function Dist(wr: u32, rd: u32): u32 {
    (wr - rd) % U32_MOD
  }

  function Next(x: u32): u32 {
    (x + 1) % U32_MOD
  }

  predicate Shaped<T>(data: seq<T>) {
    0 < |data| < U32_MOD
  }

  function At<T>(data: seq<T>, rd: u32, k: nat): T
    requires Shaped(data)
  {
    data[SlotOf(U32_MOD, |data|, rd + k)]
  }

  /** The elements between the counters, oldest first. */
  function View<T>(data: seq<T>, rd: u32, wr: u32): (v: seq<T>)
    requires Shaped(data)
    ensures |v| == Dist(wr, rd)
    ensures forall k :: 0 <= k < |v| ==> v[k] == At(data, rd, k)
  {
    seq(Dist(wr, rd), (k: nat) requires Shaped(data) => At(data, rd, k))
  }

  /** One more element can be stored without touching an unread one. */
  predicate Fits(n: nat, rd: u32, used: nat)
    requires 0 < n
  {
    used < n && (U32_MOD % n == 0 || used < U32_MOD % n || rd + used < U32_MOD)
  }

  lemma DistIs(rd: u32, wr: u32)
    ensures Dist(wr, rd) == if rd <= wr then wr - rd else wr - rd + U32_MOD
    ensures Next(wr) == if wr + 1 < U32_MOD then wr + 1 else 0
  {
  }

  lemma CountersAfterPut(rd: u32, wr: u32)
    ensures (rd + Dist(wr, rd)) % U32_MOD == wr
    ensures Dist(wr, rd) < U32_MOD - 1 ==> Dist(Next(wr), rd) == Dist(wr, rd) + 1
  {
    DistIs(rd, wr);
    DistIs(rd, Next(wr));
    assert (rd + Dist(wr, rd)) % U32_MOD == if rd <= wr then rd + (wr - rd) else rd + (wr - rd + U32_MOD) - U32_MOD;
  }

  lemma CountersAfterTake(rd: u32, wr: u32)
    requires Dist(wr, rd) != 0
    ensures Dist(wr, Next(rd)) == Dist(wr, rd) - 1
  {
    DistIs(rd, wr);
    DistIs(Next(rd), wr);
    DistIs(wr, rd);
  }

  lemma NextSlot(n: nat, rd: u32, k: nat)
    requires 0 < n <= U32_MOD
    ensures SlotOf(U32_MOD, n, Next(rd) + k) == SlotOf(U32_MOD, n, rd + (k + 1))
  {
    assert (Next(rd) + k) % U32_MOD == (rd + 1 + k) % U32_MOD;
  }

  lemma PutView<T>(data: seq<T>, rd: u32, wr: u32, x: T)
    requires Shaped(data) && Fits(|data|, rd, Dist(wr, rd))
    ensures Dist(Next(wr), rd) == Dist(wr, rd) + 1
    ensures View(data[SlotOf(U32_MOD, |data|, wr) := x], rd, Next(wr)) == View(data, rd, wr) + [x]
  {
    var v, data' := View(data, rd, wr), data[SlotOf(U32_MOD, |data|, wr) := x];
    CountersAfterPut(rd, wr);
    PutAt(data, rd, wr, x, |v|);
    forall k: nat | k < |v|
      ensures At(data', rd, k) == v[k]
    {
      PutAt(data, rd, wr, x, k);
    }
  }

  lemma PutAt<T>(data: seq<T>, rd: u32, wr: u32, x: T, k: nat)
    requires Shaped(data) && Fits(|data|, rd, Dist(wr, rd)) && k <= Dist(wr, rd)
    ensures At(data[SlotOf(U32_MOD, |data|, wr) := x], rd, k) == if k == Dist(wr, rd) then x else At(data, rd, k)
  {
    PutSlots(|data|, rd, wr, Dist(wr, rd), k);
  }

  /** The slot written is that of the next position, and of no unread one. */
  lemma PutSlots(n: nat, rd: u32, wr: u32, used: nat, k: nat)
    requires 0 < n < U32_MOD && used == Dist(wr, rd) && Fits(n, rd, used) && k <= used
    ensures SlotOf(U32_MOD, n, rd + k) == SlotOf(U32_MOD, n, wr) <==> k == used
  {
    CountersAfterPut(rd, wr);
    SameResidue(n, rd + used, wr);
    if k < used {
      SlotsApart(n, rd, used, k);
    }
  }

  lemma SameResidue(n: nat, pos: nat, wr: u32)
    requires 0 < n <= U32_MOD && pos % U32_MOD == wr
    ensures SlotOf(U32_MOD, n, pos) == SlotOf(U32_MOD, n, wr)
  {
  }

  lemma SlotsApart(n: nat, rd: u32, used: nat, k: nat)
    requires 0 < n < U32_MOD && Fits(n, rd, used) && k < used
    ensures SlotOf(U32_MOD, n, rd + k) != SlotOf(U32_MOD, n, rd + used)
  {
    SlotCollision(U32_MOD, n, rd + k, rd + used);
    if rd + used < U32_MOD {
      assert (rd + k) / U32_MOD == (rd + used) / U32_MOD;
    } else {
      assert (rd + used) - (rd + k) != U32_MOD % n;
    }
  }

  lemma TakeView<T>(data: seq<T>, rd: u32, wr: u32)
    requires Shaped(data) && Dist(wr, rd) != 0
    ensures Dist(wr, Next(rd)) == Dist(wr, rd) - 1
    ensures View(data, rd, wr) == [data[SlotOf(U32_MOD, |data|, rd)]] + View(data, Next(rd), wr)
  {
    CountersAfterTake(rd, wr);
    var v, w := View(data, rd, wr), View(data, Next(rd), wr);
    assert v[0] == At(data, rd, 0) == data[SlotOf(U32_MOD, |data|, rd)];
    forall k | 0 <= k < |w|
      ensures w[k] == v[k + 1]
    {
      NextSlot(|data|, rd, k);
    }
  }

  /** Storage addressed by two free-running counters. `items` is what is stored, oldest first. */
  class Buffer<T> {
    const data: array<T>
    var wr: u32
    var rd: u32
    ghost var items: seq<T>

    ghost predicate Valid()
      reads this, data
    {
      && 0 < data.Length < U32_MOD
      && |items| <= data.Length
      && items == View(data[..], rd, wr)
    }

    constructor (storage: array<T>)
      requires 0 < storage.Length < U32_MOD
      ensures data == storage && Valid() && items == [] && rd == 0
    {
      data := storage;
      wr, rd := 0, 0;
      items := [];
    }

    function Used(): (n: nat)
      requires Valid()
      reads this, data
      ensures n == |items|
    {
      Dist(wr, rd)
    }

    method Put(x: T)
      requires Valid() && |items| < data.Length
      modifies this`wr, this`items, data
      ensures Valid() && |items| == |old(items)| + 1
      ensures Fits(data.Length, rd, |old(items)|) ==> items == old(items) + [x]
    {
      ghost var before := data[..];
      if Fits(data.Length, rd, |items|) {
        PutView(before, rd, wr, x);
      }
      CountersAfterPut(rd, wr);
      var i := SlotOf(U32_MOD, data.Length, wr);
      data[i] := x;
      assert data[..] == before[i := x];
      wr := Next(wr);
      items := View(data[..], rd, wr);
    }

    method Take() returns (x: T)
      requires Valid() && items != []
      modifies this`rd, this`items
      ensures Valid() && old(items) == [x] + items
      ensures rd == Next(old(rd))
    {
      TakeView(data[..], rd, wr);
      x := data[SlotOf(U32_MOD, data.Length, rd)];
      rd := Next(rd);
      items := View(data[..], rd, wr);
    }
  }
}

module AudioPath {
  import opened Machine
  import opened CounterRing

  const PIPE_CAP := 16384
  const QMAX := 4608
  // The queue keeps its order across a counter wrap while it holds at most this many samples.
  const QSAFE := 2560

  lemma QsafeIsTheRemainder()
    ensures QSAFE == U32_MOD % QMAX
  {
  }

  const CHUNK := 256
  const MAX_DECODES := 64

  type i16 = x: int | -0x8000 <= x < 0x8000

  function Min(a: nat, b: nat): nat {
    if a < b then a else b
  }

  class Pipe {
    const ring: Buffer<u8>
    ghost var bytes: seq<u8>

    ghost predicate Valid()
      reads this, ring, ring.data
    {
      ring.Valid() && ring.data.Length == PIPE_CAP && bytes == ring.items
    }

    constructor ()
      ensures Valid() && fresh(ring) && fresh(ring.data) && bytes == []
    {
      var data := new u8[PIPE_CAP](_ => 0);
      ring := new Buffer(data);
      bytes := [];
    }

    /** Takes as much of `src` as there is room for, at the back. */
    method Push(src: seq<u8>) returns (n: nat)
      requires Valid()
      modifies this, ring, ring.data
      ensures Valid()
      ensures n == Min(|src|, 16384 - |old(bytes)|)
      ensures bytes == old(bytes) + src[..n]
    {
      n := Min(|src|, PIPE_CAP - ring.Used());
      var i := 0;
      ghost var had := bytes;
      while i < n
        invariant 0 <= i <= n
        invariant Valid() && bytes == had + src[..i]
      {
        ring.Put(src[i]);
        bytes := ring.items;
        assert src[..i + 1] == src[..i] + [src[i]];
        Assoc(had, src[..i], [src[i]]);
        i := i + 1;
      }
    }

    /** Removes up to `n` bytes from the front. */
    method Pop(n: nat) returns (dst: seq<u8>)
      requires Valid()
      modifies this, ring
      ensures Valid()
      ensures |dst| == Min(n, |old(bytes)|)
      ensures old(bytes) == dst + bytes
    {
      var m := Min(n, ring.Used());
      dst := [];
      ghost var had := bytes;
      while |dst| < m
        invariant |dst| <= m
        invariant Valid() && had == dst + bytes
      {
        var b := ring.Take();
        Assoc(dst, [b], ring.items);
        dst := dst + [b];
        bytes := ring.items;
      }
    }
  }

  // ---------------------------------------------------------------- samples

  function Sample(lo: u8, hi: u8): i16 {
    var w := lo + 256 * hi;
    if w < 0x8000 then w else w - U16_MOD
  }

  /** Little-endian 16-bit samples; an odd last byte decodes to nothing. */
  function Decode(b: seq<u8>): (s: seq<i16>)
    ensures |s| == |b| / 2
    ensures forall k :: 0 <= k < |s| ==> s[k] == Sample(b[2 * k], b[2 * k + 1])
  {
    seq(|b| / 2, k requires 0 <= k < |b| / 2 => Sample(b[2 * k], b[2 * k + 1]))
  }

  lemma DecodeAppend(a: seq<u8>, b: seq<u8>)
    requires |a| % 2 == 0
    ensures Decode(a + b) == Decode(a) + Decode(b)
  {
  }

  function Doubled(s: seq<i16>): (d: seq<i16>)
    ensures |d| == 2 * |s|
  {
    if s == [] then [] else var n := |s| - 1; Doubled(s[..n]) + [s[n], s[n]]
  }

  lemma {:induction false} DoubledAt(s: seq<i16>, k: nat)
    requires k < 2 * |s|
    ensures Doubled(s)[k] == s[k / 2]
    decreases |s|
  {
    var n := |s| - 1;
    if k < 2 * n {
      DoubledAt(s[..n], k);
    } else {
      assert k / 2 == n;
    }
  }

  /** Interleaved stereo output for samples taken from the queue. */
  function Stereo(s: seq<i16>, ch: nat): seq<i16> {
    if ch == 1 then Doubled(s) else s
  }

  function Scale(x: i16, pct: nat): i16
    requires pct <= 100
  {
    // C division truncates towards zero
    var v: int := x;
    if 0 <= v then Percent(v, pct) else -Percent(-v, pct)
  }

  function Percent(x: int, pct: nat): (r: int)
    requires pct <= 100 && 0 <= x
    ensures 0 <= r <= x
  {
    assert x * pct <= x * 100;
    x * pct / 100
  }

  function Scaled(s: seq<i16>, pct: nat): (r: seq<i16>)
    requires pct <= 100
    ensures |r| == |s| && forall k :: 0 <= k < |s| ==> r[k] == Scale(s[k], pct)
  {
    seq(|s|, k requires 0 <= k < |s| => Scale(s[k], pct))
  }

  lemma ScaledSilence(st: seq<i16>, n: nat, pct: nat)
    requires pct <= 100
    ensures Scaled(st + Zeros(n), pct) == Scaled(st, pct) + Zeros(n)
  {
  }

  /** What a fill leaves in the output buffer: the frames taken, then silence. */
  function Output(s: seq<i16>, ch: nat, frames: nat, pct: nat): seq<i16>
    requires |Stereo(s, ch)| <= 2 * frames && pct <= 100
  {
    Scaled(Stereo(s, ch), pct) + Zeros(2 * frames - |Stereo(s, ch)|)
  }

  lemma PlacedPair(d: seq<i16>, at: nat, st: seq<i16>, l: i16, r: i16)
    requires at + |st| + 2 <= |d|
    ensures Placed(d, at, st)[at + |st| := l][at + |st| + 1 := r] == Placed(d, at, st + [l, r])
  {
  }

  function FrameSamples(l: i16, r: i16, ch: nat): seq<i16> {
    if ch == 1 then [l] else [l, r]
  }

  lemma StereoAppend(s: seq<i16>, l: i16, r: i16, ch: nat)
    requires ch == 1 ==> l == r
    ensures Stereo(s + FrameSamples(l, r, ch), ch) == Stereo(s, ch) + [l, r]
  {
    if ch == 1 {
      assert (s + [l])[..|s|] == s;
    }
  }

  lemma {:induction false} DoubledConcat(s: seq<i16>, t: seq<i16>)
    ensures Doubled(s + t) == Doubled(s) + Doubled(t)
    decreases |t|
  {
    if t == [] {
      assert s + t == s;
    } else {
      var n := |t| - 1;
      assert (s + t)[..|s + t| - 1] == s + t[..n];
      DoubledConcat(s, t[..n]);
      Assoc(Doubled(s), Doubled(t[..n]), [t[n], t[n]]);
    }
  }

  lemma StereoConcat(s: seq<i16>, t: seq<i16>, ch: nat)
    ensures Stereo(s + t, ch) == Stereo(s, ch) + Stereo(t, ch)
  {
    DoubledConcat(s, t);
  }

  function SampleCount(frames: nat, ch: nat): nat {
    if ch == 1 then frames else 2 * frames
  }

  lemma PlacedZeros(a: seq<i16>, st: seq<i16>, room: nat)
    requires |st| <= room
    ensures Placed(a + Zeros(room), |a|, st) == (a + st) + Zeros(room - |st|)
  {
  }

  lemma FrameAppend(d: seq<i16>, at: nat, had: seq<i16>, l: i16, r: i16, ch: nat)
    requires at + |Stereo(had, ch)| + 2 <= |d| && (ch == 1 ==> l == r)
    ensures var took, i := had + FrameSamples(l, r, ch), at + |Stereo(had, ch)|;
      && |Stereo(took, ch)| == |Stereo(had, ch)| + 2
      && Placed(d, at, Stereo(had, ch))[i := l][i + 1 := r] == Placed(d, at, Stereo(took, ch))
  {
    StereoAppend(had, l, r, ch);
    PlacedPair(d, at, Stereo(had, ch), l, r);
  }

  /** The buffer shows the stereo form of the samples taken, `got` frames, then silence. */
  predicate Shown(d: seq<i16>, took: seq<i16>, ch: nat, frames: nat, got: nat) {
    && got <= frames
    && |Stereo(took, ch)| == 2 * got
    && d == Stereo(took, ch) + Zeros(2 * (frames - got))
  }

  lemma ShownAppend(d: seq<i16>, took: seq<i16>, t: seq<i16>, ch: nat, frames: nat, got: nat, more: nat)
    requires Shown(d, took, ch, frames, got)
    requires got + more <= frames && |Stereo(t, ch)| == 2 * more && |d| == 2 * frames
    ensures Shown(Placed(d, 2 * got, Stereo(t, ch)), took + t, ch, frames, got + more)
  {
    PlacedZeros(Stereo(took, ch), Stereo(t, ch), 2 * (frames - got));
    StereoConcat(took, t, ch);
  }

  lemma ShownCount(d: seq<i16>, took: seq<i16>, ch: nat, frames: nat, got: nat)
    requires Shown(d, took, ch, frames, got) && 1 <= ch <= 2
    ensures |took| == SampleCount(got, ch)
  {
  }

  lemma ShownOutput(d: seq<i16>, took: seq<i16>, ch: nat, frames: nat, got: nat, pct: nat)
    requires Shown(d, took, ch, frames, got) && pct <= 100
    ensures Scaled(d, pct) == Output(took, ch, frames, pct)
  {
    ScaledSilence(Stereo(took, ch), 2 * (frames - got), pct);
  }

  function Zeros(n: nat): seq<i16> {
    seq(n, _ => 0)
  }

  method DecodeBytes(raw: seq<u8>) returns (tmp: seq<i16>)
    ensures tmp == Decode(raw)
  {
    tmp := [];
    while |tmp| < |raw| / 2
      invariant |tmp| <= |raw| / 2
      invariant forall k :: 0 <= k < |tmp| ==> tmp[k] == Sample(raw[2 * k], raw[2 * k + 1])
    {
      tmp := tmp + [Sample(raw[2 * |tmp|], raw[2 * |tmp| + 1])];
    }
  }

  // ---------------------------------------------------------------- chunks

  function Flat(cs: seq<seq<u8>>): seq<u8> {
    if cs == [] then [] else Flat(cs[..|cs| - 1]) + cs[|cs| - 1]
  }

  function DecodeChunks(cs: seq<seq<u8>>): seq<i16> {
    if cs == [] then [] else DecodeChunks(cs[..|cs| - 1]) + Decode(cs[|cs| - 1])
  }

  lemma DecodeChunksAppend(cs: seq<seq<u8>>, c: seq<u8>)
    ensures DecodeChunks(cs + [c]) == DecodeChunks(cs) + Decode(c)
    ensures Flat(cs + [c]) == Flat(cs) + c
  {
    assert (cs + [c])[..|cs|] == cs;
  }

  /** What is left of `n` bytes after `k` chunks. */
  function Left(n: nat, k: nat): nat {
    if CHUNK * k < n then n - CHUNK * k else 0
  }

  /** Every chunk read from a pipe that held `n` bytes was as long as it could be. */
  predicate Chunked(n: nat, read: seq<seq<u8>>) {
    forall k :: 0 <= k < |read| ==> |read[k]| == Min(CHUNK, Left(n, k))
  }

  predicate AllEven(cs: seq<seq<u8>>) {
    forall k :: 0 <= k < |cs| ==> |cs[k]| % 2 == 0
  }

  /** If every chunk is even, decoding the chunks is decoding all their bytes. */
  lemma {:induction false} EvenReadsConserve(cs: seq<seq<u8>>)
    requires AllEven(cs)
    ensures DecodeChunks(cs) == Decode(Flat(cs)) && |Flat(cs)| % 2 == 0
  {
    if cs != [] {
      var c := cs[..|cs| - 1];
      EvenReadsConserve(c);
      DecodeAppend(Flat(c), cs[|cs| - 1]);
    }
  }

  function OddReads(cs: seq<seq<u8>>): nat {
    if cs == [] then 0 else OddReads(cs[..|cs| - 1]) + |cs[|cs| - 1]| % 2
  }

  /** Each odd read loses exactly one byte, so nothing is lost iff every read is even. */
  lemma {:induction false} BytesLost(cs: seq<seq<u8>>)
    ensures |Flat(cs)| == 2 * |DecodeChunks(cs)| + OddReads(cs)
    ensures OddReads(cs) == 0 <==> AllEven(cs)
  {
    if cs != [] {
      var c := cs[..|cs| - 1];
      BytesLost(c);
      assert AllEven(cs) <==> AllEven(c) && |cs[|cs| - 1]| % 2 == 0;
    }
  }

  /** A pipe loses a byte to a series of reads exactly if it held an odd number and was read empty. */
  lemma {:induction false} OddExactly(bytes: seq<u8>, read: seq<seq<u8>>, rest: seq<u8>)
    requires bytes == Flat(read) + rest && Chunked(|bytes|, read)
    ensures OddReads(read) + |rest| % 2 == |bytes| % 2
    ensures |rest| == Left(|bytes|, |read|)
  {
    if read != [] {
      var c, last := read[..|read| - 1], read[|read| - 1];
      Assoc(Flat(c), last, rest);
      OddExactly(bytes, c, last + rest);
      ChunkParity(|bytes|, |c|, |last|, |rest|);
    }
  }

  lemma ChunkParity(n: nat, k: nat, last: nat, rest: nat)
    requires last + rest == Left(n, k) && last == Min(CHUNK, Left(n, k))
    ensures rest == Left(n, k + 1) && last % 2 + rest % 2 == (last + rest) % 2
  {
  }

  // ---------------------------------------------------------------- how many chunks a fill reads

  /** What a fill began with, counted: bytes in the pipe, samples queued, samples wanted. */
  datatype Counts = Counts(n: nat, queued: nat, want: nat)

  /** Samples in the first `k` chunks of `n` bytes. */
  function Samples(n: nat, k: nat): nat {
    Min(n, 256 * k) / 2
  }

  /** A fill reads chunk `k`: the samples before it are not enough, and the chunk before was not a sign that the
      pipe is dry. */
  predicate Wants(c: Counts, k: nat) {
    c.queued + Samples(c.n, k) < c.want && (k == 0 || Left(c.n, k - 1) >= 2)
  }

  /** The number of chunks read: the first that is not wanted, or as many as one call may decode. */
  predicate ReadsExactly(c: Counts, r: nat) {
    && r <= 64
    && (r == 0 || Wants(c, r - 1))
    && (r == 64 || !Wants(c, r))
  }

  lemma {:induction false} WantsBefore(c: Counts, j: nat, k: nat)
    requires j <= k && Wants(c, k)
    ensures Wants(c, j)
    decreases k - j
  {
    if j < k {
      WantsBefore(c, j, k - 1);
    }
  }

  /** As many of the samples as make whole frames. */
  function WholeSamples(n: nat, ch: nat): nat {
    if ch == 1 then n else n - n % 2
  }

  /** The samples delivered after `r` reads: all that are wanted, unless the last read was the end of the pipe or of
      the budget; then what there was before it. */
  function Delivered(c: Counts, r: nat, ch: nat): nat {
    if r > 0 && (r == 64 || Left(c.n, r - 1) < 2) then WholeSamples(c.queued + Samples(c.n, r - 1), ch)
    else c.want
  }

  /** So what was there before the call determines how many chunks are read. */
  lemma ReadsUnique(c: Counts, r: nat, r': nat)
    requires ReadsExactly(c, r) && ReadsExactly(c, r')
    ensures r == r'
  {
    if r < r' {
      WantsBefore(c, r, r' - 1);
    } else if r' < r {
      WantsBefore(c, r', r - 1);
    }
  }

  /** A fill loses a byte: the pipe held an odd number, and queue and whole chunks before the last byte were not
      enough. */
  predicate LosesByte(c: Counts) {
    c.n % 2 == 1 && c.queued + 128 * (c.n / 256) < c.want
  }

  /** The chunk with the odd byte is read if it is wanted; the budget covers a full pipe. */
  lemma OddChunkRead(c: Counts, r: nat)
    requires ReadsExactly(c, r) && c.n <= PIPE_CAP && c.n % 2 == 1
    ensures Left(c.n, r) == 0 <==> LosesByte(c)
  {
    var k := c.n / CHUNK;
    assert k < MAX_DECODES && Samples(c.n, k) == CHUNK / 2 * k && (k == 0 || Left(c.n, k - 1) >= CHUNK);
    if k < r {
      WantsBefore(c, k, r - 1);
    } else if Wants(c, k) {
      WantsBefore(c, r, k);
    }
  }

  lemma LossExactly(bytes: seq<u8>, read: seq<seq<u8>>, rest: seq<u8>, c: Counts)
    requires bytes == Flat(read) + rest && Chunked(|bytes|, read) && |bytes| == c.n <= PIPE_CAP
    requires ReadsExactly(c, |read|)
    ensures OddReads(read) == if LosesByte(c) then 1 else 0
    ensures OddReads(read) + |rest| % 2 == |bytes| % 2
  {
    OddExactly(bytes, read, rest);
    LossByParity(c, |read|, |rest|, OddReads(read));
  }

  lemma LossByParity(c: Counts, r: nat, rest: nat, odd: nat)
    requires ReadsExactly(c, r) && c.n <= PIPE_CAP && rest == Left(c.n, r) && odd + rest % 2 == c.n % 2
    ensures odd == if LosesByte(c) then 1 else 0
  {
    LeftParity(c.n, r);
    if c.n % 2 == 1 {
      OddChunkRead(c, r);
    }
  }

  lemma LeftParity(n: nat, k: nat)
    ensures Left(n, k) == 0 || Left(n, k) % 2 == n % 2
  {
    var half := CHUNK / 2 * k;
    assert CHUNK * k == 2 * half;
  }

  // ---------------------------------------------------------------- the progress of a fill

  /** Where a fill began: the pipe's bytes, the chunks read and the samples delivered before. */
  datatype Start = Start(bytes: seq<u8>, chunks: seq<seq<u8>>, taken: seq<i16>)

  /** Since then `took` was delivered and `read` was read, in chunks as long as they could be. */
  predicate Since(s: Start, bytes: seq<u8>, chunks: seq<seq<u8>>, taken: seq<i16>,
                  took: seq<i16>, read: seq<seq<u8>>) {
    && taken == s.taken + took && chunks == s.chunks + read
    && s.bytes == Flat(read) + bytes
    && Chunked(|s.bytes|, read) && |bytes| == Left(|s.bytes|, |read|)
  }

  lemma SinceTake(s: Start, b: seq<u8>, cs: seq<seq<u8>>, taken: seq<i16>, took: seq<i16>, read: seq<seq<u8>>,
                  t: seq<i16>)
    requires Since(s, b, cs, taken, took, read)
    ensures Since(s, b, cs, taken + t, took + t, read)
  {
    Assoc(s.taken, took, t);
  }

  lemma SinceRead(s: Start, b: seq<u8>, cs: seq<seq<u8>>, taken: seq<i16>, took: seq<i16>, read: seq<seq<u8>>,
                  c: seq<u8>, rest: seq<u8>)
    requires Since(s, b, cs, taken, took, read) && b == c + rest && |c| == Min(CHUNK, |b|)
    ensures Since(s, rest, cs + [c], taken, took, read + [c])
  {
    Assoc(s.chunks, read, [c]);
    DecodeChunksAppend(read, c);
    Assoc(Flat(read), c, rest);
  }

  /** Since then `took` samples were delivered, `queue` are queued and `r` chunks were read, each of them wanted. */
  predicate Counted(c: Counts, took: nat, queue: nat, r: nat) {
    && took + queue == c.queued + Samples(c.n, r)
    && (r == 0 || Wants(c, r - 1))
  }

  /** The last chunk read held no whole sample. */
  predicate Dry(n: nat, r: nat) {
    r > 0 && Left(n, r - 1) < 2
  }

  lemma CountedRead(c: Counts, took: nat, queue: nat, r: nat, chunk: nat)
    requires Counted(c, took, queue, r) && took + queue < c.want && !Dry(c.n, r) && chunk == Min(CHUNK, Left(c.n, r))
    ensures Counted(c, took, queue + chunk / 2, r + 1) && (Dry(c.n, r + 1) <==> chunk < 2)
  {
    MoreSamples(c.n, r, chunk);
  }

  /** Between two rounds of a fill, in numbers: `got` of `frames` frames are done. */
  predicate Midway(c: Counts, ch: nat, frames: nat, got: nat, took: nat, queue: nat, r: nat, guard: nat, dry: bool) {
    && 1 <= ch <= 2 && got <= frames && guard <= MAX_DECODES && c.want == SampleCount(frames, ch)
    && took == SampleCount(got, ch) && Counted(c, took, queue, r) && (dry <==> Dry(c.n, r))
    && (if got < frames then r == guard else r < MAX_DECODES && !dry)
    && (got < frames && r > 0 ==> took <= c.queued + Samples(c.n, r - 1) < took + ch)
  }

  /** A round took samples from the queue and read a chunk if frames were still missing. */
  lemma MidwayStep(c: Counts, ch: nat, frames: nat, at: nat, had: nat, hadQueue: nat, r: nat, guard: nat,
                   got: nat, took: nat, queue: nat, chunk: nat)
    requires Midway(c, ch, frames, at, had, hadQueue, r, guard, false) && at < frames && guard < MAX_DECODES
    requires at <= got <= frames && took == SampleCount(got, ch) && took + queue == had + hadQueue
    requires got < frames ==> queue < ch && chunk == Min(CHUNK, Left(c.n, r))
    ensures if got < frames then Midway(c, ch, frames, got, took, queue + chunk / 2, r + 1, guard + 1, chunk < 2)
      else Midway(c, ch, frames, got, took, queue, r, guard + 1, false)
  {
    if got < frames {
      CountedRead(c, took, queue, r, chunk);
    }
  }

  /** When a fill ends, the numbers tell how many chunks it read and how many samples it delivered. */
  lemma MidwayEnds(c: Counts, ch: nat, frames: nat, got: nat, took: nat, queue: nat, r: nat, guard: nat, dry: bool)
    requires Midway(c, ch, frames, got, took, queue, r, guard, dry)
    requires got == frames || guard == MAX_DECODES || dry
    ensures ReadsExactly(c, r) && took == Delivered(c, r, ch)
  {
  }

  /** What a fill comes to in numbers, all of it determined by what there was before: the chunks read, the samples
      delivered and queued, and whether a byte was lost. */
  predicate FillAccount(c: Counts, ch: nat, took: nat, queue: nat, read: seq<seq<u8>>) {
    && ReadsExactly(c, |read|) && took == Delivered(c, |read|, ch)
    && took + queue == c.queued + Samples(c.n, |read|)
    && OddReads(read) == if LosesByte(c) then 1 else 0
  }

  lemma MoreSamples(n: nat, k: nat, c: nat)
    requires c == Min(CHUNK, Left(n, k))
    ensures Samples(n, k + 1) == Samples(n, k) + c / 2
  {
    var half := CHUNK / 2 * k;
    SamplesHalf(n, k, half);
    SamplesHalf(n, k + 1, half + CHUNK / 2);
  }

  lemma SamplesHalf(n: nat, k: nat, half: nat)
    requires half == CHUNK / 2 * k
    ensures Samples(n, k) == if 2 * half <= n then half else n / 2
    ensures Left(n, k) == if 2 * half < n then n - 2 * half else 0
  {
    assert CHUNK * k == 2 * half;
  }

  class Engine {
    const q: Buffer<i16>
    const channels: nat
    var volume: nat
    var underruns: nat
    // History: the chunks read from the pipe, and the samples handed to the output.
    ghost var chunks: seq<seq<u8>>
    ghost var taken: seq<i16>

    ghost predicate Valid()
      reads this, q, q.data
    {
      && q.Valid() && q.data.Length == QMAX
      && (channels == 1 || channels == 2) && volume <= 100
      && |q.items| <= 1 + CHUNK / 2
      && DecodeChunks(chunks) == taken + q.items
    }

    constructor (channels: u8, volume: nat)
      requires volume <= 100
      ensures Valid() && fresh(q) && fresh(q.data) && chunks == [] && taken == []
    {
      var data := new i16[QMAX](_ => 0);
      q := new Buffer(data);
      underruns := 0;
      this.channels := if channels == 1 then 1 else 2;
      this.volume := volume;
      chunks, taken := [], [];
    }

    /** Stores samples until the queue is full; none overwrites an unread one while the queue
        stays within QSAFE or its counters do not wrap. */
    method QPush(pcm: seq<i16>)
      requires q.Valid() && q.data.Length == QMAX
      modifies q`wr, q`items, q.data
      ensures q.Valid()
      ensures |q.items| == Min(4608, |old(q.items)| + |pcm|)
      ensures |old(q.items)| + |pcm| <= QSAFE || q.rd + |q.items| <= U32_MOD
              ==> q.items == old(q.items) + pcm[..|q.items| - |old(q.items)|]
      ensures |old(q.items)| + |pcm| <= QSAFE ==> q.items == old(q.items) + pcm
    {
      QsafeIsTheRemainder();
      var i := 0;
      ghost var used := |q.items|;
      ghost var room := Min(QMAX, used + |pcm|) - used;
      ghost var ordered := used + |pcm| <= QSAFE || q.rd + used + room <= U32_MOD;
      while i < |pcm|
        invariant 0 <= i <= room
        invariant q.Valid() && |q.items| == used + i
        invariant ordered ==> q.items == old(q.items) + pcm[..i]
        decreases |pcm| - i
      {
        if q.Used() >= QMAX {
          break;
        }
        q.Put(pcm[i]);
        i := i + 1;
      }
    }

    /** Takes one frame off the queue, of which `had` was taken before. */
    method TakeFrame(ghost all: seq<i16>, ghost had: seq<i16>) returns (l: i16, r: i16)
      requires q.Valid() && 1 <= channels <= 2 && channels <= |q.items| && all == had + q.items
      modifies q`rd, q`items
      ensures q.Valid()
      ensures channels == 1 ==> l == r
      ensures all == (had + FrameSamples(l, r, channels)) + q.items
    {
      l := q.Take();
      r := l;
      if channels != 1 {
        r := q.Take();
        Assoc([l], [r], q.items);
        assert [l] + [r] == FrameSamples(l, r, channels);
      }
      Assoc(had, FrameSamples(l, r, channels), q.items);
    }

    /** Moves one frame from the queue into `dst`, behind the `got` frames moved before. */
    method MoveFrame(dst: array<i16>, at: nat, got: nat, ghost d0: seq<i16>, ghost all: seq<i16>, ghost had: seq<i16>)
      returns (ghost took: seq<i16>)
      requires q.Valid() && 1 <= channels <= 2 && channels <= |q.items| && all == had + q.items
      requires dst != q.data && 2 * (at + got + 1) <= dst.Length == |d0|
      requires |had| == SampleCount(got, channels) && |Stereo(had, channels)| == 2 * got
      requires dst[..] == Placed(d0, 2 * at, Stereo(had, channels))
      modifies q`rd, q`items, dst
      ensures q.Valid() && all == took + q.items
      ensures |took| == SampleCount(got + 1, channels) && |Stereo(took, channels)| == 2 * (got + 1)
      ensures dst[..] == Placed(d0, 2 * at, Stereo(took, channels))
    {
      var l, r := TakeFrame(all, had);
      took := had + FrameSamples(l, r, channels);
      PutPair(dst, 2 * (at + got), l, r);
      FrameAppend(d0, 2 * at, had, l, r, channels);
    }

    /** Moves whole frames from the queue into `dst`, starting at frame `at`. */
    method QPopStereo(dst: array<i16>, at: nat, frames: nat) returns (got: nat, ghost took: seq<i16>)
      requires q.Valid() && 1 <= channels <= 2 && dst != q.data && 2 * (at + frames) <= dst.Length
      modifies q`rd, q`items, dst
      ensures q.Valid()
      ensures got <= frames && (got < frames ==> |q.items| < channels)
      ensures old(q.items) == took + q.items && |took| == SampleCount(got, channels)
      ensures |Stereo(took, channels)| == 2 * got
      ensures dst[..] == Placed(old(dst[..]), 2 * at, Stereo(took, channels))
    {
      got, took := 0, [];
      ghost var d0, all := dst[..], q.items;
      while got < frames
        invariant 0 <= got <= frames
        invariant q.Valid()
        invariant all == took + q.items && |took| == SampleCount(got, channels)
        invariant |Stereo(took, channels)| == 2 * got
        invariant dst[..] == Placed(d0, 2 * at, Stereo(took, channels))
      {
        if q.Used() < channels {
          break;
        }
        took := MoveFrame(dst, at, got, d0, all, took);
        got := got + 1;
      }
    }

    /** Reads one chunk of bytes and queues its samples; nothing is dropped. */
    method DecodePcm(pipe: Pipe) returns (ghost chunk: seq<u8>)
      requires q.Valid() && q.data.Length == QMAX && pipe.Valid()
      requires pipe.ring as object != q && pipe.ring.data as object != q.data
      requires |q.items| <= 1
      modifies q`wr, q`items, q.data, pipe, pipe.ring
      ensures q.Valid() && pipe.Valid()
      ensures |chunk| == Min(CHUNK, |old(pipe.bytes)|)
      ensures old(pipe.bytes) == chunk + pipe.bytes
      ensures q.items == old(q.items) + Decode(chunk)
    {
      var raw := pipe.Pop(CHUNK);
      chunk := raw;
      var tmp := DecodeBytes(raw);
      QPush(tmp);
    }

    /** Decodes one chunk; `dry` says that it held no whole sample, so the pipe is empty. */
    method Refill(pipe: Pipe) returns (dry: bool, ghost chunk: seq<u8>)
      requires Valid() && pipe.Valid() && |q.items| <= 1
      requires pipe.ring as object != q && pipe.ring.data as object != q.data
      modifies this`chunks, q, q.data, pipe, pipe.ring
      ensures Valid() && pipe.Valid()
      ensures chunks == old(chunks) + [chunk] && |chunk| == Min(CHUNK, |old(pipe.bytes)|)
      ensures old(pipe.bytes) == chunk + pipe.bytes
      ensures |q.items| == |old(q.items)| + |chunk| / 2 && (dry <==> |chunk| < 2)
    {
      ghost var left := q.items;
      var before := q.Used();
      chunk := DecodePcm(pipe);
      assert DecodeChunks(chunks + [chunk]) == taken + q.items by {
        DecodeChunksAppend(chunks, chunk);
        Assoc(taken, left, Decode(chunk));
      }
      chunks := chunks + [chunk];
      dry := q.Used() == before;
    }

    /** Takes queued frames and records them as delivered. */
    method TakeQueued(dst: array<i16>, at: nat, frames: nat) returns (got: nat, ghost took: seq<i16>)
      requires Valid() && dst != q.data && 2 * (at + frames) <= dst.Length
      modifies q`rd, q`items, this`taken, dst
      ensures Valid() && taken == old(taken) + took && |q.items| == |old(q.items)| - |took|
      ensures got <= frames && (got < frames ==> |q.items| < channels)
      ensures |took| == SampleCount(got, channels) && |Stereo(took, channels)| == 2 * got
      ensures dst[..] == Placed(old(dst[..]), 2 * at, Stereo(took, channels))
    {
      ghost var had := taken;
      got, took := QPopStereo(dst, at, frames);
      taken := had + took;
      Assoc(had, took, q.items);
    }

    /** What a fill of this many frames begins with. */
    ghost function AtHand(pipe: Pipe, frames: nat): Counts
      reads this, q, pipe
    {
      Counts(|pipe.bytes|, |q.items|, SampleCount(frames, channels))
    }

    ghost predicate SinceStart(s: Start, pipe: Pipe, took: seq<i16>, read: seq<seq<u8>>)
      reads this, pipe
    {
      Since(s, pipe.bytes, chunks, taken, took, read)
    }

    /** Takes queued frames and shows them behind the first `at` frames. */
    method TakeShown(dst: array<i16>, at: nat, frames: nat, pipe: Pipe,
                     ghost s: Start, ghost had: seq<i16>, ghost read: seq<seq<u8>>)
      returns (got: nat, ghost took: seq<i16>)
      requires Valid() && pipe.Valid() && Apart(pipe, dst) && at < frames && dst.Length == 2 * frames
      requires SinceStart(s, pipe, had, read) && Shown(dst[..], had, channels, frames, at)
      modifies q`rd, q`items, this`taken, dst
      ensures Valid() && pipe.Valid() && got <= frames && (got < frames ==> |q.items| < channels)
      ensures SinceStart(s, pipe, took, read) && Shown(dst[..], took, channels, frames, got)
      ensures at <= got && |took| == SampleCount(got, channels) && |took| + |q.items| == |had| + |old(q.items)|
    {
      ghost var before, base := dst[..], taken;
      var take;
      take, took := TakeQueued(dst, at, frames - at);
      SinceTake(s, pipe.bytes, chunks, base, had, read, took);
      ShownAppend(before, had, took, channels, frames, at, take);
      took, got := had + took, at + take;
      ShownCount(dst[..], took, channels, frames, got);
    }

    ghost predicate MidwayNow(n: Counts, frames: nat, got: nat, took: nat, r: nat, guard: nat, dry: bool)
      reads this, q
    {
      Midway(n, channels, frames, got, took, |q.items|, r, guard, dry)
    }

    /** One round of the fill loop, `at` frames being done: take what is queued, then decode a chunk if more is
        wanted. */
    method FillRound(dst: array<i16>, at: nat, frames: nat, pipe: Pipe, ghost guard: nat,
                     ghost s: Start, ghost n: Counts, ghost had: seq<i16>, ghost hadRead: seq<seq<u8>>)
      returns (got: nat, dry: bool, ghost took: seq<i16>, ghost read: seq<seq<u8>>)
      requires Valid() && pipe.Valid() && Apart(pipe, dst) && at < frames && dst.Length == 2 * frames
      requires SinceStart(s, pipe, had, hadRead) && Shown(dst[..], had, channels, frames, at) && n.n == |s.bytes|
      requires MidwayNow(n, frames, at, |had|, |hadRead|, guard, false) && guard < MAX_DECODES
      modifies this`chunks, this`taken, q, q.data, dst, pipe, pipe.ring
      ensures Valid() && pipe.Valid() && got <= frames
      ensures SinceStart(s, pipe, took, read) && Shown(dst[..], took, channels, frames, got)
      ensures MidwayNow(n, frames, got, |took|, |read|, guard + 1, dry)
    {
      ghost var hadQueue := |q.items|;
      got, took := TakeShown(dst, at, frames, pipe, s, had, hadRead);
      ghost var queue := |q.items|;
      read, dry := hadRead, false;
      ghost var c := [];
      if got < frames {
        dry, read, c := ReadMore(pipe, s, took, hadRead);
      }
      MidwayStep(n, channels, frames, at, |had|, hadQueue, |hadRead|, guard, got, |took|, queue, |c|);
    }

    /** Decodes one chunk more. */
    method ReadMore(pipe: Pipe, ghost s: Start, ghost took: seq<i16>, ghost had: seq<seq<u8>>)
      returns (dry: bool, ghost read: seq<seq<u8>>, ghost c: seq<u8>)
      requires Valid() && pipe.Valid() && |q.items| <= 1
      requires pipe.ring as object != q && pipe.ring.data as object != q.data
      requires SinceStart(s, pipe, took, had)
      modifies this`chunks, q, q.data, pipe, pipe.ring
      ensures Valid() && pipe.Valid() && SinceStart(s, pipe, took, read) && read == had + [c]
      ensures |c| == Min(CHUNK, Left(|s.bytes|, |had|))
      ensures |q.items| == |old(q.items)| + |c| / 2 && (dry <==> |c| < 2)
    {
      ghost var b, cs := pipe.bytes, chunks;
      dry, c := Refill(pipe);
      SinceRead(s, b, cs, taken, took, had, c, pipe.bytes);
      read := had + [c];
    }

    predicate Apart(pipe: Pipe, dst: array<i16>) {
      && pipe.ring as object != q && pipe.ring.data as object != q.data
      && dst != q.data && dst as object != pipe.ring.data
    }

    /** The fill loop: alternates taking frames and decoding chunks. */
    method FillLoop(dst: array<i16>, frames: nat, pipe: Pipe)
      returns (got: nat, ghost took: seq<i16>, ghost read: seq<seq<u8>>)
      requires Valid() && pipe.Valid() && Apart(pipe, dst)
      requires dst[..] == Zeros(2 * frames)
      modifies this`chunks, this`taken, q, q.data, dst, pipe, pipe.ring
      ensures Valid() && pipe.Valid()
      ensures taken == old(taken) + took
      ensures chunks == old(chunks) + read && Chunked(|old(pipe.bytes)|, read)
      ensures old(pipe.bytes) == Flat(read) + pipe.bytes
      ensures FillAccount(old(AtHand(pipe, frames)), channels, |took|, |q.items|, read)
      ensures OddReads(read) + |pipe.bytes| % 2 == |old(pipe.bytes)| % 2
      ensures Shown(dst[..], took, channels, frames, got)
      ensures got < frames ==> pipe.bytes == [] || |read| == MAX_DECODES
    {
      took, read := [], [];
      var guard, dry;
      got, guard, dry := 0, 0, false;
      ghost var s, n := Start(pipe.bytes, chunks, taken), AtHand(pipe, frames);
      while got < frames && guard < MAX_DECODES && !dry
        invariant 0 <= got <= frames && 0 <= guard <= MAX_DECODES
        invariant Valid() && pipe.Valid()
        invariant MidwayNow(n, frames, got, |took|, |read|, guard, dry)
        invariant SinceStart(s, pipe, took, read)
        invariant Shown(dst[..], took, channels, frames, got)
        decreases MAX_DECODES - guard
      {
        got, dry, took, read := FillRound(dst, got, frames, pipe, guard, s, n, took, read);
        guard := guard + 1;
      }
      MidwayEnds(n, channels, frames, got, |took|, |q.items|, |read|, guard, dry);
      LossExactly(s.bytes, read, pipe.bytes, n);
    }

    /** Fills `frames` stereo frames from the queue and the pipe. */
    method Fill(dst: array<i16>, frames: nat, pipe: Pipe) returns (ghost took: seq<i16>, ghost read: seq<seq<u8>>)
      requires Valid() && pipe.Valid() && Apart(pipe, dst)
      requires dst.Length == 2 * frames && 0 < frames
      modifies this`chunks, this`taken, this`underruns, q, q.data, dst, pipe, pipe.ring
      ensures Valid() && pipe.Valid()
      ensures taken == old(taken) + took
      ensures chunks == old(chunks) + read && Chunked(|old(pipe.bytes)|, read)
      ensures old(pipe.bytes) == Flat(read) + pipe.bytes
      ensures FillAccount(old(AtHand(pipe, frames)), channels, |took|, |q.items|, read)
      ensures OddReads(read) + |pipe.bytes| % 2 == |old(pipe.bytes)| % 2
      ensures |Stereo(took, channels)| <= 2 * frames && dst[..] == Output(took, channels, frames, volume)
      ensures underruns == old(underruns) + if |Stereo(took, channels)| < 2 * frames then 1 else 0
      // an underrun means the pipe ran dry, or the decode budget of one call was used up
      ensures underruns != old(underruns) ==> pipe.bytes == [] || |read| == 64
    {
      Silence(dst);
      assert AtHand(pipe, frames) == old(AtHand(pipe, frames));
      var got;
      got, took, read := FillLoop(dst, frames, pipe);
      Finish(dst, frames, got, took);
    }

    /** Counts an underrun if frames are missing, and applies the volume. */
    method Finish(dst: array<i16>, frames: nat, got: nat, ghost took: seq<i16>)
      requires Valid() && dst != q.data && Shown(dst[..], took, channels, frames, got)
      modifies this`underruns, dst
      ensures Valid() && |Stereo(took, channels)| == 2 * got <= 2 * frames
      ensures dst[..] == Output(took, channels, frames, volume)
      ensures underruns == old(underruns) + if got < frames then 1 else 0
    {
      if got < frames {
        underruns := underruns + 1;
      }
      ShownOutput(dst[..], took, channels, frames, got, volume);
      ApplyVolume(dst, volume);
    }
  }

  method PutPair(dst: array<i16>, i: nat, l: i16, r: i16)
    requires i + 1 < dst.Length
    modifies dst
    ensures dst[..] == old(dst[..])[i := l][i + 1 := r]
  {
    dst[i] := l;
    dst[i + 1] := r;
  }

  method Silence(dst: array<i16>)
    modifies dst
    ensures dst[..] == Zeros(dst.Length)
  {
    forall k | 0 <= k < dst.Length {
      dst[k] := 0;
    }
  }

  method ApplyVolume(pcm: array<i16>, pct: nat)
    requires pct <= 100
    modifies pcm
    ensures pcm[..] == Scaled(old(pcm[..]), pct)
  {
    var i := 0;
    while i < pcm.Length
      invariant 0 <= i <= pcm.Length
      invariant forall k :: 0 <= k < i ==> pcm[k] == Scale(old(pcm[k]), pct)
      invariant forall k :: i <= k < pcm.Length ==> pcm[k] == old(pcm[k])
    {
      pcm[i] := Scale(pcm[i], pct);
      i := i + 1;
    }
  }
}
