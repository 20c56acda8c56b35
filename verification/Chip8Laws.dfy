/** What holds of the interpreter over whole runs, for every cartridge. */
module Chip8Laws {
  import opened Machine
  import opened Chip8Machine
  import opened Chip8Runs

  // ---------------------------------------------------------------- time

  /** What the console does to the interpreter while a cartridge is in. */
  datatype Input = Tick(ms: u32) | Keys(down: Option<nat>)

  predicate Fits(e: Input) {
    e.Keys? && e.down.Some? ==> e.down.value < 16
  }

  function Play(s: SafeCpu, e: Input, steps: nat): (r: SafeCpu)
    requires Fits(e)
  {
    match e
    case Tick(ms) => TickCpu(s, ms, steps)
    case Keys(down) => PressKey(s, down)
  }

  function PlayAll(s: SafeCpu, es: seq<Input>, steps: nat): (r: SafeCpu)
    requires forall k :: 0 <= k < |es| ==> Fits(es[k])
    decreases |es|
  {
    if es == [] then s else PlayAll(Play(s, es[0], steps), es[1..], steps)
  }

  /** Milliseconds that count, no tick for more than 32. */
  function Counted(e: Input): nat {
    match e
    case Tick(ms) => if ms > 32 then 32 else ms
    case Keys(_) => 0
  }

  function Played(es: seq<Input>): nat {
    if es == [] then 0 else Counted(es[0]) + Played(es[1..])
  }

  /** Over every run the instructions executed are a fixed number for each whole 16 milliseconds of the time played,
      no matter how the time was cut into ticks; the rest of the time is kept for the next tick. */
  lemma {:induction false} TimeLaw(s: SafeCpu, es: seq<Input>, steps: nat)
    requires s.acc < 16 && forall k :: 0 <= k < |es| ==> Fits(es[k])
    ensures var r, total := PlayAll(s, es, steps), s.acc + Played(es);
      r.steps == s.steps + steps * (total / 16) && r.acc == total % 16
    decreases |es|
  {
    if es != [] {
      var s1 := Play(s, es[0], steps);
      PlayOne(s, es[0], steps);
      TimeLaw(s1, es[1..], steps);
      FramesAdd(s.acc + Counted(es[0]), Played(es[1..]), steps);
    }
  }

  lemma PlayOne(s: SafeCpu, e: Input, steps: nat)
    requires s.acc < FRAME_MS && Fits(e)
    ensures var r, a := Play(s, e, steps), s.acc + Counted(e);
      r.steps == s.steps + steps * (a / FRAME_MS) && r.acc == a % FRAME_MS
  {
  }

  lemma FramesAdd(a: nat, b: nat, steps: nat)
    ensures steps * (a / FRAME_MS) + steps * ((a % FRAME_MS + b) / FRAME_MS) == steps * ((a + b) / FRAME_MS)
    ensures (a % FRAME_MS + b) % FRAME_MS == (a + b) % FRAME_MS
  {
    var q, c := a / FRAME_MS, (a % FRAME_MS + b) / FRAME_MS;
    assert (a + b) / FRAME_MS == q + c;
    assert steps * (q + c) == steps * q + steps * c;
  }

  function Less(t: u8, n: nat): u8 {
    if t < n then 0 else t - n
  }

  lemma {:induction false} FramesHalted(s: SafeCpu, steps: nat)
    requires Halted(s)
    ensures Frames(s, steps) ==
      s.(acc := s.acc % 16, steps := s.steps + steps * (s.acc / 16),
         dt := Less(s.dt, s.acc / 16), st := Less(s.st, s.acc / 16))
    decreases s.acc
  {
    if 16 <= s.acc {
      var s1 := CountedDown(s);
      HaltedForever(s1, steps);
      FramesHalted(Frame(s, steps), steps);
      Split(s.acc, steps);
    }
  }

  /** Over every run both timers count down by one for each whole 16 milliseconds of the time played, to zero; shown
      where no instruction sets them, when there is nothing to run. */
  lemma {:induction false} TimersCountDown(s: SafeCpu, es: seq<Input>, steps: nat)
    requires Halted(s) && s.acc < 16 && forall k :: 0 <= k < |es| ==> Fits(es[k])
    ensures var r, frames := PlayAll(s, es, steps), (s.acc + Played(es)) / 16;
      && r.dt == (if s.dt < frames then 0 else s.dt - frames) && r.st == (if s.st < frames then 0 else s.st - frames)
      && r == s.(dt := r.dt, st := r.st, acc := r.acc, steps := r.steps, key := r.key)
    decreases |es|
  {
    if es != [] {
      var s1 := Play(s, es[0], steps);
      PlayHalted(s, es[0], steps);
      TimersCountDown(s1, es[1..], steps);
      FramesAdd(s.acc + Counted(es[0]), Played(es[1..]), 1);
    }
  }

  lemma PlayHalted(s: SafeCpu, e: Input, steps: nat)
    requires Halted(s) && s.acc < 16 && Fits(e)
    ensures var r, a := Play(s, e, steps), s.acc + Counted(e);
      r == s.(acc := a % 16, steps := r.steps, dt := Less(s.dt, a / 16), st := Less(s.st, a / 16), key := r.key)
  {
    if e.Tick? && e.ms != 0 {
      FramesHalted(Saved(s, e.ms), steps);
    }
  }

  /** A cartridge is loaded at 0x200 and the digits' pictures at 0x50, memory and screen are otherwise clear, and the
      program starts; a cartridge that is empty or longer than 3584 bytes is refused. */
  lemma LoadIs(s: SafeCpu, rom: seq<u8>)
    ensures !(0 < |rom| <= 3584) ==> LoadRom(s, rom) == s
    ensures 0 < |rom| <= 3584 ==>
      var r := LoadRom(s, rom);
      && (r.pc, r.sp, r.i, r.dt, r.st, r.acc) == (0x200, 0, 0, 0, 0, 0) && r.seed == s.seed && |FONT| == 80
      && (forall k :: 0 <= k < |rom| ==> r.mem[0x200 + k] == rom[k])
      && (forall k :: 0 <= k < 80 ==> r.mem[0x50 + k] == FONT[k])
      && (forall a :: 0 <= a < 4096 && !(0x50 <= a < 0xA0) && !(0x200 <= a < 0x200 + |rom|) ==> r.mem[a] == 0)
      && (forall k :: 0 <= k < 16 ==> r.v[k] == 0 && r.key[k] == 0)
      && forall p :: 0 <= p < 2048 ==> r.fb[p] == 0
  {
  }

  /** A key is down exactly if it is the one pressed. */
  lemma PressIs(s: SafeCpu, down: Option<nat>)
    requires down.Some? ==> down.value < 16
    ensures var r := PressKey(s, down);
      r == s.(key := r.key) && forall j :: 0 <= j < 16 ==> (r.key[j] == 1 <==> down == Some(j))
  {
  }

  // ---------------------------------------------------------------- stopping and waiting

  /** A program counter outside memory never comes back. */
  lemma {:induction false} HaltedForever(s: SafeCpu, n: nat)
    requires Halted(s)
    ensures Steps(s, n) == s.(steps := s.steps + n)
    decreases n
  {
    if 0 < n {
      HaltedForever(Step(s), n - 1);
    }
  }

  predicate WaitsForKey(s: SafeCpu) {
    !Halted(s) && s.mem[s.pc] / 16 == 15 && s.mem[s.pc + 1] == 0x0A && forall k :: 0 <= k < 16 ==> s.key[k] == 0
  }

  /** Waiting for a key changes nothing, for as long as no key is down. */
  lemma {:induction false} WaitingHolds(s: SafeCpu, n: nat)
    requires WaitsForKey(s)
    ensures Steps(s, n) == s.(steps := s.steps + n)
    decreases n
  {
    if 0 < n {
      var s1 := Step(s);
      assert FirstKey(s.key) == 16;
      assert s1 == s.(steps := s.steps + 1);
      WaitingHolds(s1, n - 1);
    }
  }

  // ---------------------------------------------------------------- calls

  /** An instruction keeps the return addresses below its own and the new stack level. */
  lemma StepKeepsStack(s: SafeCpu, k: nat)
    requires k < s.sp && k < Step(s).sp
    ensures Step(s).stack[k] == s.stack[k]
  {
  }

  /** Running `n` instructions without ever returning below level `d` keeps the return addresses below it. */
  lemma {:induction false} StepsKeepStack(s: SafeCpu, n: nat, d: nat, k: nat)
    requires k < d && forall j :: 0 <= j <= n ==> d <= Steps(s, j).sp
    ensures Steps(s, n).stack[k] == s.stack[k]
    decreases n
  {
    assert Steps(s, 0) == s;
    if 0 < n {
      var s1 := Step(s);
      assert Steps(s, 1) == s1 by {
        assert Steps(s1, 0) == s1;
      }
      StepKeepsStack(s, k);
      forall j | 0 <= j <= n - 1
        ensures d <= Steps(s1, j).sp
      {
        assert Steps(s, j + 1) == Steps(s1, j);
      }
      StepsKeepStack(s1, n - 1, d, k);
    }
  }

  /** Whatever a subroutine does, if it comes to its return at the level it started on, it returns to
      the instruction after the call. */
  lemma CallReturns(s: SafeCpu, to: u16, n: nat)
    requires s.sp < 16
    requires forall j :: 0 <= j <= n ==> s.sp < Steps(Call(s, to), j).sp
    requires Steps(Call(s, to), n).sp == s.sp + 1
    ensures var r := Return(Steps(Call(s, to), n)); r.pc == s.pc && r.sp == s.sp
  {
    StepsKeepStack(Call(s, to), n, s.sp + 1, s.sp);
  }

  /** A call directly followed by its return comes back on the same level exactly when the stack had room. */
  lemma CallReturnExactly(s: SafeCpu, to: u16)
    ensures Return(Call(s, to)).sp == s.sp <==> s.sp < 16
    ensures s.sp < 16 ==> Return(Call(s, to)).pc == s.pc
  {
  }

  // ---------------------------------------------------------------- arithmetic and memory

  function ResultOf(v: seq<u8>, n: nat, x: nat, y: nat): int
    requires |v| == 16 && x < 16 && y < 16
  {
    Alu(v, n, x, y)[x]
  }

  function FlagOf(v: seq<u8>, n: nat, x: nat, y: nat): int
    requires |v| == 16 && x < 16 && y < 16
  {
    Alu(v, n, x, y)[15]
  }

  /** Flag and result together hold the exact sum, unless the sum replaces its own flag; then only by chance. */
  lemma FlagCompletesSum(v: seq<u8>, x: nat, y: nat)
    requires |v| == 16 && x < 16 && y < 16
    ensures 256 * FlagOf(v, 4, x, y) + ResultOf(v, 4, x, y) == v[x] as int + v[y] <==>
      x < 15 || v[15] as int + v[y] == 0 || v[15] as int + v[y] == 257
  {
  }

  /** And the exact difference, unless an operand is read from the flag register or the result replaces the flag. */
  lemma FlagCompletesDifference(v: seq<u8>, x: nat, y: nat)
    requires |v| == 16 && x < 16 && y < 16
    ensures ResultOf(v, 5, x, y) - 256 * (1 - FlagOf(v, 5, x, y)) == v[x] as int - v[y] <==>
      if x == 15 then y < 15 && v[15] == 1 && v[y] == 0
      else y < 15 || (v[15] == 1 && 1 <= v[x])
    ensures ResultOf(v, 7, x, y) - 256 * (1 - FlagOf(v, 7, x, y)) == v[y] as int - v[x] <==>
      if x == 15 then y < 15 && v[15] == 1 && v[y] == 2
      else y < 15 || (v[15] == 1 && v[x] <= 1) || (v[15] == 0 && 0 < v[x])
  {
    FlagCompletesForward(v, x, y);
    FlagCompletesBackward(v, x, y);
  }

  lemma FlagCompletesForward(v: seq<u8>, x: nat, y: nat)
    requires |v| == 16 && x < 16 && y < 16
    ensures ResultOf(v, 5, x, y) - 256 * (1 - FlagOf(v, 5, x, y)) == v[x] as int - v[y] <==>
      if x == 15 then y < 15 && v[15] == 1 && v[y] == 0
      else y < 15 || (v[15] == 1 && 1 <= v[x])
  {
  }

  lemma FlagCompletesBackward(v: seq<u8>, x: nat, y: nat)
    requires |v| == 16 && x < 16 && y < 16
    ensures ResultOf(v, 7, x, y) - 256 * (1 - FlagOf(v, 7, x, y)) == v[y] as int - v[x] <==>
      if x == 15 then y < 15 && v[15] == 1 && v[y] == 2
      else y < 15 || (v[15] == 1 && v[x] <= 1) || (v[15] == 0 && 0 < v[x])
  {
  }

  /** And the number before a shift, unless the flag register is shifted; zero comes through all the same. */
  lemma FlagCompletesShift(v: seq<u8>, x: nat, y: nat)
    requires |v| == 16 && x < 16 && y < 16
    ensures 2 * ResultOf(v, 6, x, y) + FlagOf(v, 6, x, y) == v[x] <==> x < 15 || v[15] == 0
    ensures ResultOf(v, 14, x, y) + 256 * FlagOf(v, 14, x, y) == 2 * (v[x] as int) <==> x < 15 || v[15] == 0
  {
    if x < 15 {
      ShiftedOut(v[x]);
    } else {
      var right, left := v[15] % 2, v[15] / 128;
      assert v[15 := right][15 := right / 2] == Alu(v, 6, x, y) && right / 2 == 0;
      assert v[15 := left][15 := left * 2 % U8_MOD] == Alu(v, 14, x, y) && left * 2 % U8_MOD == 2 * left;
    }
  }

  lemma ShiftedOut(b: u8)
    ensures 2 * (b / 2) + b % 2 == b && b * 2 % U8_MOD + 256 * (b / 128) == 2 * (b as int)
  {
  }

  /** The three digits stored are the decimal digits of the register. */
  lemma DecimalDigits(s: SafeCpu, x: nat)
    requires x < 16 && s.i + 2 < MEM_N
    ensures var m := Decimal(s, x).mem;
      && m[s.i] < 10 && m[s.i + 1] < 10 && m[s.i + 2] < 10
      && 100 * m[s.i] + 10 * m[s.i + 1] + m[s.i + 2] == s.v[x]
  {
  }

  /** Registers stored and fetched again from the same address come back, whatever the registers held in
      between, as far as memory reaches; the others keep what they held. */
  lemma StoreThenFetch(s: SafeCpu, x: nat, w: seq<u8>)
    requires x < 16 && |w| == 16
    ensures var r := Fetch(Store(s, x).(i := s.i, v := w), x);
      forall k :: 0 <= k < 16 ==> r.v[k] == if k <= x && s.i + k < MEM_N then s.v[k] else w[k]
  {
  }
}
