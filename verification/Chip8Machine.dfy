/** The CHIP-8 interpreter as a machine on values: one function per family of instructions. */
module Chip8Machine {
  import opened Machine

  const MEM_N := 4096
  const ROM_BASE := 0x200
  const ROM_MAX := 3584
  const FONT_BASE := 0x50
  const FB_W := 64
  const FB_H := 32
  const FB_N := 2048
  const STEPS_PER_FRAME := 20
  const FRAME_MS := 16
  const TICK_MAX := 32

  type bit = x: int | 0 <= x <= 1

  // `steps` is history: the number of instruction slots run so far.
  datatype Cpu = Cpu(
    mem: seq<u8>, fb: seq<bit>, v: seq<u8>, key: seq<bit>, stack: seq<u16>,
    pc: u16, i: u16, sp: nat, dt: u8, st: u8, seed: u32, acc: nat, steps: nat)

  /** Every access the instructions make is inside these bounds. */
  predicate Safe(s: Cpu) {
    |s.mem| == MEM_N && |s.fb| == FB_N && |s.v| == 16 && |s.key| == 16 && |s.stack| == 16 && s.sp <= 16
  }

  function Blank(): Cpu {
    Cpu(seq(MEM_N, _ => 0), seq(FB_N, _ => 0), seq(16, _ => 0), seq(16, _ => 0), seq(16, _ => 0),
        0, 0, 0, 0, 0, 1, 0, 0)
  }

  /** The states of the interpreter. That every instruction maps them to themselves is its safety. */
  type SafeCpu = s: Cpu | Safe(s) witness Blank()

  // ---------------------------------------------------------------- bytes

  function And8(a: u8, b: u8): u8 {
    ((a as bv8) & (b as bv8)) as int
  }

  function Or8(a: u8, b: u8): u8 {
    ((a as bv8) | (b as bv8)) as int
  }

  function Xor8(a: u8, b: u8): u8 {
    ((a as bv8) ^ (b as bv8)) as int
  }

  function Logic(n: nat, a: u8, b: u8): u8 {
    if n == 0 then b else if n == 1 then Or8(a, b) else if n == 2 then And8(a, b) else Xor8(a, b)
  }

  function Flag(b: bool): u8 {
    if b then 1 else 0
  }

  function Carry(a: nat, b: nat): u8 {
    Flag(a + b > 255)
  }

  /** Whether bit `col` of a byte is set, counting from the most significant one. */
  predicate Bit(b: nat, col: nat)
    requires col < 8
    decreases 7 - col
  {
    if col == 7 then b % 2 == 1 else Bit(b / 2, col + 1)
  }

  // ---------------------------------------------------------------- instructions

  function Clear(s: SafeCpu): (r: SafeCpu) {
    s.(fb := seq(FB_N, _ => 0))
  }

  function Return(s: SafeCpu): (r: SafeCpu) {
    if s.sp == 0 then s else s.(sp := s.sp - 1, pc := s.stack[s.sp - 1])
  }

  /** A call with a full stack jumps without remembering where from. */
  function Call(s: SafeCpu, to: u16): (r: SafeCpu) {
    if s.sp < 16 then s.(stack := s.stack[s.sp := s.pc], sp := s.sp + 1, pc := to) else s.(pc := to)
  }

  function Skip(s: SafeCpu, c: bool): (r: SafeCpu) {
    if c then s.(pc := (s.pc + 2) % U16_MOD) else s
  }

  /** The flag is written before the result, so a result in register 15 replaces it, and an operand
      there is read after it. */
  function Alu(v: seq<u8>, n: nat, x: nat, y: nat): (r: seq<u8>)
    requires |v| == 16 && x < 16 && y < 16
    ensures |r| == 16
  {
    if n < 4 then v[x := Logic(n, v[x], v[y])]
    else if n == 4 then v[15 := Carry(v[x], v[y])][x := (v[x] + v[y]) % U8_MOD]
    else if n == 5 then var w := v[15 := Flag(v[x] >= v[y])]; w[x := (w[x] - w[y]) % U8_MOD]
    else if n == 6 then var w := v[15 := v[x] % 2]; w[x := w[x] / 2]
    else if n == 7 then var w := v[15 := Flag(v[y] >= v[x])]; w[x := (w[y] - w[x]) % U8_MOD]
    else if n == 14 then var w := v[15 := v[x] / 128]; w[x := (w[x] * 2) % U8_MOD]
    else v
  }

  function NextSeed(seed: u32): u32 {
    (seed * 1664525 + 1013904223) % U32_MOD
  }

  function Random(s: SafeCpu, x: nat, kk: u8): (r: SafeCpu)
    requires x < 16
  {
    var seed := NextSeed(s.seed);
    s.(seed := seed, v := s.v[x := And8((seed / 0x1_0000) % U8_MOD, kk)])
  }

  // ---------------------------------------------------------------- sprites

  /** Column and row of pixel `p` relative to a sprite at (px, py), around the edges. */
  function Dx(p: nat, px: nat): (d: nat)
    requires px < 64
    ensures d < 64
  {
    (p % 64 + 64 - px) % 64
  }

  function Dy(p: nat, py: nat): (d: nat)
    requires p < 2048 && py < 32
    ensures d < 32
  {
    (p / 64 + 32 - py) % 32
  }

  /** Whether the sprite of `n` rows at `i` has a dot here; rows beyond memory are missing. */
  predicate Dot(mem: seq<u8>, i: nat, n: nat, dx: nat, dy: nat) {
    dx < 8 && dy < n && i + dy < |mem| && Bit(mem[i + dy], dx)
  }

  predicate Covers(mem: seq<u8>, i: nat, n: nat, px: nat, py: nat, p: nat)
    requires px < 64 && py < 32 && p < 2048
  {
    Dot(mem, i, n, Dx(p, px), Dy(p, py))
  }

  function Flip(b: bit): bit {
    1 - b
  }

  function Drawn(fb: seq<bit>, mem: seq<u8>, i: nat, n: nat, px: nat, py: nat): (r: seq<bit>)
    requires |fb| == FB_N && px < 64 && py < 32
    ensures |r| == |fb|
  {
    seq(|fb|, p requires 0 <= p < |fb| && |fb| == FB_N && px < 64 && py < 32 =>
      if Covers(mem, i, n, px, py, p) then Flip(fb[p]) else fb[p])
  }

  /** Some lit pixel is under the sprite. */
  predicate Hits(fb: seq<bit>, mem: seq<u8>, i: nat, n: nat, px: nat, py: nat)
    requires |fb| == FB_N && px < 64 && py < 32
  {
    exists p :: 0 <= p < FB_N && fb[p] != 0 && Covers(mem, i, n, px, py, p)
  }

  function Draw(s: SafeCpu, x: nat, y: nat, n: nat): (r: SafeCpu)
    requires x < 16 && y < 16
  {
    var px, py := s.v[x] % FB_W, s.v[y] % FB_H;
    s.(fb := Drawn(s.fb, s.mem, s.i, n, px, py), v := s.v[15 := Flag(Hits(s.fb, s.mem, s.i, n, px, py))])
  }

  // ---------------------------------------------------------------- memory and timers

  function FirstKey(key: seq<bit>): (k: nat)
    ensures k <= |key|
    ensures k < |key| ==> key[k] != 0
    ensures forall j :: 0 <= j < k ==> key[j] == 0
  {
    if key == [] || key[0] != 0 then 0 else 1 + FirstKey(key[1..])
  }

  /** Waiting for a key is running the same instruction again. */
  function WaitKey(s: SafeCpu, x: nat): (r: SafeCpu)
    requires x < 16
  {
    var k := FirstKey(s.key);
    if k < 16 then s.(v := s.v[x := k]) else s.(pc := (s.pc - 2) % U16_MOD)
  }

  function Decimal(s: SafeCpu, x: nat): (r: SafeCpu)
    requires x < 16
  {
    var a := s.v[x];
    if s.i + 2 < MEM_N
    then s.(mem := s.mem[s.i := a / 100][s.i + 1 := a / 10 % 10][s.i + 2 := a % 10])
    else s
  }

  /** Memory with the first `n` registers written to it from `i` on, as far as it reaches. */
  function Stored(mem: seq<u8>, v: seq<u8>, i: nat, n: nat): (r: seq<u8>)
    requires n <= |v|
    ensures |r| == |mem|
    ensures forall a :: 0 <= a < |mem| ==> r[a] == if i <= a < i + n then v[a - i] else mem[a]
  {
    seq(|mem|, a requires 0 <= a < |mem| && n <= |v| => if i <= a < i + n then v[a - i] else mem[a])
  }

  /** The registers with the first `n` of them read from `i` on, as far as memory reaches. */
  function Fetched(v: seq<u8>, mem: seq<u8>, i: nat, n: nat): (r: seq<u8>)
    requires n <= |v|
    ensures |r| == |v|
    ensures forall k :: 0 <= k < |v| ==> r[k] == if k < n && i + k < |mem| then mem[i + k] else v[k]
  {
    seq(|v|, k requires 0 <= k < |v| => if k < n && i + k < |mem| then mem[i + k] else v[k])
  }

  function Store(s: SafeCpu, x: nat): (r: SafeCpu)
    requires x < 16
  {
    s.(mem := Stored(s.mem, s.v, s.i, x + 1), i := (s.i + x + 1) % U16_MOD)
  }

  function Fetch(s: SafeCpu, x: nat): (r: SafeCpu)
    requires x < 16
  {
    s.(v := Fetched(s.v, s.mem, s.i, x + 1), i := (s.i + x + 1) % U16_MOD)
  }

  function Misc(s: SafeCpu, x: nat, kk: u8): (r: SafeCpu)
    requires x < 16
  {
    if kk == 0x07 then s.(v := s.v[x := s.dt])
    else if kk == 0x0A then WaitKey(s, x)
    else if kk == 0x15 then s.(dt := s.v[x])
    else if kk == 0x18 then s.(st := s.v[x])
    else if kk == 0x1E then s.(i := (s.i + s.v[x]) % U16_MOD)
    else if kk == 0x29 then s.(i := FONT_BASE + s.v[x] % 16 * 5)
    else if kk == 0x33 then Decimal(s, x)
    else if kk == 0x55 then Store(s, x)
    else if kk == 0x65 then Fetch(s, x)
    else s
  }

  // ---------------------------------------------------------------- one step

  /** Jumps, calls, returns and skips, and the screen clear. */
  function Flow(s: SafeCpu, f: nat, x: nat, y: nat, n: nat): (r: SafeCpu)
    requires x < 16 && y < 16 && n < 16
  {
    var kk := 16 * y + n;
    var nnn := 256 * x + kk;
    if f == 0 then (if nnn == 0x0E0 then Clear(s) else if nnn == 0x0EE then Return(s) else s)
    else if f == 1 then s.(pc := nnn)
    else if f == 2 then Call(s, nnn)
    else if f == 3 then Skip(s, s.v[x] == kk)
    else if f == 4 then Skip(s, s.v[x] != kk)
    else if f == 5 then Skip(s, n == 0 && s.v[x] == s.v[y])
    else if f == 9 then Skip(s, n == 0 && s.v[x] != s.v[y])
    else if f == 11 then s.(pc := nnn + s.v[0])
    else if f == 14 then
      var down := s.key[s.v[x] % 16] != 0;
      Skip(s, (kk == 0x9E && down) || (kk == 0xA1 && !down))
    else s
  }

  function Set(s: SafeCpu, f: nat, x: nat, y: nat, n: nat): (r: SafeCpu)
    requires x < 16 && y < 16 && n < 16
  {
    var kk := 16 * y + n;
    if f == 6 then s.(v := s.v[x := kk])
    else if f == 7 then s.(v := s.v[x := (s.v[x] + kk) % U8_MOD])
    else if f == 8 then s.(v := Alu(s.v, n, x, y))
    else if f == 10 then s.(i := 256 * x + kk)
    else if f == 12 then Random(s, x, kk)
    else if f == 13 then Draw(s, x, y, n)
    else if f == 15 then Misc(s, x, kk)
    else s
  }

  predicate IsSet(f: nat) {
    f == 6 || f == 7 || f == 8 || f == 10 || f == 12 || f == 13 || f == 15
  }

  function Exec(s: SafeCpu, f: nat, x: nat, y: nat, n: nat): (r: SafeCpu)
    requires x < 16 && y < 16 && n < 16
  {
    if IsSet(f) then Set(s, f, x, y, n) else Flow(s, f, x, y, n)
  }

  /** Outside memory there is nothing to run. */
  predicate Halted(s: SafeCpu) {
    s.pc + 1 >= MEM_N
  }

  function Step(s: SafeCpu): (r: SafeCpu) {
    var s1 := s.(steps := s.steps + 1);
    if Halted(s) then s1
    else
      var hi, lo := s.mem[s.pc], s.mem[s.pc + 1];
      Exec(s1.(pc := s.pc + 2), hi / 16, hi % 16, lo / 16, lo % 16)
  }

  lemma StepIs(s: SafeCpu)
    requires !Halted(s)
    ensures var hi, lo := s.mem[s.pc], s.mem[s.pc + 1];
      Step(s) == Exec(s.(steps := s.steps + 1).(pc := s.pc + 2), hi / 16, hi % 16, lo / 16, lo % 16)
  {
  }

  /** An instruction takes one step and touches neither the keys nor the time saved up. */
  lemma StepCounts(s: SafeCpu)
    ensures Step(s).acc == s.acc && Step(s).steps == s.steps + 1 && Step(s).key == s.key
  {
  }
}
