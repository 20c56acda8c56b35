/** The CHIP-8 interpreter over whole runs of cartridges, keys and clock ticks. */
module Chip8Runs {
  import opened Machine
  import opened Chip8Machine

  function Steps(s: SafeCpu, n: nat): (r: SafeCpu)
    ensures r.acc == s.acc && r.steps == s.steps + n && r.key == s.key
    decreases n
  {
    StepCounts(s);
    if n == 0 then s else Steps(Step(s), n - 1)
  }

  lemma StepsFirst(s: SafeCpu, n: nat)
    requires 0 < n
    ensures Steps(s, n) == Steps(Step(s), n - 1)
  {
  }

  function Down(t: u8): u8 {
    if t > 0 then t - 1 else 0
  }

  function CountedDown(s: SafeCpu): (r: SafeCpu)
    requires s.acc >= FRAME_MS
    ensures r.acc == s.acc - FRAME_MS && r.steps == s.steps && r.key == s.key
  {
    s.(acc := s.acc - FRAME_MS, dt := Down(s.dt), st := Down(s.st))
  }

  /** One sixtieth of a second: the timers count down, then the instructions run. */
  function Frame(s: SafeCpu, steps: nat): (r: SafeCpu)
    requires s.acc >= FRAME_MS
    ensures r.acc == s.acc - FRAME_MS && r.steps == s.steps + steps && r.key == s.key
  {
    Steps(CountedDown(s), steps)
  }

  /** As many frames as the time saved up allows. */
  function Frames(s: SafeCpu, steps: nat): (r: SafeCpu)
    ensures r.acc == s.acc % FRAME_MS && r.steps == s.steps + steps * (s.acc / FRAME_MS)
    decreases s.acc
  {
    if s.acc < FRAME_MS then s
    else
      var s1 := Frame(s, steps);
      Split(s.acc, steps);
      Frames(s1, steps)
  }

  lemma Split(acc: nat, steps: nat)
    requires acc >= FRAME_MS
    ensures steps * (acc / FRAME_MS) == steps + steps * ((acc - FRAME_MS) / FRAME_MS)
  {
    var q := (acc - FRAME_MS) / FRAME_MS;
    assert acc / FRAME_MS == q + 1;
    assert steps * (q + 1) == steps + steps * q;
  }

  function Clip(ms: nat): nat {
    if ms > TICK_MAX then TICK_MAX else ms
  }

  function Saved(s: SafeCpu, ms: nat): (r: SafeCpu) {
    s.(acc := s.acc + Clip(ms))
  }

  function TickCpu(s: SafeCpu, ms: nat, steps: nat): (r: SafeCpu) {
    if ms == 0 then s else Frames(Saved(s, ms), steps)
  }

  function PressKey(s: SafeCpu, k: Option<nat>): (r: SafeCpu)
    requires (k.Some? ==> k.value < 16)
  {
    var up := seq(16, _ => 0 as bit);
    s.(key := if k.Some? then up[k.value := 1] else up)
  }

  const FONT: seq<u8> := [
    0xF0, 0x90, 0x90, 0x90, 0xF0, 0x20, 0x60, 0x20, 0x20, 0x70, 0xF0, 0x10, 0xF0, 0x80, 0xF0, 0xF0,
    0x10, 0xF0, 0x10, 0xF0, 0x90, 0x90, 0xF0, 0x10, 0x10, 0xF0, 0x80, 0xF0, 0x10, 0xF0, 0xF0, 0x80,
    0xF0, 0x90, 0xF0, 0xF0, 0x10, 0x20, 0x40, 0x40, 0xF0, 0x90, 0xF0, 0x90, 0xF0, 0xF0, 0x90, 0xF0,
    0x10, 0xF0, 0xF0, 0x90, 0xF0, 0x90, 0x90, 0xE0, 0x90, 0xE0, 0x90, 0xE0, 0xF0, 0x80, 0x80, 0x80,
    0xF0, 0xE0, 0x90, 0x90, 0x90, 0xE0, 0xF0, 0x80, 0xF0, 0x80, 0xF0, 0xF0, 0x80, 0xF0, 0x80, 0x80]

  function ImageAt(rom: seq<u8>, a: nat): u8 {
    if FONT_BASE <= a < FONT_BASE + |FONT| then FONT[a - FONT_BASE]
    else if ROM_BASE <= a < ROM_BASE + |rom| then rom[a - ROM_BASE] else 0
  }

  /** Memory holding the font, a cartridge, and zeros. */
  function Image(rom: seq<u8>): (r: seq<u8>)
    requires |rom| <= ROM_MAX
    ensures |r| == MEM_N
    ensures forall a :: 0 <= a < MEM_N ==> r[a] == ImageAt(rom, a)
  {
    seq(MEM_N, a requires 0 <= a < MEM_N => ImageAt(rom, a))
  }

  function Reset(s: SafeCpu): (r: SafeCpu) {
    Cpu(Image([]), seq(FB_N, _ => 0), seq(16, _ => 0), seq(16, _ => 0), seq(16, _ => 0),
        ROM_BASE, 0, 0, 0, 0, s.seed, 0, s.steps)
  }

  function LoadRom(s: SafeCpu, rom: seq<u8>): (r: SafeCpu) {
    if 0 < |rom| <= ROM_MAX then Reset(s).(mem := Image(rom)) else s
  }
}
