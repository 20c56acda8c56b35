/** Every instruction of the interpreter, from the two bytes it is made of: what it changes, and that it changes nothing
    else. */
module Chip8Steps {
  import opened Machine
  import opened Chip8Machine
  import opened Chip8Sprites

  /** The instruction at the program counter, first byte high. */
  predicate Opcode(s: SafeCpu, w: nat) {
    s.pc < 4095 && 256 * (s.mem[s.pc] as nat) + s.mem[s.pc + 1] as nat == w
  }

  /** On to the instruction `d` bytes further. */
  function Next(s: SafeCpu, d: nat): (r: SafeCpu)
    requires s.pc < 4095 && d <= 4
  {
    s.(pc := s.pc + d, steps := s.steps + 1)
  }

  lemma Decodes(s: SafeCpu, f: nat, x: nat, y: nat, n: nat)
    requires f < 16 && x < 16 && y < 16 && n < 16 && Opcode(s, 0x1000 * f + 0x100 * x + 0x10 * y + n)
    ensures Step(s) == Exec(Next(s, 2), f, x, y, n)
  {
    Digits(s.mem[s.pc], s.mem[s.pc + 1], f, x, y, n);
    StepIs(s);
  }

  lemma Digits(hi: u8, lo: u8, f: nat, x: nat, y: nat, n: nat)
    requires f < 16 && x < 16 && y < 16 && n < 16
    requires 256 * (hi as nat) + lo as nat == 0x1000 * f + 0x100 * x + 0x10 * y + n
    ensures hi / 16 == f && hi % 16 == x && lo / 16 == y && lo % 16 == n
  {
    assert hi == 16 * f + x && lo == 16 * y + n;
  }

  lemma DecodesByte(s: SafeCpu, f: nat, x: nat, kk: nat)
    requires f < 16 && x < 16 && kk < 256 && Opcode(s, 0x1000 * f + 0x100 * x + kk)
    ensures Step(s) == Exec(Next(s, 2), f, x, kk / 16, kk % 16)
  {
    Decodes(s, f, x, kk / 16, kk % 16);
  }

  // ---------------------------------------------------------------- where it goes on

  /** 3xkk and 4xkk compare a register with a byte. */
  lemma SkipsIfEqual(s: SafeCpu, x: nat, kk: nat)
    requires x < 16 && kk < 256 && Opcode(s, 0x3000 + 0x100 * x + kk)
    ensures Step(s) == Next(s, if s.v[x] == kk then 4 else 2)
  {
    DecodesByte(s, 3, x, kk);
    assert 16 * (kk / 16) + kk % 16 == kk;
  }

  lemma SkipsUnlessEqual(s: SafeCpu, x: nat, kk: nat)
    requires x < 16 && kk < 256 && Opcode(s, 0x4000 + 0x100 * x + kk)
    ensures Step(s) == Next(s, if s.v[x] == kk then 2 else 4)
  {
    DecodesByte(s, 4, x, kk);
    assert 16 * (kk / 16) + kk % 16 == kk;
  }

  /** 5xy0 and 9xy0 compare two registers. */
  lemma ComparesRegisters(s: SafeCpu, x: nat, y: nat)
    requires x < 16 && y < 16
    ensures Opcode(s, 0x5000 + 0x100 * x + 0x10 * y) ==> Step(s) == Next(s, if s.v[x] == s.v[y] then 4 else 2)
    ensures Opcode(s, 0x9000 + 0x100 * x + 0x10 * y) ==> Step(s) == Next(s, if s.v[x] == s.v[y] then 2 else 4)
  {
    if Opcode(s, 0x5000 + 0x100 * x + 0x10 * y) {
      Decodes(s, 5, x, y, 0);
    }
    if Opcode(s, 0x9000 + 0x100 * x + 0x10 * y) {
      Decodes(s, 9, x, y, 0);
    }
  }

  /** Ex9E and ExA1 look at the key whose number is in a register. */
  lemma LooksAtKeys(s: SafeCpu, x: nat)
    requires x < 16
    ensures Opcode(s, 0xE09E + 0x100 * x) ==> Step(s) == Next(s, if s.key[s.v[x] % 16] == 1 then 4 else 2)
    ensures Opcode(s, 0xE0A1 + 0x100 * x) ==> Step(s) == Next(s, if s.key[s.v[x] % 16] == 1 then 2 else 4)
  {
    if Opcode(s, 0xE09E + 0x100 * x) {
      DecodesByte(s, 14, x, 0x9E);
    }
    if Opcode(s, 0xE0A1 + 0x100 * x) {
      DecodesByte(s, 14, x, 0xA1);
    }
  }

  /** 1nnn and Bnnn jump, 2nnn calls and 00EE returns; 00E0 clears the screen. */
  lemma Jumps(s: SafeCpu, a: nat)
    requires a < 4096
    ensures Opcode(s, 0x1000 + a) ==> Step(s) == Next(s, 0).(pc := a)
    ensures Opcode(s, 0xB000 + a) ==> Step(s) == Next(s, 0).(pc := a + s.v[0])
    ensures Opcode(s, 0x2000 + a) ==>
      Step(s) == if s.sp < 16 then Next(s, 0).(pc := a, stack := s.stack[s.sp := s.pc + 2], sp := s.sp + 1)
                 else Next(s, 0).(pc := a)
    ensures Opcode(s, 0x00EE) ==>
      Step(s) == if s.sp == 0 then Next(s, 2) else Next(s, 0).(pc := s.stack[s.sp - 1], sp := s.sp - 1)
  {
    var x, kk := a / 256, a % 256;
    if Opcode(s, 0x1000 + a) {
      DecodesByte(s, 1, x, kk);
    }
    if Opcode(s, 0xB000 + a) {
      DecodesByte(s, 11, x, kk);
    }
    if Opcode(s, 0x2000 + a) {
      DecodesByte(s, 2, x, kk);
    }
    if Opcode(s, 0x00EE) {
      DecodesByte(s, 0, 0, 0xEE);
    }
  }

  lemma Clears(s: SafeCpu)
    requires Opcode(s, 0x00E0)
    ensures Step(s) == Next(s, 2).(fb := Step(s).fb) && forall p :: 0 <= p < 2048 ==> Step(s).fb[p] == 0
  {
    DecodesByte(s, 0, 0, 0xE0);
  }

  // ---------------------------------------------------------------- registers

  /** 6xkk loads and 7xkk adds a byte, Annn loads the address register. */
  lemma Loads(s: SafeCpu, x: nat, kk: nat, a: nat)
    requires x < 16 && kk < 256 && a < 4096
    ensures Opcode(s, 0x6000 + 0x100 * x + kk) ==> Step(s) == Next(s, 2).(v := s.v[x := kk])
    ensures Opcode(s, 0x7000 + 0x100 * x + kk) ==> Step(s) == Next(s, 2).(v := s.v[x := (s.v[x] as int + kk) % 256])
    ensures Opcode(s, 0xA000 + a) ==> Step(s) == Next(s, 2).(i := a)
  {
    if Opcode(s, 0x6000 + 0x100 * x + kk) {
      DecodesByte(s, 6, x, kk);
    }
    if Opcode(s, 0x7000 + 0x100 * x + kk) {
      DecodesByte(s, 7, x, kk);
    }
    if Opcode(s, 0xA000 + a) {
      DecodesByte(s, 10, a / 256, a % 256);
    }
  }

  /** The registers after an 8xyn. */
  lemma AluStep(s: SafeCpu, x: nat, y: nat, n: nat)
    requires x < 16 && y < 16 && n < 16 && Opcode(s, 0x8000 + 0x100 * x + 0x10 * y + n)
    ensures Step(s) == Next(s, 2).(v := Alu(s.v, n, x, y))
  {
    Decodes(s, 8, x, y, n);
  }

  /** `c` is `b`, or `a` and `b` combined bit by bit. */
  predicate Combined(n: nat, a: u8, b: u8, c: u8) {
    var p, q := a as bv8, b as bv8;
    c as bv8 == if n == 0 then q else if n == 1 then p | q else if n == 2 then p & q else p ^ q
  }

  /** 8xy0 to 8xy3 copy a register into another, or combine the two. */
  lemma Combines(s: SafeCpu, x: nat, y: nat, n: nat)
    requires x < 16 && y < 16 && n < 4 && Opcode(s, 0x8000 + 0x100 * x + 0x10 * y + n)
    ensures Step(s) == Next(s, 2).(v := s.v[x := Step(s).v[x]]) && Combined(n, s.v[x], s.v[y], Step(s).v[x])
  {
    AluStep(s, x, y, n);
    var c := Logic(n, s.v[x], s.v[y]);
    LogicIs(n, s.v[x], s.v[y], c);
    assert Step(s).v[x] == c;
  }

  lemma LogicIs(n: nat, a: u8, b: u8, c: u8)
    requires n < 4 && c == Logic(n, a, b)
    ensures Combined(n, a, b, c)
  {
  }

  /** 8xy4 adds, 8xy5 and 8xy7 subtract, 8xy6 and 8xyE shift. The flag is set before the result is computed. */
  lemma Calculates(s: SafeCpu, x: nat, y: nat, n: nat)
    requires x < 16 && y < 16 && 4 <= n < 16 && Opcode(s, 0x8000 + 0x100 * x + 0x10 * y + n)
    ensures var a: int, b: int, r := s.v[x], s.v[y], Step(s);
      && (n == 4 ==> r == Next(s, 2).(v := s.v[15 := if 255 < a + b then 1 else 0][x := (a + b) % 256]))
      && (n == 5 ==>
            var w := s.v[15 := if b <= a then 1 else 0];
            r == Next(s, 2).(v := w[x := (w[x] as int - w[y] as int) % 256]))
      && (n == 7 ==>
            var w := s.v[15 := if a <= b then 1 else 0];
            r == Next(s, 2).(v := w[x := (w[y] as int - w[x] as int) % 256]))
      && (n == 6 ==> var w := s.v[15 := a % 2]; r == Next(s, 2).(v := w[x := w[x] / 2]))
      && (n == 14 ==> var w := s.v[15 := a / 128]; r == Next(s, 2).(v := w[x := 2 * (w[x] as int) % 256]))
      && (n !in {4, 5, 6, 7, 14} ==> r == Next(s, 2))
  {
    AluStep(s, x, y, n);
  }

  /** Cxkk draws the next number of the generator and keeps some of its bits. */
  lemma Draws(s: SafeCpu, x: nat, kk: nat)
    requires x < 16 && kk < 256 && Opcode(s, 0xC000 + 0x100 * x + kk)
    ensures var seed := (s.seed * 1664525 + 1013904223) % 0x1_0000_0000;
      && Step(s) == Next(s, 2).(seed := seed, v := s.v[x := Step(s).v[x]])
      && Step(s).v[x] as bv8 == (seed / 0x1_0000 % 256) as bv8 & kk as bv8
  {
    DecodesByte(s, 12, x, kk);
  }

  // ---------------------------------------------------------------- sprites

  /** Whether a byte has a dot in this column. */
  predicate HasDot(b: nat, col: nat) {
    match col
    case 0 => b / 128 % 2 == 1
    case 1 => b / 64 % 2 == 1
    case 2 => b / 32 % 2 == 1
    case 3 => b / 16 % 2 == 1
    case 4 => b / 8 % 2 == 1
    case 5 => b / 4 % 2 == 1
    case 6 => b / 2 % 2 == 1
    case 7 => b % 2 == 1
    case _ => false
  }

  lemma {:induction false} BitIsDot(b: nat, col: nat)
    requires col < 8
    ensures Bit(b, col) <==> HasDot(b, col)
    decreases 8 - col
  {
    if col < 7 {
      BitIsDot(b / 2, col + 1);
      DotOfHalf(b, col);
    }
  }

  lemma DotOfHalf(b: nat, col: nat)
    requires col < 7
    ensures HasDot(b / 2, col + 1) <==> HasDot(b, col)
  {
  }

  /** The dot in this column and row of the sprite at the address register lands on this pixel. */
  predicate Lands(s: SafeCpu, x: nat, y: nat, n: nat, col: nat, row: nat, p: nat)
    requires x < 16 && y < 16
  {
    && col < 8 && row < n && s.i + row < 4096 && HasDot(s.mem[s.i + row], col)
    && p % 64 == (s.v[x] as int + col) % 64 && p / 64 == (s.v[y] as int + row) % 32
  }

  lemma LandsExactly(s: SafeCpu, x: nat, y: nat, n: nat, p: nat)
    requires x < 16 && y < 16 && n < 16 && p < 2048
    ensures Covers(s.mem, s.i, n, s.v[x] % 64, s.v[y] % 32, p) <==>
      exists col, row :: Lands(s, x, y, n, col, row, p)
  {
    var px, py := s.v[x] % 64, s.v[y] % 32;
    if Covers(s.mem, s.i, n, px, py, p) {
      LandsAs(s, x, y, n, Dx(p, px), Dy(p, py), p);
    }
    if col, row :| Lands(s, x, y, n, col, row, p) {
      LandsAs(s, x, y, n, col, row, p);
    }
  }

  lemma LandsAs(s: SafeCpu, x: nat, y: nat, n: nat, col: nat, row: nat, p: nat)
    requires x < 16 && y < 16 && n < 16 && p < 2048
    ensures Lands(s, x, y, n, col, row, p) <==>
      && Dot(s.mem, s.i, n, col, row) && Dx(p, s.v[x] % 64) == col && Dy(p, s.v[y] % 32) == row
  {
    if col < 8 && row < n && s.i + row < 4096 {
      LandsAt(s.v[x], s.v[y], col, row, p);
      AtInverts(s.v[x] % 64, s.v[y] % 32, col, row, p);
      BitIsDot(s.mem[s.i + row], col);
    }
  }

  lemma LandsAt(vx: nat, vy: nat, col: nat, row: nat, p: nat)
    requires p < 2048
    ensures At(vx % 64, vy % 32, col, row) == p <==> p % 64 == (vx + col) % 64 && p / 64 == (vy + row) % 32
  {
  }

  /** Dxyn turns over the pixels under its dots and says whether one of them was lit. */
  lemma DrawsSprite(s: SafeCpu, x: nat, y: nat, n: nat)
    requires x < 16 && y < 16 && n < 16 && Opcode(s, 0xD000 + 0x100 * x + 0x10 * y + n)
    ensures Step(s) == Next(s, 2).(fb := Step(s).fb, v := s.v[15 := Step(s).v[15]])
    ensures forall p :: 0 <= p < 2048 ==>
      Step(s).fb[p] == if exists col, row :: Lands(s, x, y, n, col, row, p) then 1 - s.fb[p] else s.fb[p]
    ensures Step(s).v[15] ==
      if exists p, col, row :: 0 <= p < 2048 && s.fb[p] == 1 && Lands(s, x, y, n, col, row, p) then 1 else 0
  {
    Decodes(s, 13, x, y, n);
    forall p | 0 <= p < 2048
      ensures Covers(s.mem, s.i, n, s.v[x] % 64, s.v[y] % 32, p) <==> exists col, row :: Lands(s, x, y, n, col, row, p)
    {
      LandsExactly(s, x, y, n, p);
    }
  }

  // ---------------------------------------------------------------- memory, timers and keys

  /** Fx07 reads the delay timer, Fx15 and Fx18 set the timers, Fx1E adds to the address register and Fx29 points it
      at a digit's picture. */
  lemma Moves(s: SafeCpu, x: nat, kk: nat)
    requires x < 16 && kk in {0x07, 0x15, 0x18, 0x1E, 0x29} && Opcode(s, 0xF000 + 0x100 * x + kk)
    ensures Step(s) ==
      if kk == 0x07 then Next(s, 2).(v := s.v[x := s.dt])
      else if kk == 0x15 then Next(s, 2).(dt := s.v[x])
      else if kk == 0x18 then Next(s, 2).(st := s.v[x])
      else if kk == 0x1E then Next(s, 2).(i := (s.i + s.v[x]) % 0x1_0000)
      else Next(s, 2).(i := 0x50 + 5 * (s.v[x] % 16))
  {
    DecodesByte(s, 15, x, kk);
  }

  /** Fx0A loads the lowest key that is down, and is run again while there is none. */
  lemma WaitsForAKey(s: SafeCpu, x: nat, k: nat)
    requires x < 16 && Opcode(s, 0xF00A + 0x100 * x) && k <= 16
    requires (forall j :: 0 <= j < k ==> s.key[j] == 0) && (k < 16 ==> s.key[k] == 1)
    ensures Step(s) == if k < 16 then Next(s, 2).(v := s.v[x := k]) else Next(s, 0)
  {
    DecodesByte(s, 15, x, 0x0A);
    assert FirstKey(s.key) == k;
  }

  /** Fx33 stores the decimal digits of a register, if there is memory for all three. */
  lemma StoresDigits(s: SafeCpu, x: nat)
    requires x < 16 && Opcode(s, 0xF033 + 0x100 * x)
    ensures Step(s) == Next(s, 2).(mem := Step(s).mem)
    ensures forall a :: 0 <= a < 4096 && !(s.i + 2 < 4096 && s.i <= a <= s.i + 2) ==> Step(s).mem[a] == s.mem[a]
    ensures s.i + 2 < 4096 ==>
      var m := Step(s).mem;
      var high: int, middle: int, low: int := m[s.i], m[s.i + 1], m[s.i + 2];
      high < 10 && middle < 10 && low < 10 && 100 * high + 10 * middle + low == s.v[x]
  {
    MiscStep(s, x, 0x33);
    if s.i + 2 < 4096 {
      ThreeDigits(s.mem, s.i, s.v[x]);
    }
  }

  lemma MiscStep(s: SafeCpu, x: nat, kk: nat)
    requires x < 16 && kk < 256 && Opcode(s, 0xF000 + 0x100 * x + kk)
    ensures Step(s) == Misc(Next(s, 2), x, kk)
  {
    DecodesByte(s, 15, x, kk);
  }

  lemma ThreeDigits(mem: seq<u8>, i: nat, a: u8)
    requires i + 2 < |mem|
    ensures var m := mem[i := a / 100][i + 1 := a / 10 % 10][i + 2 := a % 10];
      var high: int, middle: int, low: int := m[i], m[i + 1], m[i + 2];
      high < 10 && middle < 10 && low < 10 && 100 * high + 10 * middle + low == a
  {
  }

  /** Fx55 stores the registers up to a given one, as far as memory reaches. */
  lemma Stores(s: SafeCpu, x: nat)
    requires x < 16 && Opcode(s, 0xF055 + 0x100 * x)
    ensures Step(s) == Next(s, 2).(mem := Step(s).mem, i := (s.i + x + 1) % 0x1_0000)
    ensures forall a :: 0 <= a < 4096 ==> Step(s).mem[a] == if s.i <= a <= s.i + x then s.v[a - s.i] else s.mem[a]
  {
    MiscStep(s, x, 0x55);
    assert Step(s).mem == Stored(s.mem, s.v, s.i, x + 1);
  }

  /** Fx65 loads them. */
  lemma Fetches(s: SafeCpu, x: nat)
    requires x < 16 && Opcode(s, 0xF065 + 0x100 * x)
    ensures Step(s) == Next(s, 2).(v := Step(s).v, i := (s.i + x + 1) % 0x1_0000)
    ensures forall k :: 0 <= k < 16 ==> Step(s).v[k] == if k <= x && s.i + k < 4096 then s.mem[s.i + k] else s.v[k]
  {
    MiscStep(s, x, 0x65);
  }

  /** Which first digits, second digits and second bytes make an instruction. */
  predicate Known(f: nat, x: nat, kk: nat) {
    match f
    case 0 => x == 0 && (kk == 0xE0 || kk == 0xEE)
    case 5 => kk % 16 == 0
    case 8 => kk % 16 <= 7 || kk % 16 == 14
    case 9 => kk % 16 == 0
    case 14 => kk == 0x9E || kk == 0xA1
    case 15 => kk in {0x07, 0x0A, 0x15, 0x18, 0x1E, 0x29, 0x33, 0x55, 0x65}
    case _ => true
  }

  /** All other words are passed over. */
  lemma PassesOver(s: SafeCpu, f: nat, x: nat, kk: nat)
    requires f < 16 && x < 16 && kk < 256 && Opcode(s, 0x1000 * f + 0x100 * x + kk) && !Known(f, x, kk)
    ensures Step(s) == Next(s, 2)
  {
    DecodesByte(s, f, x, kk);
    NoSuch(Next(s, 2), f, x, kk);
  }

  lemma NoSuch(s: SafeCpu, f: nat, x: nat, kk: nat)
    requires f < 16 && x < 16 && kk < 256 && !Known(f, x, kk)
    ensures Exec(s, f, x, kk / 16, kk % 16) == s
  {
    assert 16 * (kk / 16) + kk % 16 == kk;
  }

  // ---------------------------------------------------------------- two instructions

  /** A register that was just loaded with a byte is equal to it: 6xkk and then 3xkk always skips, and 6xkk and then
      4xkk never does. */
  lemma LoadThenCompare(s: SafeCpu, x: nat, kk: nat)
    requires x < 16 && kk < 256 && s.pc + 3 < 4096 && Opcode(s, 0x6000 + 0x100 * x + kk)
    ensures Opcode(Next(s, 2), 0x3000 + 0x100 * x + kk) ==> Step(Step(s)).pc == s.pc + 6
    ensures Opcode(Next(s, 2), 0x4000 + 0x100 * x + kk) ==> Step(Step(s)).pc == s.pc + 4
  {
    Loads(s, x, kk, 0);
    if Opcode(Next(s, 2), 0x3000 + 0x100 * x + kk) {
      SkipsIfEqual(Step(s), x, kk);
    }
    if Opcode(Next(s, 2), 0x4000 + 0x100 * x + kk) {
      SkipsUnlessEqual(Step(s), x, kk);
    }
  }

  /** What was added to a register is taken away by adding its complement to 256. */
  lemma AddThenTakeAway(s: SafeCpu, x: nat, kk: nat)
    requires x < 16 && 0 < kk < 256 && s.pc + 3 < 4096
    requires Opcode(s, 0x7000 + 0x100 * x + kk) && Opcode(Next(s, 2), 0x7000 + 0x100 * x + (256 - kk))
    ensures Step(Step(s)).v == s.v
  {
    Loads(s, x, kk, 0);
    Loads(Step(s), x, 256 - kk, 0);
    AddedUp(s.v, x, kk);
  }

  lemma AddedUp(v: seq<u8>, x: nat, kk: nat)
    requires x < |v| && 0 < kk < 256
    ensures var w := v[x := (v[x] as int + kk) % 256]; w[x := (w[x] as int + (256 - kk)) % 256] == v
  {
    var a: int := v[x];
    assert ((a + kk) % 256 + (256 - kk)) % 256 == a;
  }
}
