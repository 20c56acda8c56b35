/** The interpreter itself: byte arrays changed in place by one method per instruction family, each
    proved to do what the machine on values says. */
module Chip8 {
  import opened Machine
  import opened Chip8Machine
  import opened Chip8Runs
  import opened Chip8Sprites

  class Chip {
    const mem: array<u8>
    const fb: array<bit>
    const v: array<u8>
    const key: array<bit>
    const stack: array<u16>
    const rate: nat
    var pc: u16
    var i: u16
    var sp: nat
    var dt: u8
    var st: u8
    var seed: u32
    var acc: nat
    ghost var steps: nat

    ghost predicate Valid()
      reads this
    {
      && mem.Length == MEM_N && fb.Length == FB_N && v.Length == 16 && key.Length == 16 && stack.Length == 16
      && mem != v && fb != key && sp <= 16 && rate == STEPS_PER_FRAME
    }

    ghost function Model(): (s: SafeCpu)
      requires Valid()
      reads this, mem, fb, v, key, stack
    {
      Cpu(mem[..], fb[..], v[..], key[..], stack[..], pc, i, sp, dt, st, seed, acc, steps)
    }

    constructor ()
      ensures Valid() && acc == 0 && sp == 0 && seed == 1 && rate == 20
      ensures fresh(mem) && fresh(fb) && fresh(v) && fresh(key) && fresh(stack)
    {
      mem, fb, v := new u8[MEM_N], new bit[FB_N], new u8[16];
      key, stack, rate := new bit[16], new u16[16], STEPS_PER_FRAME;
      pc, i, sp, dt, st, seed, acc, steps := 0, 0, 0, 0, 0, 1, 0, 0;
    }

    // ---------------------------------------------------------------- instructions

    method ExecFlow(f: nat, x: nat, y: nat, n: nat)
      requires Valid() && x < 16 && y < 16 && n < 16
      modifies fb, stack, this`pc, this`sp
      ensures Valid() && Model() == Flow(old(Model()), f, x, y, n)
    {
      var kk := 16 * y + n;
      var nnn := 256 * x + kk;
      if f == 0 {
        ExecSystem(nnn);
      } else if f == 1 {
        pc := nnn;
      } else if f == 2 {
        if sp < 16 {
          stack[sp], sp := pc, sp + 1;
        }
        pc := nnn;
      } else if f == 11 {
        pc := nnn + v[0];
      } else if f == 3 {
        ExecSkip(v[x] == kk);
      } else if f == 4 {
        ExecSkip(v[x] != kk);
      } else if f == 5 {
        ExecSkip(n == 0 && v[x] == v[y]);
      } else if f == 9 {
        ExecSkip(n == 0 && v[x] != v[y]);
      } else if f == 14 {
        if kk == 0x9E && key[v[x] % 16] != 0 {
          ExecSkip(true);
        } else if kk == 0xA1 && key[v[x] % 16] == 0 {
          ExecSkip(true);
        }
      }
    }

    method ExecSystem(nnn: nat)
      requires Valid()
      modifies fb, this`pc, this`sp
      ensures Valid()
      ensures Model() ==
        if nnn == 0x0E0 then Clear(old(Model())) else if nnn == 0x0EE then Return(old(Model())) else old(Model())
    {
      if nnn == 0x0E0 {
        forall p | 0 <= p < FB_N {
          fb[p] := 0;
        }
      } else if nnn == 0x0EE && sp > 0 {
        sp := sp - 1;
        pc := stack[sp];
      }
    }

    method ExecSkip(c: bool)
      requires Valid()
      modifies this`pc
      ensures Valid() && Model() == Skip(old(Model()), c)
    {
      if c {
        pc := (pc + 2) % U16_MOD;
      }
    }

    method ExecAlu(n: nat, x: nat, y: nat)
      requires Valid() && n < 16 && x < 16 && y < 16
      modifies v
      ensures v[..] == Alu(old(v[..]), n, x, y)
    {
      if n < 4 {
        v[x] := Logic(n, v[x], v[y]);
      } else if n == 4 {
        var sum: nat := v[x] as int + v[y];
        v[15] := Flag(sum > 255);
        v[x] := sum % U8_MOD;
      } else if n == 5 {
        v[15] := Flag(v[x] >= v[y]);
        v[x] := (v[x] - v[y]) % U8_MOD;
      } else if n == 6 {
        v[15] := v[x] % 2;
        v[x] := v[x] / 2;
      } else if n == 7 {
        v[15] := Flag(v[y] >= v[x]);
        v[x] := (v[y] - v[x]) % U8_MOD;
      } else if n == 14 {
        v[15] := v[x] / 128;
        v[x] := (v[x] * 2) % U8_MOD;
      }
    }

    method ExecRandom(x: nat, kk: u8)
      requires Valid() && x < 16
      modifies v, this`seed
      ensures Valid() && Model() == Random(old(Model()), x, kk)
    {
      seed := NextSeed(seed);
      v[x] := And8((seed / 0x1_0000) % U8_MOD, kk);
    }

    /** Draws the sprite dot by dot; the flag is cleared first and set at each lit pixel hit. */
    method ExecDraw(x: nat, y: nat, n: nat)
      requires Valid() && x < 16 && y < 16 && n < 16
      modifies fb, v
      ensures Valid() && Model() == Draw(old(Model()), x, y, n)
    {
      var px, py := v[x] % FB_W, v[y] % FB_H;
      ghost var was := fb[..];
      v[15] := 0;
      assert v[..] == old(v[..])[15 := 0];
      var row := 0;
      while row < n && i + row < MEM_N
        invariant row <= n && i == old(i)
        invariant PartDrawn(fb[..], was, mem[..], i, px, py, row, 0)
        invariant v[..] == old(v[..])[15 := Flag(PartHits(was, mem[..], i, px, py, row, 0))]
      {
        DrawRow(px, py, row, was, old(v[..]));
        row := row + 1;
      }
      AllDone(was, fb[..], mem[..], i, px, py, row, n);
    }

    method DrawRow(px: nat, py: nat, row: nat, ghost was: seq<bit>, ghost v0: seq<u8>)
      requires Valid() && px < 64 && py < 32 && row < 16 && i + row < MEM_N
      requires |was| == FB_N && |v0| == 16
      requires PartDrawn(fb[..], was, mem[..], i, px, py, row, 0)
      requires v[..] == v0[15 := Flag(PartHits(was, mem[..], i, px, py, row, 0))]
      modifies fb, v
      ensures PartDrawn(fb[..], was, mem[..], i, px, py, row + 1, 0)
      ensures v[..] == v0[15 := Flag(PartHits(was, mem[..], i, px, py, row + 1, 0))]
    {
      var col := 0;
      while col < 8
        invariant col <= 8
        invariant PartDrawn(fb[..], was, mem[..], i, px, py, row, col)
        invariant v[..] == v0[15 := Flag(PartHits(was, mem[..], i, px, py, row, col))]
      {
        if Bit(mem[i + row], col) {
          PutDot(was, fb[..], mem[..], i, px, py, row, col);
          FlipPixel(At(px, py, col, row));
        } else {
          SkipDot(was, fb[..], mem[..], i, px, py, row, col);
        }
        col := col + 1;
      }
      RowDone(was, fb[..], mem[..], i, px, py, row, col);
    }

    method FlipPixel(p: nat)
      requires Valid() && p < FB_N
      modifies fb, v
      ensures fb[..] == old(fb[..])[p := Flip(old(fb[p]))]
      ensures v[..] == if old(fb[p]) != 0 then old(v[..])[15 := 1] else old(v[..])
    {
      if fb[p] != 0 {
        v[15] := 1;
      }
      fb[p] := Flip(fb[p]);
    }

    method ExecWaitKey(x: nat)
      requires Valid() && x < 16
      modifies v, this`pc
      ensures Valid() && Model() == WaitKey(old(Model()), x)
    {
      var k := 0;
      while k < 16 && key[k] == 0
        invariant 0 <= k <= 16
        invariant forall j :: 0 <= j < k ==> key[j] == 0
      {
        k := k + 1;
      }
      FirstKeyUnique(key[..], k);
      if k < 16 {
        v[x] := k;
      } else {
        pc := (pc - 2) % U16_MOD;
      }
    }

    method ExecDecimal(x: nat)
      requires Valid() && x < 16
      modifies mem
      ensures Valid() && Model() == Decimal(old(Model()), x)
    {
      if i + 2 < MEM_N {
        mem[i] := v[x] / 100;
        mem[i + 1] := v[x] / 10 % 10;
        mem[i + 2] := v[x] % 10;
      }
    }

    method ExecStore(x: nat)
      requires Valid() && x < 16
      modifies mem, this`i
      ensures Valid() && Model() == Store(old(Model()), x)
    {
      var k := 0;
      while k <= x && i + k < MEM_N
        invariant 0 <= k <= x + 1
        invariant i == old(i) && (k == 0 || i + k <= MEM_N)
        invariant mem[..] == Stored(old(mem[..]), v[..], i, k)
      {
        mem[i + k] := v[k];
        k := k + 1;
      }
      assert Stored(old(mem[..]), v[..], i, k) == Stored(old(mem[..]), v[..], i, x + 1);
      i := (i + x + 1) % U16_MOD;
    }

    method ExecFetch(x: nat)
      requires Valid() && x < 16
      modifies v, this`i
      ensures Valid() && Model() == Fetch(old(Model()), x)
    {
      var k := 0;
      while k <= x && i + k < MEM_N
        invariant 0 <= k <= x + 1
        invariant i == old(i) && (k == 0 || i + k <= MEM_N)
        invariant v[..] == Fetched(old(v[..]), mem[..], i, k)
      {
        v[k] := mem[i + k];
        k := k + 1;
      }
      assert Fetched(old(v[..]), mem[..], i, k) == Fetched(old(v[..]), mem[..], i, x + 1);
      i := (i + x + 1) % U16_MOD;
    }

    method ExecMisc(x: nat, kk: u8)
      requires Valid() && x < 16
      modifies mem, v, this`pc, this`i, this`dt, this`st
      ensures Valid() && Model() == Misc(old(Model()), x, kk)
    {
      if kk == 0x07 {
        v[x] := dt;
      } else if kk == 0x0A {
        ExecWaitKey(x);
      } else if kk == 0x15 {
        dt := v[x];
      } else if kk == 0x18 {
        st := v[x];
      } else if kk == 0x1E {
        i := (i + v[x]) % U16_MOD;
      } else if kk == 0x29 {
        i := FONT_BASE + v[x] % 16 * 5;
      } else if kk == 0x33 {
        ExecDecimal(x);
      } else if kk == 0x55 {
        ExecStore(x);
      } else if kk == 0x65 {
        ExecFetch(x);
      }
    }

    method ExecSet(f: nat, x: nat, y: nat, n: nat)
      requires Valid() && x < 16 && y < 16 && n < 16 && IsSet(f)
      modifies mem, fb, v, this`pc, this`i, this`dt, this`st, this`seed
      ensures Valid() && Model() == Set(old(Model()), f, x, y, n)
    {
      var kk := 16 * y + n;
      if f == 6 {
        v[x] := kk;
      } else if f == 7 {
        v[x] := (v[x] + kk) % U8_MOD;
      } else if f == 8 {
        ExecAlu(n, x, y);
      } else if f == 10 {
        i := 256 * x + kk;
      } else if f == 12 {
        ExecRandom(x, kk);
      } else if f == 13 {
        ExecDraw(x, y, n);
      } else {
        ExecMisc(x, kk);
      }
    }

    method ExecOp(f: nat, x: nat, y: nat, n: nat)
      requires Valid() && x < 16 && y < 16 && n < 16
      modifies mem, fb, v, stack, this`pc, this`i, this`sp, this`dt, this`st, this`seed
      ensures Valid() && Model() == Exec(old(Model()), f, x, y, n)
    {
      if IsSet(f) {
        ExecSet(f, x, y, n);
      } else {
        ExecFlow(f, x, y, n);
      }
    }

    method OpStep()
      requires Valid()
      modifies mem, fb, v, stack, this`pc, this`i, this`sp, this`dt, this`st, this`seed, this`steps
      ensures Valid() && Model() == Step(old(Model()))
    {
      ghost var s := Model();
      steps := steps + 1;
      if pc + 1 >= MEM_N {
        return;
      }
      var hi, lo := NextOp();
      StepIs(s);
      ExecOp(hi / 16, hi % 16, lo / 16, lo % 16);
    }

    method NextOp() returns (hi: u8, lo: u8)
      requires Valid() && pc + 1 < MEM_N
      modifies this`pc
      ensures Valid() && Model() == old(Model()).(pc := old(pc) + 2)
      ensures hi == old(mem[pc]) && lo == old(mem[pc + 1])
    {
      hi, lo := mem[pc], mem[pc + 1];
      pc := pc + 2;
    }

    // ---------------------------------------------------------------- the clock

    method RunFrame()
      requires Valid() && acc >= FRAME_MS
      modifies mem, fb, v, stack
      modifies this`pc, this`i, this`sp, this`dt, this`st, this`seed, this`steps, this`acc
      ensures Valid() && Model() == Frame(old(Model()), rate)
    {
      CountDown();
      RunSteps(rate);
    }

    method CountDown()
      requires Valid() && acc >= FRAME_MS
      modifies this`dt, this`st, this`acc
      ensures Valid() && Model() == CountedDown(old(Model()))
    {
      acc := acc - FRAME_MS;
      if dt > 0 {
        dt := dt - 1;
      }
      if st > 0 {
        st := st - 1;
      }
    }

    method RunSteps(count: nat)
      requires Valid()
      modifies mem, fb, v, stack, this`pc, this`i, this`sp, this`dt, this`st, this`seed, this`steps
      ensures Valid() && Model() == Steps(old(Model()), count)
    {
      ghost var s := Model();
      var left := count;
      while left > 0
        invariant 0 <= left <= count && Valid()
        invariant Steps(Model(), left) == Steps(s, count)
      {
        StepsFirst(Model(), left);
        OpStep();
        left := left - 1;
      }
    }

    method Tick(ms: u32)
      requires Valid() && acc < FRAME_MS
      modifies mem, fb, v, stack
      modifies this`pc, this`i, this`sp, this`dt, this`st, this`seed, this`steps, this`acc
      ensures Valid() && acc < FRAME_MS && Model() == TickCpu(old(Model()), ms, rate)
    {
      if ms == 0 {
        return;
      }
      SaveTime(ms);
      RunFrames();
    }

    method SaveTime(ms: u32)
      requires Valid()
      modifies this`acc
      ensures Valid() && Model() == Saved(old(Model()), ms)
    {
      acc := acc + if ms > TICK_MAX then TICK_MAX else ms;
    }

    method RunFrames()
      requires Valid()
      modifies mem, fb, v, stack
      modifies this`pc, this`i, this`sp, this`dt, this`st, this`seed, this`steps, this`acc
      ensures Valid() && Model() == Frames(old(Model()), rate)
    {
      ghost var s := Model();
      while acc >= FRAME_MS
        invariant Valid() && Frames(Model(), rate) == Frames(s, rate)
      {
        RunFrame();
      }
    }

    // ---------------------------------------------------------------- keys and cartridges

    /** A pointer lifted, or touching no key, releases every key; one touching a key holds that one. */
    method Press(k: Option<nat>)
      requires Valid() && (k.Some? ==> k.value < 16)
      modifies key
      ensures Valid() && Model() == PressKey(old(Model()), k)
    {
      forall j | 0 <= j < 16 {
        key[j] := 0;
      }
      if k.Some? {
        key[k.value] := 1;
      }
    }

    /** Loads a cartridge into a cleared machine; only the random seed survives. */
    method Load(rom: seq<u8>) returns (e: Err)
      requires Valid()
      modifies mem, fb, v, key, stack
      modifies this`pc, this`i, this`sp, this`dt, this`st, this`acc
      ensures Valid()
      ensures e == if 0 < |rom| <= ROM_MAX then OK else INVAL
      ensures Model() == LoadRom(old(Model()), rom)
    {
      if |rom| == 0 || |rom| > ROM_MAX {
        return INVAL;
      }
      HardReset();
      forall a | ROM_BASE <= a < ROM_BASE + |rom| {
        mem[a] := rom[a - ROM_BASE];
      }
      assert mem[..] == Image(rom);
      e := OK;
    }

    method HardReset()
      requires Valid()
      modifies mem, fb, v, key, stack
      modifies this`pc, this`i, this`sp, this`dt, this`st, this`acc
      ensures Valid() && Model() == Reset(old(Model()))
    {
      LoadFont();
      Fill(fb, 0);
      Fill(v, 0);
      Fill(key, 0);
      Fill(stack, 0);
      pc, i, sp, dt, st, acc := ROM_BASE, 0, 0, 0, 0, 0;
    }

    method LoadFont()
      requires mem.Length == MEM_N
      modifies mem
      ensures mem[..] == Image([])
    {
      forall a | 0 <= a < MEM_N {
        mem[a] := if FONT_BASE <= a < FONT_BASE + |FONT| then FONT[a - FONT_BASE] else 0;
      }
    }
  }

  method Fill<T>(a: array<T>, x: T)
    modifies a
    ensures a[..] == seq(a.Length, _ => x)
  {
    forall k | 0 <= k < a.Length {
      a[k] := x;
    }
  }

  lemma FirstKeyUnique(key: seq<bit>, k: nat)
    requires k <= |key| && (k < |key| ==> key[k] != 0)
    requires forall j :: 0 <= j < k ==> key[j] == 0
    ensures FirstKey(key) == k
  {
    var f := FirstKey(key);
  }
}
