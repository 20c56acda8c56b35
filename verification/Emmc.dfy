/** The eMMC block layer: requests for arbitrary sectors are cut into aligned transfers through a
    bounce buffer, reading back what a partial write must not change. */
module Emmc {
  import opened Machine

  const ALIGN := 8
  const BOUNCE := 64

  // Contents of one 512-byte sector.
  type Sector = seq<u8>

  datatype Result = RES_OK | RES_ERROR | RES_PARERR

  datatype Transfer = Transfer(lba: nat, n: nat)

  function AlignDown(s: nat): nat {
    s / ALIGN * ALIGN
  }

  function AlignUp(s: nat): nat {
    (s + 7) / ALIGN * ALIGN
  }

  /** One pass of the transfer loop: `n` sectors from `al` on are moved, of which `chunk` sectors
      at offset `off` belong to the request. */
  datatype Plan = Plan(al: nat, n: nat, off: nat, chunk: nat)

  function PlanFor(s: nat, remain: nat): Plan
    requires 0 < remain
  {
    var al := AlignDown(s);
    var span := AlignUp(s + remain) - al;
    var n := if span > BOUNCE then BOUNCE else span;
    var off := s - al;
    Plan(al, n, off, if off + remain > n then n - off else remain)
  }

  predicate Aligned(t: Transfer) {
    t.lba % ALIGN == 0 && t.n % ALIGN == 0 && 0 < t.n <= BOUNCE
  }

  predicate AllAligned(log: seq<Transfer>) {
    forall i :: 0 <= i < |log| ==> Aligned(log[i])
  }

  /** Every pass moves an aligned stretch of 8 to 64 sectors that contains the next part of the request, as much of
      it as 64 sectors hold, makes progress, and stays within the aligned hull of the request. */
  lemma PlanIsGood(s: nat, remain: nat)
    requires 0 < remain
    ensures var p := PlanFor(s, remain);
      && Aligned(Transfer(p.al, p.n)) && p.al % 8 == 0 && p.n % 8 == 0 && 8 <= p.n <= 64
      && p.al + p.off == s && p.off < 8
      && 0 < p.chunk <= remain && p.off + p.chunk <= p.n && (p.chunk == remain || p.off + p.chunk == 64)
      && AlignDown(s) <= p.al && p.al + p.n <= AlignUp(s + remain)
  {
  }

  lemma AlignUpWithin(end: nat, size: nat)
    requires end <= size && size % ALIGN == 0
    ensures AlignUp(end) <= size
  {
  }

  /** `d'` is `d` with `src[from..from+n]` copied over it from index `at` on. */
  predicate Copied(d: seq<Sector>, d': seq<Sector>, at: nat, src: seq<Sector>, from: nat, n: nat) {
    && |d'| == |d|
    && (0 < n ==> at + n <= |d| && from + n <= |src|)
    && forall i :: 0 <= i < |d| ==> d'[i] == if at <= i < at + n then src[from + (i - at)] else d[i]
  }

  lemma CopiedAgain(d0: seq<Sector>, d1: seq<Sector>, d2: seq<Sector>, at: nat, src: seq<Sector>, from: nat,
                    m: nat, n: nat)
    requires Copied(d0, d1, at, src, from, m) && Copied(d1, d2, at + m, src, from + m, n)
    ensures Copied(d0, d2, at, src, from, m + n)
  {
  }

  /** Writing back the first `k` sectors of a bounce buffer that holds the device's own contents
      with request sectors laid over them changes only sectors of the request. */
  lemma WriteBack(d: seq<Sector>, d': seq<Sector>, b: seq<Sector>, b': seq<Sector>, p: Plan,
                  src: seq<Sector>, from: nat, k: nat)
    requires p.al + p.n <= |d| && k <= p.n <= |b| && p.off + p.chunk <= p.n
    requires (p.off == 0 && p.chunk == p.n) || forall i :: 0 <= i < p.n ==> b[i] == d[p.al + i]
    requires Copied(b, b', p.off, src, from, p.chunk)
    requires Copied(d, d', p.al, b', 0, k)
    ensures Copied(d, d', p.al + p.off, src, from, Under(p.off, p.chunk, k))
  {
  }

  /** How many of `len` elements at offset `off` lie below `k`. */
  function Under(off: nat, len: nat, k: nat): (u: nat)
    ensures u <= len
  {
    if k <= off then 0 else if k >= off + len then len else k - off
  }

  class Card {
    const dev: array<Sector>
    const bounce: array<Sector>
    const ready: bool
    // How the card treats its k-th transfer: Some(j) fails after moving j sectors.
    const faults: nat -> Option<nat>
    var ops: nat
    ghost var log: seq<Transfer>

    ghost predicate Valid()
      reads this
    {
      bounce.Length == BOUNCE && dev != bounce && AllAligned(log)
    }

    constructor (dev: array<Sector>, bounce: array<Sector>, ready: bool, faults: nat -> Option<nat>)
      requires bounce.Length == BOUNCE && dev != bounce
      ensures Valid() && log == [] && ops == 0
      ensures this.dev == dev && this.bounce == bounce && this.ready == ready && this.faults == faults
    {
      this.dev, this.bounce, this.ready, this.faults := dev, bounce, ready, faults;
      ops, log := 0, [];
    }

    /** No transfer ever fails. */
    ghost predicate Healthy() {
      forall k :: faults(k).None?
    }

    /** Some transfer may fail, or the hull of the request does not lie on the card. */
    ghost predicate MayFail(end: nat) {
      dev.Length < end || dev.Length % ALIGN != 0 || !Healthy()
    }

    method ReadBlocks(lba: nat, n: nat) returns (ok: bool)
      requires Valid() && Aligned(Transfer(lba, n))
      modifies this, bounce
      ensures Valid()
      ensures ok ==> lba + n <= dev.Length && Copied(old(bounce[..]), bounce[..], 0, dev[..], lba, n)
      ensures !ok ==> dev.Length < lba + n || !Healthy()
    {
      var fault := faults(ops);
      ops := ops + 1;
      log := log + [Transfer(lba, n)];
      if dev.Length < lba + n || fault.Some? {
        return false;
      }
      forall i | 0 <= i < n {
        bounce[i] := dev[lba + i];
      }
      ok := true;
    }

    /** A failing write may have moved some of its sectors. */
    method WriteBlocks(lba: nat, n: nat) returns (ok: bool, ghost moved: nat)
      requires Valid() && Aligned(Transfer(lba, n))
      modifies this, dev
      ensures Valid()
      ensures moved <= n && Copied(old(dev[..]), dev[..], lba, bounce[..], 0, moved)
      ensures ok ==> moved == n
      ensures dev.Length < lba + n ==> !ok && moved == 0
      ensures !ok ==> dev.Length < lba + n || !Healthy()
    {
      ok, moved := false, 0;
      var fault := faults(ops);
      ops := ops + 1;
      log := log + [Transfer(lba, n)];
      if dev.Length < lba + n {
        return;
      }
      var k := if fault.None? || n < fault.value then n else fault.value;
      forall i | 0 <= i < k {
        dev[lba + i] := bounce[i];
      }
      return fault.None?, k;
    }

    /** Copies the request's part of a pass into the bounce buffer. */
    method Load(p: Plan, buff: seq<Sector>, from: nat)
      requires p.off + p.chunk <= bounce.Length && from + p.chunk <= |buff|
      modifies bounce
      ensures Copied(old(bounce[..]), bounce[..], p.off, buff, from, p.chunk)
    {
      forall i | 0 <= i < p.chunk {
        bounce[p.off + i] := buff[from + i];
      }
    }

    /** One pass of a write. Whatever happens, only the request's own sectors may have changed,
        and of those a prefix has. */
    method WriteChunk(p: Plan, buff: seq<Sector>, from: nat) returns (ok: bool, ghost written: nat)
      requires Valid() && Aligned(Transfer(p.al, p.n)) && p.off + p.chunk <= p.n && from + p.chunk <= |buff|
      modifies this, dev, bounce
      ensures Valid()
      ensures written <= p.chunk && (ok ==> written == p.chunk)
      ensures Copied(old(dev[..]), dev[..], p.al + p.off, buff, from, written)
      ensures !ok ==> dev.Length < p.al + p.n || !Healthy()
    {
      ok, written := true, 0;
      if p.off != 0 || p.chunk != p.n {
        ok := ReadBlocks(p.al, p.n);
        if !ok {
          return;
        }
      }
      ghost var d, b := dev[..], bounce[..];
      Load(p, buff, from);
      ghost var moved;
      ok, moved := WriteBlocks(p.al, p.n);
      if p.al + p.n <= dev.Length {
        written := Under(p.off, p.chunk, moved);
        WriteBack(d, dev[..], b, bounce[..], p, buff, from, moved);
      }
    }

    /** Writes `count` sectors. On any outcome every sector outside the request is unchanged and
        the request's sectors are new up to some point and old from there on. */
    method DiskWrite(pdrv: nat, buff: Option<seq<Sector>>, sector: nat, count: nat)
      returns (r: Result, ghost written: nat)
      requires Valid() && (buff.Some? ==> |buff.value| == count)
      modifies this, dev, bounce
      ensures Valid()
      ensures r == RES_PARERR <==> pdrv != 0 || buff == None || count == 0 || !ready
      ensures r == RES_PARERR ==> dev[..] == old(dev[..])
      ensures r != RES_PARERR ==> written <= count && Copied(old(dev[..]), dev[..], sector, buff.value, 0, written)
      ensures r == RES_OK ==> written == count
      ensures r == RES_ERROR ==> MayFail(sector + count)
    {
      written := 0;
      if pdrv != 0 || buff == None || count == 0 || !ready {
        return RES_PARERR, written;
      }
      ghost var d := dev[..];
      var done := 0;
      while done < count
        invariant 0 <= done <= count && Valid() && written == done
        invariant Copied(d, dev[..], sector, buff.value, 0, done)
      {
        ghost var d1, w := dev[..], 0;
        var p := NextPlan(sector, count, done, dev.Length);
        var ok;
        ok, w := WriteChunk(p, buff.value, done);
        CopiedAgain(d, d1, dev[..], sector, buff.value, 0, done, w);
        written := done + w;
        if !ok {
          return RES_ERROR, written;
        }
        done := done + p.chunk;
      }
      r := RES_OK;
    }

    /** Reads `count` sectors into the caller's buffer; the device is unchanged. */
    method DiskRead(pdrv: nat, buff: array?<Sector>, sector: nat, count: nat) returns (r: Result, ghost got: nat)
      requires Valid()
      requires buff != null ==> buff.Length == count && buff != dev && buff != bounce
      modifies this, bounce, buff
      ensures Valid()
      ensures r == RES_PARERR <==> pdrv != 0 || buff == null || count == 0 || !ready
      ensures r == RES_PARERR && buff != null ==> buff[..] == old(buff[..])
      ensures r != RES_PARERR ==> got <= count && Copied(old(buff[..]), buff[..], 0, dev[..], sector, got)
      ensures r == RES_OK ==> got == count
      ensures r == RES_ERROR ==> MayFail(sector + count)
    {
      got := 0;
      if pdrv != 0 || buff == null || count == 0 || !ready {
        return RES_PARERR, got;
      }
      ghost var b := buff[..];
      var done := 0;
      while done < count
        invariant 0 <= done <= count && Valid() && got == done
        invariant Copied(b, buff[..], 0, dev[..], sector, done)
      {
        ghost var b1 := buff[..];
        var p := NextPlan(sector, count, done, dev.Length);
        var ok := ReadBlocks(p.al, p.n);
        if !ok {
          return RES_ERROR, got;
        }
        CopyOut(p, buff, done);
        CopiedAgain(b, b1, buff[..], 0, dev[..], sector, done, p.chunk);
        done := done + p.chunk;
        got := done;
      }
      r := RES_OK;
    }

    /** Hands the request's part of a pass to the caller. */
    method CopyOut(p: Plan, buff: array<Sector>, at: nat)
      requires bounce.Length == BOUNCE && p.n <= BOUNCE && p.off + p.chunk <= p.n
      requires p.al + p.n <= dev.Length && forall i :: 0 <= i < p.n ==> bounce[i] == dev[p.al + i]
      requires at + p.chunk <= buff.Length && buff != bounce && buff != dev
      modifies buff
      ensures Copied(old(buff[..]), buff[..], at, dev[..], p.al + p.off, p.chunk)
    {
      forall i | 0 <= i < p.chunk {
        buff[at + i] := bounce[p.off + i];
      }
    }
  }

  /** The pass at `done`; it stays on the card if the card's size is a multiple of the alignment. */
  method NextPlan(sector: nat, count: nat, done: nat, ghost size: nat) returns (p: Plan)
    requires done < count
    ensures Aligned(Transfer(p.al, p.n))
    ensures p.al + p.off == sector + done
    ensures 0 < p.chunk <= count - done && p.off + p.chunk <= p.n
    ensures sector + count <= size && size % ALIGN == 0 ==> p.al + p.n <= size
  {
    p := PlanFor(sector + done, count - done);
    PlanIsGood(sector + done, count - done);
    if sector + count <= size && size % ALIGN == 0 {
      AlignUpWithin(sector + count, size);
    }
  }
}
