/** The input stream: a moving window of a buffer, and the numbers read from it. */
module PbInput {
  import opened Machine
  import opened PbWire
  import opened PbModel

  class IStream {
    const data: Bytes
    var pos: nat
    var left: nat

    ghost predicate Valid()
      reads this
    {
      pos + left <= |data|
    }

    /** The bytes still to be read. */
    ghost function Rest(): (s: Bytes)
      requires Valid()
      reads this
      ensures |s| == left
    {
      data[pos..pos + left]
    }

    /** `n` bytes have been read since. */
    twostate predicate Read(n: nat)
      requires old(Valid())
      reads this
    {
      Valid() && n <= old(left) && pos == old(pos) + n && left == old(left) - n
    }

    constructor (bytes: Bytes, from: nat, count: nat)
      requires from + count <= |bytes|
      ensures Valid() && data == bytes && pos == from && left == count
    {
      data, pos, left := bytes, from, count;
    }

    method ReadByte() returns (ok: bool, b: u8)
      requires Valid()
      modifies this
      ensures ok <==> old(left) > 0
      ensures if ok then Read(1) && b == old(Rest())[0] else Read(0)
    {
      if left == 0 {
        return false, 0;
      }
      b := data[pos];
      pos, left := pos + 1, left - 1;
      ok := true;
    }

    method ReadBytes(count: nat) returns (ok: bool, b: Bytes)
      requires Valid()
      modifies this
      ensures ok <==> count <= old(left)
      ensures if ok then Read(count) && b == old(Rest())[..count] else Read(0)
    {
      if left < count {
        return false, [];
      }
      b := data[pos..pos + count];
      pos, left := pos + count, left - count;
      ok := true;
    }

    method ReadVarint() returns (ok: bool, v: u64)
      requires Valid()
      modifies this
      ensures Valid() && (ok <==> Dec64(old(Rest())).Parsed?)
      ensures ok ==> v == Dec64(old(Rest())).value && Read(Dec64(old(Rest())).used)
    {
      ghost var s := Rest();
      var bitpos, more := 0, true;
      ghost var n := 0;
      v := 0;
      while more
        invariant n <= |s| && Read(n) && bitpos == 7 * n
        invariant more ==> Dec64At(s, n, v) == Dec64(s)
        invariant !more ==> Dec64(s) == Parsed(v, n)
        decreases left, more
      {
        if bitpos >= 64 {
          return false, 0;
        }
        var b;
        ok, b := ReadByte();
        if !ok {
          return false, 0;
        }
        assert b == s[n];
        v := Low64(v + b % 128 * Pow128(bitpos / 7));
        bitpos := bitpos + 7;
        n := n + 1;
        more := b >= 128;
      }
      ok := true;
    }

    method ReadVarint32() returns (ok: bool, v: u32)
      requires Valid()
      modifies this
      ensures Valid() && (ok <==> Dec32(old(Rest())).Parsed?)
      ensures ok ==> v == Dec32(old(Rest())).value && Read(Dec32(old(Rest())).used)
    {
      ghost var s := Rest();
      var b;
      v := 0;
      ok, b := ReadByte();
      if !ok {
        return;
      }
      if b < 128 {
        v := b;
        return;
      }
      v := b % 128;
      var bitpos, more := 7, true;
      ghost var n := 1;
      while more
        invariant 1 <= n <= |s| && Read(n) && bitpos == 7 * n
        invariant more ==> Dec32At(s, n, v) == Dec32(s)
        invariant !more ==> n > 1 && b == s[n - 1] < 128
        invariant !more ==> Dec32(s) == if bitpos == 35 && b / 16 != 0 then Bad else Parsed(v, n)
        decreases left, more
      {
        ok, b := ReadByte();
        if !ok {
          return false, 0;
        }
        assert b == s[n];
        if bitpos >= 32 {
          var sign := if bitpos < 63 then 0xFF else 0x01;
          if b % 128 != 0 && (v < 0x8000_0000 || b != sign) {
            return false, 0;
          }
        } else {
          v := Low32(v + b % 128 * Pow128(bitpos / 7));
        }
        bitpos := bitpos + 7;
        n := n + 1;
        more := b >= 128;
      }
      if bitpos == 35 && b / 16 != 0 {
        return false, 0;
      }
      ok := true;
    }

    /** A length and that many bytes, as a stream of their own. */
    method OpenFrame() returns (ok: bool, sub: IStream)
      requires Valid()
      modifies this
      ensures Valid() && (ok <==> Framed(old(Rest())).Parsed?) && fresh(sub)
      ensures ok ==> sub.Valid() && sub.Rest() == Framed(old(Rest())).value && Read(Framed(old(Rest())).used)
    {
      ghost var s := Rest();
      var size;
      ok, size := ReadVarint32();
      if !ok || left < size {
        ok := false;
        sub := new IStream([], 0, 0);
        return;
      }
      sub := new IStream(data, pos, size);
      pos, left := pos + size, left - size;
      SliceOfSlice(data, old(pos), old(left), Dec32(s).used, size);
    }

    method SkipVarint() returns (ok: bool)
      requires Valid()
      modifies this
      ensures Valid() && (ok <==> VarintLength(old(Rest())) != 0)
      ensures ok ==> Read(VarintLength(old(Rest())))
    {
      ghost var s := Rest();
      ghost var n := 0;
      var more := true;
      while more
        invariant n <= |s| && Read(n)
        invariant more ==> VarintLength(s) == (if VarintLength(s[n..]) == 0 then 0 else n + VarintLength(s[n..]))
        invariant !more ==> n > 0 && VarintLength(s) == n
        decreases left, more
      {
        var b;
        ok, b := ReadByte();
        if !ok {
          assert s[n..] == [];
          return;
        }
        assert b == s[n..][0] && s[n..][1..] == s[n + 1..];
        n := n + 1;
        more := b >= 128;
      }
      ok := true;
    }

    /** Skips the value of an unknown field. */
    method SkipField(wt: nat) returns (ok: bool)
      requires Valid()
      modifies this
      ensures Valid() && (ok <==> Skip(wt, old(Rest())).Some?)
      ensures ok ==> Read(Skip(wt, old(Rest())).value)
    {
      if wt == WT_VARINT {
        ok := SkipVarint();
      } else if wt == WT_64BIT {
        var b;
        ok, b := ReadBytes(8);
      } else if wt == WT_STRING {
        var size, b;
        ok, size := ReadVarint32();
        if ok {
          ok, b := ReadBytes(size);
        }
      } else if wt == WT_32BIT {
        var b;
        ok, b := ReadBytes(4);
      } else {
        ok := false;
      }
    }
  }

  lemma SliceOfSlice(data: Bytes, p: nat, n: nat, a: nat, k: nat)
    requires p + n <= |data| && a + k <= n
    ensures data[p..p + n][a..a + k] == data[p + a..p + a + k]
  {
    var s, t := data[p..p + n][a..a + k], data[p + a..p + a + k];
    forall i | 0 <= i < k
      ensures s[i] == t[i]
    {
    }
  }
}
