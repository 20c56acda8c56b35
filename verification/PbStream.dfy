/** Output and input streams over byte buffers. */
module PbStream {
  import opened Machine
  import opened PbWire
  import opened PbModel

  /** An output stream writes into a window of a buffer, or only counts. */
  class OStream {
    const buf: array<u8>
    const sizing: bool
    const base: nat
    const maxSize: nat
    var state: nat
    var written: nat
    // History: the bytes given to the stream.
    ghost var sent: Bytes

    ghost predicate Valid()
      reads this, buf
    {
      && written == |sent| && base <= buf.Length
      && (!sizing ==>
        && written <= maxSize && base + maxSize <= buf.Length
        && state == base + written && buf[base..state] == sent)
    }

    /** Whether `n` more bytes are accepted. */
    ghost predicate Room(n: nat)
      reads this
    {
      sizing || written + n <= maxSize
    }

    constructor (b: array<u8>, from: nat, size: nat)
      requires from + size <= b.Length
      ensures Valid() && buf == b && base == from && maxSize == size && !sizing && sent == []
    {
      buf, sizing, base, maxSize := b, false, from, size;
      state, written, sent := from, 0, [];
    }

    constructor Sizing()
      ensures Valid() && sizing && sent == [] && fresh(buf)
    {
      buf := new u8[0];
      sizing, base, maxSize := true, 0, 0;
      state, written, sent := 0, 0, [];
    }

    method Write(b: Bytes) returns (ok: bool)
      requires Valid()
      modifies this`state, this`written, this`sent, buf
      ensures Valid() && forall k :: 0 <= k < base ==> buf[k] == old(buf[k])
      ensures ok <==> old(Room(|b|))
      ensures ok ==> sent == old(sent) + b
    {
      if !sizing {
        if written + |b| > maxSize {
          return false;
        }
        CopyIn(b);
        state := state + |b|;
      }
      written, sent := written + |b|, sent + b;
      ok := true;
    }

    method CopyIn(b: Bytes)
      requires Valid() && !sizing && Room(|b|)
      modifies buf
      ensures forall k :: 0 <= k < state ==> buf[k] == old(buf[k])
      ensures buf[state..state + |b|] == b
    {
      var i := 0;
      while i < |b|
        invariant 0 <= i <= |b|
        invariant forall k :: 0 <= k < state ==> buf[k] == old(buf[k])
        invariant forall k :: 0 <= k < i ==> buf[state + k] == b[k]
      {
        buf[state + i] := b[i];
        i := i + 1;
      }
    }

    /** Counts bytes that are not given; they are `b` for the record. */
    method WriteSize(count: nat, ghost b: Bytes)
      requires Valid() && sizing && count == |b|
      modifies this`written, this`sent
      ensures Valid() && sent == old(sent) + b
    {
      written, sent := written + count, sent + b;
    }

    method WriteVarint(v: u64) returns (ok: bool)
      requires Valid()
      modifies this`state, this`written, this`sent, buf
      ensures Valid() && forall k :: 0 <= k < base ==> buf[k] == old(buf[k])
      ensures ok <==> old(Room(|Base128(v)|))
      ensures ok ==> sent == old(sent) + Base128(v)
    {
      if v <= 0x7F {
        ok := Write([v]);
      } else {
        var low, high := v % U32_MOD, v / U32_MOD;
        var b, n := EncodeVarint32(low, high);
        assert low + 0x1_0000_0000 * high == v;
        ok := Write(b[..n]);
      }
    }
  }
}
