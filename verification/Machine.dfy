/** Fixed-width C integers as subset types, and the result codes of include/err.h. */
module Machine {

  const U8_MOD := 0x100
  const U16_MOD := 0x1_0000
  const U32_MOD := 0x1_0000_0000

  type u8 = x: int | 0 <= x < U8_MOD
  type u16 = x: int | 0 <= x < U16_MOD
  type u32 = x: int | 0 <= x < U32_MOD

  datatype Option<+T> = None | Some(value: T)

  datatype Err = OK | NOENT | INVAL | IO | NOSPC | DENIED | CORRUPT | UNSUPPORTED

  lemma Assoc<T>(a: seq<T>, b: seq<T>, c: seq<T>)
    ensures a + (b + c) == (a + b) + c
  {
  }

  /** `d` with `v` written over it from index `at` on. */
  function Placed<T>(d: seq<T>, at: nat, v: seq<T>): seq<T>
    requires at + |v| <= |d|
  {
    d[..at] + v + d[at + |v|..]
  }

  lemma PlacedOne<T>(d: seq<T>, at: nat, v: seq<T>, x: T)
    requires at + |v| < |d|
    ensures Placed(d, at, v)[at + |v| := x] == Placed(d, at, v + [x])
  {
  }

  lemma PlacedReads<T>(d: seq<T>, at: nat, v: seq<T>, k: nat)
    requires at + |v| <= |d| && k < |d|
    ensures Placed(d, at, v)[k] == if k < at || at + |v| <= k then d[k] else v[k - at]
  {
  }
}
