/** Slot numbering of a free-running counter: position `p` is kept modulo `M` and lives in
    slot `(p % M) % n`. The numbering jumps at the wrap unless `n` divides `M`. */
module WrapArithmetic {

  function SlotOf(M: int, n: int, pos: nat): int
    requires 0 < n <= M
  {
    (pos % M) % n
  }

  lemma ModOfSum(a: nat, d: nat, n: nat)
    requires 0 < d < n
    ensures (a + d) % n != a % n
  {
    var q, r := a / n, a % n;
    assert a == q * n + r;
    if r + d < n {
      ModUnique(a + d, n, q, r + d);
    } else {
      assert (q + 1) * n == q * n + n;
      ModUnique(a + d, n, q + 1, r + d - n);
    }
  }

  lemma MulAtLeast(k: int, n: int)
    requires 1 <= k && 0 < n
    ensures n <= k * n
  {
    assert k * n == (k - 1) * n + n;
  }

  lemma ModUnique(x: int, n: int, q: int, r: int)
    requires 0 <= r < n
    requires x == q * n + r
    ensures x / n == q && x % n == r
  {
    var q', r' := x / n, x % n;
    var k := q - q';
    assert k * n == r' - r;
    assert (-k) * n == -(k * n);
    if 1 <= k {
      MulAtLeast(k, n);
    } else if k <= -1 {
      MulAtLeast(-k, n);
    }
  }

  /** Going back by the counter modulus and forward by `d` lands on the same residue
      exactly when `d` is the remainder of the modulus. */
  lemma ModOfJump(a: nat, d: nat, M: nat, n: nat)
    requires 0 < d < n <= M <= a + d
    ensures (a + d - M) % n == a % n <==> d == M % n
  {
    var b := a + d - M;
    var qm, rm := M / n, M % n;
    assert M == qm * n + rm;
    var qb, rb := b / n, b % n;
    assert b == qb * n + rb;
    assert a == (qb + qm) * n + (rb + rm - d) by {
      assert (qb + qm) * n == qb * n + qm * n;
    }
    var t := rb + rm - d;
    if 0 <= t < n {
      ModUnique(a, n, qb + qm, t);
    } else if t < 0 {
      assert (qb + qm - 1) * n == (qb + qm) * n - n;
      ModUnique(a, n, qb + qm - 1, t + n);
    } else {
      assert (qb + qm + 1) * n == (qb + qm) * n + n;
      ModUnique(a, n, qb + qm + 1, t - n);
    }
  }

  /** Exact wrap law: two positions closer than the capacity share a slot
      iff a counter wrap lies between them and their distance is `M % n`. */
  lemma SlotCollision(M: nat, n: nat, i: nat, j: nat)
    requires 0 < n <= M
    requires i < j < i + n
    ensures SlotOf(M, n, i) == SlotOf(M, n, j) <==> i / M != j / M && j - i == M % n
  {
    var q, a := i / M, i % M;
    var d := j - i;
    assert i == q * M + a;
    if a + d < M {
      ModUnique(j, M, q, a + d);
      ModOfSum(a, d, n);
    } else {
      assert (q + 1) * M == q * M + M;
      ModUnique(j, M, q + 1, a + d - M);
      ModOfJump(a, d, M, n);
    }
  }

  /** If the capacity divides the modulus no two live positions ever collide. */
  lemma NoCollisionWhenDivides(M: nat, n: nat, i: nat, j: nat)
    requires 0 < n <= M && M % n == 0
    requires i < j < i + n
    ensures SlotOf(M, n, i) != SlotOf(M, n, j)
  {
    SlotCollision(M, n, i, j);
  }

  /** The three shipped rings: the message ring (16-bit counters, 60 slots), the audio pipe
      (32-bit counters, 16384 bytes) and the PCM queue (32-bit counters, 4608 samples). */
  lemma ShippedRings(i: nat, j: nat)
    requires i < j
    ensures j < i + 60 ==>
      (SlotOf(0x1_0000, 60, i) == SlotOf(0x1_0000, 60, j) <==> i / 0x1_0000 != j / 0x1_0000 && j - i == 16)
    ensures j < i + 16384 ==> SlotOf(0x1_0000_0000, 16384, i) != SlotOf(0x1_0000_0000, 16384, j)
    ensures j < i + 4608 ==>
      (SlotOf(0x1_0000_0000, 4608, i) == SlotOf(0x1_0000_0000, 4608, j)
       <==> i / 0x1_0000_0000 != j / 0x1_0000_0000 && j - i == 2560)
  {
    if j < i + 60 {
      SlotCollision(0x1_0000, 60, i, j);
    }
    if j < i + 16384 {
      SlotCollision(0x1_0000_0000, 16384, i, j);
    }
    if j < i + 4608 {
      SlotCollision(0x1_0000_0000, 4608, i, j);
    }
  }
}
