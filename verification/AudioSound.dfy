/** What is heard, in numbers: the bytes of a sample, and what the volume makes of it. */
module AudioSound {
  import opened Machine
  import opened AudioPath

  /** A sample is 16 bits in two's complement, low byte first. */
  lemma SampleIs(lo: u8, hi: u8)
    ensures var s: int := Sample(lo, hi);
      && s % 0x1_0000 % 0x100 == lo && s % 0x1_0000 / 0x100 == hi && -0x8000 <= s < 0x8000
      && (s < 0 <==> hi >= 0x80)
  {
  }

  /** `r` is `pct` percent of `x`, rounded towards zero. */
  predicate PercentOf(x: int, pct: nat, r: int) {
    if 0 <= x then 0 <= r && 100 * r <= x * pct < 100 * r + 100
    else r <= 0 && 100 * r - 100 < x * pct <= 100 * r
  }

  lemma PercentIs(x: nat, pct: nat)
    requires pct <= 100
    ensures 100 * Percent(x, pct) <= x * pct < 100 * Percent(x, pct) + 100
  {
    var p := x * pct;
    assert Percent(x, pct) == p / 100;
  }

  lemma ScaleIs(x: i16, pct: nat)
    requires pct <= 100
    ensures PercentOf(x, pct, Scale(x, pct))
  {
    var v: int := x;
    if 0 <= v {
      PercentIs(v, pct);
    } else {
      PercentIs(-v, pct);
      assert v * pct == -((-v) * pct);
    }
  }

  /** At volume 0 there is silence, at 100 the sample itself, at 50 its half. */
  lemma Volumes(x: i16)
    ensures Scale(x, 0) == 0 && Scale(x, 100) == x
    ensures var v: int := x; Scale(x, 50) == if 0 <= v then v / 2 else -(-v / 2)
  {
    ScaleIs(x, 0);
    ScaleIs(x, 100);
    ScaleIs(x, 50);
  }

  /** Every sample of a filled buffer: frame by frame left and right, the same sample twice if there is one channel,
      at the volume, and silence behind the last. */
  lemma Heard(took: seq<i16>, ch: nat, frames: nat, pct: nat, j: nat)
    requires 1 <= ch <= 2 && |Stereo(took, ch)| <= 2 * frames && pct <= 100 && j < 2 * frames
    ensures |Output(took, ch, frames, pct)| == 2 * frames
    ensures var r := Output(took, ch, frames, pct)[j];
      var at := if ch == 1 then j / 2 else j;
      if at < |took| then PercentOf(took[at], pct, r) else r == 0
  {
    if ch == 1 {
      if j < 2 * |took| {
        DoubledAt(took, j);
        ScaleIs(took[j / 2], pct);
      }
    } else if j < |took| {
      ScaleIs(took[j], pct);
    }
  }
}
