/** Drawing a sprite dot by dot, around the edges of the screen. */
module Chip8Sprites {
  import opened Machine
  import opened Chip8Machine

  /** Where the dot in column `col` and row `row` of a sprite at (px, py) lands. */
  function At(px: nat, py: nat, col: nat, row: nat): (p: nat)
    ensures p < FB_N
  {
    (py + row) % FB_H * FB_W + (px + col) % FB_W
  }

  lemma Across(p: nat, d: nat, x: nat)
    requires p < 64 && d < 64 && x < 64
    ensures (p + d) % 64 == x <==> (x + 64 - p) % 64 == d
  {
    assert (p + d) % 64 == if p + d < 64 then p + d else p + d - 64;
    assert (x + 64 - p) % 64 == if x < p then x + 64 - p else x - p;
  }

  lemma Down(p: nat, d: nat, y: nat)
    requires p < 32 && d < 32 && y < 32
    ensures (p + d) % 32 == y <==> (y + 32 - p) % 32 == d
  {
    assert (p + d) % 32 == if p + d < 32 then p + d else p + d - 32;
    assert (y + 32 - p) % 32 == if y < p then y + 32 - p else y - p;
  }

  /** Different dots land on different pixels. */
  lemma AtInverts(px: nat, py: nat, col: nat, row: nat, p: nat)
    requires px < 64 && py < 32 && col < 64 && row < 32 && p < FB_N
    ensures At(px, py, col, row) == p <==> Dx(p, px) == col && Dy(p, py) == row
  {
    var x, y := p % 64, p / 64;
    assert p == y * 64 + x;
    Across(px, col, x);
    Down(py, row, y);
  }

  /** The dots drawn when all rows before `row` and the columns before `col` of it are done. */
  predicate PartDot(mem: seq<u8>, i: nat, row: nat, col: nat, dx: nat, dy: nat) {
    Dot(mem, i, row, dx, dy) || (dy == row && dx < col && Dot(mem, i, row + 1, dx, dy))
  }

  predicate PartCovers(mem: seq<u8>, i: nat, px: nat, py: nat, row: nat, col: nat, p: nat)
    requires px < 64 && py < 32 && p < FB_N
  {
    PartDot(mem, i, row, col, Dx(p, px), Dy(p, py))
  }

  ghost predicate PartHits(fb: seq<bit>, mem: seq<u8>, i: nat, px: nat, py: nat, row: nat, col: nat)
    requires |fb| == FB_N && px < 64 && py < 32
  {
    exists p :: 0 <= p < FB_N && fb[p] != 0 && PartCovers(mem, i, px, py, row, col, p)
  }

  /** The screen so far: pixels under dots already drawn are flipped. */
  ghost predicate PartDrawn(now: seq<bit>, was: seq<bit>, mem: seq<u8>, i: nat, px: nat, py: nat, row: nat, col: nat)
    requires |now| == |was| == FB_N && px < 64 && py < 32
  {
    forall p :: 0 <= p < FB_N ==> now[p] == if PartCovers(mem, i, px, py, row, col, p) then Flip(was[p]) else was[p]
  }

  /** A dot that is not set draws nothing. */
  lemma SkipDot(was: seq<bit>, now: seq<bit>, mem: seq<u8>, i: nat, px: nat, py: nat, row: nat, col: nat)
    requires |now| == |was| == FB_N && px < 64 && py < 32 && row < 16 && col < 8 && i + row < |mem|
    requires !Bit(mem[i + row], col)
    requires PartDrawn(now, was, mem, i, px, py, row, col)
    ensures PartDrawn(now, was, mem, i, px, py, row, col + 1)
    ensures PartHits(was, mem, i, px, py, row, col + 1) == PartHits(was, mem, i, px, py, row, col)
  {
    forall p | 0 <= p < FB_N
      ensures PartCovers(mem, i, px, py, row, col + 1, p) == PartCovers(mem, i, px, py, row, col, p)
    {
      assert !Dot(mem, i, row + 1, col, row);
    }
  }

  /** A dot that is set flips one pixel, which no earlier dot touched. */
  lemma PutDot(was: seq<bit>, now: seq<bit>, mem: seq<u8>, i: nat, px: nat, py: nat, row: nat, col: nat)
    requires |now| == |was| == FB_N && px < 64 && py < 32 && row < 16 && col < 8 && i + row < |mem|
    requires Bit(mem[i + row], col)
    requires PartDrawn(now, was, mem, i, px, py, row, col)
    ensures var q := At(px, py, col, row);
      && now[q] == was[q] && PartDrawn(now[q := Flip(now[q])], was, mem, i, px, py, row, col + 1)
      && PartHits(was, mem, i, px, py, row, col + 1) == (PartHits(was, mem, i, px, py, row, col) || was[q] != 0)
  {
    var q := At(px, py, col, row);
    forall p | 0 <= p < FB_N
      ensures PartCovers(mem, i, px, py, row, col + 1, p) == (PartCovers(mem, i, px, py, row, col, p) || p == q)
    {
      AtInverts(px, py, col, row, p);
    }
    AtInverts(px, py, col, row, q);
    assert !PartCovers(mem, i, px, py, row, col, q);
    assert PartCovers(mem, i, px, py, row, col + 1, q);
  }

  /** A row of eight columns done is the next row begun. */
  lemma RowDone(was: seq<bit>, now: seq<bit>, mem: seq<u8>, i: nat, px: nat, py: nat, row: nat, col: nat)
    requires |now| == |was| == FB_N && px < 64 && py < 32 && col == 8
    requires PartDrawn(now, was, mem, i, px, py, row, col)
    ensures PartDrawn(now, was, mem, i, px, py, row + 1, 0)
    ensures PartHits(was, mem, i, px, py, row + 1, 0) == PartHits(was, mem, i, px, py, row, col)
  {
    forall p | 0 <= p < FB_N
      ensures PartCovers(mem, i, px, py, row + 1, 0, p) == PartCovers(mem, i, px, py, row, col, p)
    {
    }
  }

  /** When the rows are drawn, or memory has run out, the sprite is drawn. */
  lemma AllDone(was: seq<bit>, now: seq<bit>, mem: seq<u8>, i: nat, px: nat, py: nat, row: nat, n: nat)
    requires |now| == |was| == FB_N && px < 64 && py < 32
    requires row == n || (row < n && i + row >= |mem|)
    requires PartDrawn(now, was, mem, i, px, py, row, 0)
    ensures now == Drawn(was, mem, i, n, px, py)
    ensures PartHits(was, mem, i, px, py, row, 0) == Hits(was, mem, i, n, px, py)
  {
    forall p | 0 <= p < FB_N
      ensures PartCovers(mem, i, px, py, row, 0, p) == Covers(mem, i, n, px, py, p)
    {
    }
  }

  // ---------------------------------------------------------------- drawing twice

  /** Flipping the same pixels again restores them. */
  lemma DrawnTwice(fb: seq<bit>, mem: seq<u8>, i: nat, n: nat, px: nat, py: nat)
    requires |fb| == FB_N && px < 64 && py < 32
    ensures Drawn(Drawn(fb, mem, i, n, px, py), mem, i, n, px, py) == fb
  {
  }

  /** Where the sprite instruction lands when it is run again at once: a coordinate in register 15 is by then
      the flag of the first drawing. */
  function PlaceAgain(s: SafeCpu, x: nat, y: nat, n: nat): (q: (nat, nat))
    requires x < 16 && y < 16
    ensures q.0 < 64 && q.1 < 32
  {
    var f := Flag(Hits(s.fb, s.mem, s.i, n, s.v[x] % 64, s.v[y] % 32));
    ((if x == 15 then f else s.v[x]) % 64, (if y == 15 then f else s.v[y]) % 32)
  }

  predicate SameCover(mem: seq<u8>, i: nat, n: nat, px: nat, py: nat, qx: nat, qy: nat)
    requires px < 64 && py < 32 && qx < 64 && qy < 32
  {
    forall p :: 0 <= p < FB_N ==> Covers(mem, i, n, px, py, p) == Covers(mem, i, n, qx, qy, p)
  }

  /** How far one place is from another, around the edges, and a dot moved that far. */
  function Shift(p: nat, q: nat, size: nat): (c: nat)
    requires p < size && q < size
    ensures c < size && (c == 0 <==> p == q)
  {
    if p < q then p + size - q else p - q
  }

  function Moved(d: nat, c: nat, size: nat): nat
    requires d < size && c < size
  {
    if d + c < size then d + c else d + c - size
  }

  lemma MovedAcross(p: nat, q: nat, d: nat)
    requires p < 64 && q < 64 && d < 64
    ensures ((p + d) % 64 + 64 - q) % 64 == Moved(d, Shift(p, q, 64), 64)
  {
    assert (p + d) % 64 == if p + d < 64 then p + d else p + d - 64;
  }

  lemma MovedDown(p: nat, q: nat, d: nat)
    requires p < 32 && q < 32 && d < 32
    ensures ((p + d) % 32 + 32 - q) % 32 == Moved(d, Shift(p, q, 32), 32)
  {
    assert (p + d) % 32 == if p + d < 32 then p + d else p + d - 32;
  }

  /** Column and row of a sprite's dot relative to another place. */
  lemma AtFrom(px: nat, py: nat, qx: nat, qy: nat, dx: nat, dy: nat)
    requires px < 64 && py < 32 && qx < 64 && qy < 32 && dx < 8 && dy < 16
    ensures var p := At(px, py, dx, dy);
      Dx(p, qx) == Moved(dx, Shift(px, qx, 64), 64) && Dy(p, qy) == Moved(dy, Shift(py, qy, 32), 32)
  {
    var xx, yy := (px + dx) % 64, (py + dy) % 32;
    assert At(px, py, dx, dy) == yy * 64 + xx;
    MovedAcross(px, qx, dx);
    MovedDown(py, qy, dy);
  }

  /** Two places covering the same pixels: each dot has another dot where the shift between them leads. */
  lemma ShiftedDot(mem: seq<u8>, i: nat, n: nat, px: nat, py: nat, qx: nat, qy: nat, dx: nat, dy: nat)
    requires px < 64 && py < 32 && qx < 64 && qy < 32 && n < 16
    requires SameCover(mem, i, n, px, py, qx, qy) && dx < 8 && dy < 16
    ensures Dot(mem, i, n, Moved(dx, Shift(px, qx, 64), 64), Moved(dy, Shift(py, qy, 32), 32)) == Dot(mem, i, n, dx, dy)
  {
    var p := At(px, py, dx, dy);
    AtInverts(px, py, dx, dy, p);
    assert Covers(mem, i, n, px, py, p) == Dot(mem, i, n, dx, dy);
    AtFrom(px, py, qx, qy, dx, dy);
  }

  /** How many moves a dot can make before it leaves a window of `w`. */
  function MovesLeft(d: nat, c: nat, w: nat): nat
    requires d < w
  {
    if c < w then w - d else d
  }

  lemma MoveLeaves(d: nat, c: nat, w: nat, size: nat)
    requires d < w && 0 < c < size && 2 * w <= size
    ensures var e := Moved(d, c, size); e >= w || MovesLeft(e, c, w) < MovesLeft(d, c, w)
  {
  }

  /** Dots lie in a window of 8 by 15 pixels on a screen of 64 by 32, so following a shift that is not zero
      always leads the same way, and out of the window. */
  lemma {:induction false} NoDots(mem: seq<u8>, i: nat, n: nat, px: nat, py: nat, qx: nat, qy: nat, dx: nat, dy: nat)
    requires px < 64 && py < 32 && qx < 64 && qy < 32 && n < 16
    requires SameCover(mem, i, n, px, py, qx, qy) && (px, py) != (qx, qy)
    requires Dot(mem, i, n, dx, dy)
    ensures false
    decreases var cx, cy := Shift(px, qx, 64), Shift(py, qy, 32);
      if cx != 0 then MovesLeft(dx, cx, 8) else MovesLeft(dy, cy, 15)
  {
    var cx, cy := Shift(px, qx, 64), Shift(py, qy, 32);
    ShiftedDot(mem, i, n, px, py, qx, qy, dx, dy);
    if cx != 0 {
      MoveLeaves(dx, cx, 8, 64);
    } else {
      MoveLeaves(dy, cy, 15, 32);
    }
    NoDots(mem, i, n, px, py, qx, qy, Moved(dx, cx, 64), Moved(dy, cy, 32));
  }

  /** Exactly when drawing a sprite twice restores the screen: the second drawing is at the same place, or the
      sprite has no dots. */
  lemma DrawTwiceExactly(s: SafeCpu, x: nat, y: nat, n: nat)
    requires x < 16 && y < 16 && n < 16
    ensures Draw(Draw(s, x, y, n), x, y, n).fb == s.fb
      <==> PlaceAgain(s, x, y, n) == (s.v[x] % 64, s.v[y] % 32) || forall dx, dy :: !Dot(s.mem, s.i, n, dx, dy)
  {
    var px, py, q := s.v[x] % 64, s.v[y] % 32, PlaceAgain(s, x, y, n);
    var fb1, fb2 := Draw(s, x, y, n).fb, Draw(Draw(s, x, y, n), x, y, n).fb;
    assert fb2 == Drawn(fb1, s.mem, s.i, n, q.0, q.1);
    assert fb2 == s.fb <==> SameCover(s.mem, s.i, n, px, py, q.0, q.1);
    if fb2 == s.fb && q != (px, py) {
      if dx, dy :| Dot(s.mem, s.i, n, dx, dy) {
        NoDots(s.mem, s.i, n, px, py, q.0, q.1, dx, dy);
      }
    }
  }

  /** The flag says each time whether the sprite lay over a lit pixel; when the second drawing is at the same
      place, that is whether it lay over a dark one at first, and nothing but the flag is left changed. */
  lemma DrawTwiceFlags(s: SafeCpu, x: nat, y: nat, n: nat)
    requires x < 16 && y < 16
    ensures var s1 := Draw(s, x, y, n); var s2 := Draw(s1, x, y, n); var px, py := s.v[x] % 64, s.v[y] % 32;
      && (s1.v[15] == 1 <==> exists p :: 0 <= p < FB_N && s.fb[p] == 1 && Covers(s.mem, s.i, n, px, py, p))
      && (PlaceAgain(s, x, y, n) == (px, py) ==>
        && s2 == s.(v := s.v[15 := s2.v[15]])
        && (s2.v[15] == 1 <==> exists p :: 0 <= p < FB_N && s.fb[p] == 0 && Covers(s.mem, s.i, n, px, py, p)))
  {
    var px, py := s.v[x] % 64, s.v[y] % 32;
    var s1 := Draw(s, x, y, n);
    if PlaceAgain(s, x, y, n) == (px, py) {
      DrawnTwice(s.fb, s.mem, s.i, n, px, py);
      assert s1.v[x] % 64 == px && s1.v[y] % 32 == py;
      if Hits(s1.fb, s.mem, s.i, n, px, py) {
        var p :| 0 <= p < FB_N && s1.fb[p] != 0 && Covers(s.mem, s.i, n, px, py, p);
        assert s.fb[p] == 0;
      }
      if p :| 0 <= p < FB_N && s.fb[p] == 0 && Covers(s.mem, s.i, n, px, py, p) {
        assert s1.fb[p] != 0;
      }
    }
  }

  /** A dark screen, a sprite of one dot, and the number 5 in register 15. */
  function OneDot(): SafeCpu {
    var s := Blank();
    s.(mem := s.mem[0 := 0x80], v := s.v[15 := 5])
  }

  /** Such a dot is not drawn away when register 15 gives its column, nor when it gives its row. */
  lemma FlagCoordinateMoves(x: nat, y: nat)
    requires (x == 15 && y < 15) || (x < 15 && y == 15)
    ensures Draw(Draw(OneDot(), x, y, 1), x, y, 1).fb != OneDot().fb
  {
    var s := OneDot();
    assert Dot(s.mem, s.i, 1, 0, 0);
    assert PlaceAgain(s, x, y, 1) == (0, 0);
    DrawTwiceExactly(s, x, y, 1);
  }
}
