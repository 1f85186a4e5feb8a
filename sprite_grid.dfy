/** The 16x16 sprite as a value: 256 palette indices stored row-major, cell (x, y) at index
    y * 16 + x, exactly as the C array `uint8_t sprite[16][16]` lies in memory. The editing
    operations of the key handler are specified here as functions on that value. */
module SpriteGrid {

  /** An unsigned 8-bit value (`uint8_t`). */
  newtype byte = x: int | 0 <= x < 256

  /** `v ^ 1`: the value with its low bit flipped. */
  function FlipLow(v: byte): byte
  {
    if v % 2 == 0 then v + 1 else v - 1
  }

  function Min(a: int, b: int): int { if a <= b then a else b }
  function Max(a: int, b: int): int { if a >= b then a else b }

  /** Number of cells of the sprite. */
  const Cells := 256

  /** Index of cell (x, y) in the row-major sprite. */
  function At(x: int, y: int): int { y * 16 + x }

  /** Shift down: every row moves one row down, the bottom row wraps around to the top. */
  function ShiftedDown(g: seq<byte>): (r: seq<byte>)
    requires |g| == Cells
    ensures |r| == Cells
  {
    g[240..] + g[..240]
  }

  /** Shift up: every row moves one row up, the top row wraps around to the bottom. */
  function ShiftedUp(g: seq<byte>): (r: seq<byte>)
    requires |g| == Cells
    ensures |r| == Cells
  {
    g[16..] + g[..16]
  }

  /** Shift left, for any whole number of 16-cell rows: each row rotates one cell left. */
  function ShiftedLeft(g: seq<byte>): (r: seq<byte>)
    requires |g| % 16 == 0
    ensures |r| == |g|
  {
    seq(|g|, k requires 0 <= k < |g| => g[k - k % 16 + (k % 16 + 1) % 16])
  }

  /** Shift right, for any whole number of 16-cell rows: each row rotates one cell right. */
  function ShiftedRight(g: seq<byte>): (r: seq<byte>)
    requires |g| % 16 == 0
    ensures |r| == |g|
  {
    seq(|g|, k requires 0 <= k < |g| => g[k - k % 16 + (k % 16 + 15) % 16])
  }

  /** The sprite with the low bit of cell (x, y) flipped (`sprite[y][x] ^= 1`). */
  function Flipped(g: seq<byte>, x: int, y: int): (r: seq<byte>)
    requires |g| == Cells && 0 <= x < 16 && 0 <= y < 16
    ensures |r| == Cells
  {
    g[At(x, y) := FlipLow(g[At(x, y)])]
  }

  // ----- Shifts move whole rows and columns cyclically -----

  /** Shift down moves row y to row (y + 1) mod 16. */
  lemma ShiftDownMovesRow(g: seq<byte>, x: int, y: int)
    requires |g| == Cells && 0 <= x < 16 && 0 <= y < 16
    ensures ShiftedDown(g)[At(x, (y + 1) % 16)] == g[At(x, y)]
  {
    if y == 15 {
      assert (y + 1) % 16 == 0 && ShiftedDown(g)[x] == g[240 + x];
    } else {
      assert (y + 1) % 16 == y + 1 && ShiftedDown(g)[At(x, y + 1)] == g[At(x, y + 1) - 16];
    }
  }

  /** Shift up moves row y to row (y + 15) mod 16, that is, one row up. */
  lemma ShiftUpMovesRow(g: seq<byte>, x: int, y: int)
    requires |g| == Cells && 0 <= x < 16 && 0 <= y < 16
    ensures ShiftedUp(g)[At(x, (y + 15) % 16)] == g[At(x, y)]
  {
    if y == 0 {
      assert (y + 15) % 16 == 15 && ShiftedUp(g)[240 + x] == g[x];
    } else {
      assert (y + 15) % 16 == y - 1 && ShiftedUp(g)[At(x, y - 1)] == g[At(x, y - 1) + 16];
    }
  }

  /** Cell c of row i after shift left, and after shift right, in terms of the row before. */
  lemma ShiftedRowCell(g: seq<byte>, i: int, c: int)
    requires |g| % 16 == 0 && 0 <= i && 16 * i + 16 <= |g| && 0 <= c < 16
    ensures ShiftedLeft(g)[16 * i + c] == if c < 15 then g[16 * i + c + 1] else g[16 * i]
    ensures ShiftedRight(g)[16 * i + c] == if c > 0 then g[16 * i + c - 1] else g[16 * i + 15]
  {
    assert (16 * i + c) % 16 == c;
  }

  /** Shift left moves column c to column (c - 1) mod 16 in every row. */
  lemma ShiftLeftMovesColumn(g: seq<byte>, c: int, y: int)
    requires |g| == Cells && 0 <= c < 16 && 0 <= y < 16
    ensures ShiftedLeft(g)[At((c + 15) % 16, y)] == g[At(c, y)]
  {
    var d := if c == 0 then 15 else c - 1;
    assert (c + 15) % 16 == d;
    ShiftedRowCell(g, y, d);
  }

  /** Shift right moves column c to column (c + 1) mod 16 in every row. */
  lemma ShiftRightMovesColumn(g: seq<byte>, c: int, y: int)
    requires |g| == Cells && 0 <= c < 16 && 0 <= y < 16
    ensures ShiftedRight(g)[At((c + 1) % 16, y)] == g[At(c, y)]
  {
    var d := if c == 15 then 0 else c + 1;
    assert (c + 1) % 16 == d;
    ShiftedRowCell(g, y, d);
  }

  // ----- Opposite shifts undo each other -----

  lemma ShiftDownThenUp(g: seq<byte>)
    requires |g| == Cells
    ensures ShiftedUp(ShiftedDown(g)) == g
  {
    assert ShiftedUp(ShiftedDown(g)) == g[..240] + g[240..];
    assert g[..240] + g[240..] == g;
  }

  lemma ShiftUpThenDown(g: seq<byte>)
    requires |g| == Cells
    ensures ShiftedDown(ShiftedUp(g)) == g
  {
    assert ShiftedDown(ShiftedUp(g)) == g[..16] + g[16..];
    assert g[..16] + g[16..] == g;
  }

  lemma ShiftLeftThenRight(g: seq<byte>)
    requires |g| % 16 == 0
    ensures ShiftedRight(ShiftedLeft(g)) == g
  {
    var r := ShiftedRight(ShiftedLeft(g));
    forall k | 0 <= k < |g| ensures r[k] == g[k] {
      var i, c := k / 16, k % 16;
      assert k == 16 * i + c;
      ShiftedRowCell(ShiftedLeft(g), i, c);
      ShiftedRowCell(g, i, if c > 0 then c - 1 else 15);
    }
  }

  lemma ShiftRightThenLeft(g: seq<byte>)
    requires |g| % 16 == 0
    ensures ShiftedLeft(ShiftedRight(g)) == g
  {
    var r := ShiftedLeft(ShiftedRight(g));
    forall k | 0 <= k < |g| ensures r[k] == g[k] {
      var i, c := k / 16, k % 16;
      assert k == 16 * i + c;
      ShiftedRowCell(ShiftedRight(g), i, c);
      ShiftedRowCell(g, i, if c < 15 then c + 1 else 0);
    }
  }

  // ----- Shifts are permutations of the cells -----

  lemma ShiftDownPermutes(g: seq<byte>)
    requires |g| == Cells
    ensures multiset(ShiftedDown(g)) == multiset(g)
  {
    assert g == g[..240] + g[240..];
  }

  lemma ShiftUpPermutes(g: seq<byte>)
    requires |g| == Cells
    ensures multiset(ShiftedUp(g)) == multiset(g)
  {
    assert g == g[..16] + g[16..];
  }

  /** Shift left works row by row: the first row rotated, then the remaining rows shifted. */
  lemma ShiftLeftFirstRow(g: seq<byte>)
    requires |g| % 16 == 0 && |g| >= 16
    ensures ShiftedLeft(g) == g[1..16] + [g[0]] + ShiftedLeft(g[16..])
  {
    var rest := ShiftedLeft(g[16..]);
    forall k | 0 <= k < |g| ensures ShiftedLeft(g)[k] == (g[1..16] + [g[0]] + rest)[k] {
      var i, c := k / 16, k % 16;
      assert k == 16 * i + c;
      ShiftedRowCell(g, i, c);
      if i > 0 {
        ShiftedRowCell(g[16..], i - 1, c);
      }
    }
  }

  /** Shift right works row by row: the first row rotated, then the remaining rows shifted. */
  lemma ShiftRightFirstRow(g: seq<byte>)
    requires |g| % 16 == 0 && |g| >= 16
    ensures ShiftedRight(g) == [g[15]] + g[..15] + ShiftedRight(g[16..])
  {
    var rest := ShiftedRight(g[16..]);
    forall k | 0 <= k < |g| ensures ShiftedRight(g)[k] == ([g[15]] + g[..15] + rest)[k] {
      var i, c := k / 16, k % 16;
      assert k == 16 * i + c;
      ShiftedRowCell(g, i, c);
      if i > 0 {
        ShiftedRowCell(g[16..], i - 1, c);
      }
    }
  }

  /** Rotating a sequence by one place keeps its multiset, in either direction. */
  lemma RotationPermutes(h: seq<byte>)
    requires |h| > 0
    ensures multiset(h[1..] + [h[0]]) == multiset(h)
    ensures multiset([h[|h| - 1]] + h[..|h| - 1]) == multiset(h)
  {
    assert h == [h[0]] + h[1..];
    assert h == h[..|h| - 1] + [h[|h| - 1]];
  }

  /** One row of shift left: the first row's cells are kept, the rest is shifted on its own. */
  lemma ShiftLeftPeelsRow(g: seq<byte>)
    requires |g| % 16 == 0 && |g| >= 16
    ensures |g[16..]| % 16 == 0
    ensures multiset(ShiftedLeft(g)) == multiset(g[..16]) + multiset(ShiftedLeft(g[16..]))
  {
    var row := g[..16];
    ShiftLeftFirstRow(g);
    RotationPermutes(row);
    assert row[1..] + [row[0]] == g[1..16] + [g[0]];
  }

  /** One row of shift right: the first row's cells are kept, the rest is shifted on its own. */
  lemma ShiftRightPeelsRow(g: seq<byte>)
    requires |g| % 16 == 0 && |g| >= 16
    ensures |g[16..]| % 16 == 0
    ensures multiset(ShiftedRight(g)) == multiset(g[..16]) + multiset(ShiftedRight(g[16..]))
  {
    var row := g[..16];
    ShiftRightFirstRow(g);
    RotationPermutes(row);
    assert [row[15]] + row[..15] == [g[15]] + g[..15];
  }

  lemma {:induction false} ShiftLeftPermutes(g: seq<byte>)
    requires |g| % 16 == 0
    ensures multiset(ShiftedLeft(g)) == multiset(g)
    decreases |g|
  {
    if |g| > 0 {
      ShiftLeftPeelsRow(g);
      ShiftLeftPermutes(g[16..]);
      assert g[..16] + g[16..] == g;
    }
  }

  lemma {:induction false} ShiftRightPermutes(g: seq<byte>)
    requires |g| % 16 == 0
    ensures multiset(ShiftedRight(g)) == multiset(g)
    decreases |g|
  {
    if |g| > 0 {
      ShiftRightPeelsRow(g);
      ShiftRightPermutes(g[16..]);
      assert g[..16] + g[16..] == g;
    }
  }

  // ----- Toggling a cell -----

  /** Flipping the low bit keeps the other seven bits (v / 2), changes the low bit (v % 2),
      and undoes itself. */
  lemma FlipChangesLowBitOnly(v: byte)
    ensures FlipLow(v) / 2 == v / 2
    ensures FlipLow(v) % 2 != v % 2
    ensures FlipLow(FlipLow(v)) == v
  {
  }

  /** Flipping cell (x, y) changes that cell's low bit and leaves every other cell alone. */
  lemma FlippedChangesOneCell(g: seq<byte>, x: int, y: int)
    requires |g| == Cells && 0 <= x < 16 && 0 <= y < 16
    ensures forall k :: 0 <= k < Cells && k != At(x, y) ==> Flipped(g, x, y)[k] == g[k]
    ensures Flipped(g, x, y)[At(x, y)] / 2 == g[At(x, y)] / 2
    ensures Flipped(g, x, y)[At(x, y)] % 2 != g[At(x, y)] % 2
  {
    FlipChangesLowBitOnly(g[At(x, y)]);
  }

  /** Flipping the same cell twice restores the sprite. */
  lemma FlipTwice(g: seq<byte>, x: int, y: int)
    requires |g| == Cells && 0 <= x < 16 && 0 <= y < 16
    ensures Flipped(Flipped(g, x, y), x, y) == g
  {
    FlipChangesLowBitOnly(g[At(x, y)]);
  }
}
