/**
 * Grid geometry of the sliding puzzle: cells are addressed either by a
 * row-major slot index or by a (row, column) coordinate.
 */
module Grid {

  /** A (row, column) pair; used both for slots and for the origin label of a tile. */
  datatype Coord = Coord(r: int, c: int)

  /** The grid sizes the setup dialog's spin boxes allow (3 to 8 per dimension). */
  predicate ValidSize(rows: int, cols: int) {
    3 <= rows <= 8 && 3 <= cols <= 8
  }

  predicate InBounds(p: Coord, rows: int, cols: int) {
    0 <= p.r < rows && 0 <= p.c < cols
  }

  function Abs(x: int): nat {
    if x < 0 then -x else x
  }

  /** Manhattan distance, `abs(er - r) + abs(ec - c)`. */
  function Manhattan(a: Coord, b: Coord): nat {
    Abs(a.r - b.r) + Abs(a.c - b.c)
  }

  /** Row-major slot index of a cell, `r * cols + c`. */
  function IndexOf(p: Coord, cols: nat): int {
    p.r * cols + p.c
  }

  /**
   * The cell of a slot index: whole rows of `cols` slots are stepped over
   * one at a time. `CoordOfIsDivMod` shows it is Python's `divmod(idx, cols)`.
   */
  function CoordOf(idx: nat, cols: nat): (p: Coord)
    requires cols > 0
    ensures 0 <= p.r && 0 <= p.c < cols
    ensures IndexOf(p, cols) == idx
    decreases idx
  {
    if idx < cols then Coord(0, idx)
    else
      var q := CoordOf(idx - cols, cols);
      assert (q.r + 1) * cols == q.r * cols + cols;
      Coord(q.r + 1, q.c)
  }

  /** `CoordOf` is quotient and remainder by `cols`. */
  lemma CoordOfIsDivMod(idx: nat, cols: nat)
    requires cols > 0
    ensures CoordOf(idx, cols) == Coord(idx / cols, idx % cols)
  {
    var p := CoordOf(idx, cols);
    SameIndexSameCell(p, Coord(idx / cols, idx % cols), cols);
  }

  lemma MulMonotone(a: int, b: int, n: nat)
    requires a <= b
    ensures a * n <= b * n
  {
    assert b * n - a * n == (b - a) * n;
  }

  /** Two cells with columns in range and the same slot index are the same cell. */
  lemma SameIndexSameCell(p: Coord, q: Coord, cols: nat)
    requires 0 <= p.c < cols && 0 <= q.c < cols
    requires IndexOf(p, cols) == IndexOf(q, cols)
    ensures p == q
  {
    if q.r < p.r {
      MulMonotone(q.r + 1, p.r, cols);
      assert false;
    } else if q.r > p.r {
      MulMonotone(p.r + 1, q.r, cols);
      assert false;
    }
  }

  /** An in-bounds cell has an in-range index, and `CoordOf` recovers the cell from it. */
  lemma IndexRoundTrip(p: Coord, rows: nat, cols: nat)
    requires InBounds(p, rows, cols)
    ensures 0 <= IndexOf(p, cols) < rows * cols
    ensures CoordOf(IndexOf(p, cols), cols) == p
  {
    MulMonotone(p.r + 1, rows, cols);
    SameIndexSameCell(CoordOf(IndexOf(p, cols), cols), p, cols);
  }

  /** Every slot index below `rows * cols` names an in-bounds cell, and back. */
  lemma CoordRoundTrip(idx: nat, rows: nat, cols: nat)
    requires cols > 0 && idx < rows * cols
    ensures InBounds(CoordOf(idx, cols), rows, cols)
    ensures IndexOf(CoordOf(idx, cols), cols) == idx
  {
    var p := CoordOf(idx, cols);
    if p.r >= rows {
      MulMonotone(rows, p.r, cols);
      assert false;
    }
  }
}
