/** Board geometry shared by both variants of the game: cells, direction
    vectors, the playable interior, and the two ways the sources test for
    the border. */
module Geometry {

  /** A board cell, 0-indexed: `row` counts down from the top, `col` from the left. */
  datatype Cell = Cell(row: int, col: int)

  /** A direction as a (row, column) offset. */
  datatype Vec = Vec(dr: int, dc: int)

  const Up := Vec(-1, 0)
  const Down := Vec(1, 0)
  const Left := Vec(0, -1)
  const Right := Vec(0, 1)

  predicate IsUnit(d: Vec) {
    d == Up || d == Down || d == Left || d == Right
  }

  /** The cell one step from `c` in direction `d`. */
  function Advance(c: Cell, d: Vec): Cell {
    Cell(c.row + d.dr, c.col + d.dc)
  }

  /** `a` and `b` cancel out component-wise: an exact 180-degree turn. */
  predicate IsReversal(a: Vec, b: Vec) {
    a.dr + b.dr == 0 && a.dc + b.dc == 0
  }

  /** Inside the border ring of a height x width board: exactly the cells
      that `randint(1, height-2)`, `randint(1, width-2)` can produce. */
  predicate Interior(c: Cell, height: int, width: int) {
    1 <= c.row <= height - 2 && 1 <= c.col <= width - 2
  }

  /** The wall test of the class-based variant: on or beyond the border ring. */
  predicate HitsWall(c: Cell, height: int, width: int) {
    c.row <= 0 || c.row >= height - 1 || c.col <= 0 || c.col >= width - 1
  }

  /** The wall test of the curses variant: exactly on one of the four border lines. */
  predicate OnBorderLine(c: Cell, height: int, width: int) {
    c.row == 0 || c.row == height - 1 || c.col == 0 || c.col == width - 1
  }

  predicate AllInterior(cells: seq<Cell>, height: int, width: int) {
    forall i :: 0 <= i < |cells| ==> Interior(cells[i], height, width)
  }

  /** No cell occurs twice. */
  predicate Distinct(cells: seq<Cell>) {
    forall i, j :: 0 <= i < j < |cells| ==> cells[i] != cells[j]
  }

  /** The wall test is the complement of the interior. */
  lemma WallIsNotInterior(c: Cell, height: int, width: int)
    ensures HitsWall(c, height, width) <==> !Interior(c, height, width)
  {
  }

  /** The two border tests agree on every cell one unit step away from an
      interior cell: such a cell can reach the border ring but never cross it. */
  lemma BorderTestsAgree(c: Cell, d: Vec, height: int, width: int)
    requires Interior(c, height, width) && IsUnit(d)
    ensures HitsWall(Advance(c, d), height, width) <==> OnBorderLine(Advance(c, d), height, width)
  {
  }

  /** Putting a fresh interior cell in front of a distinct interior sequence
      keeps it distinct and interior. */
  lemma PrependKeeps(x: Cell, cells: seq<Cell>, height: int, width: int)
    requires Distinct(cells) && AllInterior(cells, height, width)
    requires x !in cells && Interior(x, height, width)
    ensures Distinct([x] + cells) && AllInterior([x] + cells, height, width)
  {
  }

  /** Dropping the last cell keeps a sequence distinct and interior and
      removes nothing but that cell. */
  lemma DropLastKeeps(cells: seq<Cell>, height: int, width: int)
    requires |cells| >= 1 && Distinct(cells) && AllInterior(cells, height, width)
    ensures Distinct(cells[..|cells| - 1]) && AllInterior(cells[..|cells| - 1], height, width)
    ensures forall x :: x in cells[..|cells| - 1] ==> x in cells
  {
  }
}
