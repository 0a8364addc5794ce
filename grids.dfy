/**
 * Two-dimensional fields on the WRF mass grid (south_north rows by
 * west_east columns) and the cellwise arithmetic the converter applies to them.
 * Values are mathematical reals: the linear unit conversions are exact here.
 */
module Grids {

  /** A grid of `|rows|` rows, each meant to hold `width` values. */
  datatype Grid = Grid(width: nat, rows: seq<seq<real>>)

  predicate IsRectangular(g: Grid) {
    forall i :: 0 <= i < |g.rows| ==> |g.rows[i]| == g.width
  }

  /** What a two-dimensional numpy array can hold: every row has the same length. */
  type Matrix = g: Grid | IsRectangular(g) witness Grid(0, [])

  predicate SameShape(a: Grid, b: Grid) {
    a.width == b.width && |a.rows| == |b.rows|
  }

  predicate InGrid(g: Grid, i: int, j: int) {
    0 <= i < |g.rows| && 0 <= j < g.width
  }

  /** Apply `f` to every cell (a numpy ufunc with a scalar operand). */
  function MapCells(a: Matrix, f: real -> real): (r: Matrix)
    ensures SameShape(r, a)
    ensures forall i, j :: InGrid(a, i, j) ==> r.rows[i][j] == f(a.rows[i][j])
  {
    Grid(a.width, seq(|a.rows|, i requires 0 <= i < |a.rows| =>
      seq(a.width, j requires 0 <= j < a.width => f(a.rows[i][j]))))
  }

  /** Combine two grids of the same shape cell by cell. */
  function ZipCells(a: Matrix, b: Matrix, f: (real, real) -> real): (r: Matrix)
    requires SameShape(a, b)
    ensures SameShape(r, a)
    ensures forall i, j :: InGrid(a, i, j) ==> r.rows[i][j] == f(a.rows[i][j], b.rows[i][j])
  {
    Grid(a.width, seq(|a.rows|, i requires 0 <= i < |a.rows| =>
      seq(a.width, j requires 0 <= j < a.width => f(a.rows[i][j], b.rows[i][j]))))
  }

  /** Combine three grids of the same shape cell by cell. */
  function ZipCells3(a: Matrix, b: Matrix, c: Matrix, f: (real, real, real) -> real): (r: Matrix)
    requires SameShape(a, b) && SameShape(a, c)
    ensures SameShape(r, a)
    ensures forall i, j :: InGrid(a, i, j) ==> r.rows[i][j] == f(a.rows[i][j], b.rows[i][j], c.rows[i][j])
  {
    Grid(a.width, seq(|a.rows|, i requires 0 <= i < |a.rows| =>
      seq(a.width, j requires 0 <= j < a.width => f(a.rows[i][j], b.rows[i][j], c.rows[i][j]))))
  }

  function Max(x: real, y: real): real {
    if x >= y then x else y
  }

  function Add(x: real, y: real): real {
    x + y
  }

  function Sub(x: real, y: real): real {
    x - y
  }

  /** A non-empty stack of equally shaped grids, one per vertical level. */
  predicate IsUniform(levels: seq<Matrix>) {
    |levels| > 0 && forall k :: 0 <= k < |levels| ==> SameShape(levels[k], levels[0])
  }

  /** A three-dimensional field (bottom_top, south_north, west_east). */
  type Stack = s: seq<Matrix> | IsUniform(s) witness [Grid(0, [])]

  /** The reduction `max(dim='bottom_top')`: every cell of the result is at
      least the value of that cell on every level, and is the value on one of them. */
  function MaxOverLevels(levels: seq<Matrix>): (r: Matrix)
    requires IsUniform(levels)
    ensures SameShape(r, levels[0])
    ensures forall k, i, j :: 0 <= k < |levels| && InGrid(r, i, j) ==> levels[k].rows[i][j] <= r.rows[i][j]
    ensures forall i, j :: InGrid(r, i, j) ==> exists k :: 0 <= k < |levels| && r.rows[i][j] == levels[k].rows[i][j]
    decreases |levels|
  {
    if |levels| == 1 then levels[0]
    else
      var rest := MaxOverLevels(levels[1..]);
      ZipCells(levels[0], rest, Max)
  }
}
