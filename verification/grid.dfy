/**
  Tile coordinates and board bounds of the snake game (script.js:12-13, 179-183, 231-235).
  The board is measured in tiles; the canvas pixel size is assumed to be an exact multiple
  of the 20-pixel grid size.
 */
module Grid {

  /** A tile coordinate (x, y): x grows to the right, y grows downwards. */
  type Cell = (int, int)

  /** The board in tiles: `cols` is canvas.width / gridSize, `rows` is canvas.height / gridSize. */
  datatype Board = Board(cols: nat, rows: nat)

  /** The cells food can be drawn from: [0, cols) x [0, rows). */
  predicate InBoard(b: Board, c: Cell) {
    0 <= c.0 < b.cols && 0 <= c.1 < b.rows
  }

  /** The bounds the collision check applies: tileCount is the column count and bounds both axes. */
  predicate InTiles(b: Board, c: Cell) {
    0 <= c.0 < b.cols && 0 <= c.1 < b.cols
  }

  /** One pair of Math.random() results, the first for x and the second for y. */
  type Draw = (real, real)

  predicate ValidDraw(d: Draw) {
    0.0 <= d.0 < 1.0 && 0.0 <= d.1 < 1.0
  }

  predicate AllValid(draws: seq<Draw>) {
    forall i :: 0 <= i < |draws| ==> ValidDraw(draws[i])
  }

  /** Math.floor(r * n) for a random r in [0, 1) lands in [0, n). */
  lemma FloorScaledInRange(r: real, n: nat)
    requires 0.0 <= r < 1.0
    ensures n > 0 ==> 0 <= (r * n as real).Floor < n
  {
    if n > 0 {
      assert 0.0 <= r * n as real;
      assert (1.0 - r) * n as real > 0.0;
    }
  }

  /** The cell createFood draws: Math.floor(random * count) on each axis. */
  function SampleCell(b: Board, d: Draw): (c: Cell)
    requires ValidDraw(d)
    ensures b.cols > 0 && b.rows > 0 ==> InBoard(b, c)
  {
    FloorScaledInRange(d.0, b.cols);
    FloorScaledInRange(d.1, b.rows);
    ((d.0 * b.cols as real).Floor, (d.1 * b.rows as real).Floor)
  }

  /** x / n is a valid random result for 0 <= x < n, and scaling it back by n gives x. */
  lemma FractionOfCount(x: int, n: nat)
    requires 0 <= x < n
    ensures 0.0 <= x as real / n as real < 1.0
    ensures (x as real / n as real * n as real).Floor == x
  {
    var q := x as real / n as real;
    assert q * n as real == x as real;
  }

  /** Every cell of the board is the sample of some valid draw, so no cell is out of the food's reach. */
  lemma SampleCoversBoard(b: Board, c: Cell)
    requires InBoard(b, c)
    ensures ValidDraw((c.0 as real / b.cols as real, c.1 as real / b.rows as real))
    ensures SampleCell(b, (c.0 as real / b.cols as real, c.1 as real / b.rows as real)) == c
  {
    FractionOfCount(c.0, b.cols);
    FractionOfCount(c.1, b.rows);
    var d := (c.0 as real / b.cols as real, c.1 as real / b.rows as real);
    assert SampleCell(b, d).0 == (d.0 * b.cols as real).Floor == c.0;
    assert SampleCell(b, d).1 == (d.1 * b.rows as real).Floor == c.1;
  }

  /** On a square board the food cells and the collision bounds coincide. */
  lemma SquareBoundsAgree(b: Board, c: Cell)
    requires b.cols == b.rows
    ensures InBoard(b, c) <==> InTiles(b, c)
  {
  }
}
