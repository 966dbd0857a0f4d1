/** Geometry of the snake board: a square canvas divided into square cells,
    each addressed by an integer coordinate pair. */
module Grid {

  /** Canvas edge and cell edge, in pixels. */
  const CanvasSize: int := 300
  const CellSize: int := 10

  /** Cells along each axis; the game divides the canvas edge by the cell edge. */
  const Size: int := CanvasSize / CellSize

  /** A grid coordinate; also used for the unit step of a direction. */
  datatype Cell = Cell(x: int, y: int)

  /** Componentwise sum: a cell moved by a step. */
  function Add(c: Cell, d: Cell): Cell {
    Cell(c.x + d.x, c.y + d.y)
  }

  /** The reference notion of "on the board": both coordinates in [0, Size). */
  predicate InBounds(c: Cell) {
    0 <= c.x < Size && 0 <= c.y < Size
  }

  predicate AllInBounds(cells: seq<Cell>) {
    forall i :: 0 <= i < |cells| ==> InBounds(cells[i])
  }

  /** No cell occurs twice. */
  predicate Distinct(cells: seq<Cell>) {
    forall i, j :: 0 <= i < j < |cells| ==> cells[i] != cells[j]
  }

  /** The wall guard of the tick, written the way the game tests it: one
      comparison per edge. It agrees exactly with leaving the board. */
  function HitsWall(c: Cell): (b: bool)
    ensures b <==> !InBounds(c)
  {
    c.x < 0 || c.y < 0 || c.x >= Size || c.y >= Size
  }

  /** The game's `some` scan: does any cell of `cells` have the coordinates of
      `c`? It agrees with sequence membership. */
  function Occupies(cells: seq<Cell>, c: Cell): (b: bool)
    ensures b <==> c in cells
    decreases |cells|
  {
    if |cells| == 0 then false
    else (cells[0].x == c.x && cells[0].y == c.y) || Occupies(cells[1..], c)
  }

  /** The cells (0, y) .. (n - 1, y) of row `y`. */
  function RowCells(n: nat, y: int): (r: set<Cell>)
    ensures |r| == n
    ensures forall c :: c in r <==> 0 <= c.x < n && c.y == y
  {
    if n == 0 then {} else RowCells(n - 1, y) + {Cell(n - 1, y)}
  }

  /** The board's first `m` rows. */
  function BoardCells(m: nat): (r: set<Cell>)
    ensures |r| == m * Size
    ensures forall c :: c in r <==> 0 <= c.x < Size && 0 <= c.y < m
  {
    if m == 0 then {} else BoardCells(m - 1) + RowCells(Size, m - 1)
  }

  /** The set of elements of a sequence. */
  function Elements(cells: seq<Cell>): set<Cell> {
    set i | 0 <= i < |cells| :: cells[i]
  }

  /** A sequence has no more distinct elements than it has positions, and
      exactly as many when no cell repeats. */
  lemma {:induction false} ElementsAtMostLength(cells: seq<Cell>)
    ensures |Elements(cells)| <= |cells|
    ensures Distinct(cells) ==> |Elements(cells)| == |cells|
    decreases |cells|
  {
    if |cells| > 0 {
      var init := cells[..|cells| - 1];
      var last := cells[|cells| - 1];
      ElementsAtMostLength(init);
      assert Elements(cells) == Elements(init) + {last} by {
        forall c | c in Elements(cells)
          ensures c in Elements(init) + {last}
        {
          var i :| 0 <= i < |cells| && cells[i] == c;
          if i < |cells| - 1 {
            assert init[i] == c;
          }
        }
        forall c | c in Elements(init)
          ensures c in Elements(cells)
        {
          var i :| 0 <= i < |init| && init[i] == c;
          assert cells[i] == c;
        }
      }
      if Distinct(cells) {
        assert Distinct(init);
        assert last !in Elements(init);
      }
    }
  }

  lemma SubsetNoLarger(a: set<Cell>, b: set<Cell>)
    ensures a <= b ==> |a| <= |b|
  {
    if a <= b {
      assert b == a + (b - a);
    }
  }
}
