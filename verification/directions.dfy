/** The four-entry direction table that maps arrow keys to unit steps. */
module Directions {

  import opened Options
  import opened Grid

  const Up: Cell := Cell(0, -1)
  const Down: Cell := Cell(0, 1)
  const Left: Cell := Cell(-1, 0)
  const Right: Cell := Cell(1, 0)

  function Abs(n: int): nat {
    if n < 0 then -n else n
  }

  /** A unit step along one axis: the independent description of what the
      table holds. */
  predicate IsUnitStep(d: Cell) {
    Abs(d.x) + Abs(d.y) == 1
  }

  /** The table lookup by key name; any other key is not in the table. */
  function Lookup(key: string): (r: Option<Cell>)
    ensures r.Some? ==> IsUnitStep(r.value)
    ensures r.Some? <==> key in {"ArrowUp", "ArrowDown", "ArrowLeft", "ArrowRight"}
  {
    if key == "ArrowUp" then Some(Up)
    else if key == "ArrowDown" then Some(Down)
    else if key == "ArrowLeft" then Some(Left)
    else if key == "ArrowRight" then Some(Right)
    else None
  }

  /** The table is exactly the set of unit steps: every entry is one, and
      every unit step is the entry of some key. */
  lemma TableIsUnitSteps(d: Cell)
    ensures IsUnitStep(d) <==> exists key :: Lookup(key) == Some(d)
  {
    if IsUnitStep(d) {
      var key := if d == Up then "ArrowUp" else if d == Down then "ArrowDown"
                 else if d == Left then "ArrowLeft" else "ArrowRight";
      assert Lookup(key) == Some(d);
    }
  }

  /** Two steps in the same direction never lead back to the start, so a
      snake that keeps its direction never turns onto its second segment. */
  lemma DoubleStepMovesAway(c: Cell, d: Cell)
    requires IsUnitStep(d)
    ensures Add(Add(c, d), d) != c
    ensures Add(c, d) != c
  {
  }
}
