/** Food placement: a uniformly random board cell, redrawn until it avoids
    every excluded cell. */
module Food {

  import opened Options
  import opened Grid

  /** A cell the food may be placed on: on the board and not excluded. */
  predicate FreeCell(c: Cell, exclude: seq<Cell>) {
    InBounds(c) && c !in exclude
  }

  /** Some cell of the board is not excluded (the board is not full). */
  predicate HasFreeCell(exclude: seq<Cell>) {
    exists x, y :: 0 <= x < Size && 0 <= y < Size && FreeCell(Cell(x, y), exclude)
  }

  /** Pigeonhole: fewer excluded positions than board cells leave a free
      cell, so food placement has something to find. */
  lemma RoomOnTheBoard(exclude: seq<Cell>)
    requires |exclude| < Size * Size
    ensures HasFreeCell(exclude)
  {
    var board := BoardCells(Size);
    var occupied := Elements(exclude);
    ElementsAtMostLength(exclude);
    SubsetNoLarger(board, occupied);
    assert !(board <= occupied);
    var c :| c in board && c !in occupied;
    assert c !in exclude;
    assert FreeCell(Cell(c.x, c.y), exclude);
  }

  /** One coordinate drawn from a uniform random number `u` in [0, 1): the
      floor of `u` times the number of cells per axis. */
  function Sample(u: real): (r: int)
    requires 0.0 <= u < 1.0
    ensures 0 <= r < Size
  {
    assert Size == 30;
    var scaled := u * Size as real;
    assert 0.0 <= scaled < 30.0;
    scaled.Floor
  }

  /** A pair of random numbers, one per axis, as the game draws them. */
  type Draw = (real, real)

  predicate ValidDraw(dr: Draw) {
    0.0 <= dr.0 < 1.0 && 0.0 <= dr.1 < 1.0
  }

  function DrawCell(dr: Draw): (c: Cell)
    requires ValidDraw(dr)
    ensures InBounds(c)
  {
    Cell(Sample(dr.0), Sample(dr.1))
  }

  /** Every draw of `draws` names an excluded cell. */
  predicate AllRejected(draws: seq<Draw>, exclude: seq<Cell>)
    requires forall i :: 0 <= i < |draws| ==> ValidDraw(draws[i])
  {
    forall i :: 0 <= i < |draws| ==> DrawCell(draws[i]) in exclude
  }

  /** The cell rejection sampling settles on: the first draw that names a
      free cell. `None` means the given draws ran out before one was
      accepted, where the game would keep drawing. */
  function FirstFree(exclude: seq<Cell>, draws: seq<Draw>): (r: Option<Cell>)
    requires forall i :: 0 <= i < |draws| ==> ValidDraw(draws[i])
    ensures r.Some? ==> FreeCell(r.value, exclude)
    ensures r.Some? ==> exists k :: 0 <= k < |draws| && r.value == DrawCell(draws[k])
    ensures r.None? <==> AllRejected(draws, exclude)
    decreases |draws|
  {
    if |draws| == 0 then None
    else if DrawCell(draws[0]) !in exclude then Some(DrawCell(draws[0]))
    else
      var rest := FirstFree(exclude, draws[1..]);
      assert rest.Some? ==> exists k :: 0 <= k < |draws| && rest.value == DrawCell(draws[k]) by {
        if rest.Some? {
          var k :| 0 <= k < |draws[1..]| && rest.value == DrawCell(draws[1..][k]);
          assert draws[1..][k] == draws[k + 1];
        }
      }
      assert AllRejected(draws[1..], exclude) ==> AllRejected(draws, exclude) by {
        if AllRejected(draws[1..], exclude) {
          forall i | 1 <= i < |draws|
            ensures DrawCell(draws[i]) in exclude
          {
            assert draws[i] == draws[1..][i - 1];
          }
        }
      }
      assert AllRejected(draws, exclude) ==> AllRejected(draws[1..], exclude) by {
        if AllRejected(draws, exclude) {
          forall i | 0 <= i < |draws| - 1
            ensures DrawCell(draws[1..][i]) in exclude
          {
            assert draws[1..][i] == draws[i + 1];
          }
        }
      }
      rest
  }

  /** Rejection sampling stops at the first acceptable draw: when every
      draw before position `k` is excluded and draw `k` is not, the sampler
      returns draw `k`'s cell. */
  lemma {:induction false} FirstFreeIsFirst(exclude: seq<Cell>, draws: seq<Draw>, k: nat)
    requires forall i :: 0 <= i < |draws| ==> ValidDraw(draws[i])
    requires k < |draws| && DrawCell(draws[k]) !in exclude
    requires forall i :: 0 <= i < k ==> DrawCell(draws[i]) in exclude
    ensures FirstFree(exclude, draws) == Some(DrawCell(draws[k]))
    decreases k
  {
    if k > 0 {
      assert DrawCell(draws[0]) in exclude;
      forall i | 0 <= i < k - 1
        ensures DrawCell(draws[1..][i]) in exclude
      {
        assert draws[1..][i] == draws[i + 1];
      }
      assert draws[1..][k - 1] == draws[k];
      FirstFreeIsFirst(exclude, draws[1..], k - 1);
    }
  }

  /** The game's rejection-sampling loop, fed with the random draws in the
      order they are made: it stops at the first draw whose cell the `some`
      scan does not find in `exclude`. */
  method GenerateFood(exclude: seq<Cell>, draws: seq<Draw>) returns (r: Option<Cell>)
    requires forall i :: 0 <= i < |draws| ==> ValidDraw(draws[i])
    ensures r == FirstFree(exclude, draws)
  {
    var k := 0;
    while k < |draws|
      invariant 0 <= k <= |draws|
      invariant FirstFree(exclude, draws[k..]) == FirstFree(exclude, draws)
    {
      var candidate := DrawCell(draws[k]);
      if !Occupies(exclude, candidate) {
        return Some(candidate);
      }
      assert draws[k..][1..] == draws[k + 1..];
      k := k + 1;
    }
    return None;
  }

  /** Food placement as a specified choice: some free cell, whichever one the
      random draws settle on. */
  method ChooseFood(exclude: seq<Cell>) returns (c: Cell)
    requires HasFreeCell(exclude)
    ensures FreeCell(c, exclude)
  {
    var x, y :| 0 <= x < Size && 0 <= y < Size && FreeCell(Cell(x, y), exclude);
    c := Cell(x, y);
  }
}
