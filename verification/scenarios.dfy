/** Concrete plays on the 30 by 30 board, each fixing one rule of the game on
    a small state. */
module Scenarios {

  import opened Grid
  import opened Directions
  import opened Food
  import opened Game

  /** Moving right with the neck to the left, the left arrow is a reversal
      and is discarded. */
  lemma ReversalIsDiscarded(food: Cell)
    ensures ApplyKey(State([Cell(5, 5), Cell(4, 5)], Right, food, false), "ArrowLeft").dir == Right
    ensures ApplyKey(State([Cell(5, 5), Cell(4, 5)], Right, food, false), "ArrowUp").dir == Up
  {
  }

  /** On the one-segment start snake every arrow key fails in the reversal
      test and the snake keeps heading right until it has eaten once. */
  lemma StartSnakeCannotTurn(food: Cell, key: string)
    ensures ApplyKey(Initial(food), key).dir == Right
    ensures Lookup(key).Some? ==> HandleKey(InitialSnake, key) == Threw
  {
  }

  /** At the right edge, moving right ends the game on the next tick. */
  lemma RightWallEndsGame(food: Cell, newFood: Cell)
    ensures Tick(State([Cell(29, 5)], Right, food, false), newFood)
            == State([Cell(29, 5)], Right, food, true)
  {
  }

  /** A four-segment snake whose next head is its own tail: the tail has not
      moved out of the way yet, so the game ends and the snake stays put. */
  lemma RunningIntoTheTailEndsGame(food: Cell, newFood: Cell)
    ensures var s := State([Cell(5, 5), Cell(5, 6), Cell(4, 6), Cell(4, 5)], Left, food, false);
            Tick(s, newFood) == s.(gameOver := true)
  {
  }

  /** Eating the food to the right grows the snake to two segments and
      installs the placed cell as the new food. */
  lemma EatingNextToTheHead(newFood: Cell)
    ensures var r := Tick(State([Cell(5, 5)], Right, Cell(6, 5), false), newFood);
            r.snake == [Cell(6, 5), Cell(5, 5)] && r.food == newFood && !r.gameOver
  {
  }
}
