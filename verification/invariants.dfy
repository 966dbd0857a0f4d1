/** What the game keeps true from one state to the next: the snake stays on
    the board without overlapping itself, the food sits on a free cell, the
    direction is a unit step that does not point back into the neck, and a
    finished game stays finished. */
module Invariants {

  import opened Options
  import opened Grid
  import opened Directions
  import opened Food
  import opened Game

  /** The next step does not lead onto the second segment. */
  predicate NoReversal(s: State) {
    |s.snake| >= 2 ==> Add(s.snake[0], s.dir) != s.snake[1]
  }

  predicate Valid(s: State) {
    && |s.snake| > 0
    && AllInBounds(s.snake)
    && Distinct(s.snake)
    && IsUnitStep(s.dir)
    && FreeCell(s.food, s.snake)
    && NoReversal(s)
  }

  /** The food handed to a tick is an honest placement: when the head eats,
      it is a free cell for the grown snake. */
  predicate HonestFood(s: State, newFood: Cell)
    requires |s.snake| > 0
  {
    Classify(s) == Ate ==> FreeCell(newFood, [NewHead(s)] + s.snake)
  }

  predicate HonestEvent(s: State, e: Event)
    requires |s.snake| > 0
  {
    e.TickEvent? ==> HonestFood(s, e.newFood)
  }

  /** Every tick of the run is given an honest food placement for the state
      it is applied to. */
  predicate HonestRun(s: State, events: seq<Event>)
    requires |s.snake| > 0
    decreases |events|
  {
    |events| == 0 || (HonestEvent(s, events[0]) && HonestRun(Apply(s, events[0]), events[1..]))
  }

  predicate OnlyTicks(events: seq<Event>) {
    forall i :: 0 <= i < |events| ==> events[i].TickEvent?
  }

  lemma DistinctCons(h: Cell, cells: seq<Cell>)
    requires Distinct(cells) && h !in cells
    ensures Distinct([h] + cells)
  {
    var t := [h] + cells;
    forall i, j | 0 <= i < j < |t|
      ensures t[i] != t[j]
    {
      if i == 0 {
        assert t[j] == cells[j - 1];
      } else {
        assert t[i] == cells[i - 1] && t[j] == cells[j - 1];
      }
    }
  }

  /** The guard order matters only for which outcome is reported: a tick that
      is not stopped and does not eat moves onto a free, in-bounds cell other
      than the food. */
  lemma MovedFacts(s: State)
    requires |s.snake| > 0 && Classify(s) == Moved
    ensures InBounds(NewHead(s)) && NewHead(s) !in s.snake && NewHead(s) != s.food
  {
  }

  /** A tick keeps a valid state valid, given an honest food placement. */
  lemma TickPreservesValid(s: State, newFood: Cell)
    requires Valid(s) && HonestFood(s, newFood)
    ensures Valid(Tick(s, newFood))
  {
    var r := Tick(s, newFood);
    var h := NewHead(s);
    match Classify(s)
    case Halted =>
    case HitWall =>
    case HitSelf =>
    case Ate =>
      assert r.snake == [h] + s.snake;
      DistinctCons(h, s.snake);
      DoubleStepMovesAway(s.snake[0], s.dir);
      assert r.snake[1] == s.snake[0];
    case Moved =>
      MovedFacts(s);
      var body := s.snake[..|s.snake| - 1];
      assert r.snake == [h] + body;
      assert forall c :: c in body ==> c in s.snake;
      DistinctCons(h, body);
      if |r.snake| >= 2 {
        DoubleStepMovesAway(s.snake[0], s.dir);
        assert r.snake[1] == s.snake[0];
      }
  }

  /** A key press keeps a valid state valid. */
  lemma ApplyKeyPreservesValid(s: State, key: string)
    requires Valid(s)
    ensures Valid(ApplyKey(s, key))
  {
  }

  lemma ApplyPreservesValid(s: State, e: Event)
    requires Valid(s) && HonestEvent(s, e)
    ensures Valid(Apply(s, e))
  {
    match e
    case TickEvent(newFood) => TickPreservesValid(s, newFood);
    case KeyEvent(key) => ApplyKeyPreservesValid(s, key);
  }

  /** Any run of ticks and key presses with honest food placement keeps a
      valid state valid. */
  lemma {:induction false} RunPreservesValid(s: State, events: seq<Event>)
    requires Valid(s) && HonestRun(s, events)
    ensures Valid(Run(s, events))
    decreases |events|
  {
    if |events| > 0 {
      ApplyPreservesValid(s, events[0]);
      RunPreservesValid(Apply(s, events[0]), events[1..]);
    }
  }

  /** The start state is valid whenever its food avoids the initial snake. */
  lemma InitialValid(food: Cell)
    requires FreeCell(food, InitialSnake)
    ensures Valid(Initial(food))
  {
  }

  /** Every state reachable from the start is valid; in particular no two
      segments of the snake ever coincide and all of them are on the board. */
  lemma ReachableStatesValid(food: Cell, events: seq<Event>)
    requires FreeCell(food, InitialSnake) && HonestRun(Initial(food), events)
    ensures Valid(Run(Initial(food), events))
    ensures Distinct(Run(Initial(food), events).snake)
    ensures AllInBounds(Run(Initial(food), events).snake)
  {
    InitialValid(food);
    RunPreservesValid(Initial(food), events);
  }

  /** A valid snake fits on the board: it has at most one segment per cell. */
  lemma ValidSnakeFitsBoard(s: State)
    requires Valid(s)
    ensures |s.snake| <= Size * Size
  {
    ElementsAtMostLength(s.snake);
    SubsetNoLarger(Elements(s.snake), BoardCells(Size));
  }

  /** Game over is terminal: no later tick or key press moves the snake,
      replaces the food or restarts the game. */
  lemma {:induction false} GameOverIsTerminal(s: State, events: seq<Event>)
    requires |s.snake| > 0 && s.gameOver
    ensures Run(s, events).gameOver
    ensures Run(s, events).snake == s.snake && Run(s, events).food == s.food
    decreases |events|
  {
    if |events| > 0 {
      GameOverIsTerminal(Apply(s, events[0]), events[1..]);
    }
  }

  /** After game over, ticks alone change nothing at all, direction included. */
  lemma {:induction false} TicksAfterGameOver(s: State, events: seq<Event>)
    requires |s.snake| > 0 && s.gameOver && OnlyTicks(events)
    ensures Run(s, events) == s
    decreases |events|
  {
    if |events| > 0 {
      assert events[0].TickEvent?;
      assert OnlyTicks(events[1..]) by {
        forall i | 0 <= i < |events[1..]|
          ensures events[1..][i].TickEvent?
        {
          assert events[1..][i] == events[i + 1];
        }
      }
      TicksAfterGameOver(Apply(s, events[0]), events[1..]);
    }
  }

  /** The snake never gets shorter. */
  lemma {:induction false} LengthNeverShrinks(s: State, events: seq<Event>)
    requires |s.snake| > 0
    ensures |Run(s, events).snake| >= |s.snake|
    decreases |events|
  {
    if |events| > 0 {
      LengthNeverShrinks(Apply(s, events[0]), events[1..]);
    }
  }

  /** Leaving the board ends the game and leaves everything else as it was. */
  lemma WallCollisionEndsGame(s: State, newFood: Cell)
    requires |s.snake| > 0 && !s.gameOver && !InBounds(NewHead(s))
    ensures Tick(s, newFood) == s.(gameOver := true)
  {
  }

  /** Running into any segment, the current tail included, ends the game; the
      snake neither moves nor grows. */
  lemma SelfCollisionEndsGame(s: State, newFood: Cell, i: nat)
    requires |s.snake| > 0 && !s.gameOver && InBounds(NewHead(s))
    requires i < |s.snake| && NewHead(s) == s.snake[i]
    ensures Tick(s, newFood) == s.(gameOver := true)
  {
  }

  /** A tick onto a free cell that is not the food moves the snake: the new
      head goes in front and the tail cell is dropped. */
  lemma PlainMove(s: State, newFood: Cell)
    requires |s.snake| > 0 && !s.gameOver
    requires InBounds(NewHead(s)) && NewHead(s) !in s.snake && NewHead(s) != s.food
    ensures Tick(s, newFood).snake == [Add(s.snake[0], s.dir)] + s.snake[..|s.snake| - 1]
    ensures !Tick(s, newFood).gameOver && Tick(s, newFood).food == s.food
  {
  }

  /** Eating grows the snake by its new head, keeps the game running, and
      installs the placed cell as the new food. That this cell avoids the grown
      snake is up to placement; see `TickChoosingFood`. */
  lemma EatingGrowsAndMovesFood(s: State, newFood: Cell)
    requires |s.snake| > 0 && !s.gameOver
    requires InBounds(NewHead(s)) && NewHead(s) !in s.snake && NewHead(s) == s.food
    ensures Tick(s, newFood).snake == [Add(s.snake[0], s.dir)] + s.snake
    ensures Tick(s, newFood).food == newFood && !Tick(s, newFood).gameOver
  {
  }

  /** A key press turns the snake to the key's step exactly when the key is in
      the table, the snake has a second segment, and the step does not lead
      onto it; otherwise the direction is kept. */
  lemma KeyTurnsIff(s: State, key: string, d: Cell)
    requires Lookup(key) == Some(d) && d != s.dir
    ensures ApplyKey(s, key).dir == d <==> |s.snake| >= 2 && Add(s.snake[0], d) != s.snake[1]
    ensures ApplyKey(s, key).dir != d ==> ApplyKey(s, key) == s
  {
  }

  /** A key that is not in the table leaves the state as it was. */
  lemma UnknownKeyIgnored(s: State, key: string)
    requires key !in {"ArrowUp", "ArrowDown", "ArrowLeft", "ArrowRight"}
    ensures ApplyKey(s, key) == s
  {
  }

  /** The tick as the game runs it: food is placed by the specified choice,
      and only when the head lands on the food. Placement needs a free cell,
      which exists as long as the grown snake does not fill the board. */
  method TickChoosingFood(s: State) returns (r: State)
    requires Valid(s)
    requires Classify(s) == Ate ==> |s.snake| + 1 < Size * Size
    ensures r == Tick(s, r.food)
    ensures Classify(s) == Ate ==> |r.snake| == |s.snake| + 1 && FreeCell(r.food, r.snake)
    ensures Valid(r)
  {
    var newFood := s.food;
    if Classify(s) == Ate {
      RoomOnTheBoard([NewHead(s)] + s.snake);
      newFood := ChooseFood([NewHead(s)] + s.snake);
    }
    r := Tick(s, newFood);
    TickPreservesValid(s, newFood);
  }

  /** A new game: the initial snake, heading right, with food placed off it. */
  method NewGame() returns (s: State)
    ensures s == Initial(s.food)
    ensures Valid(s)
  {
    RoomOnTheBoard(InitialSnake);
    var food := ChooseFood(InitialSnake);
    s := Initial(food);
  }
}
