/** The snake game as a pure state machine: one timer tick or one key press is
    one function call from a state to the next state. */
module Game {

  import opened Options
  import opened Grid
  import opened Directions

  /** The whole game state: the snake head first, the current step, the food
      cell and whether the game has ended. */
  datatype State = State(snake: seq<Cell>, dir: Cell, food: Cell, gameOver: bool)

  /** The one-segment snake every game starts with. */
  const InitialSnake: seq<Cell> := [Cell(5, 5)]

  /** The starting state; `food` is the cell food placement picked while
      avoiding the initial snake. */
  function Initial(food: Cell): (s: State)
    ensures |s.snake| == 1 && !s.gameOver && s.dir == Right
  {
    State(InitialSnake, Right, food, false)
  }

  /** Where the head goes on the next tick. */
  function NewHead(s: State): Cell
    requires |s.snake| > 0
  {
    Add(s.snake[0], s.dir)
  }

  /** What a tick does, decided by the guards in the order the game tests them. */
  datatype TickOutcome = Halted | HitWall | HitSelf | Ate | Moved

  function Classify(s: State): (o: TickOutcome)
    requires |s.snake| > 0
    ensures o == Halted <==> s.gameOver
    ensures o == HitWall <==> !s.gameOver && !InBounds(NewHead(s))
    ensures o == HitSelf <==> !s.gameOver && InBounds(NewHead(s)) && NewHead(s) in s.snake
    ensures o == Ate <==> !s.gameOver && InBounds(NewHead(s)) && NewHead(s) !in s.snake
                          && NewHead(s) == s.food
  {
    var h := NewHead(s);
    if s.gameOver then Halted
    else if HitsWall(h) then HitWall
    else if Occupies(s.snake, h) then HitSelf
    else if h.x == s.food.x && h.y == s.food.y then Ate
    else Moved
  }

  /** One timer tick. `newFood` is the cell food placement returns for the grown
      snake; it is only looked at when the head lands on the food. */
  function Tick(s: State, newFood: Cell): (r: State)
    requires |s.snake| > 0
    ensures s.gameOver ==> r == s
    ensures r.dir == s.dir
    ensures r.gameOver ==> r.snake == s.snake && r.food == s.food
    ensures |r.snake| == |s.snake| || |r.snake| == |s.snake| + 1
    ensures |r.snake| == |s.snake| + 1 <==> !r.gameOver && r.snake[0] == s.food
    ensures !r.gameOver ==> r.snake[0] == Add(s.snake[0], s.dir)
                            && r.snake[1..] == s.snake[..|r.snake| - 1]
    ensures r.food == (if |r.snake| == |s.snake| + 1 then newFood else s.food)
  {
    match Classify(s)
    case Halted => s
    case HitWall => s.(gameOver := true)
    case HitSelf => s.(gameOver := true)
    case Ate => s.(snake := [NewHead(s)] + s.snake, food := newFood)
    case Moved => s.(snake := [NewHead(s)] + s.snake[..|s.snake| - 1])
  }

  /** What a key press does. `Threw` is a recognised key pressed while the
      snake has fewer than two segments: the reversal test reads the second
      segment, which does not exist, so the handler fails before it can set
      the direction. */
  datatype KeyEffect = Ignored | Threw | Reversal | Turn(d: Cell)

  function HandleKey(snake: seq<Cell>, key: string): (e: KeyEffect)
    ensures e == Ignored <==> Lookup(key).None?
    ensures e == Threw <==> Lookup(key).Some? && |snake| < 2
    ensures e == Reversal <==> Lookup(key).Some? && |snake| >= 2
                               && Add(snake[0], Lookup(key).value) == snake[1]
    ensures e.Turn? ==> Lookup(key) == Some(e.d)
  {
    match Lookup(key)
    case None => Ignored
    case Some(d) =>
      if |snake| < 2 then Threw
      else if snake[0].x + d.x != snake[1].x || snake[0].y + d.y != snake[1].y then Turn(d)
      else Reversal
  }

  /** The state after a key press: only the direction can change. */
  function ApplyKey(s: State, key: string): (r: State)
    ensures r.snake == s.snake && r.food == s.food && r.gameOver == s.gameOver
    ensures r.dir != s.dir ==> IsUnitStep(r.dir) && |s.snake| >= 2
                               && Add(s.snake[0], r.dir) != s.snake[1]
  {
    match HandleKey(s.snake, key)
    case Turn(d) => s.(dir := d)
    case _ => s
  }

  /** The two inputs that drive the game. */
  datatype Event = TickEvent(newFood: Cell) | KeyEvent(key: string)

  function Apply(s: State, e: Event): (r: State)
    requires |s.snake| > 0
    ensures |r.snake| > 0
  {
    match e
    case TickEvent(newFood) => Tick(s, newFood)
    case KeyEvent(key) => ApplyKey(s, key)
  }

  /** The state after a sequence of events, in order. */
  function Run(s: State, events: seq<Event>): (r: State)
    requires |s.snake| > 0
    ensures |r.snake| > 0
    decreases |events|
  {
    if |events| == 0 then s else Run(Apply(s, events[0]), events[1..])
  }
}
