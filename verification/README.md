# Snake game logic in Dafny

A model of the game logic of the browser Snake game in
`mini-app/components/snake-game.tsx`: a snake of grid cells moves on a 30 by 30
board (a 300 pixel canvas cut into 10 pixel cells), one step per timer tick,
steered by the four arrow keys. It grows by one segment when its head lands on
the food, which is then placed again on a random free cell, and the game ends
for good when the head would leave the board or run into the snake.

The component's hooks, timer and canvas are stripped away and what remains is
a pure state machine over `Game.State(snake, dir, food, gameOver)`:

- `Grid` holds the board constants, cells, and the two guards of the tick (the
  wall test and the `some` scan over the snake).
- `Directions` is the arrow-key table.
- `Food` is food placement: the rejection-sampling loop fed with the random
  draws, a recursive definition of the draw it settles on, and placement as a
  specified choice (`:|`) of any free cell.
- `Game` has one function per input: `Tick` for a timer tick and `ApplyKey` for
  a key press, with `Run` folding a sequence of such events.
- `Invariants` proves what the game keeps true: every reachable state has an
  on-board, self-avoiding snake, food on a free cell, a unit direction that
  does not point into the neck, and game over is terminal.
- `Scenarios` pins the rules down on small concrete states.

The random numbers behind food placement are parameters: `Tick` receives the
cell food placement returns for the grown snake (used only when the head eats),
and `Food.GenerateFood` receives the sequence of `Math.random` draws.

The key handler reads the second segment's coordinates
(`mini-app/components/snake-game.tsx:40`) before it decides. With a
one-segment snake that read throws, and the direction is not set. So the start
snake cannot turn until it has eaten once (`Game.HandleKey` returns `Threw`;
see `Scenarios.StartSnakeCannotTurn`).

## Model

| member | source | states |
|---|---|---|
| Grid.HitsWall | mini-app/components/snake-game.tsx:61-66 | the four-edge wall test is true exactly when the cell is off the 30 by 30 board |
| Grid.Occupies | mini-app/components/snake-game.tsx:72 | the coordinate-wise `some` scan is true exactly when the cell is a member of the sequence |
| Directions.Lookup | mini-app/components/snake-game.tsx:8-13 | exactly the four arrow key names are in the table, and each maps to a unit step |
| Directions.TableIsUnitSteps | mini-app/components/snake-game.tsx:8-13 | a step is a unit step if and only if some key maps to it |
| Directions.DoubleStepMovesAway | mini-app/components/snake-game.tsx:8-13 | a unit step never returns to its start, not even after taking it twice |
| Food.Sample | mini-app/components/snake-game.tsx:26-27 | flooring a uniform draw from [0, 1) times the cells per axis gives a coordinate in [0, 30) |
| Food.DrawCell | mini-app/components/snake-game.tsx:25-28 | a drawn cell is always on the board |
| Food.FirstFree | mini-app/components/snake-game.tsx:24-30 | rejection sampling yields an on-board cell outside the excluded list that one of the draws named, and yields nothing exactly when every draw names an excluded cell |
| Food.FirstFreeIsFirst | mini-app/components/snake-game.tsx:24-30 | when all draws before position k are excluded and draw k is not, sampling returns draw k's cell |
| Food.GenerateFood | mini-app/components/snake-game.tsx:22-31 | the draw-by-draw loop with the `some` scan returns exactly the first acceptable draw, or nothing when the draws run out |
| Food.RoomOnTheBoard | mini-app/components/snake-game.tsx:22-31 | while fewer cells are excluded than the board holds, a free cell exists for placement to find |
| Food.ChooseFood | mini-app/components/snake-game.tsx:22-31 | when the board has a free cell, placement returns an on-board cell outside the excluded list |
| Game.Initial | mini-app/components/snake-game.tsx:7-20 | a game starts with one segment, heading right, not over |
| Game.Classify | mini-app/components/snake-game.tsx:51-79 | a tick is halted exactly when the game is over, hits the wall exactly when the new head is off the board, hits itself exactly when the new head is on the board and on the snake, and eats exactly when it is on a free cell holding the food |
| Game.Tick | mini-app/components/snake-game.tsx:51-85 | a tick keeps the direction, changes nothing once the game is over, leaves snake and food alone when it ends the game, changes the length by 0 or 1, grows exactly when the new head is the food, puts head plus direction in front of the old snake's prefix, and replaces the food only on growth |
| Game.HandleKey | mini-app/components/snake-game.tsx:35-45 | an unknown key is ignored, a known key fails on a snake shorter than two, is rejected exactly when its step from the head lands on the second segment, and otherwise turns to that key's step |
| Game.ApplyKey | mini-app/components/snake-game.tsx:35-45 | a key press changes only the direction, and only to a unit step that does not lead onto the second segment |
| Invariants.TickPreservesValid | mini-app/components/snake-game.tsx:55-84 | a tick with honest food placement keeps the snake on the board and self-avoiding, the food on a free cell, and the direction off the neck |
| Invariants.ApplyKeyPreservesValid | mini-app/components/snake-game.tsx:35-45 | a key press keeps a valid state valid |
| Invariants.RunPreservesValid | mini-app/components/snake-game.tsx:35-85 | any interleaving of ticks and key presses keeps a valid state valid |
| Invariants.InitialValid | mini-app/components/snake-game.tsx:7-20 | the start state is valid when its food avoids the start snake |
| Invariants.ReachableStatesValid | mini-app/components/snake-game.tsx:7-85 | in every reachable state the snake's cells are pairwise distinct and on the board |
| Invariants.GameOverIsTerminal | mini-app/components/snake-game.tsx:51-52 | after game over no tick or key press changes the snake or the food or clears game over |
| Invariants.TicksAfterGameOver | mini-app/components/snake-game.tsx:51-52 | after game over any number of ticks leave the whole state, direction included, unchanged |
| Invariants.LengthNeverShrinks | mini-app/components/snake-game.tsx:77-84 | across any run the snake is never shorter than it was |
| Invariants.WallCollisionEndsGame | mini-app/components/snake-game.tsx:60-69 | a new head off the board ends the game with the snake, direction and food unchanged |
| Invariants.SelfCollisionEndsGame | mini-app/components/snake-game.tsx:71-75 | a new head on any segment, the tail included, ends the game and the snake neither moves nor grows |
| Invariants.PlainMove | mini-app/components/snake-game.tsx:77-84 | a tick onto a free non-food cell gives the new head followed by the old snake without its tail, food unchanged |
| Invariants.EatingGrowsAndMovesFood | mini-app/components/snake-game.tsx:77-80 | eating gives the new head followed by the whole old snake, keeps the game running, and installs the placed cell as the food (that this cell avoids the grown snake is proved by `Invariants.TickChoosingFood`) |
| Invariants.KeyTurnsIff | mini-app/components/snake-game.tsx:35-45 | a known key turns the snake if and only if the snake has a second segment and the key's step does not land on it; otherwise nothing changes |
| Invariants.UnknownKeyIgnored | mini-app/components/snake-game.tsx:36-37 | a key outside the table leaves the state unchanged |
| Invariants.TickChoosingFood | mini-app/components/snake-game.tsx:52-85 | a tick that places food by the specified choice, only when eating and only while the grown snake leaves a cell free, is a tick of the model and keeps the state valid; after eating, the snake is one longer and the new food is on the board and off the grown snake |
| Invariants.ValidSnakeFitsBoard | mini-app/components/snake-game.tsx:61-75 | a snake kept on the board and self-avoiding has at most 900 segments |
| Invariants.NewGame | mini-app/components/snake-game.tsx:17-20 | a new game is the start state with food placed off the start snake, and it is valid |
| Scenarios.ReversalIsDiscarded | mini-app/components/snake-game.tsx:39-44 | heading right with the neck to the left, the left arrow is discarded and the up arrow is taken |
| Scenarios.StartSnakeCannotTurn | mini-app/components/snake-game.tsx:7-45 | the one-segment start snake keeps heading right whatever key is pressed |
| Scenarios.RightWallEndsGame | mini-app/components/snake-game.tsx:60-69 | a head at column 29 moving right ends the game on the next tick |
| Scenarios.RunningIntoTheTailEndsGame | mini-app/components/snake-game.tsx:71-75 | a four-segment snake stepping onto its own tail ends the game without moving |
| Scenarios.EatingNextToTheHead | mini-app/components/snake-game.tsx:77-80 | eating the food to the right of a one-segment snake gives two segments, the game still running, and the placed cell as the food |

## Left out

- React state and effect hooks, the 200 ms interval timer and the keydown listener registration: the model takes one tick or one key press as one function call, and `Game.Run` applies a sequence of them in order.
- The stale-closure timing between the direction and food captured by the interval and React's batched state updates: the model applies each event to the latest state.
- Canvas rendering and the "Game Over" text: drawing only, no game logic.
- `Math.random` itself: random numbers are parameters (`Food.GenerateFood` takes the draws, `Game.Tick` takes the placed food), and `Food.ChooseFood` is a specified choice of any free cell.
- Food.Sample: floors the exact real product of the draw and 30, where the game floors the product after it is rounded to a double; for a few draws just below a multiple of 1/30 (0.5666666666666667, for one) the game's coordinate is one larger. Both stay in [0, 30), and no property here depends on which.
- Food.GenerateFood: with a finite list of draws it returns no cell when all draws are excluded, where the game keeps drawing; whether the drawing ends, which depends on the random source, is not modelled.
- Invariants.TickChoosingFood: requires that the grown snake leaves a board cell free, because on a full board the game's food placement never returns.
- The key lookup indexes a JavaScript object, so a key name equal to an inherited property name would also be found; no keyboard key has such a name, and the model's table holds only the four arrow names.
- `mini-app/app/page.tsx` only mounts the component; page metadata is not part of this model.
