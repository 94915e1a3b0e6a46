# Snake game: a verified model of the game state

This project models the game logic of a small grid-based snake game written
in C++ (`snake_game.cpp`). A snake of grid cells moves across a 30 x 20 grid
(a 900 x 600 screen with 30-pixel cells). The arrow keys steer it. A single key
press never reverses the direction, but two arrow keys handled in the same
frame can. When its head reaches the
apple, the snake grows by one segment and the apple moves to a random free
cell. The game ends when the head leaves the grid or runs into another
segment.

Modules:

- `Grid` (`grid.dfy`): the screen and grid constants, the `Cell` type, and
  `RandomNumber`, which maps a value returned by `rand()` into a range.
- `Snake` (`snake.dfy`): the body as a sequence of cells, head first. It has
  the functions `Moved` and `Grown` that specify movement and growth, the
  collision predicate `Collides`, and lemmas about the body's invariants.
- `Steering` (`steering.dfy`): the arrow keys and the rule that ignores a
  reversal (`Steer`), applied to each key of a frame (`SteerAll`).
- `Apple` (`apple.dfy`): placing the apple by rejection sampling. The hidden
  random generator becomes a sequence of draws. Each draw is the pair of
  `rand()` results for one attempt.
- `SnakeGame` (`game.dfy`): the game state as a value (`State`, with the
  invariant `Inv`) and the specification of one update (`Step`) and one frame
  (`FrameStep`). The class `Game` holds the same fields and updates them in
  place. Its methods `Move`, `Grow`, `CheckCollision`, `HandleKey`,
  `ResetApple`, `Tick` and `Frame` follow the C++ member functions loop for
  loop, except `Grow` and `Score` (see "Left out"). Each method is proved against the matching specification function.

Consequences of the code's order of operations:

- Growth happens after the move in the same frame (snake_game.cpp:150, 160-162).
  The new segment therefore copies the tail's cell after the move. For a
  one-segment snake that is the head's new cell, not the cell it just left
  (`Snake.GrowAfterMoveDuplicatesHead`, `SnakeGame.FirstMealExample`).
- For the same reason, two segments can share a cell while the game is
  running: the new tail sits on the old tail until the next move. What the
  collision check does guarantee is that, while the game runs, all segments
  except the last are on distinct cells. The model proves this, and also that
  the body stays an unbroken chain of touching cells (`Snake.Chained`) and
  that every segment is on the grid while the game runs.
- Each key event is checked against the direction the previous event left
  (snake_game.cpp:141-144, 256-261). Moving right, Up followed by Left in one
  frame turns the snake around, and a snake of three or more segments then
  runs into itself (`SnakeGame.TwoKeysReverseExample`).
- On a collision the C++ loop leaves `run()` with `break` and does not clear
  `running`. The model clears `running` in `Tick` instead. Both end the game
  loop, and `run()` returns right away, so nothing can observe the
  difference. Once `running` is false, `Tick` and `Frame` change nothing.

## Model

| member | source | states |
|---|---|---|
| `Grid.RandomNumber` | snake_game.cpp:22-26 | for `a <= b` and a non-negative `rand()` value, the result lies in `[a, b]` |
| `Grid.RandomNumberReaches` | snake_game.cpp:23-26 | every value of `[a, b]` is produced by some `rand()` value |
| `Snake.Moved` | snake_game.cpp:266-287 | a move keeps the length, moves the head by `(dx, dy)`, and puts each later segment `i` on old segment `i-1` |
| `Snake.Grown` | snake_game.cpp:290-296 | growth adds exactly one segment, keeps every existing segment, and puts the new last segment on the old last segment's cell |
| `Snake.HeadOnBody` | snake_game.cpp:305-313 | the head's cell is held by a segment at index 1 or more |
| `Snake.Collides` | snake_game.cpp:299-315 | game over: the head is off the 30 x 20 grid, or it is on another segment |
| `Snake.MovedKeepsChained` | snake_game.cpp:266-287 | a move by a step of length at most one keeps every segment touching its predecessor |
| `Snake.GrownKeepsChained` | snake_game.cpp:290-296 | growth keeps every segment touching its predecessor |
| `Snake.MovedStaysInGrid` | snake_game.cpp:299-303 | a move that does not collide leaves every segment on the grid |
| `Snake.GrownStaysInGrid` | snake_game.cpp:290-296 | growth of an on-grid body stays on the grid |
| `Snake.MovedAvoids` | snake_game.cpp:266-287 | after a move, a grid cell the body did not cover is covered exactly when the new head is on it, and never when the move collides |
| `Snake.MovedDistinct` | snake_game.cpp:266-313 | a move that passes the self test, from a body whose segments other than the tail are distinct, leaves all segments distinct |
| `Snake.GrownDistinctPrefix` | snake_game.cpp:290-296 | growth of a body with distinct segments leaves all segments except the new tail distinct |
| `Snake.DistinctPrefix` | snake_game.cpp:266-287 | dropping the tail of a body with distinct segments keeps them distinct |
| `Snake.GrowAfterMoveDuplicatesHead` | snake_game.cpp:150-162 | a one-segment snake that grows right after moving holds two copies of its new head cell |
| `Snake.RightWallHit` | snake_game.cpp:299-303 | a head on the last column moving right collides with the wall |
| `Snake.SelfHitExample` | snake_game.cpp:305-313 | a five-segment hook moving right runs its head into its own body |
| `Steering.Arrow` | snake_game.cpp:236-251 | each arrow key maps to a nonzero cardinal unit vector |
| `Steering.Steer` | snake_game.cpp:227-261 | a non-arrow key leaves the direction unchanged; an arrow key sets its vector unless that vector is the exact reverse of the current one; the result is never the reverse of a nonzero current direction; a valid direction stays valid |
| `Steering.SteerAll` | snake_game.cpp:141-144 | the frame's key events are applied in order; once the direction is a nonzero unit step it never returns to rest |
| `Steering.SteerIdempotent` | snake_game.cpp:227-261 | pressing the same key twice has the effect of pressing it once |
| `Steering.SteerAllValid` | snake_game.cpp:141-144 | any sequence of key presses keeps the direction at rest or a cardinal unit vector |
| `Steering.SteerAllSnoc` | snake_game.cpp:141-144 | handling one more key press applies one more `Steer` step |
| `Steering.OtherKeysIgnored` | snake_game.cpp:252-261 | non-arrow keys never change the direction |
| `Apple.Candidate` | snake_game.cpp:87-88 | every proposed apple cell lies on the grid |
| `Apple.CandidateReaches` | snake_game.cpp:87-88 | every grid cell can be proposed |
| `Apple.FullGridStarves` | snake_game.cpp:83-106 | when the body covers every grid cell, no sequence of draws lets the placement loop stop |
| `Apple.FirstFree` | snake_game.cpp:83-106 | sampling stops at an attempt whose cell is off the body, and every earlier attempt's cell is on the body |
| `Apple.OnBody` | snake_game.cpp:90-101 | the scan reports a collision exactly when some segment occupies the cell |
| `Apple.PlaceApple` | snake_game.cpp:83-106 | the apple ends on the grid and off the body, on the first drawn cell that is free; the number of attempts used is returned |
| `SnakeGame.StartInv` | snake_game.cpp:117 | the starting state (snake at (6, 9) at rest, apple at (12, 18)) satisfies the invariant |
| `SnakeGame.Step` | snake_game.cpp:150-164 | one update: move, stop on a collision, otherwise grow and relocate the apple when the head reaches it; the game keeps running exactly when the moved body does not collide, the direction is unchanged, the length grows by at most one, and the apple moves only on an update that eats |
| `SnakeGame.DrawsUsed` | snake_game.cpp:160-164 | placement attempts are consumed exactly on an update that eats, and never more than are available |
| `SnakeGame.Steered` | snake_game.cpp:141-144 | handling the frame's keys changes only the direction, and a valid direction stays valid |
| `SnakeGame.FrameStep` | snake_game.cpp:138-164 | one pass of the game loop: keys, then update; a stopped game does not change, and the length grows by at most one |
| `SnakeGame.StepKeepsInv` | snake_game.cpp:150-164 | every update keeps the invariant: non-empty body, valid direction, chained body, apple on the grid and off the body, and while running the body on the grid with all segments except the last on distinct cells |
| `SnakeGame.FrameKeepsInv` | snake_game.cpp:138-164 | every frame (key presses, then update) keeps the invariant |
| `SnakeGame.StepLength` | snake_game.cpp:150-164 | an update grows the snake by exactly one segment when the moved head reaches the apple without a collision, and otherwise keeps its length |
| `SnakeGame.CollisionStops` | snake_game.cpp:153-157 | an update that collides ends the game with no growth, the apple unmoved and no draws used |
| `SnakeGame.EatingRelocatesApple` | snake_game.cpp:160-164 | an update that eats grows the moved body and puts the apple on the grid, off the grown body |
| `SnakeGame.PlainMove` | snake_game.cpp:150-164 | an update that neither collides nor eats leaves the body equal to the moved body, the apple, direction and running flag unchanged, and uses no draws |
| `SnakeGame.OverIsFinal` | snake_game.cpp:138-157 | once the game is over, a frame changes nothing |
| `SnakeGame.FirstMealExample` | snake_game.cpp:160-162 | from the start with the apple at (7, 9), pressing Right and updating gives the body `[(7, 9), (7, 9)]` |
| `SnakeGame.ReversalIgnoredExample` | snake_game.cpp:256-261 | while moving right, a Left press is ignored and the head moves right |
| `SnakeGame.TwoKeysReverseExample` | snake_game.cpp:141-144 | moving right with the second segment right behind the head, Up then Left in one frame reverses the direction and a snake of three or more segments collides |
| `SnakeGame.Game.constructor` | snake_game.cpp:117 | the game starts in the starting state, which satisfies the invariant |
| `SnakeGame.Game.Score` | snake_game.cpp:54-64 | the score is the number of segments, and it is at least 1 |
| `SnakeGame.Game.Move` | snake_game.cpp:266-287 | the loop carrying the previous cell leaves the body equal to `Moved` of the old body; nothing else changes |
| `SnakeGame.Game.Grow` | snake_game.cpp:290-296 | the body becomes `Grown` of the old body; nothing else changes |
| `SnakeGame.Game.CheckCollision` | snake_game.cpp:299-315 | returns true exactly when the head is off the grid or equals a segment at index 1 or more |
| `SnakeGame.Game.HandleKey` | snake_game.cpp:227-261 | the direction becomes `Steer` of the old direction and the key; nothing else changes |
| `SnakeGame.Game.ResetApple` | snake_game.cpp:163 | the apple moves to the first drawn cell off the body, on the grid; nothing else changes |
| `SnakeGame.Game.Tick` | snake_game.cpp:150-164 | move, collision check, then growth and apple relocation leave the state equal to `Step` of the old state; the invariant is kept |
| `SnakeGame.Game.Frame` | snake_game.cpp:138-164 | handling the frame's keys in order and then updating gives `FrameStep` of the old state; nothing changes once the game is over |

## Left out

- Window and surface setup and teardown through SDL (snake_game.cpp:119-121, 127-128): these are calls into a graphics library.
- Drawing the apple, the snake and the grid, and refreshing the window (snake_game.cpp:147, 167-172, 187-219): pixel output with no game logic.
- Event polling, the window-close event and the 100 ms frame delay (snake_game.cpp:141-144, 175, 224-225): a frame's key presses are given to `Frame` as a sequence of `Key` values, and quitting is not modelled.
- `rand()` itself (snake_game.cpp:25): its results are passed in as a sequence of draws. Any non-negative value is allowed, so the bound `RAND_MAX` plays no part.
- `Apple.PlaceApple`: the C++ loop runs until a free cell is drawn and never ends when none is. The model requires that the draws contain a free cell (`Apple.Feeds`). `Tick` and `Frame` require this only when the update eats the apple. This can happen in the game itself: a snake of 600 segments that eats the last free cell covers the whole 30 x 20 grid, and the C++ loop then spins forever (`Apple.FullGridStarves`); the model's precondition excludes that update.
- The linked list and its memory management (the recursive destructor and `new Snake`, snake_game.cpp:36-39, 295): the body is a sequence. For this reason `Grow` reaches the tail by its index instead of walking the list, and `Score` reads the length instead of counting nodes.
- `SnakeGame.Game.Score`: the function returns the sequence length; the node-counting loop is not modelled as a loop, for the reason above.
- Printing the final score (snake_game.cpp:155): console output.
- 32-bit `int` overflow: not modelled. The grid constants are small, and a coordinate leaves the grid by at most one cell before the game ends, so no value in the game comes near the limits.
