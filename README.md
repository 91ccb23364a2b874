# Snake game component — a Dafny model

This project models the state logic of the React Snake game component
`Game` (`snake/src/components/snake/Game.tsx`) and proves properties of it.
The component keeps a snake (a list of grid cells, head first), a direction,
an optional apple, a score, and the flags `isPlaying` and `isGameOver`, together
with a 2D canvas context. A timer tick moves the snake, places an apple when
none is set, and ends the game on a wall hit, a tail hit or a missing context.
When the head from before the move is on the apple, the tick grows the snake
and adds one point. The play button flips `isPlaying`. An effect resets the
game when play is pressed after a game over. Arrow keys (or the configured
keys) are filtered through a reducer that refuses reversals.

Files:

- `wrappers.dfy` — `Option`, the model's stand-in for `null` and for a thrown exception.
- `snake_rules.dfy` — module `SnakeRules`: the pure helpers `getInitSnake`,
  `directionReducer`, `getSnakeCoordinate`, `getRandomAppleCoordinate`,
  `getAppleCoordinate`, `ateApple`, `hitWall` and `hitTail`, and the key map.
  They become functions, with lemmas about them.
- `snake_game.dfy` — module `SnakeGame`:
  - the state as a value (`GameState`), with the functions `TickStep` and
    `RestartStep`;
  - the invariant they keep: length is 3 + score, and the cells and the apple
    are grid-aligned, with the apple on the canvas;
  - the class `Game`, whose fields are the state hooks and whose methods update
    them step by step as the setters do. Each method is proved to leave exactly
    the state the functions describe.
- `snake_scenarios.dfy` — scenarios on the configuration the application
  mounts (500 x 500, cell 20, arrow keys) and on small 80 x 40 and 60 x 40
  canvases.

Behaviours of the code that the model keeps and proves:

- `DirectionValue.DEFAULT` and `RIGHT` are the same string `'right'`, so a
  right request always takes the "default" branch. The reducer therefore
  refuses only right→left, up→down and down→up. A right request while moving
  left is accepted, and the next tick is a tail hit
  (`RightWhileMovingLeftEndsGame`, `ReverseIntoNeck`).
- The apple test at line 235 looks at the head from *before* the move. The
  apple is eaten on the tick after the head enters its cell, and the apple's
  cell is appended at the tail end (`AppleAhead`). An apple placed during a
  tick is therefore never eaten on that same tick.
- `setApple` runs before the wall and tail checks, so an apple placed during a
  tick that ends the game is kept, although the snake and score are not
  committed.
- The wall test looks at the head's top-left corner against the closed
  rectangle [0, width] x [0, height]. A head at `x == width` lies wholly off the
  canvas and is not a hit; the next step is (`FarEdgeIsNotWall`, `RightWall`).
- An apple candidate is `floor(r * (dim - cell) / cell) * cell` with
  0 <= r < 1, so it never lands in the last column or the last row of the
  canvas (`RandomAppleCoordinate`).
- Reversal is refused for up, down and right but accepted for left: the reducer
  applied to `(d, opposite(d))` returns `d` exactly when `d` is not left
  (`OppositeRequestVetoed`).
- The reducer compares a request with the pending direction, not with the
  direction of the last move. Two keys pressed before one tick, a sideways turn
  and then the reversal of the last move (right, then up, then left), are both
  accepted, and the tick bites the neck (`TwoKeysReverse`).
- The room check at line 34 asks for `3c <= w`, but the head is laid out at
  `x = 3c`, so its square fits only when `4c <= w`. On a canvas 3 cells wide
  the game mounts with the head wholly off the canvas, at `x == w`; the wall
  test does not catch it, and the first step right does (`InitHeadOnCanvas`,
  `NarrowCanvas`).
- Growth appends the cell of the pre-move head, which after the move is also
  the neck, so the last cell of a grown snake repeats its second one
  (`GrowthRepeatsNeck`; `AppleAhead` shows `[100, 80, 60, 80]`).
- A new apple is placed away from the pre-move snake, so it may land on the
  cell the head moves into in the same tick; it is then eaten on the next
  tick (`AppleAhead`).

`Math.random()` is replaced by caller-supplied draws. Each draw is a pair of
exact fractions `num/den` with `0 <= num < den`, and every double in [0, 1) has
that form. The retrying `getAppleCoordinate` takes the first draw whose cell
is free. Two cases are told apart:

- Some candidate cell is free, but every supplied draw lands on the snake.
  The tick reports `AwaitingApple` and changes nothing. A free cell is reached
  by some draw (`FreeCellIsDrawable`), so a longer sequence of draws stands for
  the source drawing again.
- Every candidate cell is on the snake (`BoardFull`). Then no draws at all
  yield an apple (`FullBoardHasNoApple`), and the source's retry never returns.
  Each retry is a recursive call; engines that do not eliminate tail calls
  (V8, SpiderMonkey) run out of stack. The
  `RangeError` is caught at lines 242-246 like the thrown errors, and the game
  ends. The model's tick reports `NoFreeCell` with `isPlaying` false and
  `isGameOver` true, and stores no apple. The candidates never include the last
  column or the last row, so this is reachable: on an 80 x 40 canvas with
  20-pixel cells the only candidates are (0, 0), (20, 0) and (40, 0)
  (`FullBoard`).

## Model

| member | source | states |
|---|---|---|
| `SnakeRules.InitRow` | snake/src/components/snake/Game.tsx:32 | the start row `floor(h/c/2)*c` is a multiple of `c`, and its top edge is at or above the canvas middle, within one cell of it |
| `SnakeRules.InitSnake` | snake/src/components/snake/Game.tsx:31-43 | fails exactly when `3c > w` or `y + c > h`; otherwise gives three cells on row `y`, head at `(3c, y)`, each next cell one cell further left |
| `SnakeRules.RowLayoutFits` | snake/src/components/snake/Game.tsx:38-42 | three cells at `x = 3c, 2c, c` on a row with room for a cell are pairwise distinct and no wall hit; their top-left corners lie within `(0, w]` and their squares within the height |
| `SnakeRules.InitSnakeAligned` | snake/src/components/snake/Game.tsx:31-43 | every cell of a successful layout is a multiple of `c` in both coordinates |
| `SnakeRules.InitSnakeFits` | snake/src/components/snake/Game.tsx:31-43 | a successful layout is grid-aligned, pairwise distinct (so not a tail hit) and no wall hit; top-left corners lie within `(0, w]` and squares within the height; the canvas is at least 3 cells wide and 1 high |
| `SnakeRules.InitHeadOnCanvas` | snake/src/components/snake/Game.tsx:34-42 | after a successful layout the two body cells lie on the canvas, and the head's square does exactly when `4c <= w` (the check asks only `3c <= w`) |
| `SnakeRules.DirectionReducer` | snake/src/components/snake/Game.tsx:45-60 | the result is the current or the requested direction; a right (default) request is always taken; the request is refused exactly for right→left, up→down and down→up |
| `SnakeRules.OppositeRequestVetoed` | snake/src/components/snake/Game.tsx:10-16 | reversing is refused for every direction except left, where right is accepted |
| `SnakeRules.ReducerIdempotent` | snake/src/components/snake/Game.tsx:45-60 | dispatching the same request twice gives the same direction as dispatching it once |
| `SnakeRules.ShiftOpposite` | snake/src/components/snake/Game.tsx:67-77 | a step along a direction followed by a step along its opposite returns to the start |
| `SnakeRules.ShiftKeepsAlignment` | snake/src/components/snake/Game.tsx:74-77 | moving a grid-aligned head by one cell keeps it grid-aligned |
| `SnakeRules.Move` | snake/src/components/snake/Game.tsx:62-80 | same length; the new head is the old head plus `cell` times the direction's unit vector; new cell `i+1` is old cell `i`, so the last cell is dropped |
| `SnakeRules.MoveKeepsAlignment` | snake/src/components/snake/Game.tsx:62-80 | the moved snake is grid-aligned when the old one is |
| `SnakeRules.ReversalBitesNeck` | snake/src/components/snake/Game.tsx:112-113 | a snake of three or more cells that moves back the way it came puts its head on a body cell, which is a tail hit |
| `SnakeRules.RightWhileMovingLeftEndsGame` | snake/src/components/snake/Game.tsx:45-48 | right is accepted while moving left, and the following move is a tail hit |
| `SnakeRules.TwoKeysReverse` | snake/src/components/snake/Game.tsx:45-60 | a sideways request followed by the opposite of the last move, both before a tick, leaves the pending direction reversed, and that move is a tail hit |
| `SnakeRules.CandidateIndexBounds` | snake/src/components/snake/Game.tsx:88-89 | for `0 <= r < 1` the grid index `floor(r*(dim-cell)/cell)` is non-negative, and its cell stays within `dim - cell` (strictly below it when `dim > cell`) |
| `SnakeRules.CandidateIndex` | snake/src/components/snake/Game.tsx:88-89 | a draw's grid index is one of the `CandidateCount` indices `0 .. floor((dim-1)/cell) - 1` (index 0 alone when `dim == cell`), and its cell lies within `dim - cell` |
| `SnakeRules.IndexDraw` | snake/src/components/snake/Game.tsx:88-89 | every one of those indices is the index of some draw in [0, 1), so the candidate range is exactly that set |
| `SnakeRules.DrawAt` | snake/src/components/snake/Game.tsx:82-91 | every grid cell of the candidate range is the candidate apple of some draw |
| `SnakeRules.CandidateCoordinate` | snake/src/components/snake/Game.tsx:86-90 | a candidate coordinate is a multiple of `cell`; its square lies on the canvas, and never in the last column or row when the canvas is wider than one cell |
| `SnakeRules.RandomAppleCoordinate` | snake/src/components/snake/Game.tsx:82-91 | a candidate apple is grid-aligned and on the canvas, and never in the last column or last row |
| `SnakeRules.AppleCoordinate` | snake/src/components/snake/Game.tsx:93-102 | the apple is the first candidate, in draw order, that is not a snake cell; none is found exactly when every candidate is a snake cell; the apple is aligned and on the canvas |
| `SnakeRules.FullBoardHasNoApple` | snake/src/components/snake/Game.tsx:93-102 | when every candidate cell is on the snake, no sequence of draws yields an apple: the retry never returns |
| `SnakeRules.FreeCellIsDrawable` | snake/src/components/snake/Game.tsx:93-102 | when some candidate cell is free, some draw yields a cell off the snake, which ends the retry |
| `SnakeRules.AteApple` | snake/src/components/snake/Game.tsx:104-105 | holds exactly when the head equals the apple |
| `SnakeRules.HitTail` | snake/src/components/snake/Game.tsx:112-113 | holds exactly when some cell at index 1 or later equals the head |
| `SnakeRules.HitWall` | snake/src/components/snake/Game.tsx:107-110 | a hit exactly when the top-left corner lies outside the closed rectangle `[0, width] x [0, height]`; `OnCanvasIsNotWall` and `FarEdgeIsNotWall` relate it to the cell's square |
| `SnakeRules.OnCanvasIsNotWall` | snake/src/components/snake/Game.tsx:107-110 | a cell whose square lies on the canvas is never a wall hit |
| `SnakeRules.FarEdgeIsNotWall` | snake/src/components/snake/Game.tsx:110 | a head at `x == width` is off the canvas but not a wall hit; one more step right is |
| `SnakeRules.KeyMap` | snake/src/components/snake/Game.tsx:183-191 | the map has exactly the four configured keys; each maps to its direction unless a later entry reuses the key |
| `SnakeGame.InitialState` | snake/src/components/snake/Game.tsx:178-200 | the mounted state keeps the invariant: the `getInitSnake` layout, direction right, no apple, score 0, both flags false, no context yet |
| `SnakeGame.NewApple` | snake/src/components/snake/Game.tsx:215 | a set apple is kept; otherwise the new apple is a grid-aligned cell off the pre-move snake; no apple only when none was set |
| `SnakeGame.TickStep` | snake/src/components/snake/Game.tsx:203-248 | no context, a full board with no apple set, a wall hit or a tail hit sets `isPlaying=false, isGameOver=true` and keeps snake and score; otherwise the snake becomes the moved snake; when the old head is on the apple, the apple cell is appended, the score rises by 1 and the apple is cleared; a placed apple is kept on game over; an apple placed this tick is never eaten on the same tick |
| `SnakeGame.TickAppleOutcomes` | snake/src/components/snake/Game.tsx:215 | a `NoFreeCell` tick is one where no draws whatever place an apple; an `AwaitingApple` tick is one where some draw would |
| `SnakeGame.GrowthRepeatsNeck` | snake/src/components/snake/Game.tsx:235-238 | after growth the last cell equals the second, both the pre-move head |
| `SnakeGame.TickPreservesInvariant` | snake/src/components/snake/Game.tsx:209-241 | every tick keeps length = 3 + score, grid alignment of the snake, and an aligned on-canvas apple |
| `SnakeGame.RestartStep` | snake/src/components/snake/Game.tsx:274-282 | when playing and game-over, the state becomes the mounted state with `isPlaying` still true and the context kept; otherwise nothing changes |
| `SnakeGame.RestartPreservesInvariant` | snake/src/components/snake/Game.tsx:275-281 | the restart effect keeps the invariant |
| `SnakeGame.Game.constructor` | snake/src/components/snake/Game.tsx:165-200 | mounting builds the key map and the initial state, and the invariant holds |
| `SnakeGame.Game.AttachContext` | snake/src/components/snake/Game.tsx:257-271 | the context is set once the canvas provides one and never unset; the invariant is kept |
| `SnakeGame.Game.Tick` | snake/src/components/snake/Game.tsx:202-248 | the in-place tick reports the outcome of `TickStep`, leaves exactly its next state, and keeps the invariant |
| `SnakeGame.Game.RestartEffect` | snake/src/components/snake/Game.tsx:276-280 | the in-place restart leaves exactly the state `RestartStep` gives, and keeps the invariant |
| `SnakeGame.Game.Toggle` | snake/src/components/snake/Game.tsx:303 | the play button flips `isPlaying`, changes nothing else and keeps the invariant |
| `SnakeGame.Game.Key` | snake/src/components/snake/Game.tsx:284-292 | a key not in the key map leaves the direction unchanged; a mapped key sets it to the reducer's result; the invariant is kept |

## Left out

- React plumbing (`useState`, `useReducer`, `useMemo`, effect scheduling, JSX): state hooks are fields and each effect or callback is a method the caller invokes.
- The interval gating at line 249 (the timer runs only while `isPlaying` and a context is set): `Game.Tick` can be called in any state, so the model also covers the unreachable no-context tick.
- `snake/src/hooks/UseInterval` is not part of this model; timing and `speed` are not modelled.
- Canvas drawing (`drawRect`, `createGameFrame`, the background paint in the mount effect), colours and the rendered text: foreign Canvas and DOM calls with no state logic.
- Registering and removing the `keydown` listener (lines 294-299): event wiring. The cleanup removes a different function object, so listeners pile up; `ReducerIdempotent` shows the repeated dispatches of one key cannot change the direction further.
- `console.log` and the error messages: the three thrown errors are the outcome values `NoContext`, `WallHit` and `TailHit`, and the stack overflow of the apple retry is `NoFreeCell`.
- `Math.random` and floating-point rounding: draws are exact fractions in [0, 1), so `Math.floor(r * ((dim - cell) / cell))` is computed exactly, not in double precision.
- `SnakeRules.AppleCoordinate`: the unbounded retry runs over a finite sequence of draws; when they run out on a board that is not full, `None` (the tick's `AwaitingApple`) stands for the source drawing again.
- The full-board tick is modelled as the engines without proper tail calls run it (the overflow is caught and the game ends). On an engine with proper tail calls the retry would loop forever and the page would hang; that is not modelled.
- A stack overflow on a board that is not full, after a very long unlucky run of draws, is not modelled: the model keeps drawing.
- `SnakeGame.Game.constructor`: requires room for the initial snake, because the source throws during mount and no component exists.
- `SnakeRules.Move`: requires a non-empty snake; the source reads `current[0]`, and every reachable snake has at least three cells.
- JavaScript numbers are modelled as unbounded integers with `cell > 0`. Canvas sizes and cells that are fractional, zero or negative are not modelled.
- `snake/src/App.tsx` and `snake/src/components/snake/Config.ts` are not part of this model. They carry only configuration constants and type declarations; the scenarios use the application's constants.
