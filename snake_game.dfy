/**
 * The state of one Snake game component and the operations that change it:
 * mounting, acquiring the canvas context, the timer tick, the restart effect,
 * the play/pause button and key presses.
 *
 * `GameState` is the value of the component's state hooks, and `TickStep` and
 * `RestartStep` say what one tick and one run of the restart effect make of
 * it. The class `Game` holds the same state in fields and updates them step by
 * step, as the setters do; its methods are proved to agree with the functions.
 */
module SnakeGame {
  import opened Wrappers
  import opened SnakeRules

  /** The canvas size and cell size, from `GameProps`; the canvas has the configured size. */
  datatype Config = Config(width: int, height: int, cell: int)

  /** A configuration the component can mount with: `getInitSnake` does not throw. */
  predicate Mountable(cfg: Config) {
    cfg.cell > 0 && InitSnake(cfg.cell, cfg.width, cfg.height).Some?
  }

  /** The state hooks (`canvasCtx` reduced to whether it is set). */
  datatype GameState = GameState(
    snake: seq<Cell>,
    direction: Direction,
    apple: Option<Cell>,
    score: nat,
    isPlaying: bool,
    isGameOver: bool,
    hasCtx: bool)

  /**
   * What every reachable state satisfies: the snake has three cells plus one
   * per point scored, and every snake cell and the apple are grid-aligned, the
   * apple's square lying on the canvas.
   */
  predicate Invariant(cfg: Config, st: GameState) {
    && Mountable(cfg)
    && |st.snake| == 3 + st.score
    && AllAligned(st.snake, cfg.cell)
    && (st.apple.Some? ==>
          Aligned(st.apple.value, cfg.cell) && OnCanvas(st.apple.value, cfg.cell, cfg.width, cfg.height))
  }

  /** The state right after mounting (Game.tsx:178-200). */
  function InitialState(cfg: Config): (st: GameState)
    requires Mountable(cfg)
    ensures Invariant(cfg, st)
    ensures st.direction == Default && st.apple.None? && st.score == 0
    ensures !st.isPlaying && !st.isGameOver && !st.hasCtx
  {
    InitSnakeFits(cfg.cell, cfg.width, cfg.height);
    GameState(InitSnake(cfg.cell, cfg.width, cfg.height).value, Default, None, 0, false, false, false)
  }

  // ---------------------------------------------------------------------------
  // The tick (Game.tsx:203-248)
  // ---------------------------------------------------------------------------

  /** How one tick ended; the three game-over causes are the exceptions the tick catches. */
  datatype TickOutcome =
    | NoContext      // 'system error': no canvas context
    | NoFreeCell     // every candidate cell is on the snake: the apple retry overflows the stack
    | AwaitingApple  // every supplied draw landed on the snake; the source would keep drawing
    | WallHit        // 'hit the wall'
    | TailHit        // 'hit the tail'
    | Ate            // the apple was eaten and the snake grew
    | Moved          // an ordinary step

  datatype TickResult = TickResult(outcome: TickOutcome, next: GameState)

  /**
   * `apple || getAppleCoordinate(snake, cell, canvasCtx)`: a set apple is kept;
   * otherwise the new one is a grid-aligned cell off the snake, or `None` when
   * the supplied draws ran out.
   */
  function NewApple(cfg: Config, st: GameState, draws: seq<Draw>): (a: Option<Cell>)
    requires cfg.cell > 0 && AllRandom(draws)
    ensures st.apple.Some? ==> a == st.apple
    ensures st.apple.None? && a.Some? ==> a.value !in st.snake && Aligned(a.value, cfg.cell)
    ensures a.None? ==> st.apple.None?
  {
    if st.apple.Some? then st.apple
    else AppleCoordinate(st.snake, cfg.cell, cfg.width, cfg.height, draws)
  }

  /**
   * One tick. The checks run in the source's order: context, apple placement,
   * wall, tail, apple eaten. A game-over keeps the old snake and score but
   * commits an apple placed during the tick; growth appends the apple's cell
   * and adds one point; the apple test uses the head from before the move.
   * When no apple is set and the board is full, the retry never returns: the
   * stack overflow it causes is caught like the other errors and ends the game
   * before any apple is stored.
   */
  function TickStep(cfg: Config, st: GameState, draws: seq<Draw>): (r: TickResult)
    requires cfg.cell > 0 && |st.snake| > 0 && AllRandom(draws)
    ensures r.next.direction == st.direction && r.next.hasCtx == st.hasCtx
    ensures r.outcome == NoContext <==> !st.hasCtx
    ensures r.outcome == NoFreeCell <==>
      st.hasCtx && st.apple.None? && BoardFull(st.snake, cfg.cell, cfg.width, cfg.height)
    ensures r.outcome == AwaitingApple <==>
      && st.hasCtx && st.apple.None? && !BoardFull(st.snake, cfg.cell, cfg.width, cfg.height)
      && AppleCoordinate(st.snake, cfg.cell, cfg.width, cfg.height, draws).None?
    ensures r.outcome in {NoContext, NoFreeCell, AwaitingApple} ==>
      r.next.snake == st.snake && r.next.score == st.score && r.next.apple == st.apple
    ensures r.outcome in {NoContext, NoFreeCell, WallHit, TailHit} ==>
      r.next.snake == st.snake && r.next.score == st.score && !r.next.isPlaying && r.next.isGameOver
    ensures r.outcome in {AwaitingApple, Ate, Moved} ==>
      r.next.isPlaying == st.isPlaying && r.next.isGameOver == st.isGameOver
    ensures r.outcome !in {NoContext, NoFreeCell, AwaitingApple} ==>
      var moved := Move(st.snake, cfg.cell, st.direction);
      var a := NewApple(cfg, st, draws);
      && a.Some?
      && (r.outcome == WallHit <==> HitWall(moved[0], cfg.width, cfg.height))
      && (r.outcome == TailHit <==> !HitWall(moved[0], cfg.width, cfg.height) && HitTail(moved))
      && (r.outcome == Ate <==>
            !HitWall(moved[0], cfg.width, cfg.height) && !HitTail(moved) && AteApple(a.value, st.snake))
      && (r.outcome != Ate ==> r.next.apple == a)
      && (r.outcome == Ate ==> r.next.snake == moved + [a.value] && r.next.score == st.score + 1 && r.next.apple.None?)
      && (r.outcome == Moved ==> r.next.snake == moved && r.next.score == st.score)
    ensures |r.next.snake| == |st.snake| + (if r.outcome == Ate then 1 else 0)
    ensures st.apple.None? ==> r.outcome != Ate
  {
    if !st.hasCtx then
      TickResult(NoContext, st.(isPlaying := false, isGameOver := true))
    else if st.apple.None? && BoardFull(st.snake, cfg.cell, cfg.width, cfg.height) then
      TickResult(NoFreeCell, st.(isPlaying := false, isGameOver := true))
    else
      var moved := Move(st.snake, cfg.cell, st.direction);
      var a := NewApple(cfg, st, draws);
      if a.None? then
        TickResult(AwaitingApple, st)
      else if HitWall(moved[0], cfg.width, cfg.height) then
        TickResult(WallHit, st.(apple := a, isPlaying := false, isGameOver := true))
      else if HitTail(moved) then
        TickResult(TailHit, st.(apple := a, isPlaying := false, isGameOver := true))
      else if AteApple(a.value, st.snake) then
        TickResult(Ate, st.(snake := moved + [a.value], score := st.score + 1, apple := None))
      else
        TickResult(Moved, st.(snake := moved, apple := a))
  }

  /** Every tick keeps the invariant. */
  lemma TickPreservesInvariant(cfg: Config, st: GameState, draws: seq<Draw>)
    requires Invariant(cfg, st) && AllRandom(draws)
    ensures Invariant(cfg, TickStep(cfg, st, draws).next)
  {
    var r := TickStep(cfg, st, draws);
    InitSnakeFits(cfg.cell, cfg.width, cfg.height);
    MoveKeepsAlignment(st.snake, cfg.cell, st.direction);
    if r.outcome == Ate {
      var moved := Move(st.snake, cfg.cell, st.direction);
      var a := NewApple(cfg, st, draws).value;
      assert r.next.snake == moved + [a];
      assert forall i :: 0 <= i < |moved| ==> (moved + [a])[i] == moved[i];
    }
  }

  /**
   * The two ways a tick can find no apple: `NoFreeCell` only when no sequence
   * of draws whatever could place one, and `AwaitingApple` only when the
   * supplied draws ran out while some draw would have found a free cell.
   */
  lemma TickAppleOutcomes(cfg: Config, st: GameState, draws: seq<Draw>)
    requires Invariant(cfg, st) && AllRandom(draws)
    ensures TickStep(cfg, st, draws).outcome == NoFreeCell ==>
      forall more :: AllRandom(more) ==> AppleCoordinate(st.snake, cfg.cell, cfg.width, cfg.height, more).None?
    ensures TickStep(cfg, st, draws).outcome == AwaitingApple ==>
      exists d :: IsRandom(d) && RandomAppleCoordinate(cfg.cell, cfg.width, cfg.height, d) !in st.snake
  {
    InitSnakeFits(cfg.cell, cfg.width, cfg.height);
    var r := TickStep(cfg, st, draws);
    if r.outcome == NoFreeCell {
      forall more | AllRandom(more)
        ensures AppleCoordinate(st.snake, cfg.cell, cfg.width, cfg.height, more).None?
      {
        FullBoardHasNoApple(st.snake, cfg.cell, cfg.width, cfg.height, more);
      }
    }
    if r.outcome == AwaitingApple {
      FreeCellIsDrawable(st.snake, cfg.cell, cfg.width, cfg.height);
    }
  }

  /**
   * Growth appends the cell of the old head, which after the move is also the
   * neck: the grown snake's last cell repeats its second one.
   */
  lemma GrowthRepeatsNeck(cfg: Config, st: GameState, draws: seq<Draw>)
    requires cfg.cell > 0 && |st.snake| > 0 && AllRandom(draws)
    ensures var r := TickStep(cfg, st, draws);
      r.outcome == Ate ==> |r.next.snake| >= 2 && r.next.snake[|r.next.snake| - 1] == r.next.snake[1] == st.snake[0]
  {
    var r := TickStep(cfg, st, draws);
    if r.outcome == Ate {
      var moved := Move(st.snake, cfg.cell, st.direction);
      var a := NewApple(cfg, st, draws).value;
      assert r.next.snake == moved + [a] && a == st.snake[0];
      if |st.snake| > 1 {
        assert r.next.snake[1] == moved[1] == st.snake[0];
      }
    }
  }

  // ---------------------------------------------------------------------------
  // The restart effect (Game.tsx:274-282)
  // ---------------------------------------------------------------------------

  /**
   * While playing with the game-over flag still set, the snake, direction,
   * apple and score are reset and the flag cleared; otherwise nothing happens.
   */
  function RestartStep(cfg: Config, st: GameState): (r: GameState)
    requires Mountable(cfg)
    ensures st.isPlaying && st.isGameOver ==>
      r == InitialState(cfg).(isPlaying := true, hasCtx := st.hasCtx)
    ensures !(st.isPlaying && st.isGameOver) ==> r == st
  {
    if st.isPlaying && st.isGameOver then
      st.(snake := InitSnake(cfg.cell, cfg.width, cfg.height).value,
          direction := DirectionReducer(st.direction, Default),
          apple := None,
          score := 0,
          isGameOver := false)
    else
      st
  }

  /** A restart, or its absence, keeps the invariant. */
  lemma RestartPreservesInvariant(cfg: Config, st: GameState)
    requires Invariant(cfg, st)
    ensures Invariant(cfg, RestartStep(cfg, st))
  {
  }

  // ---------------------------------------------------------------------------
  // The component
  // ---------------------------------------------------------------------------

  class Game {
    const width: int
    const height: int
    const cell: int
    const keyMap: map<string, Direction>

    var snake: seq<Cell>
    var direction: Direction
    var apple: Option<Cell>
    var score: nat
    var isPlaying: bool
    var isGameOver: bool
    var hasCtx: bool

    function Cfg(): Config {
      Config(width, height, cell)
    }

    ghost function State(): GameState
      reads this
    {
      GameState(snake, direction, apple, score, isPlaying, isGameOver, hasCtx)
    }

    ghost predicate Valid()
      reads this
    {
      Invariant(Cfg(), State())
    }

    /**
     * Mounting the component with its props. The source throws from the state
     * initializer when there is no room for the initial snake, so no game
     * exists then.
     */
    constructor (canvasWidth: int, canvasHeight: int, cellSize: int,
                 leftKey: string, upKey: string, rightKey: string, downKey: string)
      requires Mountable(Config(canvasWidth, canvasHeight, cellSize))
      ensures Valid()
      ensures Cfg() == Config(canvasWidth, canvasHeight, cellSize)
      ensures keyMap == KeyMap(leftKey, upKey, rightKey, downKey)
      ensures State() == InitialState(Cfg())
    {
      width, height, cell := canvasWidth, canvasHeight, cellSize;
      keyMap := KeyMap(leftKey, upKey, rightKey, downKey);
      snake := InitSnake(cellSize, canvasWidth, canvasHeight).value;
      direction := Default;
      apple := None;
      score := 0;
      isPlaying, isGameOver, hasCtx := false, false, false;
      new;
      assert State() == InitialState(Cfg());
    }

    /** The mount effect stores the 2D context when the canvas provides one. */
    method AttachContext(available: bool)
      requires Valid()
      modifies this`hasCtx
      ensures Valid()
      ensures hasCtx == (old(hasCtx) || available)
    {
      if available {
        hasCtx := true;
      }
    }

    /** The interval callback, with the setters applied in the source's order. */
    method Tick(draws: seq<Draw>) returns (outcome: TickOutcome)
      requires Valid() && AllRandom(draws)
      modifies this
      ensures Valid()
      ensures outcome == TickStep(Cfg(), old(State()), draws).outcome
      ensures State() == TickStep(Cfg(), old(State()), draws).next
    {
      TickPreservesInvariant(Cfg(), State(), draws);
      if !hasCtx {
        isPlaying, isGameOver := false, true;
        outcome := NoContext;
      } else if apple.None? && BoardFull(snake, cell, width, height) {
        isPlaying, isGameOver := false, true;
        outcome := NoFreeCell;
      } else {
        var newSnake := Move(snake, cell, direction);
        var newApple := if apple.Some? then apple else AppleCoordinate(snake, cell, width, height, draws);
        if newApple.None? {
          outcome := AwaitingApple;
        } else {
          apple := newApple;
          if HitWall(newSnake[0], width, height) {
            isPlaying, isGameOver := false, true;
            outcome := WallHit;
          } else if HitTail(newSnake) {
            isPlaying, isGameOver := false, true;
            outcome := TailHit;
          } else if AteApple(newApple.value, snake) {
            apple := None;
            snake := newSnake + [newApple.value];
            score := score + 1;
            outcome := Ate;
          } else {
            snake := newSnake;
            outcome := Moved;
          }
        }
      }
    }

    /** The restart effect, run after the flags change. */
    method RestartEffect()
      requires Valid()
      modifies this
      ensures Valid()
      ensures State() == RestartStep(Cfg(), old(State()))
    {
      RestartPreservesInvariant(Cfg(), State());
      if isPlaying && isGameOver {
        snake := InitSnake(cell, width, height).value;
        direction := DirectionReducer(direction, Default);
        apple := None;
        score := 0;
        isGameOver := false;
      }
    }

    /** The play/pause button flips the playing flag and nothing else. */
    method Toggle()
      requires Valid()
      modifies this`isPlaying
      ensures Valid()
      ensures isPlaying == !old(isPlaying)
    {
      isPlaying := !isPlaying;
    }

    /** A key press: a mapped key is dispatched through the reducer, any other is ignored. */
    method Key(key: string)
      requires Valid()
      modifies this`direction
      ensures Valid()
      ensures key !in keyMap ==> direction == old(direction)
      ensures key in keyMap ==> direction == DirectionReducer(old(direction), keyMap[key])
    {
      if key in keyMap {
        direction := DirectionReducer(direction, keyMap[key]);
      }
    }
  }
}
