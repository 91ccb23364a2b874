/**
 * Scenarios of the game, on the configuration the application mounts
 * (a 500 x 500 canvas, 20-pixel cells, arrow keys) and on a small canvas.
 * Tick sequences are followed on `TickStep`, which `Game.Tick` is proved to
 * agree with; the last run drives a `Game` object through its methods.
 */
module SnakeScenarios {
  import opened Wrappers
  import opened SnakeRules
  import opened SnakeGame

  const Arrows: map<string, Direction> := KeyMap("ArrowLeft", "ArrowUp", "ArrowRight", "ArrowDown")

  /** The state once the context is attached and play has been pressed. */
  function Playing(cfg: Config): GameState
    requires Mountable(cfg)
  {
    InitialState(cfg).(isPlaying := true, hasCtx := true)
  }

  /** The state after the first tick to the right, with the apple drawn at the origin. */
  const AfterFirstTick: GameState :=
    GameState([Cell(80, 240), Cell(60, 240), Cell(40, 240)], Right, Some(Cell(0, 0)), 0, true, false, true)

  /** The first tick places the apple from a draw of zero and moves the head one cell right. */
  method FirstTick() {
    var cfg := Config(500, 500, 20);
    var st := Playing(cfg);
    assert st.snake == [Cell(60, 240), Cell(40, 240), Cell(20, 240)];
    assert GridCell(0, 0, 20) !in st.snake;
    var r := TickStep(cfg, st, [Draw(Fraction(0, 1), Fraction(0, 1))]);
    assert r.outcome == Moved && r.next == AfterFirstTick;
  }

  /** Four more ticks: after five in all the head has moved 100 pixels and nothing was hit. */
  method FiveTicksRight() {
    var cfg := Config(500, 500, 20);
    var r := TickStep(cfg, AfterFirstTick, []);
    assert r.outcome == Moved;
    r := TickStep(cfg, r.next, []);
    assert r.outcome == Moved;
    r := TickStep(cfg, r.next, []);
    assert r.outcome == Moved;
    r := TickStep(cfg, r.next, []);
    assert r.outcome == Moved;
    assert r.next.snake == [Cell(160, 240), Cell(140, 240), Cell(120, 240)];
    assert r.next.isPlaying && !r.next.isGameOver && r.next.score == 0 && r.next.apple == Some(Cell(0, 0));
  }

  /**
   * An apple placed in the cell ahead of the head: the head enters it on the
   * first tick and the apple is eaten on the second, when the pre-move head is
   * on it. The apple's cell is appended at the tail end.
   */
  method AppleAhead() {
    var cfg := Config(500, 500, 20);
    var st := Playing(cfg);
    assert st.snake == [Cell(60, 240), Cell(40, 240), Cell(20, 240)];
    assert GridCell(0, 0, 20) !in st.snake;
    var r := TickStep(cfg, st, [Draw(Fraction(1, 5), Fraction(1, 2))]);
    assert r.outcome == Moved && r.next.apple == Some(Cell(80, 240));
    assert r.next.snake[0] == Cell(80, 240) && r.next.score == 0;
    r := TickStep(cfg, r.next, []);
    assert r.outcome == Ate;
    assert r.next.snake == [Cell(100, 240), Cell(80, 240), Cell(60, 240), Cell(80, 240)];
    assert r.next.score == 1 && r.next.apple.None?;
  }

  /**
   * On an 80 x 40 canvas the head reaches x == 80, wholly off the canvas,
   * without a wall hit; the next step ends the game and keeps the snake.
   */
  method RightWall() {
    var cfg := Config(80, 40, 20);
    var st := Playing(cfg);
    assert st.snake == [Cell(60, 20), Cell(40, 20), Cell(20, 20)];
    assert GridCell(0, 0, 20) !in st.snake;
    var r := TickStep(cfg, st, [Draw(Fraction(0, 1), Fraction(0, 1))]);
    assert r.outcome == Moved && r.next.snake[0] == Cell(80, 20);
    r := TickStep(cfg, r.next, []);
    assert r.outcome == WallHit;
    assert !r.next.isPlaying && r.next.isGameOver && r.next.snake[0] == Cell(80, 20);
  }

  /**
   * A canvas three cells wide mounts, with the head's square wholly off the
   * canvas at `x == 60`; it is not a wall hit, and the first tick right is.
   */
  method NarrowCanvas() {
    var cfg := Config(60, 40, 20);
    var st := Playing(cfg);
    assert st.snake == [Cell(60, 20), Cell(40, 20), Cell(20, 20)];
    assert !OnCanvas(st.snake[0], 20, 60, 40) && !HitWall(st.snake[0], 60, 40);
    assert GridCell(0, 0, 20) !in st.snake;
    var r := TickStep(cfg, st, [Draw(Fraction(0, 1), Fraction(0, 1))]);
    assert r.outcome == WallHit && r.next.isGameOver && r.next.apple == Some(Cell(0, 0));
  }

  /**
   * On the 80 x 40 canvas the candidates are the three cells of the top row.
   * A four-cell snake along that row, with no apple set, leaves no free
   * candidate: no draws whatever place an apple, and the tick ends the game.
   */
  method FullBoard() {
    var cfg := Config(80, 40, 20);
    var st := GameState([Cell(0, 0), Cell(20, 0), Cell(40, 0), Cell(60, 0)], Left, None, 1, true, false, true);
    assert CandidateCount(80, 20) == 3 && CandidateCount(40, 20) == 1;
    forall kx, ky | 0 <= kx < CandidateCount(80, 20) && 0 <= ky < CandidateCount(40, 20)
      ensures GridCell(kx, ky, 20) in st.snake
    {
      assert GridCell(kx, ky, 20) == st.snake[kx];
    }
    var r := TickStep(cfg, st, [Draw(Fraction(1, 2), Fraction(1, 2))]);
    assert r.outcome == NoFreeCell;
    assert !r.next.isPlaying && r.next.isGameOver && r.next.apple.None? && r.next.snake == st.snake;
  }

  /** The state after turning up and ticking once. */
  const AfterUp: GameState :=
    GameState([Cell(60, 220), Cell(60, 240), Cell(40, 240)], Up, Some(Cell(0, 0)), 0, true, false, true)

  /** The state after turning up, ticking, turning left and ticking again. */
  const AfterUpLeft: GameState :=
    GameState([Cell(40, 220), Cell(60, 220), Cell(60, 240)], Left, Some(Cell(0, 0)), 0, true, false, true)

  /** The start state once up has been pressed. */
  const TurnedUp: GameState :=
    GameState([Cell(60, 240), Cell(40, 240), Cell(20, 240)], Up, None, 0, true, false, true)

  /** Up from the start: the turn is accepted and the head moves one cell up. */
  method TurnUp() {
    var cfg := Config(500, 500, 20);
    assert Arrows["ArrowUp"] == Up;
    var st := Playing(cfg);
    assert st.snake == TurnedUp.snake;
    st := st.(direction := DirectionReducer(st.direction, Arrows["ArrowUp"]));
    assert st == TurnedUp;
  }

  /** The tick after the turn. */
  method TickUp() {
    var cfg := Config(500, 500, 20);
    assert GridCell(0, 0, 20) !in TurnedUp.snake;
    var r := TickStep(cfg, TurnedUp, [Draw(Fraction(0, 1), Fraction(0, 1))]);
    assert r.outcome == Moved && r.next == AfterUp;
  }

  /** Then left: the turn is accepted and the snake bends round. */
  method ThenLeft() {
    var cfg := Config(500, 500, 20);
    assert Arrows["ArrowLeft"] == Left;
    var st := AfterUp.(direction := DirectionReducer(AfterUp.direction, Arrows["ArrowLeft"]));
    assert st.direction == Left;
    var r := TickStep(cfg, st, []);
    assert r.outcome == Moved && r.next == AfterUpLeft;
  }

  /**
   * Right while moving left: the key is accepted, the head turns onto the
   * neck and the game ends with the snake in place.
   */
  method ReverseIntoNeck() {
    var cfg := Config(500, 500, 20);
    assert Arrows["ArrowRight"] == Right;
    var st := AfterUpLeft.(direction := DirectionReducer(AfterUpLeft.direction, Arrows["ArrowRight"]));
    assert st.direction == Right;
    var moved := Move(st.snake, 20, Right);
    assert moved == [Cell(60, 220), Cell(40, 220), Cell(60, 220)] && HitTail(moved);
    var r := TickStep(cfg, st, []);
    assert r.outcome == TailHit;
    assert !r.next.isPlaying && r.next.isGameOver;
    assert r.next.snake == AfterUpLeft.snake;
  }

  /**
   * A `Game` without a canvas context: a tick ends the game; the restart
   * effect does nothing until play is pressed, and then resets the game.
   * Unmapped keys are ignored.
   */
  method RestartAfterGameOver() {
    var g := new Game(500, 500, 20, "ArrowLeft", "ArrowUp", "ArrowRight", "ArrowDown");
    assert "Space" !in g.keyMap;
    g.Key("Space");
    assert g.direction == Right;
    g.Toggle();
    var o := g.Tick([]);
    assert o == NoContext && !g.isPlaying && g.isGameOver;
    g.RestartEffect();
    assert !g.isPlaying && g.isGameOver;
    g.Toggle();
    g.RestartEffect();
    assert g.isPlaying && !g.isGameOver;
    assert g.snake == [Cell(60, 240), Cell(40, 240), Cell(20, 240)];
    assert g.direction == Right && g.score == 0 && g.apple.None?;
  }
}
