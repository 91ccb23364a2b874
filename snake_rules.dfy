/**
 * The pure helpers of the Snake game component: the initial layout, the
 * direction reducer, the one-step move, apple placement and the three
 * collision tests. Coordinates are pixels; every cell is addressed by its
 * top-left corner and the grid step is `cell`.
 */
module SnakeRules {
  import opened Wrappers

  /** A grid square, addressed by the pixel coordinates of its top-left corner. */
  datatype Cell = Cell(x: int, y: int)

  /**
   * The values of `DirectionValue`. `DEFAULT` is not a fifth value: it is the
   * string 'right', the same value as `RIGHT`.
   */
  datatype Direction = Left | Up | Right | Down

  const Default: Direction := Right

  /**
   * A result of `Math.random()`: a number in [0, 1), written as the exact
   * fraction `num / den` (every double in that range is one).
   */
  datatype Fraction = Fraction(num: int, den: int)

  predicate IsUnitFraction(r: Fraction) {
    0 <= r.num < r.den
  }

  /** Two successive results of `Math.random()`: the first for x, the second for y. */
  datatype Draw = Draw(rx: Fraction, ry: Fraction)

  predicate IsRandom(d: Draw) {
    IsUnitFraction(d.rx) && IsUnitFraction(d.ry)
  }

  predicate AllRandom(draws: seq<Draw>) {
    forall d :: d in draws ==> IsRandom(d)
  }

  /** The reversal pairs: a request on the same axis as the current direction. */
  function Opposite(d: Direction): Direction {
    match d
    case Left => Right
    case Right => Left
    case Up => Down
    case Down => Up
  }

  // ---------------------------------------------------------------------------
  // Grid alignment and the canvas
  // ---------------------------------------------------------------------------

  /** Both coordinates are multiples of the cell size. */
  predicate Aligned(p: Cell, cell: int)
    requires cell > 0
  {
    p.x % cell == 0 && p.y % cell == 0
  }

  predicate AllAligned(s: seq<Cell>, cell: int)
    requires cell > 0
  {
    forall i :: 0 <= i < |s| ==> Aligned(s[i], cell)
  }

  /** The whole square of `p` lies inside a `width` x `height` canvas. */
  predicate OnCanvas(p: Cell, cell: int, width: int, height: int) {
    0 <= p.x && p.x + cell <= width && 0 <= p.y && p.y + cell <= height
  }

  lemma MultipleMod(k: int, c: int)
    requires c > 0
    ensures (k * c) % c == 0
  {
    var d := k - (k * c) / c;
    assert d * c == (k * c) % c;
    assert (d - 1) * c < 0 <= d * c;
    assert 0 <= d < 1;
  }

  lemma AlignedShift(v: int, c: int, u: int)
    requires c > 0 && v % c == 0
    ensures (v + c * u) % c == 0
  {
    var q := v / c;
    assert v == q * c;
    assert v + c * u == (q + u) * c;
    MultipleMod(q + u, c);
  }

  // ---------------------------------------------------------------------------
  // getInitSnake (Game.tsx:31-43)
  // ---------------------------------------------------------------------------

  /**
   * `Math.floor(h / c / 2) * c`: for a positive `c`, Dafny's division by the
   * positive `2 * c` rounds down, as `Math.floor` does. The result is the
   * top edge of the grid row that holds the canvas's horizontal middle line.
   */
  function InitRow(c: int, h: int): (y: int)
    requires c > 0
    ensures y % c == 0
    ensures 2 * y <= h < 2 * y + 2 * c
  {
    var q := h / (2 * c);
    assert h == q * (2 * c) + h % (2 * c);
    MultipleMod(q, c);
    q * c
  }

  /**
   * The three-cell starting snake on the middle row, head first; `None` is the
   * 'no enough room to init snake' exception.
   */
  function InitSnake(c: int, w: int, h: int): (r: Option<seq<Cell>>)
    requires c > 0
    ensures r.None? <==> 3 * c > w || InitRow(c, h) + c > h
    ensures r.Some? ==>
      && |r.value| == 3
      && r.value[0] == Cell(3 * c, InitRow(c, h))
      && forall i :: 0 <= i < 2 ==> r.value[i + 1].y == r.value[i].y && r.value[i + 1].x == r.value[i].x - c
  {
    var y := InitRow(c, h);
    if 3 * c > w || y + c > h then None
    else Some([Cell(3 * c, y), Cell(2 * c, y), Cell(c, y)])
  }

  /**
   * The three-cell layout on a row that has room for a cell: its cells are
   * pairwise distinct, no wall is hit, every top-left corner lies within
   * [0, w] horizontally and every square within the canvas height.
   */
  lemma RowLayoutFits(c: int, w: int, h: int, y: int)
    requires c > 0 && 3 * c <= w && 0 <= y && y + c <= h
    ensures var s := [Cell(3 * c, y), Cell(2 * c, y), Cell(c, y)];
      && !HitTail(s)
      && (forall i, j :: 0 <= i < j < |s| ==> s[i] != s[j])
      && forall i :: 0 <= i < |s| ==>
           !HitWall(s[i], w, h) && 0 < s[i].x <= w && 0 <= s[i].y && s[i].y + c <= h
  {
    var s := [Cell(3 * c, y), Cell(2 * c, y), Cell(c, y)];
    assert s[1..] == [Cell(2 * c, y), Cell(c, y)];
  }

  /** The cells of a successful layout are grid-aligned. */
  lemma InitSnakeAligned(c: int, w: int, h: int)
    requires c > 0 && InitSnake(c, w, h).Some?
    ensures AllAligned(InitSnake(c, w, h).value, c)
  {
    var y := InitRow(c, h);
    var s := InitSnake(c, w, h).value;
    MultipleMod(1, c);
    MultipleMod(2, c);
    MultipleMod(3, c);
    assert Aligned(s[0], c) && Aligned(s[1], c) && Aligned(s[2], c);
  }

  /**
   * A successful layout fits: the canvas is at least three cells wide and one
   * cell high, the cells are grid-aligned and pairwise distinct, none is a wall
   * hit, and each lies inside the canvas vertically.
   */
  lemma InitSnakeFits(c: int, w: int, h: int)
    requires c > 0 && InitSnake(c, w, h).Some?
    ensures w >= 3 * c && h >= c
    ensures var s := InitSnake(c, w, h).value;
      && AllAligned(s, c)
      && !HitTail(s)
      && (forall i, j :: 0 <= i < j < |s| ==> s[i] != s[j])
      && forall i :: 0 <= i < |s| ==>
           !HitWall(s[i], w, h) && 0 < s[i].x <= w && 0 <= s[i].y && s[i].y + c <= h
  {
    var y := InitRow(c, h);
    assert InitSnake(c, w, h).value == [Cell(3 * c, y), Cell(2 * c, y), Cell(c, y)];
    RowLayoutFits(c, w, h, y);
    InitSnakeAligned(c, w, h);
  }

  /**
   * The room check compares `3 * c`, where the head's square starts, with the
   * width: the head's square is on the canvas exactly when there is room for a
   * fourth cell, so on a canvas exactly three cells wide the game starts with
   * the head off the right edge (and, by `FarEdgeIsNotWall`, no wall hit).
   */
  lemma InitHeadOnCanvas(c: int, w: int, h: int)
    requires c > 0 && InitSnake(c, w, h).Some?
    ensures var s := InitSnake(c, w, h).value;
      && (OnCanvas(s[0], c, w, h) <==> 4 * c <= w)
      && OnCanvas(s[1], c, w, h) && OnCanvas(s[2], c, w, h)
  {
    InitSnakeFits(c, w, h);
  }

  // ---------------------------------------------------------------------------
  // directionReducer (Game.tsx:45-60)
  // ---------------------------------------------------------------------------

  /** Both directions belong to one row of the `opposites` table. */
  predicate SameAxis(a: Direction, b: Direction) {
    || (a in {Left, Right} && b in {Left, Right})
    || (a in {Up, Down} && b in {Up, Down})
  }

  /**
   * The reducer keeps `state` only for the three reversals right->left,
   * up->down and down->up; because `DEFAULT` is 'right', a right request is
   * returned before the `opposites` test runs, even while moving left.
   */
  function DirectionReducer(state: Direction, action: Direction): (r: Direction)
    ensures r == state || r == action
    ensures action == Default ==> r == Default
    ensures r != action <==>
      || (state == Right && action == Left)
      || (state == Up && action == Down)
      || (state == Down && action == Up)
  {
    if action == Default then action
    else if SameAxis(state, action) then state
    else action
  }

  /** Reversal is refused for every direction except left. */
  lemma OppositeRequestVetoed(d: Direction)
    ensures DirectionReducer(d, Opposite(d)) == d <==> d != Left
    ensures DirectionReducer(Left, Opposite(Left)) == Right
  {
  }

  /**
   * Dispatching the same request twice gives the same direction as once, so a
   * key handled by several registered listeners changes nothing more.
   */
  lemma ReducerIdempotent(state: Direction, action: Direction)
    ensures DirectionReducer(DirectionReducer(state, action), action) == DirectionReducer(state, action)
  {
  }

  // ---------------------------------------------------------------------------
  // getSnakeCoordinate (Game.tsx:62-80)
  // ---------------------------------------------------------------------------

  /** The unit vector of a direction, the record `m`. */
  function Unit(d: Direction): Cell {
    match d
    case Left => Cell(-1, 0)
    case Up => Cell(0, -1)
    case Right => Cell(1, 0)
    case Down => Cell(0, 1)
  }

  /** `p` moved by `cell` pixels along `d`. */
  function Shift(p: Cell, cell: int, d: Direction): Cell {
    Cell(p.x + cell * Unit(d).x, p.y + cell * Unit(d).y)
  }

  /** A step in the opposite direction undoes a step. */
  lemma ShiftOpposite(p: Cell, cell: int, d: Direction)
    ensures Shift(Shift(p, cell, d), cell, Opposite(d)) == p
  {
  }

  lemma ShiftKeepsAlignment(p: Cell, cell: int, d: Direction)
    requires cell > 0 && Aligned(p, cell)
    ensures Aligned(Shift(p, cell, d), cell)
  {
    AlignedShift(p.x, cell, Unit(d).x);
    AlignedShift(p.y, cell, Unit(d).y);
  }

  /**
   * The moved snake: a new head one cell along `direction`, followed by the old
   * cells except the last one.
   */
  function Move(current: seq<Cell>, cell: int, direction: Direction): (r: seq<Cell>)
    requires |current| > 0
    ensures |r| == |current|
    ensures r[0].x == current[0].x + cell * Unit(direction).x
    ensures r[0].y == current[0].y + cell * Unit(direction).y
    ensures forall i :: 0 <= i < |current| - 1 ==> r[i + 1] == current[i]
  {
    [Shift(current[0], cell, direction)] + current[..|current| - 1]
  }

  lemma {:induction false} MoveKeepsAlignment(s: seq<Cell>, cell: int, d: Direction)
    requires cell > 0 && |s| > 0 && AllAligned(s, cell)
    ensures AllAligned(Move(s, cell, d), cell)
  {
    var r := Move(s, cell, d);
    ShiftKeepsAlignment(s[0], cell, d);
    forall i | 0 <= i < |r|
      ensures Aligned(r[i], cell)
    {
      if i > 0 {
        assert r[i] == s[i - 1];
      }
    }
  }

  /**
   * A snake of three or more cells that moves back the way it came puts its
   * head on its neck, and the move is a tail hit.
   */
  lemma {:induction false} ReversalBitesNeck(s: seq<Cell>, cell: int, d: Direction)
    requires |s| >= 3 && s[0] == Shift(s[1], cell, d)
    ensures HitTail(Move(s, cell, Opposite(d)))
  {
    var r := Move(s, cell, Opposite(d));
    ShiftOpposite(s[1], cell, d);
    assert r[2] == s[1] == r[0];
  }

  /**
   * The consequence of `DEFAULT` sharing the value 'right': a right request
   * while the snake moves left is accepted, and the next move bites the neck.
   */
  lemma RightWhileMovingLeftEndsGame(s: seq<Cell>, cell: int)
    requires |s| >= 3 && s[0] == Shift(s[1], cell, Left)
    ensures DirectionReducer(Left, Right) == Right
    ensures HitTail(Move(s, cell, DirectionReducer(Left, Right)))
  {
    ReversalBitesNeck(s, cell, Left);
  }

  /**
   * The reducer compares a request with the pending direction, not with the
   * last move: a sideways turn and then the reversal of the last move, both
   * pressed before the next tick, are both accepted, and that tick bites the
   * neck.
   */
  lemma {:induction false} TwoKeysReverse(s: seq<Cell>, cell: int, d: Direction, turn: Direction)
    requires |s| >= 3 && s[0] == Shift(s[1], cell, d) && !SameAxis(d, turn)
    ensures DirectionReducer(DirectionReducer(d, turn), Opposite(d)) == Opposite(d)
    ensures HitTail(Move(s, cell, DirectionReducer(DirectionReducer(d, turn), Opposite(d))))
  {
    ReversalBitesNeck(s, cell, d);
  }

  // ---------------------------------------------------------------------------
  // getRandomAppleCoordinate, getAppleCoordinate (Game.tsx:82-102)
  // ---------------------------------------------------------------------------

  lemma CandidateIndexBounds(n: int, den: int, span: int, cell: int)
    requires 0 <= n < den && cell > 0 && span >= 0
    ensures var k := (n * span) / (den * cell);
      0 <= k && k * cell <= span && (span > 0 ==> k * cell < span)
  {
  }

  lemma NegativeFactor(t: int, c: int)
    requires c > 0 && t * c < 0
    ensures t < 0
  {
  }

  lemma BelowQuotient(a: int, b: int, c: int)
    requires c > 0 && a * c <= b
    ensures a <= b / c
  {
    var q, m := b / c, b % c;
    assert b == q * c + m && m < c;
    assert (a - q - 1) * c == a * c - q * c - c;
    NegativeFactor(a - q - 1, c);
  }

  lemma QuotientBound(a: int, b: int, c: int)
    requires c > 0 && a <= b / c
    ensures a * c <= b
  {
    var q := b / c;
    assert b == q * c + b % c && 0 <= b % c;
    assert (q - a) * c >= 0;
  }

  lemma MulDiv(k: int, m: int)
    requires m > 0
    ensures (k * m) / m == k
  {
    var d := (k * m) / m;
    MultipleMod(k, m);
    assert k * m == d * m + (k * m) % m;
    assert (k - d) * m == 0;
  }

  /**
   * The number of grid indices a candidate can take along a side of `dim`
   * pixels: the `k >= 0` with `k * cell < dim - cell`, or only 0 when the side
   * is one cell long.
   */
  function CandidateCount(dim: int, cell: int): int
    requires cell > 0
  {
    if dim > cell then (dim - 1) / cell else 1
  }

  /**
   * `Math.floor(r * ((dim - cell) / cell))` for `r = num / den`, the grid
   * index of a candidate: on a side at least one cell long it is one of the
   * `CandidateCount` indices, so its square ends inside the side, and strictly
   * before its end when the side is longer than a cell.
   */
  function CandidateIndex(r: Fraction, dim: int, cell: int): (k: int)
    requires cell > 0 && IsUnitFraction(r)
    ensures dim >= cell ==> 0 <= k < CandidateCount(dim, cell) && k * cell <= dim - cell
    ensures dim > cell ==> k * cell < dim - cell
  {
    CandidateIndexFits(r.num, r.den, dim, cell);
    (r.num * (dim - cell)) / (r.den * cell)
  }

  lemma CandidateIndexFits(n: int, den: int, dim: int, cell: int)
    requires 0 <= n < den && cell > 0
    ensures var k := (n * (dim - cell)) / (den * cell);
      && (dim >= cell ==> 0 <= k < CandidateCount(dim, cell) && k * cell <= dim - cell)
      && (dim > cell ==> k * cell < dim - cell)
  {
    if dim >= cell {
      var k := (n * (dim - cell)) / (den * cell);
      CandidateIndexBounds(n, den, dim - cell, cell);
      IndexBelowCount(k, dim, cell);
    }
  }

  /** An index whose cell ends inside the side (before its end when it is longer than a cell) is counted. */
  lemma IndexBelowCount(k: int, dim: int, cell: int)
    requires cell > 0 && dim >= cell && 0 <= k && k * cell <= dim - cell
    requires dim > cell ==> k * cell < dim - cell
    ensures k < CandidateCount(dim, cell)
  {
    if dim > cell {
      assert (k + 1) * cell == k * cell + cell;
      BelowQuotient(k + 1, dim - 1, cell);
    } else {
      assert (k - 1) * cell == k * cell - cell;
      NegativeFactor(k - 1, cell);
    }
  }

  /** A draw that yields grid index `k`: every one of the `CandidateCount` indices can be drawn. */
  function IndexDraw(k: int, dim: int, cell: int): (r: Fraction)
    requires cell > 0 && dim >= cell && 0 <= k < CandidateCount(dim, cell)
    ensures IsUnitFraction(r) && CandidateIndex(r, dim, cell) == k
  {
    if k == 0 then Fraction(0, 1)
    else
      var span := dim - cell;
      QuotientBound(k + 1, dim - 1, cell);
      MulDiv(k, span * cell);
      assert (k * cell) * span == k * (span * cell);
      Fraction(k * cell, span)
  }

  /**
   * `Math.floor(r * ((dim - cell) / cell)) * cell`: a multiple of `cell`; when
   * the canvas is at least a cell wide, its square lies on the canvas, and
   * when it is wider than a cell, never in the last column (or row).
   */
  function CandidateCoordinate(r: Fraction, dim: int, cell: int): (v: int)
    requires cell > 0 && IsUnitFraction(r)
    ensures v % cell == 0
    ensures dim >= cell ==> 0 <= v && v + cell <= dim
    ensures dim > cell ==> v + cell < dim
  {
    var k := CandidateIndex(r, dim, cell);
    MultipleMod(k, cell);
    k * cell
  }

  /** The grid cell in column `kx` and row `ky`. */
  function GridCell(kx: int, ky: int, cell: int): Cell {
    Cell(kx * cell, ky * cell)
  }

  /** One apple candidate, from two random draws. */
  function RandomAppleCoordinate(cell: int, width: int, height: int, d: Draw): (a: Cell)
    requires cell > 0 && IsRandom(d)
    ensures Aligned(a, cell)
    ensures width >= cell && height >= cell ==> OnCanvas(a, cell, width, height)
    ensures width > cell ==> a.x + cell < width
    ensures height > cell ==> a.y + cell < height
  {
    Cell(CandidateCoordinate(d.rx, width, cell), CandidateCoordinate(d.ry, height, cell))
  }

  /**
   * The first candidate, in draw order, that no cell of `s` occupies; `None`
   * when every supplied draw lands on the snake. The source retries without
   * bound: on a board that is not full a later draw ends the retry
   * (`FreeCellIsDrawable`), on a full one none does (`FullBoardHasNoApple`).
   */
  function AppleCoordinate(s: seq<Cell>, cell: int, width: int, height: int, draws: seq<Draw>): (r: Option<Cell>)
    requires cell > 0 && AllRandom(draws)
    ensures r.Some? ==> r.value !in s && Aligned(r.value, cell)
    ensures r.Some? && width >= cell && height >= cell ==> OnCanvas(r.value, cell, width, height)
    ensures r.None? <==> forall i :: 0 <= i < |draws| ==> RandomAppleCoordinate(cell, width, height, draws[i]) in s
    ensures r.Some? ==>
      exists i :: (0 <= i < |draws| && r.value == RandomAppleCoordinate(cell, width, height, draws[i])
                   && forall j :: 0 <= j < i ==> RandomAppleCoordinate(cell, width, height, draws[j]) in s)
    decreases |draws|
  {
    if |draws| == 0 then None
    else
      var a := RandomAppleCoordinate(cell, width, height, draws[0]);
      if a in s then
        var rest := draws[1..];
        assert forall i :: 1 <= i < |draws| ==> draws[i] == rest[i - 1];
        AppleCoordinate(s, cell, width, height, rest)
      else
        Some(a)
  }

  /**
   * Every cell a candidate can be lies on the snake. The retry in
   * `getAppleCoordinate` then never finds a free cell and never returns.
   */
  predicate BoardFull(s: seq<Cell>, cell: int, width: int, height: int)
    requires cell > 0
  {
    forall kx, ky | 0 <= kx < CandidateCount(width, cell) && 0 <= ky < CandidateCount(height, cell) ::
      GridCell(kx, ky, cell) in s
  }

  /** A draw whose candidate is the grid cell in column `kx` and row `ky`. */
  function DrawAt(kx: int, ky: int, cell: int, width: int, height: int): (d: Draw)
    requires cell > 0 && width >= cell && height >= cell
    requires 0 <= kx < CandidateCount(width, cell) && 0 <= ky < CandidateCount(height, cell)
    ensures IsRandom(d) && RandomAppleCoordinate(cell, width, height, d) == GridCell(kx, ky, cell)
  {
    Draw(IndexDraw(kx, width, cell), IndexDraw(ky, height, cell))
  }

  /** On a full board no sequence of draws, however long, yields an apple. */
  lemma FullBoardHasNoApple(s: seq<Cell>, cell: int, width: int, height: int, draws: seq<Draw>)
    requires cell > 0 && width >= cell && height >= cell && AllRandom(draws)
    requires BoardFull(s, cell, width, height)
    ensures AppleCoordinate(s, cell, width, height, draws).None?
  {
    forall i | 0 <= i < |draws|
      ensures RandomAppleCoordinate(cell, width, height, draws[i]) in s
    {
      var d := draws[i];
      assert d in draws;
      var kx := CandidateIndex(d.rx, width, cell);
      var ky := CandidateIndex(d.ry, height, cell);
      assert RandomAppleCoordinate(cell, width, height, d) == GridCell(kx, ky, cell);
    }
  }

  /** On a board that is not full some draw yields a free candidate, so the retry can end. */
  lemma FreeCellIsDrawable(s: seq<Cell>, cell: int, width: int, height: int)
    requires cell > 0 && width >= cell && height >= cell
    requires !BoardFull(s, cell, width, height)
    ensures exists d :: IsRandom(d) && RandomAppleCoordinate(cell, width, height, d) !in s
  {
    var kx, ky :| 0 <= kx < CandidateCount(width, cell) && 0 <= ky < CandidateCount(height, cell)
                  && GridCell(kx, ky, cell) !in s;
    var d := DrawAt(kx, ky, cell, width, height);
    assert IsRandom(d) && RandomAppleCoordinate(cell, width, height, d) !in s;
  }

  // ---------------------------------------------------------------------------
  // ateApple, hitWall, hitTail (Game.tsx:104-113)
  // ---------------------------------------------------------------------------

  /** The head of `s` is on the apple. */
  function AteApple(a: Cell, s: seq<Cell>): (r: bool)
    requires |s| > 0
    ensures r <==> s[0] == a
  {
    s[0].x == a.x && s[0].y == a.y
  }

  /**
   * Only the top-left corner is tested, against the closed rectangle
   * [0, width] x [0, height]: a wall hit is a corner that, as a square of size
   * zero, is not on the canvas.
   */
  function HitWall(p: Cell, width: int, height: int): (r: bool)
    ensures r <==> !OnCanvas(p, 0, width, height)
  {
    p.x < 0 || p.x > width || p.y < 0 || p.y > height
  }

  /** Some cell after the head equals the head. */
  function HitTail(s: seq<Cell>): (r: bool)
    ensures r <==> exists i :: 1 <= i < |s| && s[i] == s[0]
  {
    |s| > 0 && s[0] in s[1..]
  }

  /** A cell whose square is on the canvas is never a wall hit. */
  lemma OnCanvasIsNotWall(p: Cell, cell: int, width: int, height: int)
    requires cell >= 0 && OnCanvas(p, cell, width, height)
    ensures !HitWall(p, width, height)
  {
  }

  /**
   * The wall test looks at the top-left corner only and against the far edge:
   * a head in the column that starts at `width` (or the row at `height`) is
   * wholly off the canvas and still not a wall hit; one more step is.
   */
  lemma FarEdgeIsNotWall(p: Cell, cell: int, width: int, height: int)
    requires cell > 0 && 0 <= p.y <= height && 0 <= p.x == width
    ensures !HitWall(p, width, height) && !OnCanvas(p, cell, width, height)
    ensures HitWall(Shift(p, cell, Right), width, height)
  {
  }

  // ---------------------------------------------------------------------------
  // keyMap (Game.tsx:183-191)
  // ---------------------------------------------------------------------------

  /**
   * The object literal `{[leftKey]: LEFT, [upKey]: UP, [rightKey]: RIGHT,
   * [downKey]: DOWN}`: exactly the four keys, a later entry overriding an
   * earlier one with the same key.
   */
  function KeyMap(leftKey: string, upKey: string, rightKey: string, downKey: string): (m: map<string, Direction>)
    ensures m.Keys == {leftKey, upKey, rightKey, downKey}
    ensures m[downKey] == Down
    ensures rightKey != downKey ==> m[rightKey] == Right
    ensures upKey !in {rightKey, downKey} ==> m[upKey] == Up
    ensures leftKey !in {upKey, rightKey, downKey} ==> m[leftKey] == Left
  {
    map[leftKey := Left][upKey := Up][rightKey := Right][downKey := Down]
  }
}
