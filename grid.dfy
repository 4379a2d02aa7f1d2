/** The board of the game: its constants, cells, the four directions and the
    unit step a head takes in each of them. */
module Grid {

  const GRID_SIZE: int := 20
  const INITIAL_SPEED: int := 150
  const SPEED_DECREASE_PER_LEVEL: int := 15
  const MIN_SPEED: int := 50
  const POINTS_PER_FOOD: int := 10
  const LEVEL_UP_THRESHOLD: int := 50

  /** Number of cells on the board. */
  const GRID_CELLS: int := GRID_SIZE * GRID_SIZE

  datatype Option<T> = None | Some(value: T)

  datatype Point = Point(x: int, y: int)

  datatype Direction = Up | Down | Left | Right

  /** The wall test: the cell is one of the board's cells. */
  predicate InBounds(p: Point): (b: bool)
    ensures b <==> p in Cells(GRID_SIZE, GRID_SIZE)
  {
    0 <= p.x < GRID_SIZE && 0 <= p.y < GRID_SIZE
  }

  /** A cell where food may be placed: on the board and not under the snake. */
  predicate FreeCell(snake: seq<Point>, p: Point) {
    InBounds(p) && p !in snake
  }

  function Opposite(d: Direction): (o: Direction)
    ensures o != d
  {
    match d
    case Up => Down
    case Down => Up
    case Left => Right
    case Right => Left
  }

  /** Turning round twice faces the first way. */
  lemma OppositeInvolution(d: Direction)
    ensures Opposite(Opposite(d)) == d
  {
  }

  /** The larger of two numbers, as `Math.max`. */
  function Max(a: int, b: int): (m: int)
    ensures m >= a && m >= b
    ensures m == a || m == b
  {
    if a >= b then a else b
  }

  function Abs(n: int): nat {
    if n < 0 then -n else n
  }

  /** The cell next to `p` in direction `d`; the y axis grows downwards. */
  function Step(p: Point, d: Direction): (q: Point)
    ensures Abs(q.x - p.x) + Abs(q.y - p.y) == 1
    ensures (d == Up || d == Down) <==> q.x == p.x
    ensures d == Up <==> q.y < p.y
    ensures d == Left <==> q.x < p.x
  {
    match d
    case Up => Point(p.x, p.y - 1)
    case Down => Point(p.x, p.y + 1)
    case Left => Point(p.x - 1, p.y)
    case Right => Point(p.x + 1, p.y)
  }

  /** Stepping back in the opposite direction undoes a step. */
  lemma StepUndone(p: Point, d: Direction)
    ensures Step(Step(p, d), Opposite(d)) == p
  {
  }

  /** The cells of a w-by-h rectangle anchored at the origin. */
  function Cells(w: nat, h: nat): set<Point> {
    set x: int, y: int | 0 <= x < w && 0 <= y < h :: Point(x, y)
  }

  /** One row of `Cells(w, _)`. */
  function Row(w: nat, y: int): set<Point> {
    set x: int | 0 <= x < w :: Point(x, y)
  }

  lemma {:induction false} RowCard(w: nat, y: int)
    ensures |Row(w, y)| == w
  {
    if w > 0 {
      RowCard(w - 1, y);
      assert Row(w, y) == Row(w - 1, y) + {Point(w - 1, y)};
    } else {
      assert Row(w, y) == {};
    }
  }

  lemma {:induction false} CellsCard(w: nat, h: nat)
    ensures |Cells(w, h)| == w * h
  {
    if h > 0 {
      CellsCard(w, h - 1);
      RowCard(w, h - 1);
      CellsSplit(w, h - 1);
      var below, row := Cells(w, h - 1), Row(w, h - 1);
      assert |below + row| == |below| + |row|;
      ProductStep(w, h);
    } else {
      assert Cells(w, h) == {};
    }
  }

  lemma ProductStep(w: nat, h: nat)
    requires h > 0
    ensures w * h == w * (h - 1) + w
  {
  }

  /** Adding row `h` to a w-by-h rectangle gives the w-by-(h+1) one, and that
      row is new. */
  lemma CellsSplit(w: nat, h: nat)
    ensures Cells(w, h + 1) == Cells(w, h) + Row(w, h)
    ensures Cells(w, h) * Row(w, h) == {}
  {
  }

  /** The cells a sequence of points covers. */
  function Covered(s: seq<Point>): set<Point> {
    set p | p in s
  }

  lemma {:induction false} CoveredCard(s: seq<Point>)
    ensures |Covered(s)| <= |s|
  {
    if s != [] {
      CoveredCard(s[1..]);
      assert Covered(s) == {s[0]} + Covered(s[1..]);
    } else {
      assert Covered(s) == {};
    }
  }

  lemma SubsetCard(a: set<Point>, b: set<Point>)
    requires a <= b
    ensures |a| <= |b|
  {
    assert b == a + (b - a);
  }

  /** Pigeonhole: a snake shorter than the board leaves some cell free. */
  lemma FreeCellExists(snake: seq<Point>)
    requires |snake| < GRID_CELLS
    ensures exists p :: FreeCell(snake, p)
  {
    var board := Cells(GRID_SIZE, GRID_SIZE);
    CellsCard(GRID_SIZE, GRID_SIZE);
    CoveredCard(snake);
    if !(board <= Covered(snake)) {
      var p :| p in board && p !in Covered(snake);
      assert FreeCell(snake, p);
    } else {
      SubsetCard(board, Covered(snake));
      assert false;
    }
  }
}
