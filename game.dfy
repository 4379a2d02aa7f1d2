/** The game's state record and its reducer: the transition function driven
    by the five kinds of action, together with the invariant every action
    keeps. */
module Game {
  import opened Grid

  datatype GameState = GameState(
    snake: seq<Point>,
    food: Point,
    direction: Direction,
    gameOver: bool,
    score: int,
    level: int,
    highScore: int,
    gameStartTime: int,
    movesCount: int,
    gameStarted: bool)

  datatype Action = Start | Restart | Move(dir: Direction) | GameOver | SetHighScore

  /** What the reducer takes from outside the game: the clock reading, and
      the cell the food generator produces if this action asks for one. */
  datatype Env = Env(now: int, food: Point)

  /** The snake every game starts with: three cells on row 10, head at
      column 12, lying towards the left. */
  const InitialSnake: seq<Point> := [Point(12, 10), Point(11, 10), Point(10, 10)]

  /** No two cells of the sequence coincide. */
  predicate Distinct(s: seq<Point>) {
    forall i, j :: 0 <= i < j < |s| ==> s[i] != s[j]
  }

  predicate OnBoard(s: seq<Point>) {
    forall i :: 0 <= i < |s| ==> InBounds(s[i])
  }

  /** The level that goes with a score: one more than the number of whole
      thresholds reached. Euclidean division by the positive threshold is
      the floor the reducer computes. */
  function LevelFor(score: int): (l: int)
    ensures score >= 0 ==> l >= 1
    ensures (l - 1) * LEVEL_UP_THRESHOLD <= score < l * LEVEL_UP_THRESHOLD
  {
    score / LEVEL_UP_THRESHOLD + 1
  }

  /** What one MOVE does to the snake, before the record is rebuilt. */
  datatype Advance = Crash | Slide(snake: seq<Point>) | Eat(snake: seq<Point>)

  /** Moves the head one cell in `dir`: the move crashes when the new head
      leaves the board or lands on any cell of the current snake, its last
      cell included; otherwise the new head is put in front and, unless it
      lands on the food, the last cell is dropped. An empty snake has no
      head: in the component the head is then a point with undefined coordinates,
      every comparison with it is false, and the one-cell snake built from
      it loses that cell again. */
  function AdvanceSnake(snake: seq<Point>, food: Point, dir: Direction): (r: Advance)
    ensures r.Slide? ==> |r.snake| == |snake|
    ensures r.Eat? ==> |r.snake| == |snake| + 1
    ensures snake != [] && !r.Crash? ==>
              r.snake[0] == Step(snake[0], dir) && r.snake[1..] <= snake
    ensures r.Crash? ==> snake != []
    ensures r.Eat? <==> snake != [] && FreeCell(snake, food) && Step(snake[0], dir) == food
  {
    if snake == [] then
      Slide([])
    else
      var head := Step(snake[0], dir);
      if !InBounds(head) || head in snake then
        Crash
      else if head == food then
        Eat([head] + snake)
      else
        Slide([head] + snake[..|snake| - 1])
  }

  /** The reducer. */
  function Reduce(s: GameState, a: Action, env: Env): (r: GameState)
    ensures r.highScore >= s.highScore
    ensures !a.Restart? ==> |r.snake| == |s.snake| || |r.snake| == |s.snake| + 1
    ensures s.gameOver && !a.Restart? ==> r.gameOver
    ensures a.Move? && (!s.gameStarted || s.gameOver) ==> r == s
    ensures a.Start? ==> r.gameStarted && r.gameOver == s.gameOver
    ensures a.GameOver? ==> r.gameOver && r.gameStarted == s.gameStarted
    ensures r.direction == (if a.Restart? then Right else s.direction)
  {
    match a
    case Start =>
      s.(gameStarted := true, gameStartTime := env.now)
    case Restart =>
      GameState(
        snake := InitialSnake,
        food := env.food,
        direction := Right,
        gameOver := false,
        score := 0,
        level := 1,
        highScore := s.highScore,
        gameStartTime := env.now,
        movesCount := 0,
        gameStarted := true)
    case SetHighScore =>
      s.(highScore := Max(s.highScore, s.score))
    case GameOver =>
      s.(gameOver := true)
    case Move(dir) =>
      if !s.gameStarted || s.gameOver then
        s
      else
        match AdvanceSnake(s.snake, s.food, dir)
        case Crash =>
          s.(gameOver := true)
        case Eat(grown) =>
          var newScore := s.score + POINTS_PER_FOOD;
          s.(snake := grown, food := env.food, score := newScore,
             level := LevelFor(newScore), movesCount := s.movesCount + 1)
        case Slide(moved) =>
          s.(snake := moved, movesCount := s.movesCount + 1)
  }

  /** The snake the reducer hands to the food generator for this action, if
      it calls the generator at all. */
  function FoodQuery(s: GameState, a: Action): (q: Option<seq<Point>>)
    ensures q.Some? ==> a.Restart? || a.Move?
    ensures q.Some? ==> forall env :: Reduce(s, a, env).snake == q.value && Reduce(s, a, env).food == env.food
  {
    match a
    case Restart => Some(InitialSnake)
    case Move(dir) =>
      if !s.gameStarted || s.gameOver then None
      else (match AdvanceSnake(s.snake, s.food, dir)
            case Eat(grown) => Some(grown)
            case _ => None)
    case _ => None
  }

  /** The environment is one the component can produce: when the generator is
      called, its cell is free on the snake it was given. */
  predicate Admissible(s: GameState, a: Action, env: Env) {
    match FoodQuery(s, a)
    case None => true
    case Some(snake) => FreeCell(snake, env.food)
  }

  /** The generator's cell is used exactly when the generator is called, and
      then it is given the snake of the new state; otherwise the food stays. */
  lemma FoodQueryMeaning(s: GameState, a: Action, env: Env)
    ensures FoodQuery(s, a).Some? ==>
              Reduce(s, a, env).snake == FoodQuery(s, a).value && Reduce(s, a, env).food == env.food
    ensures FoodQuery(s, a).None? ==> Reduce(s, a, env).food == s.food
    ensures FoodQuery(s, a).None? ==> Reduce(s, a, env) == Reduce(s, a, Env(env.now, s.food))
  {
  }

  /** The record the component starts from before the first START. */
  function Mount(storedHighScore: int, now: int, food: Point): (s: GameState)
    ensures !s.gameStarted && !s.gameOver
    ensures s.snake == InitialSnake && s.score == 0 && s.level == 1 && s.movesCount == 0
    ensures s.highScore == storedHighScore
    ensures s.food == food && s.direction == Right && s.gameStartTime == now
  {
    GameState(InitialSnake, food, Right, false, 0, 1, storedHighScore, now, 0, false)
  }

  /** The invariant: the snake is at least as long as at the start, lies on
      the board without overlapping itself, the food is on a free cell, the
      score counts the food eaten so far, and the level is the one that
      goes with the score. */
  predicate Valid(s: GameState) {
    && |s.snake| >= |InitialSnake|
    && OnBoard(s.snake)
    && Distinct(s.snake)
    && FreeCell(s.snake, s.food)
    && s.score == (|s.snake| - |InitialSnake|) * POINTS_PER_FOOD
    && s.level == LevelFor(s.score)
    && s.movesCount >= 0
  }

  lemma InitialSnakeValid()
    ensures OnBoard(InitialSnake) && Distinct(InitialSnake)
    ensures FreeCell(InitialSnake, Point(0, 0))
  {
  }

  lemma MountValid(storedHighScore: int, now: int, food: Point)
    requires FreeCell(InitialSnake, food)
    ensures Valid(Mount(storedHighScore, now, food))
  {
  }

  /** A move that does not crash keeps the snake on the board and free of
      overlaps: the new head was checked against the board and against every
      old cell, and the rest is a prefix of the old snake. */
  lemma AdvanceKeepsShape(snake: seq<Point>, food: Point, dir: Direction)
    requires OnBoard(snake) && Distinct(snake) && snake != []
    ensures AdvanceSnake(snake, food, dir).Slide? || AdvanceSnake(snake, food, dir).Eat? ==>
              OnBoard(AdvanceSnake(snake, food, dir).snake) && Distinct(AdvanceSnake(snake, food, dir).snake)
  {
  }

  /** Every action keeps the invariant, given a generator cell the component
      can produce. */
  lemma ReducePreservesValid(s: GameState, a: Action, env: Env)
    requires Valid(s)
    requires Admissible(s, a, env)
    ensures Valid(Reduce(s, a, env))
  {
  }

  /** A MOVE before START, or after the game has ended, leaves the state as
      it is. */
  lemma MoveIgnoredWhenIdle(s: GameState, dir: Direction, env: Env)
    requires !s.gameStarted || s.gameOver
    ensures Reduce(s, Move(dir), env) == s
  {
  }

  /** A running MOVE ends the game exactly when the new head leaves the
      board or lands on the snake, and then nothing but `gameOver` changes. */
  lemma MoveCrash(s: GameState, dir: Direction, env: Env)
    requires s.gameStarted && !s.gameOver && s.snake != []
    ensures var head := Step(s.snake[0], dir);
            Reduce(s, Move(dir), env).gameOver <==> !InBounds(head) || head in s.snake
    ensures Reduce(s, Move(dir), env).gameOver ==> Reduce(s, Move(dir), env) == s.(gameOver := true)
  {
  }

  /** A running MOVE onto a free cell without food slides the snake: the
      new head is the old one shifted one unit towards `dir`, the last cell
      is dropped, the move is counted, and score, level and food stay. */
  lemma MoveSlide(s: GameState, dir: Direction, env: Env)
    requires s.gameStarted && !s.gameOver && s.snake != []
    requires var head := Step(s.snake[0], dir); FreeCell(s.snake, head) && head != s.food
    ensures var r := Reduce(s, Move(dir), env);
            && r.snake == [Step(s.snake[0], dir)] + s.snake[..|s.snake| - 1]
            && |r.snake| == |s.snake|
            && r.movesCount == s.movesCount + 1
            && r == s.(snake := r.snake, movesCount := r.movesCount)
  {
  }

  /** A running MOVE onto the food grows the snake by its new head, adds
      POINTS_PER_FOOD to the score, recomputes the level, takes the
      generator's cell as the new food and counts the move. */
  lemma MoveEat(s: GameState, dir: Direction, env: Env)
    requires s.gameStarted && !s.gameOver && s.snake != []
    requires var head := Step(s.snake[0], dir); FreeCell(s.snake, head) && head == s.food
    ensures var r := Reduce(s, Move(dir), env);
            && r.snake == [Step(s.snake[0], dir)] + s.snake
            && |r.snake| == |s.snake| + 1
            && r.score == s.score + POINTS_PER_FOOD
            && r.level == (s.score + POINTS_PER_FOOD) / LEVEL_UP_THRESHOLD + 1
            && r.food == env.food
            && r.movesCount == s.movesCount + 1
            && r == s.(snake := r.snake, food := r.food, score := r.score,
                       level := r.level, movesCount := r.movesCount)
  {
  }

  /** START marks the game as started and stamps the clock; nothing else
      changes. */
  lemma StartBegins(s: GameState, env: Env)
    ensures Reduce(s, Start, env) == s.(gameStarted := true, gameStartTime := env.now)
  {
  }

  /** After the start button the mounted game runs: its first MOVE, in the
      direction it faces, is counted and does not end it. */
  lemma StartThenMoveRuns(storedHighScore: int, now: int, food: Point, e1: Env, e2: Env)
    ensures var r := Reduce(Reduce(Mount(storedHighScore, now, food), Start, e1), Move(Right), e2);
            !r.gameOver && r.movesCount == 1
  {
  }

  /** GAME_OVER ends the game and changes nothing else. */
  lemma GameOverEnds(s: GameState, env: Env)
    ensures Reduce(s, GameOver, env) == s.(gameOver := true)
  {
  }

  /** After GAME_OVER every MOVE is ignored. */
  lemma GameOverFreezes(s: GameState, e1: Env, dir: Direction, e2: Env)
    ensures var r := Reduce(s, GameOver, e1);
            Reduce(r, Move(dir), e2) == r
  {
  }

  /** SET_HIGH_SCORE raises the high score to the current score if that is
      higher, changes nothing else, and a second one has no further effect. */
  lemma SetHighScoreIdempotent(s: GameState, e1: Env, e2: Env)
    ensures var r := Reduce(s, SetHighScore, e1);
            && r.highScore == Max(s.highScore, s.score)
            && r == s.(highScore := r.highScore)
            && Reduce(r, SetHighScore, e2) == r
  {
  }

  /** RESTART starts a new game from the initial snake and keeps the high
      score. */
  lemma RestartResets(s: GameState, env: Env)
    ensures var r := Reduce(s, Restart, env);
            && r.snake == InitialSnake && r.score == 0 && r.level == 1
            && r.movesCount == 0 && !r.gameOver && r.gameStarted
            && r.highScore == s.highScore
  {
  }

  /** RESTART puts the head at column 12 with its neck at column 11, so a
      first MOVE to the left runs into the snake and ends the new game. */
  lemma RestartThenLeftEndsGame(s: GameState, e1: Env, e2: Env)
    ensures var r := Reduce(s, Restart, e1);
            Reduce(r, Move(Left), e2) == r.(gameOver := true)
  {
  }

  /** After RESTART, a first MOVE in the direction the new game faces keeps
      the game running. */
  lemma RestartThenRightContinues(s: GameState, e1: Env, e2: Env)
    ensures !Reduce(Reduce(s, Restart, e1), Move(Right), e2).gameOver
  {
  }

  /** One dispatched action together with its environment. */
  datatype Event = Event(action: Action, env: Env)

  /** The state after a sequence of dispatched actions. */
  function Run(s: GameState, events: seq<Event>): GameState
    decreases |events|
  {
    if events == [] then s
    else Run(Reduce(s, events[0].action, events[0].env), events[1..])
  }

  /** Every event's environment is one the component can produce. */
  predicate AdmissibleRun(s: GameState, events: seq<Event>)
    decreases |events|
  {
    events == [] ||
    (Admissible(s, events[0].action, events[0].env) &&
     AdmissibleRun(Reduce(s, events[0].action, events[0].env), events[1..]))
  }

  /** Any run from a valid state ends in a valid state. */
  lemma {:induction false} RunPreservesValid(s: GameState, events: seq<Event>)
    requires Valid(s) && AdmissibleRun(s, events)
    ensures Valid(Run(s, events))
    decreases |events|
  {
    if events != [] {
      ReducePreservesValid(s, events[0].action, events[0].env);
      RunPreservesValid(Reduce(s, events[0].action, events[0].env), events[1..]);
    }
  }

  /** The high score never decreases along a run. */
  lemma {:induction false} RunKeepsHighScore(s: GameState, events: seq<Event>)
    ensures Run(s, events).highScore >= s.highScore
    decreases |events|
  {
    if events != [] {
      RunKeepsHighScore(Reduce(s, events[0].action, events[0].env), events[1..]);
    }
  }

  /** Every state the component can reach is valid: it starts from the
      mounted record with a free food cell. */
  lemma ReachableValid(storedHighScore: int, now: int, food: Point, events: seq<Event>)
    requires FreeCell(InitialSnake, food)
    requires AdmissibleRun(Mount(storedHighScore, now, food), events)
    ensures Valid(Run(Mount(storedHighScore, now, food), events))
  {
    MountValid(storedHighScore, now, food);
    RunPreservesValid(Mount(storedHighScore, now, food), events);
  }
}
