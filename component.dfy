/** The mutable parts of the game component: the reducer's current state,
    the pending direction the keyboard handler updates, and the handlers
    that dispatch actions to the reducer. */
module Component {
  import opened Grid
  import opened Game
  import Food
  import Controls

  /** The food generator can return for this action: the snake it would be
      handed, if any, leaves a board cell free. */
  predicate CanFeed(s: GameState, a: Action) {
    match FoodQuery(s, a)
    case None => true
    case Some(snake) => |snake| < GRID_CELLS
  }

  class SnakeGame {
    /** The reducer's state. */
    var state: GameState
    /** The direction the next MOVE will take; the state's own `direction`
        field is never consulted for that. */
    var pending: Direction

    ghost predicate Valid()
      reads this`state
    {
      Game.Valid(state)
    }

    /** Mounting: the initial record with food placed by the generator and
        the high score read from storage, facing right. */
    constructor (storedHighScore: int, now: int)
      ensures Valid()
      ensures exists food :: FreeCell(InitialSnake, food) && state == Mount(storedHighScore, now, food)
      ensures pending == Right
    {
      InitialSnakeValid();
      var food := Food.GenerateFood(InitialSnake);
      MountValid(storedHighScore, now, food);
      state := Mount(storedHighScore, now, food);
      pending := Right;
    }

    /** Runs the reducer on one action, calling the food generator on the
        snake the reducer hands it. */
    method Dispatch(a: Action, now: int)
      requires Valid()
      requires CanFeed(state, a)
      modifies this`state
      ensures Valid()
      ensures exists food :: Admissible(old(state), a, Env(now, food)) &&
                             state == Reduce(old(state), a, Env(now, food))
    {
      var food := state.food;
      match FoodQuery(state, a) {
        case Some(snake) =>
          FreeCellExists(snake);
          food := Food.GenerateFood(snake);
        case None =>
      }
      ReducePreservesValid(state, a, Env(now, food));
      state := Reduce(state, a, Env(now, food));
    }

    /** The keyboard handler: it changes only the pending direction, and
        never to the opposite of the pending one. */
    method HandleKey(key: string)
      modifies this`pending
      ensures pending == Controls.Steer(state.gameStarted, old(pending), key)
      ensures pending != Opposite(old(pending))
    {
      if !state.gameStarted {
        return;
      }
      var current := pending;
      if key == "ArrowUp" {
        if current != Down { pending := Up; }
      } else if key == "ArrowDown" {
        if current != Up { pending := Down; }
      } else if key == "ArrowLeft" {
        if current != Right { pending := Left; }
      } else if key == "ArrowRight" {
        if current != Left { pending := Right; }
      }
    }

    /** One frame of the animation loop once the move interval has passed:
        a running game is sent a MOVE in the pending direction. */
    method Tick(now: int)
      requires Valid()
      requires CanFeed(state, Move(pending))
      modifies this`state
      ensures Valid()
      ensures exists food :: Admissible(old(state), Move(pending), Env(now, food)) &&
                             state == Reduce(old(state), Move(pending), Env(now, food))
    {
      if !state.gameStarted || state.gameOver {
        assert Admissible(state, Move(pending), Env(now, state.food));
        return;
      }
      Dispatch(Move(pending), now);
    }

    /** The "Start Game" button. */
    method StartGame(now: int)
      requires Valid()
      modifies this`state
      ensures Valid()
      ensures state == Reduce(old(state), Start, Env(now, old(state).food))
      ensures state == old(state).(gameStarted := true, gameStartTime := now)
    {
      Dispatch(Start, now);
    }

    /** The "Play Again" button as the component has it: it restarts the
        reducer but leaves the pending direction as it was, so a game that
        ended while moving left restarts into its own body on the first
        move. */
    method PlayAgain(now: int)
      requires Valid()
      modifies this`state
      ensures Valid()
      ensures pending == Left ==> forall e :: Reduce(state, Move(pending), e).gameOver
      ensures exists food :: FreeCell(InitialSnake, food) &&
                             state == Reduce(old(state), Restart, Env(now, food))
    {
      Dispatch(Restart, now);
      forall e ensures pending == Left ==> Reduce(state, Move(pending), e).gameOver {
        var food :| FreeCell(InitialSnake, food) && state == Reduce(old(state), Restart, Env(now, food));
        RestartThenLeftEndsGame(old(state), Env(now, food), e);
      }
    }

    /** "Play Again" with the pending direction reset to the direction the
        new game faces, so the first move never ends it. */
    method PlayAgainFacingRight(now: int)
      requires Valid()
      modifies this
      ensures Valid()
      ensures pending == Right
      ensures forall e :: !Reduce(state, Move(pending), e).gameOver
      ensures exists food :: FreeCell(InitialSnake, food) &&
                             state == Reduce(old(state), Restart, Env(now, food))
    {
      Dispatch(Restart, now);
      pending := Right;
      forall e ensures !Reduce(state, Move(pending), e).gameOver {
        var food :| FreeCell(InitialSnake, food) && state == Reduce(old(state), Restart, Env(now, food));
        RestartThenRightContinues(old(state), Env(now, food), e);
      }
    }
  }
}
