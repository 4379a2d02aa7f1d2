/** The two rules the component applies around the reducer: how fast the
    snake moves at a level, and how an arrow key changes the pending
    direction. */
module Controls {
  import opened Grid

  /** Milliseconds between two moves: INITIAL_SPEED less
      SPEED_DECREASE_PER_LEVEL for every level above the first, but never
      below MIN_SPEED. */
  function Speed(level: int): (ms: int)
    ensures ms >= MIN_SPEED
    ensures level >= 1 ==> ms <= INITIAL_SPEED
    ensures level == 1 ==> ms == INITIAL_SPEED
    ensures level >= 8 <==> ms == MIN_SPEED
  {
    Max(MIN_SPEED, INITIAL_SPEED - (level - 1) * SPEED_DECREASE_PER_LEVEL)
  }

  /** A higher level is never slower. */
  lemma SpeedNonIncreasing(l1: int, l2: int)
    requires l1 <= l2
    ensures Speed(l2) <= Speed(l1)
  {
  }

  /** Each level-up shortens the interval by SPEED_DECREASE_PER_LEVEL until
      the floor is reached, so every level below 8 is strictly faster than
      the one before it. */
  lemma SpeedLevelUp(level: int)
    ensures Speed(level + 1) == Max(MIN_SPEED, Speed(level) - SPEED_DECREASE_PER_LEVEL)
    ensures 1 <= level < 8 ==> Speed(level + 1) < Speed(level)
  {
  }

  /** The direction an arrow key asks for; other keys ask for none. */
  function KeyDirection(key: string): (d: Option<Direction>)
    ensures d.Some? <==> key in {"ArrowUp", "ArrowDown", "ArrowLeft", "ArrowRight"}
  {
    if key == "ArrowUp" then Some(Up)
    else if key == "ArrowDown" then Some(Down)
    else if key == "ArrowLeft" then Some(Left)
    else if key == "ArrowRight" then Some(Right)
    else None
  }

  /** The pending direction after a key press: an arrow key turns the snake
      its way unless that is straight back, and nothing changes before the
      game has started or for any other key. */
  function Steer(started: bool, current: Direction, key: string): (d: Direction)
    ensures d != Opposite(current)
    ensures d != current ==> started && KeyDirection(key) == Some(d)
    ensures started && KeyDirection(key).Some? && KeyDirection(key).value != Opposite(current) ==>
              d == KeyDirection(key).value
  {
    if !started then current
    else match KeyDirection(key)
      case None => current
      case Some(wanted) => if current != Opposite(wanted) then wanted else current
  }

  /** The rule only looks at the pending direction, so two quick presses can
      still turn the snake straight back before it has moved: from `Right`,
      up and then left. */
  lemma TwoPressesReverse()
    ensures Steer(true, Steer(true, Right, "ArrowUp"), "ArrowLeft") == Opposite(Right)
  {
  }
}
