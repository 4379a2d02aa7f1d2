/** Placing food on the board. */
module Food {
  import opened Grid

  /** Picks a board cell the snake does not cover. The component's generator retries
      uniformly random cells until one is free; every free cell is a possible
      result, which the nondeterministic choice below stands for. The retry
      loop never ends when no cell is free, so a free cell must exist. */
  method GenerateFood(snake: seq<Point>) returns (food: Point)
    requires exists p :: FreeCell(snake, p)
    ensures InBounds(food)
    ensures food !in snake
  {
    food :| FreeCell(snake, food);
  }

  /** The one situation in which the retry loop cannot end: every cell of
      the board is covered by the snake. */
  lemma NoFreeCellOnFullBoard(snake: seq<Point>)
    requires forall p :: InBounds(p) ==> p in snake
    ensures |snake| >= GRID_CELLS
  {
    if |snake| < GRID_CELLS {
      FreeCellExists(snake);
      assert false;
    }
  }
}
