# Snake game state machine

A Dafny model of the Snake game in `src/components/SnakeGrid.tsx`. The game is
a React component. Its logic is a reducer over a game-state record, driven by
five actions:

- `START` marks the game as started.
- `RESTART` begins a new game from the three-cell initial snake and keeps the
  high score.
- `MOVE` advances the snake one cell on the 20×20 board. It ends the game on a
  wall or the snake's own body. It grows the snake and adds 10 points when the
  head lands on the food.
- `GAME_OVER` ends the game.
- `SET_HIGH_SCORE` raises the high score to the current score.

Around the reducer sit four more pieces:

- a food generator that retries random cells until one is free;
- the speed rule, which turns the level into milliseconds between moves;
- a keyboard handler that updates the pending direction and refuses to turn
  straight back;
- the animation loop, which sends `MOVE` in the pending direction.

Modules:

- `Grid` (`grid.dfy`) holds the constants, cells, directions and the unit step.
  It also proves the pigeonhole fact that a snake shorter than the board leaves
  a cell free.
- `Food` (`food.dfy`) holds the food generator.
- `Game` (`game.dfy`) holds the state record, the reducer, and the invariant
  `Valid` with its preservation lemmas. `Valid` says:
  - the snake has at least 3 cells, stays on the board and never overlaps itself;
  - the food is on a free cell;
  - the score is 10 × (length − 3);
  - the level is `score / 50 + 1`.
- `Controls` (`controls.dfy`) holds the speed rule and the direction rule.
- `Component` (`component.dfy`) holds a class with the component's two mutable
  parts: the reducer's state and the pending direction (`dirRef`). Its methods
  dispatch actions, handle keys and perform one loop step.

The reducer is a function `Reduce(s, a, env)`. `env` carries two values from
outside: the clock reading and the cell the food generator returns on this
call. `FoodQuery(s, a)` names the snake the reducer hands to the generator, if
it calls it. `Admissible(s, a, env)` says the supplied cell is one the
generator can return for that snake. The method `Component.SnakeGame.Dispatch`
calls the generator method on that snake and then applies `Reduce`.

## Model

| member | source | states |
|---|---|---|
| `Grid.Step` | src/components/SnakeGrid.tsx:102-115 | the new head is exactly one unit from the old head, along the axis of the direction and on its side (up decreases y) |
| `Grid.InBounds` | src/components/SnakeGrid.tsx:117-121 | the wall test passes exactly for the cells of the 20×20 board |
| `Grid.Opposite` | src/components/SnakeGrid.tsx:274-283 | the direction the key handler refuses for each arrow (down for up, up for down, right for left, left for right) is never the direction itself |
| `Grid.StepUndone` | src/components/SnakeGrid.tsx:102-115 | a step followed by a step in the opposite direction returns to the start cell |
| `Grid.OppositeInvolution` | src/components/SnakeGrid.tsx:271-285 | the pairs the key handler treats as opposites are symmetric: the opposite of the opposite is the direction itself |
| `Grid.Max` | src/components/SnakeGrid.tsx:78 | `Math.max` returns one of its arguments and is at least both |
| `Grid.FreeCellExists` | src/components/SnakeGrid.tsx:40-49 | a snake with fewer than 400 cells leaves some board cell free, so the generator's retry loop can end |
| `Food.GenerateFood` | src/components/SnakeGrid.tsx:40-49 | the food cell is on the board and not on the given snake; it is called only when such a cell exists |
| `Food.NoFreeCellOnFullBoard` | src/components/SnakeGrid.tsx:42-47 | the retry loop can fail to end only if the snake has at least 400 cells |
| `Game.LevelFor` | src/components/SnakeGrid.tsx:131 | the level is one more than the number of whole 50-point thresholds in the score, and at least 1 for a non-negative score |
| `Game.AdvanceSnake` | src/components/SnakeGrid.tsx:99-149 | a move that does not crash puts the stepped head in front of a prefix of the old snake; a slide keeps the length and an eat adds one cell; it eats exactly when the stepped head is the food on a free cell; only a non-empty snake can crash |
| `Game.Reduce` | src/components/SnakeGrid.tsx:51-155 | the high score never decreases; every action except RESTART changes the snake's length by 0 or 1; only RESTART clears `gameOver`; a MOVE before START or after game over returns the state unchanged; only RESTART touches `direction`, setting it to right; START sets `gameStarted` and keeps `gameOver`; GAME_OVER sets `gameOver` and keeps `gameStarted` |
| `Game.FoodQuery` | src/components/SnakeGrid.tsx:61-141 | the generator is called only by RESTART and MOVE, and the snake it is handed (the initial snake at line 62, the grown snake at line 132) is the new state's snake, while its cell becomes the new food |
| `Game.FoodQueryMeaning` | src/components/SnakeGrid.tsx:61-141 | the generator's cell becomes the food exactly when RESTART or an eating MOVE calls the generator, and the generator is handed the new state's snake; otherwise the food is unchanged and the generator's cell plays no part |
| `Game.Mount` | src/components/SnakeGrid.tsx:217-234 | the first record is not started and not over, has the initial snake, score 0, level 1, no moves, and the stored high score; its food is the generator's cell, it faces right, and its start time is the clock reading |
| `Game.MountValid` | src/components/SnakeGrid.tsx:217-234 | the first record satisfies the invariant when the food is on a free cell |
| `Game.InitialSnakeValid` | src/components/SnakeGrid.tsx:34-38 | the initial snake lies on the board without overlaps and leaves a cell free |
| `Game.AdvanceKeepsShape` | src/components/SnakeGrid.tsx:117-127 | on a non-crashing move the new snake is still on the board and pairwise distinct |
| `Game.ReducePreservesValid` | src/components/SnakeGrid.tsx:51-155 | every action keeps the invariant: snake cells on the board and pairwise distinct, food on a free cell, score equal to 10 per cell grown, level matching the score; this holds given any generator cell the component can produce |
| `Game.MoveIgnoredWhenIdle` | src/components/SnakeGrid.tsx:97 | a MOVE while not started or already over returns the state completely unchanged |
| `Game.MoveCrash` | src/components/SnakeGrid.tsx:117-125 | a running MOVE ends the game if and only if the new head is off the board or on any current snake cell, tail included; then only `gameOver` changes |
| `Game.MoveSlide` | src/components/SnakeGrid.tsx:142-148 | a running MOVE onto a free cell without food gives `[head'] + snake` minus its last cell, so the length is kept; `movesCount` goes up by 1; score, level and food stay |
| `Game.MoveEat` | src/components/SnakeGrid.tsx:129-141 | a running MOVE onto the food gives `[head'] + snake`, so the length grows by 1; the score goes up by 10 and the level is `newScore / 50 + 1`; the food becomes the generator's cell; `movesCount` goes up by 1; nothing else changes |
| `Game.StartBegins` | src/components/SnakeGrid.tsx:53-59 | START sets `gameStarted` and the start time and changes nothing else |
| `Game.StartThenMoveRuns` | src/components/SnakeGrid.tsx:53-59 | after START from the mounted record, a first MOVE to the right is counted and does not end the game |
| `Game.GameOverEnds` | src/components/SnakeGrid.tsx:89-94 | GAME_OVER sets `gameOver` and changes nothing else |
| `Game.GameOverFreezes` | src/components/SnakeGrid.tsx:89-97 | after GAME_OVER every MOVE returns the state unchanged |
| `Game.SetHighScoreIdempotent` | src/components/SnakeGrid.tsx:77-87 | SET_HIGH_SCORE sets `highScore` to `max(highScore, score)` and touches nothing else; a second one changes nothing |
| `Game.RestartResets` | src/components/SnakeGrid.tsx:61-75 | RESTART sets the initial snake, score 0, level 1, no moves, not over and started; it keeps the high score |
| `Game.RestartThenLeftEndsGame` | src/components/SnakeGrid.tsx:34-38 | after RESTART, a MOVE to the left hits the snake's second cell and ends the game, changing nothing else |
| `Game.RestartThenRightContinues` | src/components/SnakeGrid.tsx:61-75 | after RESTART, a MOVE to the right does not end the game |
| `Game.RunPreservesValid` | src/components/SnakeGrid.tsx:51-155 | any sequence of actions with producible generator cells takes a valid state to a valid state |
| `Game.RunKeepsHighScore` | src/components/SnakeGrid.tsx:51-155 | the high score never decreases along any sequence of actions |
| `Game.ReachableValid` | src/components/SnakeGrid.tsx:217-234 | every state reachable from the mounted record satisfies the invariant |
| `Controls.Speed` | src/components/SnakeGrid.tsx:241-246 | the move interval is at least 50 ms; for level ≥ 1 it is at most 150 ms; it is 150 ms at level 1; it reaches the 50 ms floor exactly from level 8 on |
| `Controls.SpeedNonIncreasing` | src/components/SnakeGrid.tsx:241-246 | a higher level never gives a longer interval |
| `Controls.SpeedLevelUp` | src/components/SnakeGrid.tsx:241-246 | each level-up shortens the interval by 15 ms down to the 50 ms floor, so every level below 8 is strictly faster than the one before it |
| `Controls.KeyDirection` | src/components/SnakeGrid.tsx:272-285 | exactly the four arrow keys ask for a direction |
| `Controls.Steer` | src/components/SnakeGrid.tsx:269-285 | the new pending direction is never the opposite of the current one; it changes only in a started game and only to the direction an arrow key asks for; a key that asks for a non-opposite direction in a started game is obeyed |
| `Controls.TwoPressesReverse` | src/components/SnakeGrid.tsx:271-285 | the rule compares with the pending direction only, so two presses (up, then left) turn a right-moving snake straight back before it has moved |
| `Component.SnakeGame.constructor` | src/components/SnakeGrid.tsx:217-237 | the component mounts with the initial record, food on a free cell, the stored high score, a valid state and pending direction right |
| `Component.SnakeGame.Dispatch` | src/components/SnakeGrid.tsx:51-155 | dispatching an action replaces the state by the reducer's result, using a cell the generator can produce; the invariant is kept; it requires the generator's snake to leave a cell free |
| `Component.SnakeGame.HandleKey` | src/components/SnakeGrid.tsx:267-288 | the handler changes only the pending direction, as `Steer` says, and never to the opposite of its old value |
| `Component.SnakeGame.Tick` | src/components/SnakeGrid.tsx:248-256 | a loop step dispatches MOVE in the pending direction to a running game and otherwise leaves the state unchanged; the invariant is kept |
| `Component.SnakeGame.StartGame` | src/components/SnakeGrid.tsx:320 | the start button dispatches START: the game is marked started, the clock is stamped, and nothing else changes |
| `Component.SnakeGame.PlayAgain` | src/components/SnakeGrid.tsx:344 | the play-again button dispatches RESTART and leaves the pending direction as it was; if that was left, the first move ends the new game |
| `Component.SnakeGame.PlayAgainFacingRight` | src/components/SnakeGrid.tsx:344 | play-again with the pending direction reset to right; the first move of the new game never ends it |

## Findings

| source | as written | input that shows it | evidently intended | confidence | as-written member | corrected member |
|---|---|---|---|---|---|---|
| src/components/SnakeGrid.tsx:237 | RESTART resets the state's `direction` to right, but the pending direction `dirRef.current`, which MOVE actually uses, is set only once at mount and is never reset | a game ends while the snake moves left (for example into the left wall); "Play Again" restarts with the head at (12,10) and neck at (11,10); the first MOVE goes left to (11,10) and ends the new game at once; the key handler refuses ArrowRight then, since it is opposite to left | the new game moves right, like the reset `direction` field says | high; not executed | `Component.SnakeGame.PlayAgain` | `Component.SnakeGame.PlayAgainFacingRight` |

## Left out

- Browser storage. The `localStorage` reads and writes of the high score (lines 80 and 226) are not modelled. The stored high score is a constructor parameter, and SET_HIGH_SCORE is the pure maximum.
- Randomness and the clock. `Math.random` (lines 44-45) and `Date.now` (lines 57, 71, 231) are not modelled as such. The generator is a nondeterministic choice of any free cell. The clock is a parameter. `gameStartTime` is stored but never reasoned about.
- Food.GenerateFood: requires that a free cell exists. The component's generator loops forever when the snake covers the whole board. `Dispatch` therefore requires that the snake handed to the generator has fewer than 400 cells.
- Scheduling. The animation-frame loop, its time deltas and the event-listener registration (lines 248-265, 290-293) are left out. `Tick` is one loop step after the interval has passed.
- Rendering. The JSX (`Overlay`, `GameGrid`, lines 157-207 and 297-368) is not modelled.
- Unused actions. The component never dispatches GAME_OVER or SET_HIGH_SCORE, so during play the high score is never raised and never written to storage. The reducer models both actions all the same, and `Dispatch` accepts them.
- The reducer's `default` branch is not modelled. The action type is closed, so that branch cannot be reached.
- JavaScript numbers. They are modelled as unbounded integers. A stored high score that is fractional or negative would come from tampered storage, and fractions are not modelled. Scores stay far below the range where floating point loses integers (at most 3970).
- Empty snake. MOVE on an empty snake is modelled the way the reducer computes it: a head with undefined coordinates, no crash, and an empty snake afterwards. The invariant rules this case out.
- Sign-in. src/pages/_app.tsx, src/wagmi.ts and src/pages/api/auth/[...nextauth].ts are not part of this model, which covers the game only. `_app.tsx` and `wagmi.ts` wire providers and a chain client. The sign-in handler in `[...nextauth].ts` parses and validates the message and checks the signature through library calls that are not present. It also makes checks of its own, none modelled here. It derives the expected host from `NEXTAUTH_URL` or `VERCEL_URL` and rejects a message whose domain differs (lines 42-64). It rejects a nonce that differs from the CSRF token (lines 66-73). It returns the address as the user id on success and `null` on every failure or exception (lines 87-103).
