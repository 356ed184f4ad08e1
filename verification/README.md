# Snake game state, modelled in Dafny

A model of the game-state logic of the single-file Snake game `the_snake.py`:
a 640 x 480 pixel window divided into 20-pixel cells (32 x 24), a snake whose
body is a list of cells with the head first, a target `length`, a current and
a pending direction, the cell vacated by the latest move (`last`), and one
apple. The model is functional: the snake and apple form an immutable
`World`, and each operation of the program is a pure function on it.

Modules, one per part of the program:

- `Wrappers` (`wrappers.dfy`): `Option`, standing for Python's `None`.
- `Grid` (`grid.dfy`): the board constants, `Cell`, `Direction` with its four
  unit vectors, and the one-step head move with its edge handling.
- `Apples` (`apples.dfy`): one random draw of the apple's cell, and the
  rejection loop that repeats draws until one misses the body. The loop is
  modelled over a finite sequence of draws.
- `Input` (`input.dfy`): the key-down branch of the input handler. It sets the
  pending direction unless the key would reverse the current direction.
- `Snakes` (`snakes.dfy`): the snake, its constructor, `reset`,
  `update_direction`, and `move` with its three outcomes. These are
  self-collision reset, plain move, and growth with apple relocation. It also
  holds the invariant `Inv` and the lemma that the move preserves it.
- `Game` (`game.dfy`): one tick of the main loop as far as state goes. The
  tick runs key handling, then the direction commit, then the move, and keeps
  `Inv`. It also holds the worked scenarios.

The model follows the code where the code departs from the textbook game:

- **Asymmetric edges.** A coordinate at or past 640 (x) or 480 (y) becomes 0.
  A negative coordinate becomes exactly 640 or 480, one cell outside the board.
  So leaving through the left or top edge puts the head off the board, not on
  the last column or row. A head on that off-board column or row that turns
  along it is sent to coordinate 0 on the next step, because 640 is itself
  "at or past" the limit. The invariant proved is that every body cell stays
  among the multiples of 20 in [0, 640] x [0, 480]. This is an
  over-approximation: the corner (640, 480) is never entered
  (`Grid.CornerNeverEntered`).
- **The tail counts.** The collision test looks at the whole body before the
  tail is removed. Stepping onto the cell the tail is about to leave
  therefore resets the game.
- **Reset is the constructor run again.** It restores the body to the centre
  cell (320, 240) and the length to 1. It keeps the current direction, the
  pending direction and `last`, and it does not move the apple.
- **The first apple ignores the snake.** The first apple is drawn before the
  snake exists and may land on the centre cell (`Game.StartMayOverlap`).

## Model

| member | source | states |
|---|---|---|
| `Grid.WrapAxis` | the_snake.py:85-89 | the result is in [0, limit]; it equals the limit exactly when the input was negative; a value at or past the limit becomes 0; an on-board value is kept |
| `Grid.NextHead` | the_snake.py:81-91 | from a reachable cell the candidate head is reachable and differs from the old head; it equals the textbook torus step except on a left or top exit or an outward step from the off-board column or row; an axis the direction does not move is kept when it is on the board |
| `Grid.NextHeadAgreesWithTorus` | the_snake.py:85-89 | from every reachable cell, the step equals the textbook torus step if and only if it is neither a left or top exit nor an outward step from the off-board column or row |
| `Grid.LeftOrTopExitLeavesBoard` | the_snake.py:85-89 | from any reachable cell, leaving left lands on x = 640 and leaving up lands on y = 480, both off the board, one cell past where the torus would put the head |
| `Grid.OffBoardLineExitWrapsToZero` | the_snake.py:85-89 | from x = 640 heading right, or y = 480 heading down, the coordinate becomes 0 where the torus would give 20 |
| `Grid.CornerNeverEntered` | the_snake.py:81-89 | no step from a reachable cell lands on (640, 480) |
| `Grid.OffBoardLineJumpsToZero` | the_snake.py:82-89 | a head on column 640 (row 480) moving along it gets coordinate 0 |
| `Grid.RightOrBottomExitWrapsToZero` | the_snake.py:85-89 | leaving right from x = 620 gives x = 0; leaving down from y = 460 gives y = 0 |
| `Apples.RandomizePosition` | the_snake.py:49-52 | one draw is a board cell whose column and row are the two sampled integers |
| `Apples.RandomizeCoversBoard` | the_snake.py:49-52 | every board cell comes from exactly one draw |
| `Apples.Relocate` | the_snake.py:101-104 | a found cell is on the board, outside the body, and is one of the draws; nothing is found exactly when every draw hit the body |
| `Apples.RelocateTakesFirstFree` | the_snake.py:101-104 | the loop stops at the first draw outside the body |
| `Apples.RelocateOnNearlyFullBoard` | the_snake.py:101-104 | with one free board cell, the loop can only stop on that cell, and does once it is drawn |
| `Input.ApplyKey` | the_snake.py:137-145 | an arrow key not pointing back along the current direction sets the pending direction; any other key leaves it unchanged |
| `Input.HandleKeys` | the_snake.py:133-145 | a batch of keys never creates a pending reversal; the result is the old pending direction or the direction of some accepted key |
| `Input.HandleKeysLastWins` | the_snake.py:133-145 | the pending direction after a batch is that of the last accepted key, or the old one if no key was accepted |
| `Input.LastAcceptedNotReverse` | the_snake.py:137-145 | the last accepted direction never reverses the current one; it is absent exactly when no key of the batch was accepted |
| `Snakes.Init` | the_snake.py:63-71 | a new snake is one cell at the centre of the board, length 1, heading right, nothing pending or vacated |
| `Snakes.Reset` | the_snake.py:126-128 | body and length return to the constructor's, while direction, pending direction and vacated cell are kept |
| `Snakes.UpdateDirection` | the_snake.py:73-77 | a pending direction becomes the current one and is cleared; with none pending the snake is unchanged; the body is never touched |
| `Snakes.Move` | the_snake.py:79-104 | collision with any body cell, tail included, resets and keeps the apple; otherwise the candidate is prepended and the old cells follow in order; a plain move keeps the size and stores the dropped tail in `last`; eating grows body and length by one and moves the apple to a board cell off the new body |
| `Snakes.MovePreservesInv` | the_snake.py:93-104 | every outcome of the move keeps body length equal to target length, the body free of repeats and within reachable cells |
| `Snakes.FollowingTailResets` | the_snake.py:93-94 | stepping onto the current tail cell resets the snake |
| `Game.Start` | the_snake.py:151-152 | the initial world satisfies the invariant, with the snake at the centre heading right |
| `Game.StartMayOverlap` | the_snake.py:47 | the first apple may be drawn on the snake's start cell |
| `Game.Steer` | the_snake.py:156-157 | after key handling and the commit, the direction is the last accepted key's, else the earlier pending one, else unchanged; nothing is left pending |
| `Game.SteerNeverReverses` | the_snake.py:137-145 | between ticks a tick never turns the snake straight back, and a second commit in the same tick changes nothing |
| `Game.Tick` | the_snake.py:156-158 | a tick keeps the invariant and leaves nothing pending; on a collision the body is back at the centre with length 1 and the apple unmoved; otherwise the new head is one step from the old head along the direction the commit chose; eating grows the length by one and places the apple at the picked cell |
| `Game.GrowsExactlyWhenEating` | the_snake.py:93-100 | the length grows by one exactly when the apple is eaten and stays the same exactly on a plain move; a one-cell snake never collides with itself |
| `Game.RelocateFeedsMove` | the_snake.py:99-104 | a cell found by the rejection loop against the grown body is a valid relocation for the move |
| `Game.ScenarioPlainStep` | the_snake.py:79-98 | a one-cell snake at (300, 220) heading right moves to (320, 220) and vacates (300, 220) |
| `Game.ScenarioEat` | the_snake.py:96-104 | stepping onto the apple at (320, 220) gives a body of two cells and moves the apple |
| `Game.ScenarioNeckCollision` | the_snake.py:93-94 | a three-cell snake heading left into its second cell resets |
| `Game.ScenarioTailCollision` | the_snake.py:93-94 | a four-cell snake curled in a square that steps onto its tail cell resets |
| `Game.ScenarioEdges` | the_snake.py:85-89 | (620, 100) heading right goes to (0, 100); (0, 100) heading left goes to (640, 100) |

## Left out

- Window, caption and clock creation: these are library side effects.
- All drawing: `draw` of both objects and the screen fill in the constructor. This includes the clearing of `last` inside the snake's `draw`. As a result `last` in the model keeps the latest vacated cell until the next plain move overwrites it.
- Event polling, the quit event with its `pygame.quit` and `SystemExit`, and the main loop's frame pacing: these are I/O and timing. One iteration of the loop without them is modelled by `Game.Tick`.
- `randint` itself: a draw is a `Sample` of two integers in the ranges `randint` promises. The move takes the apple's new cell as a parameter, constrained to lie on the board and off the grown body.
- Apples.Relocate: models the rejection loop over a finite sequence of draws. It does not claim that the loop terminates, and on a full board it does not.
- The base drawable class and the colours carry no game state.
