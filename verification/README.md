# Snake: the per-frame game state, modelled in Dafny

The game is a snake on a 28 × 42 playfield of 15-pixel cells (columns
0..27, rows 2..43) below a 30-pixel score band. Every frame the main loop calls `snakeUpdate` and then
`fruitUpdate` on three records: the game state, the snake and the fruit.
The restart key calls `restart`.

- `snakeUpdate` handles a pending restart first and does nothing while the
  snake is dead. Otherwise it advances the move timer and buffers a
  direction key, refusing a 180° turn. It wraps the head around the
  playfield edges and raises the move interval to its 50 ms floor. Once
  the timer reaches the interval, the snake moves one cell: the body
  follows through a rolling `prev` value, and the new head is checked
  against every other segment.
- `fruitUpdate` also does nothing while the snake is dead. Otherwise:
  - eating grows the snake by a copy of its tail, scores the bonus and
    speeds the game up;
  - eating highlights the score until a timer, which runs only in frames
    without eating, reaches 350 ms;
  - a fruit left uneaten for 15 s moves;
  - the bonus for the next fruit drops by one every second.

The model has four modules.

- `Grid`: geometry. It holds the window and cell sizes, pixel positions,
  directions, the edge wrap, a one-cell move, and the overlap test the game
  uses for collisions.
- `Rules`: the update rules as pure functions on one record, `World`, which
  gathers the fields of the three source records. `SnakeStep` and
  `FruitStep` are built from small phase functions, one per block of the
  source (`Steered`, `HeadWrapped`, `Clamped`, `Advanced`, `Fed`,
  `FlashChecked`, `TimeoutChecked`, `BonusChecked`).
- `Properties`: what those rules guarantee. It covers the well-formedness
  invariant, direction buffering and the reversal ban, movement gating, the
  follow-the-leader shift, collision, death and restart, eating, the fruit
  timeout, the bonus decay, the score highlight and the speed-up.
- `SnakeGame`: the program as written. The classes `GameState`, `Snake` and
  `Fruit` are updated in place by `SnakeUpdate`, `FruitUpdate` and
  `Restart`. The body is shifted in place by a loop with a rolling `prev`.
  Each method is proved to leave the three objects in the state the matching
  `Rules` function gives, and to keep the invariant. The two update methods
  are split into stage methods, one per contiguous block of the source
  function (`Steer`, `WrapAround`, `Advance`, `Follow`, `FollowOne`, `Feed`,
  `EatFruit`, `EndFlash`, `TimeOut`, `Decay`). Called in order, they do what the source
  function does.

### Units

- Positions are whole pixels. Every position the game creates is a multiple
  of 15, so this is exact.
- Frame times, timers and thresholds are whole milliseconds: 300, 50, 350,
  1000 and 15000.

### Behaviours the model keeps as the code has them

These are places where a plain-words description of the game differs from
the code. The model follows the code.

- The head is wrapped at the start of a frame, before it moves. The fruit
  check and the collision check can therefore see a head one cell outside
  the playfield (`MoveShiftsBody`, `Grid.Moved`).
- Collision compares the new head with the segments' positions before the
  shift, not after it. A head moving onto the cell the tail is just leaving
  therefore kills the snake (`MoveCollision`).
- Restart sets the queued direction to up but leaves the current direction
  alone. A snake that was heading down at a restart reverses on its first
  move when no direction key other than up is held before it moves
  (`RestartMayReverse`).
- Restart clears the highlight flag and timer but not the score colour. A
  restart during a highlight leaves the score green until the highlight of
  the next fruit ends: eating sets the colour to lime again, and only the end
  of a highlight turns it white. `RestartKeepsLime` proves the first frame
  after the restart.
- Eating subtracts 50 ms from the stored interval with no floor. The floor is
  applied by the next live snake update, so the stored value reaches 0 but
  the interval used never drops below 50 ms (`IntervalAfterEats`).
- A fruit that times out is placed using column and row ranges one larger
  than the other draws. It can land one cell to the right of or below the
  playfield (`Grid.TimeoutCellMayLeavePlayfield`).
- The bonus has no floor and goes negative (`BonusGoesNegative`).
- Eating does not restart a running highlight. Eating sets the highlight
  flag but leaves its timer as it was, and the timer does not run in the
  frame where the fruit is eaten. A fruit eaten 300 ms into a highlight is
  therefore highlighted for only 50 ms more (`EatKeepsFlashTimer`,
  `HighlightCutShort`).

## Model

| member | source | states |
|---|---|---|
| `Grid.Opposite` | main.go:122-130 | the direction a key must not be to be accepted is never the current direction itself |
| `Grid.CellPos` | main.go:191 | a drawn cell scales to a grid-aligned position; cells from the spawn range land inside the playfield, and cells from the timeout range land at most one cell outside it |
| `Grid.TimeoutCellMayLeavePlayfield` | main.go:206 | some cell in the timeout range lies outside the playfield |
| `Grid.Wrap` | main.go:132-141 | the wrapped head is always inside the playfield; a head already inside stays put, each axis inside its range keeps its value, and grid alignment is kept |
| `Grid.WrapReturnsAtOppositeEdge` | main.go:132-141 | stepping off the right, left, bottom or top edge wraps to the opposite edge, on the same row or column |
| `Grid.Moved` | main.go:153-162 | a move changes the position by exactly one cell along one axis, keeps grid alignment, and from inside the playfield reaches at most one cell outside it |
| `Grid.MovedBack` | main.go:153-162 | moving in the opposite direction undoes a move |
| `Grid.OverlapIsSameCell` | main.go:169 | for grid-aligned squares, the overlap test the collision and eating checks use holds exactly when the positions are equal |
| `Rules.Buffered` | main.go:122-130 | the buffered direction is either the old queued one or not the reverse of the current direction; with no key held the queued direction is kept |
| `Rules.Interval` | main.go:145-147 | the interval used is at least 50 ms and equals the stored one when that is already at least 50 ms |
| `Rules.WrapHead` | main.go:132-141 | only segment 0 changes, and it becomes its wrapped position |
| `Rules.WellFormed` | main.go:111-213 | no contract; defines the invariant every update sees, from the restart `NewGame` performs on: a non-empty body, and every segment and the fruit grid-aligned and at most one cell outside the playfield; the `...WellFormed` lemmas prove every update keeps it and that a restart establishes it; the launch state itself, whose segment (0, 0) lies in the hud band, does not meet it |
| `Rules.Steered` | main.go:120-130 | the timer only grows and the body and direction stay; the queued direction is either kept or not the reverse of the current direction |
| `Rules.HeadWrapped` | main.go:132-141 | the length stays, the head ends inside the playfield, and every other segment is untouched |
| `Rules.Clamped` | main.go:145-147 | the interval ends at least 50 ms, and the body is untouched |
| `Rules.Advanced` | main.go:149-176 | a move keeps the length, commits the queued direction, zeroes the timer and never revives a dead snake |
| `Rules.Shifted` | main.go:164-176 | follow-the-leader: same length, the new head in front, and each later segment the old position of the one before it |
| `Rules.HitsBody` | main.go:164-176 | the collision test: the new head overlaps a segment other than the head, which needs a body of at least two |
| `Rules.LiveStep` | main.go:120-177 | a live snake update keeps the length, leaves the interval at least 50 ms, and never revives a dead snake |
| `Rules.SnakeStep` | main.go:111-178 | the body stays non-empty; with the restart key the snake is alive with one segment afterwards; without it a dead state is returned unchanged |
| `Rules.Restarted` | main.go:230-247 | no contract; defines the restart, whose values `RestartValues`, `RestartForgets` and `RestartedWellFormed` prove |
| `Rules.Launch` | main.go:55-84 | no contract; defines the state `main` builds before its first restart, used by `NewGame` |
| `Rules.Fed` | main.go:185-198 | the body keeps its old segments and grows by at most one, and the death flag is untouched |
| `Rules.Eat` | main.go:188-195 | eating keeps the old segments and appends one copy of the old tail |
| `Rules.FlashChecked` | main.go:199-203 | afterwards the highlight timer is below 350 ms, and the body is untouched |
| `Rules.TimeoutChecked` | main.go:204-208 | afterwards the fruit tick is below 15 s, and the body is untouched |
| `Rules.BonusChecked` | main.go:209-212 | afterwards the bonus counter is below 1 s, and the body is untouched |
| `Rules.FruitStep` | main.go:180-213 | a dead state is returned unchanged; otherwise the fruit tick, the bonus counter and the highlight timer all end below their thresholds |
| `Properties.RestartedWellFormed` | main.go:230-247 | a restart gives a well-formed state: one segment, grid-aligned, inside the bounds |
| `Properties.AdvancedWellFormed` | main.go:149-176 | a move from a wrapped head keeps every segment grid-aligned and at most one cell outside the playfield |
| `Properties.LiveStepWellFormed` | main.go:120-176 | a live snake update keeps the invariant |
| `Properties.SnakeStepWellFormed` | main.go:111-178 | the whole snake update keeps the invariant |
| `Properties.FruitStepWellFormed` | main.go:180-213 | the fruit update keeps the invariant, including after a timeout draw |
| `Properties.FirstEligible` | main.go:122-130 | reference definition of buffering: the result is an eligible key (held, not the reverse) whenever one exists, and otherwise the old queued direction |
| `Properties.BufferedIsFirstEligible` | main.go:122-130 | buffering takes the first eligible key in the order up, down, right, left |
| `Properties.LiveStepNeverReverses` | main.go:120-151 | a snake with no reversal queued never queues one and never commits a move opposite to its direction |
| `Properties.RestartMayReverse` | main.go:232 | after a restart of a snake heading down, the queued direction is the reverse, and when no direction key other than up is held the first move goes up |
| `Properties.MovesIffDue` | main.go:145-151 | the interval is clamped first; the head leaves its wrapped cell exactly when the timer has reached the clamped interval; the length is unchanged |
| `Properties.WaitingKeepsBody` | main.go:132-151 | before the timer is due, only the head wrap changes the body; the direction and death flag stay and the timer grows by dt |
| `Properties.MoveShiftsBody` | main.go:143-176 | a move commits the buffered direction and zeroes the timer; the head moves one cell from its wrapped position; segment 1 takes the wrapped head position, and each later segment the old position of the one before it |
| `Properties.MoveCollision` | main.go:164-176 | on a move the snake dies exactly when the new head equals the pre-shift position of some segment other than the head |
| `Properties.DeadSnakeFrozen` | main.go:116-118 | while dead, the snake update without the restart key changes nothing |
| `Properties.DeadFruitFrozen` | main.go:181-183 | while dead, the fruit update changes nothing |
| `Properties.RestartComesFirst` | main.go:112-118 | with the restart key pressed, the update is a restart followed by a live update, even for a dead snake, and the snake is alive afterwards |
| `Properties.RestartValues` | main.go:230-247 | restart gives one segment at (195, 315), queued direction up, timer 0, interval 300 ms, score 0, alive, bonus 15, both ticks 0, the fruit at the drawn cell, and the highlight off |
| `Properties.RestartForgets` | main.go:230-247 | restart keeps the direction and the score colour and forgets everything else; restarting twice with the same cell is the same as once |
| `Properties.EatGrows` | main.go:187-195 | eating appends a copy of the old tail and keeps the rest; it adds the old bonus to the score, lowers the interval by 50 ms, zeroes the fruit tick, moves the fruit to the drawn cell, resets the bonus (less one when a second ran out in the same frame), and highlights the score |
| `Properties.NoEatKeepsBody` | main.go:185-208 | without eating, body, score and interval stay; the fruit moves to the timeout cell with a zero tick exactly when it has waited 15 s |
| `Properties.BonusDecay` | main.go:204-212 | the bonus is reset to 15 by eating or a timeout, then drops by exactly one when a full second has passed, which also zeroes the second counter |
| `Properties.BonusGoesNegative` | main.go:209-212 | a bonus of 0 that nothing resets becomes negative after a second |
| `Properties.SnakeStepKeepsFlash` | main.go:230-247 | the snake update, restart included, keeps the highlight bookkeeping: its timer stays below 350 ms and runs only while shown, and while shown the colour is lime |
| `Properties.FruitStepKeepsFlash` | main.go:187-203 | the fruit update keeps the same highlight bookkeeping |
| `Properties.FlashEnds` | main.go:196-203 | a highlight that has shown for 350 ms ends and the colour returns to white |
| `Properties.EatKeepsFlashTimer` | main.go:188-198 | eating sets the highlight flag and leaves the highlight timer at the time already shown |
| `Properties.HighlightCutShort` | main.go:187-203 | over whole frames (snake update, then fruit update): a fruit eaten 300 ms into a highlight is highlighted after that frame, and after one more 50 ms frame in which the snake neither dies nor eats the highlight is over |
| `Properties.RestartKeepsLime` | main.go:242-243 | a snake update with the restart key turns the highlight flag off but keeps a lime colour, and the fruit update of the same frame leaves it lime, with the flag still off unless it eats |
| `Properties.FlashSaneAtStart` | main.go:55-66 | the highlight bookkeeping holds in the launch state and after any restart, so the timer bound the eating lemmas assume holds in every reachable state |
| `Properties.FrameEatSpeedsUp` | main.go:192 | in a frame where the snake lives and eats, the stored interval ends as the interval clamped by the snake update (main.go:145-147) less 50 ms |
| `Properties.IntervalAfterEats` | main.go:192 | with each fruit lowering the interval clamped at main.go:145-147 by 50 ms, after n fruits the stored interval is max(0, 300 − 50n) and the interval used is max(50, 300 − 50n) |
| `SnakeGame.GameState.constructor` | main.go:55-66 | the initial game state: score 0, bonus 15, white, no highlight, timer 0, interval 300 ms, alive |
| `SnakeGame.Snake.constructor` | main.go:68-73 | the initial snake: one segment at (0, 0), heading up with up queued |
| `SnakeGame.Fruit.constructor` | main.go:75-78 | the initial fruit at the drawn cell with a zero tick |
| `SnakeGame.NewGame` | main.go:55-84 | the initial records followed by a restart: fresh objects in the state `Restarted` gives, well-formed |
| `SnakeGame.Restart` | main.go:230-247 | the objects end in the state `Restarted` gives, and that state is well-formed |
| `SnakeGame.SnakeUpdate` | main.go:111-178 | the objects end in the state `SnakeStep` gives, and the invariant is kept |
| `SnakeGame.Steer` | main.go:120-130 | the timer grows by dt and the first eligible key is buffered, as `Steered` gives |
| `SnakeGame.WrapAround` | main.go:132-141 | only the head is wrapped, as `HeadWrapped` gives |
| `SnakeGame.Advance` | main.go:149-162 | timer zeroed, direction committed, head moved one cell, then the follow loop: the state `Advanced` gives |
| `SnakeGame.Follow` | main.go:164-176 | the in-place loop leaves the body shifted with the new head in front, and sets the death flag exactly when the new head overlaps a pre-shift segment other than the head |
| `SnakeGame.FollowOne` | main.go:168-175 | one pass of the loop: the collision test against segment i, then segment i takes prev and its old value is returned |
| `SnakeGame.FruitUpdate` | main.go:180-213 | the objects end in the state `FruitStep` gives, and the invariant is kept |
| `SnakeGame.Feed` | main.go:185-198 | both timers grow by dt, then eating or highlight ageing, as `Fed` gives |
| `SnakeGame.EatFruit` | main.go:188-195 | the colour, body, fruit, interval, tick, score and bonus change as `Eat` gives |
| `SnakeGame.EndFlash` | main.go:199-203 | the highlight ends after 350 ms, as `FlashChecked` gives |
| `SnakeGame.TimeOut` | main.go:204-208 | an uneaten fruit moves after 15 s and the bonus restarts, as `TimeoutChecked` gives |
| `SnakeGame.Decay` | main.go:209-212 | the bonus drops by one per full second, as `BonusChecked` gives |

## Left out

- The window, the frame loop and rendering are not modelled: window set-up, `SetTargetFPS`, `WindowShouldClose`, `draw`, the score and FPS text (main.go:51-109, 215-228).
- The F-key toggle of `framelimit` is not modelled. It changes only the frame-rate target, never a field that `snakeUpdate` or `fruitUpdate` reads, so the field is absent from `GameState`.
- The `hud` record is not modelled. It is a fixed rectangle, and `snakeUpdate` reads only its height, 30, for the vertical wrap (main.go:138-139). That height appears as the constant `Grid.HudHeight`.
- Keyboard reads are parameters: the held direction keys as `Keys`, and the restart key as `restartPressed`. W and the up arrow both count as up, and likewise for the other keys.
- `GetRandomValue` is not modelled. Each draw is a `Cell` parameter, and a precondition states its range: `SpawnCell` or `TimeoutCell`. The fruit drawn in `main` (main.go:77) is overwritten at once by `restart`, and `NewGame` keeps both draws.
- The code of the library routine `CheckCollisionRecs` is not in the program. It is assumed to test strict overlap of two 15 × 15 squares, so squares that only share an edge do not collide. `Grid.OverlapIsSameCell` shows this equals position equality for grid-aligned squares.
- `float32` time arithmetic is abstracted to whole milliseconds, with no rounding. The frame time is a natural number, and the thresholds are the exact values 0.3, 0.05, 0.35, 1 and 15 seconds.
- Colours other than the two the score uses (white and lime) are not modelled.
- `snake.prev` is a local of `SnakeUpdate`, passed to `Advance`, not a field of `Snake`. It is written before it is read in every frame, so its value between frames never matters.
- The composition of the two updates in one frame, as the main loop does it, appears only in the lemmas `Properties.FrameEatSpeedsUp`, `Properties.HighlightCutShort` and `Properties.RestartKeepsLime`. No method models it.
