# Snake engine model

This project models the game engine of a snake game for the 5x5 LED matrix of
a micro:bit. The engine lives in `source/main.cpp`.

The board is a torus of `GRID_SIZE` x `GRID_SIZE` cells. The snake has a head
and a fixed array of `MAX_SNAKE_LENGTH` (24) tail slots, of which the first
`tailLength` are occupied. It moves one cell per tick in its current
direction. Button A queues a left turn and button B a right turn. The queued
turn is relative to the heading and is applied at the start of the next tick.
Each tick is classified as one of four outcomes:

- a collision with the body, which loses the game;
- eating the food, which grows the snake, places new food, scores a point and
  speeds up on every fifth point;
- reaching the food when the tail is one short of full, which grows the snake
  onto the last free cell and wins;
- a plain move.

The pause between ticks shrinks from 1000 ms by 200 ms per speed level, down
to a floor of 200 ms.

The model has five modules:

- `Grid` holds the coordinate helpers (`coordsEqual`, `isOutOfBounds`,
  `wraparound`, `getNextMove`). It also holds the counting facts about the
  board: a pigeonhole lemma, a free cell exists while the snake is shorter
  than the board, and 25 distinct cells are the whole board.
- `Steering` holds the turn table of `turnSnake`, proved to be a quarter-turn
  rotation that never reverses.
- `Segments` holds the two in-place tail shifts of `moveSnake`, as functions
  on the array's contents, and what they do to the occupied cells.
- `Pacing` holds `getStepLengthMs`.
- `Engine` holds the global game state as the class `Game`. Its fields are
  the snake, the food, speed, status, score and the pending turn. Its methods
  are the engine's procedures, and its `Valid()` invariant holds for every
  state the engine produces. The invariant says:
  - the body is in the grid and free of repeated cells;
  - the food is off the body while the game runs;
  - `WON` holds exactly when the tail array is full;
  - score equals `tailLength - 1` (`tailLength - 2` once won);
  - speed equals `1 + score / 5`.

  From this the model shows that the `uint8_t` counters never wrap and that a
  won game covers every cell.

The tail array's layout is kept exactly as the code writes it:

- A plain move shifts slots `1 .. tailLength-1` down by one and stores the old
  head in slot `tailLength-1`, so slot 0 is the segment that is dropped.
- An extending move shifts slots up by one and stores the old head in slot 0.
- The collision check exempts the cell in slot 0, whichever segment it holds.

The exemption always names the cell the next plain move vacates, so the body
never holds the same cell twice. After an extension, though, slot 0 holds
the segment next to the head. The next plain move therefore drops that
segment, not the oldest one. `Segments.ExtendThenMoveDropsNeck` states this
for any tail. `Segments.StartEatThenMove` gives the smallest case: from the
start position, eating at (2,3) and moving to (2,4) leaves the cells (2,4),
(2,1) and (2,3) occupied.

The code's own comments say slot 0 is meant to be the end of the tail. The
collision check calls the exempted cell "the end of the tail"
(`source/main.cpp:259`, `:262`), and the plain move calls the slot it
overwrites the "end of tail" (`:285`). The extension, however, stores the
old head at the "front of tail" (`:296`) and writes it into that same slot 0
(`:297`). The class keeps the code as written. `Segments.GrownNeck` is the
extension these comments describe, and "## Findings" compares the two.

## Model

| member | source | states |
|---|---|---|
| Grid.CoordsEqual | source/main.cpp:169-171 | true exactly when the two cells are the same cell |
| Grid.IsOutOfBounds | source/main.cpp:224-227 | true exactly when the cell is off the board, and false exactly when wraparound leaves the cell unchanged |
| Grid.Wraparound | source/main.cpp:205-221 | the result is on the board; for a component at most one step off the board it is that component modulo GRID_SIZE |
| Grid.NextMove | source/main.cpp:230-253 | the next head cell is on the board; from an on-board head it is the head plus the direction's unit step, modulo GRID_SIZE on each axis, and never the head itself |
| Grid.AllCellsEnumerateGrid | source/main.cpp:189-197 | the 25 cells that getRandomCoords can draw are distinct and are exactly the on-board cells |
| Grid.Pigeonhole | source/main.cpp:189-197 | a sequence of distinct values longer than another sequence has a value the other lacks |
| Grid.FreeCellExists | source/main.cpp:189-197 | while the snake has fewer than 25 cells, some cell with row and column in 0..GRID_SIZE-1 is free, so the sampling loop has a cell to find |
| Grid.DistinctCellsFillGrid | source/main.cpp:268-275 | 25 distinct on-board cells cover every cell of the board |
| Steering.Turned | source/main.cpp:336-376 | the direction changes exactly when a turn is pending, and a turn never yields the opposite direction |
| Steering.TurnIsRotation | source/main.cpp:336-376 | the turn table adds a clockwise quarter turn for RIGHT, an anticlockwise one for LEFT, and none for NONE |
| Steering.RightTurnRotatesStep | source/main.cpp:336-376 | a right turn maps the unit step (dr, dc) to (dc, -dr), and a left turn maps it to (-dc, dr) |
| Steering.LeftRightCancel | source/main.cpp:336-376 | a left turn followed by a right turn, or the reverse, restores the direction |
| Steering.FourTurnsIdentity | source/main.cpp:336-376 | four equal turns restore the direction |
| Segments.BodyOf | source/main.cpp:174-186 | the occupied cells are tailLength + 1 cells, starting with the head |
| Segments.Dropped | source/main.cpp:284-290 | a plain move leaves the tail array's length unchanged |
| Segments.DroppedAt | source/main.cpp:284-290 | after a plain move, slot i < tailLength-1 holds the old slot i+1, slot tailLength-1 holds the old head, and higher slots are unchanged |
| Segments.Grown | source/main.cpp:291-300 | an extending move leaves the tail array's length unchanged |
| Segments.GrownAt | source/main.cpp:291-300 | after an extending move, slot 0 holds the old head, slot i+1 holds the old slot i for i < tailLength, and slots above tailLength are unchanged |
| Segments.PlainMoveVacatesSlotZero | source/main.cpp:284-290 | a plain move onto c gives the body c, old slots 1..tailLength-1, old head; as a multiset it swaps the slot-0 cell for c |
| Segments.ExtendingMoveKeepsBody | source/main.cpp:291-300 | an extending move onto c gives the body c, old head, old tail, which is the old body as a multiset plus c |
| Segments.PlainMoveKeepsDistinct | source/main.cpp:259-266 | a plain move onto a free cell, or onto the slot-0 cell that the collision check exempts, keeps the body free of repeated cells |
| Segments.ExtendingMoveKeepsDistinct | source/main.cpp:291-300 | an extending move onto a free cell keeps the body free of repeated cells |
| Segments.ExtendThenMoveDropsNeck | source/main.cpp:282-304 | an extension followed by a plain move yields new head, all old tail segments, and the cell entered by the extension; the cell where the head was when it extended is lost |
| Segments.GrownNeck | source/main.cpp:291-300 | the corrected extension, with the old head at the neck end of the tail, leaves the tail array's length unchanged |
| Segments.NeckExtensionKeepsBody | source/main.cpp:291-300 | the corrected extension onto c gives the body c, old tail oldest first, old head, which is the old body as a multiset plus c |
| Segments.NeckExtensionThenMoveDropsEnd | source/main.cpp:282-304 | with the corrected extension, an extension followed by a plain move drops only the oldest segment and keeps the cell the head left when it extended |
| Segments.StartEatThenMoveIntended | source/main.cpp:282-304 | with the corrected extension, eating at (2,3) from the start position and then moving to (2,4) occupies the path (2,4), (2,2), (2,3) |
| Segments.StartEatThenMove | source/main.cpp:282-304 | from the start position, eating at (2,3) and then moving to (2,4) occupies (2,4), (2,1) and (2,3) |
| Pacing.StepLengthMs | source/main.cpp:390-396 | the pause is a multiple of 200 ms in [200, 1000]; it is 1000 ms at speed 1 and 200 ms from speed 5 on |
| Pacing.StepLengthNonIncreasing | source/main.cpp:390-396 | a higher speed never gives a longer pause |
| Engine.PlainMoveKeepsConsistent | source/main.cpp:329-331 | a plain move onto a cell classified MOVE keeps the state invariant |
| Engine.EatKeepsConsistent | source/main.cpp:320-327 | eating with room to spare, with new food on a free cell, keeps the invariant with one more point and the speed raised exactly on multiples of 5 |
| Engine.FullKeepsConsistent | source/main.cpp:315-318 | growing onto the food with the tail one short of full keeps the invariant in the WON state |
| Engine.StepKeepsConsistent | source/main.cpp:379-387 | every step of a running game keeps the invariant, on every outcome, wherever a meal puts the new food |
| Engine.Pressed | source/main.cpp:434-441 | a press sets the pending turn to the pressed turn and changes nothing else; without a press the state is unchanged |
| Engine.ByteIncrementFits | source/main.cpp:323-326 | a uint8_t below 255 does not wrap when incremented |
| Engine.SpeedLevelStep | source/main.cpp:323-326 | incrementing speed whenever the new score is a multiple of 5 keeps speed equal to 1 + score / 5 |
| Engine.Game.constructor | source/main.cpp:75-76 | the global state after initGame, with no turn pending, satisfies the invariant |
| Engine.Game.InitGame | source/main.cpp:144-160 | head (2,2), one tail segment at (2,1), direction RIGHT, speed 1, score 0, ONGOING, food on a free cell; tail slots from 1 on and the pending turn are untouched; the invariant holds |
| Engine.Game.ResetGame | source/main.cpp:163-166 | the initGame state with the pending turn cleared; the invariant holds |
| Engine.Game.PlaceFood | source/main.cpp:199-202 | the food lands on the board and not on the snake |
| Engine.Game.CoordsInSnake | source/main.cpp:174-186 | true exactly when the cell is the head or one of the first tailLength tail slots |
| Engine.Game.GetStepOutcome | source/main.cpp:256-279 | COLLISION exactly when the next cell is occupied and is not tail slot 0; otherwise FULL or EAT exactly when it is the food, split by tailLength >= MAX_SNAKE_LENGTH - 1; MOVE otherwise |
| Engine.Game.MoveSnake | source/main.cpp:282-304 | the head becomes the given cell; tailLength grows by one exactly when extending; the tail array becomes the extending or plain shift of its old contents |
| Engine.Game.HandleStepOutcome | source/main.cpp:307-333 | for each outcome, the new status, head, tail, food, score and speed; the invariant is preserved |
| Engine.Game.GrowAndWin | source/main.cpp:315-318 | the FULL case: the snake grows onto the food and the game is WON, with score, speed and food unchanged |
| Engine.Game.GrowAndScore | source/main.cpp:320-327 | the EAT case: the snake grows onto the food, the score rises by one, and the speed rises exactly when the new score is a multiple of 5; the invariant keeps the new food off the snake |
| Engine.Game.Advance | source/main.cpp:329-331 | the MOVE case: the tail shifts along, the head enters the cell, and nothing else changes |
| Engine.Game.StepGame | source/main.cpp:379-387 | the pending turn is applied and cleared, then the state changes as the classification of the turned move dictates; the whole change is one `StepsTo` step; the invariant is preserved |
| Engine.Game.HandleButtonA | source/main.cpp:434-436 | the pending turn becomes LEFT, replacing any earlier one; the invariant is kept |
| Engine.Game.HandleButtonB | source/main.cpp:439-441 | the pending turn becomes RIGHT, replacing any earlier one; the invariant is kept |
| Engine.Game.Play | source/main.cpp:114-120 | the loop steps only from ONGOING states and stops only when the game is over or the presses run out; a ghost trace shows each step taking the state before it, with that step's press applied, to the next one by `StepsTo`; the invariant is kept |
| Engine.Game.CurrentStepLengthMs | source/main.cpp:390-396 | in every state the engine produces, the pause lies between 200 and 1000 ms |
| Engine.Game.CountersStaySmall | source/main.cpp:69-71 | in every state the engine produces, score is at most 22 and speed lies in 1..5, so neither uint8_t counter wraps |
| Engine.Game.WonFillsGrid | source/main.cpp:268-275 | a WON game's snake covers every cell of the board |

## Findings

| source | as written | input that shows it | evidently intended | confidence | as-written member | corrected member |
|---|---|---|---|---|---|---|
| source/main.cpp:293-297 | an extending move stores the old head in tail slot 0, the slot that the next plain move drops and that the collision check exempts as "the end of the tail" | from the start position (head (2,2), tail (2,1), RIGHT), eat food at (2,3), then move to (2,4): the snake occupies (2,4), (2,1), (2,3), with a gap at (2,2) | the old head joins the neck end of the tail, so the next plain move drops the oldest segment (2,1) and the snake occupies the path (2,4), (2,2), (2,3) | high, not executed | Segments.ExtendThenMoveDropsNeck, Segments.StartEatThenMove | Segments.GrownNeck, Segments.NeckExtensionThenMoveDropsEnd, Segments.StartEatThenMoveIntended |

The class `Engine.Game` keeps the extension as written. Its invariant holds
with that layout: a plain move vacates exactly tail slot 0, the cell the
collision check exempts, so the body never repeats a cell.

## Left out

- Rendering is not modelled: `displayGameState`, `displayScore`, the LED brightness constants and the game-over flash loop. These only read the state.
- The micro:bit runtime is not modelled: `uBit.init`, the message-bus registration, `srand`, `uBit.sleep` and the outer `while (1)` that shows the score and calls `resetGame`. `Engine.Game.Play` models only the inner loop. It takes the button presses between ticks as an input sequence.
- Engine.Game.PlaceFood: `rand()` is replaced by an arbitrary choice among the free cells. The model does not state that the choice is uniform, or that the do-while sampling loop terminates. It proves only that a free cell exists.
- Button handlers run as interrupts on the device. The model treats each press as happening between two ticks, so it does not model a press that lands in the middle of `stepGame`.
- `Coords` components are `int8_t` in the source and `int` here. Every value the engine produces lies in [-1, 5], so no truncation arises.
- Engine.Game.StepGame requires the game to be ONGOING, because the host loop calls `stepGame` only then. Stepping a finished game is not modelled.
- Engine.Game.HandleStepOutcome requires its argument to be the outcome `getStepOutcome` computed for the current state. That is the only way `stepGame` calls it. Other outcomes are not modelled.
- Engine.Game.PlaceFood requires `tailLength < MAX_SNAKE_LENGTH`. `placeFood` is only reached from `initGame`, where tailLength is 1, and from the EAT case, where tailLength is at most 23.
- The `currentTurn` global is a field of `Game`, because the model keeps all engine state in one object.
