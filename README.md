# Snake game state machine

A Dafny model of the game logic of the snake game in `snake.go`: the
occupancy grid, the snake's body from tail to head, the food, the key
switch that sets the pending direction, the fixed-timestep accumulator,
and the per-tick step (move the head, stop at the edge, eat or move, stop
on self-collision). Drawing and the window are not part of the model.

The model has two layers.

- `Rules` describes the game as values. `State` holds the occupancy
  slice, the body, the food, both directions and the accumulator.
  `TickSpec` is one tick (snake.go lines 128-176). `FrameSpec` is one pass
  of the main loop (lines 108-185). `Properties` proves what these
  guarantee:
  - every frame keeps the invariant: occupancy marks exactly the body
    cells, the body is distinct and inside the field, and steering is
    consistent;
  - a tick ends the game exactly on leaving the field, or on entering a
    cell that is still held once the tail has been freed;
  - a running tick grows the body by exactly one cell or moves it;
  - Escape wins over every arrow;
  - a frame runs at most one tick.
- `Game.SnakeGame` is the mutable game as the loop keeps it. The
  occupancy is an `array<bool>` written in place. `Spawn` is the
  rejection-sampling loop of `get_random_block`, and `PressKey`, `Tick`
  and `Frame` follow the loop body statement by statement. Each method is
  proved to produce the state the matching `Rules` function gives.
  `Frame` keeps the invariant for as long as the game runs.

Modules:

- `Grid`: cells, the 100 x 100 field and the flat index `y * rows + x`.
- `Direction`: directions, keys and the key switch.
- `Clock`: the accumulator gate over a sequence of frames.
- `Rules`: the state, the invariant, and one tick and one frame.
- `Properties`: lemmas about `Rules`.
- `Game`: the class.

Three points of the code shape what the model promises:

- The gate at line 127 is an `if`, so a frame runs at most one tick and
  there is no catch-up loop. `Clock.OneLongFrameTicksOnce` and
  `Clock.BacklogDrains` state what happens to time that builds up.
- The code has no board-full end state. A game ends only on leaving the
  field, on self-collision, or on Escape.
- New food is drawn (line 160) before the new head is marked (line 175),
  so food is not guaranteed to lie off the snake.
  `Properties.FoodMayLandOnHead` states this.

## Model

| member | source | states |
|---|---|---|
| Grid.Index | snake.go:93-97 | a cell of the field has a slot inside the `rows*rows` occupancy slice |
| Grid.IndexInjective | snake.go:171-175 | two cells of the field share an occupancy slot exactly when they are the same cell |
| Grid.PositionEquals | snake.go:23-25 | two blocks compare equal exactly when they stand on the same cell |
| Direction.Resolve | snake.go:113-125 | Escape quits exactly when pressed, whatever arrows are pressed; a turn is always to a pressed arrow that does not reverse the applied direction, and it is the first such arrow in case order; nothing changes exactly when there is no Escape and no acceptable arrow |
| Direction.Latch | snake.go:117-124 | the pending direction becomes an accepted pressed arrow or stays as it was; it never becomes a reversal unless it already was one |
| Direction.IdleAcceptsAnyArrow | snake.go:117-124 | before the first move, with no Escape, any pressed arrow turns the snake |
| Clock.Run | snake.go:110-185 | the gate over a run of frames, one tick at most per frame, so never more ticks than frames; its properties are `RunOne`, `RunConserves`, `SteadyFramesTickEach`, `OneLongFrameTicksOnce` and `BacklogDrains` |
| Clock.RunOne | snake.go:127-185 | one frame ticks exactly when the accumulator plus the frame time reaches `dt`, and a tick pays back exactly `dt` |
| Clock.RunConserves | snake.go:103-185 | over any run of frames, the leftover accumulator plus `dt` times the ticks run equals the start value plus all frame time; there are never more ticks than frames, and the accumulator never goes negative |
| Clock.SteadyFramesTickEach | snake.go:103-185 | frames of exactly `dt` each run one tick apiece and leave nothing over |
| Clock.OneLongFrameTicksOnce | snake.go:127-185 | a frame as long as `k` ticks runs one tick only and leaves `k-1` tick lengths in the accumulator |
| Clock.BacklogDrains | snake.go:127-185 | a backlog of `m` tick lengths drains at one tick per frame: after `n` frames of no time, `min(m, n)` ticks have run |
| Rules.NextHead | snake.go:130-144 | the candidate head is one unit step from the old head |
| Rules.FirstFreeIndex | snake.go:56-67 | the cell spawned is the first draw that is free; every earlier draw was occupied |
| Rules.TickSpec | snake.go:128-176 | one tick as a function of the state and the random draws: it applies the pending direction, never touches the accumulator and never reports UserQuit; its properties are `TickPreservesInv`, `TickEndsExactly`, `TickGrowsOrMoves` and `VacatedTailIsFree` |
| Rules.PayBack | snake.go:184 | a tick that keeps the game running is paid for out of the accumulator, and only the accumulator changes; a tick that ends the game keeps its status; `PaidTick` states the paid tick's properties |
| Rules.FrameSpec | snake.go:108-185 | one pass of the loop as a function of the state, the frame time, the keys and the draws; it ends with UserQuit exactly when Escape is pressed; its properties are `FramePreservesInv`, `FrameQuit`, `FrameWithoutTick` and `FrameTicksOnce` |
| Rules.Initial | snake.go:93-101 | the start state satisfies the invariant, with a one-cell body, no direction, and only the head's cell occupied |
| Properties.OnlyOppositeReturns | snake.go:131-144 | a step followed by a second step returns to the start exactly when the second direction is the opposite of the first |
| Properties.NeverIntoNeck | snake.go:117-144 | under the invariant, the pending direction never steps the head onto the body cell right behind it |
| Properties.GrowKeepsBody | snake.go:151-175 | appending a free cell as the new head and marking it keeps the body distinct and the occupancy equal to the body |
| Properties.MoveKeepsBody | snake.go:163-175 | freeing the tail, then appending a cell free after that and marking it, keeps the body distinct and the occupancy equal to the body |
| Properties.GrowStepKeepsInv | snake.go:151-175 | a growing tick onto a free cell keeps the whole invariant, wherever the new food lands |
| Properties.MoveStepKeepsInv | snake.go:163-175 | a moving tick onto a cell free once the tail is freed keeps the whole invariant |
| Properties.TickPreservesInv | snake.go:128-176 | every tick that leaves the game running keeps the invariant |
| Properties.TickEndsExactly | snake.go:146-174 | a tick ends with OutOfBounds exactly when the new head leaves the field, and then only the direction changes; it ends with SelfCollision exactly when the new head lands on the body (eating) or on the body without its tail (moving) |
| Properties.VacatedTailIsFree | snake.go:163-175 | moving onto the cell the tail leaves in the same tick is not a collision; the body rotates and the occupancy is unchanged |
| Properties.TickGrowsOrMoves | snake.go:128-169 | a tick applies the pending direction; with no direction it changes nothing else; a running tick appends a head one step away, and either keeps the tail (length +1, new food drawn from a free cell) or drops it (length unchanged, same food, old tail's cell freed) |
| Properties.FoodMayLandOnHead | snake.go:158-175 | when the first draw after eating is the eaten cell, the new food lies on the new head |
| Properties.ChasingTheTail | snake.go:163-175 | a snake of four circling a 2 x 2 square into its own tail survives and rotates |
| Properties.BitingTheBody | snake.go:171-174 | turning into a body cell other than the tail ends the game with SelfCollision |
| Properties.LatchKeepsInv | snake.go:113-125 | the key switch keeps the invariant |
| Properties.TickShape | snake.go:128-176 | a tick applies the pending direction, leaves the accumulator alone, and changes the body length by 0 or +1 when the game goes on |
| Properties.PaidTick | snake.go:127-185 | a due tick paid for with `dt` keeps the invariant when the game goes on, lowers the accumulator by exactly `dt`, and grows the body by at most one cell |
| Properties.KeyedKeepsInv | snake.go:108-125 | adding frame time and running the key switch keep the invariant |
| Properties.FramePreservesInv | snake.go:107-185 | every frame that leaves the game running keeps the invariant |
| Properties.FrameQuit | snake.go:110-116 | a frame ends with UserQuit exactly when Escape is pressed, and then only the accumulator has moved |
| Properties.FrameWithoutTick | snake.go:108-127 | with no tick due, a frame only adds the frame time and latches the pending direction, and the clock runs no tick |
| Properties.FrameTicksOnce | snake.go:127-185 | with a tick due, a frame applies the latched direction, runs exactly one tick, and leaves the accumulator the clock predicts; the body grows by at most one cell |
| Game.SnakeGame.constructor | snake.go:93-101 | the new game is the initial state: an all-free field, then the head on the first draw and food on the first draw that is not the head, so the food is never on the head, with the invariant established |
| Game.SnakeGame.Spawn | snake.go:56-67 | the rejection loop returns an in-range free cell, namely the first free draw |
| Game.SnakeGame.PressKey | snake.go:113-125 | reports quit exactly when Escape is pressed, otherwise latches the pending direction, and keeps the invariant |
| Game.SnakeGame.Tick | snake.go:128-176 | the in-place tick leaves the game in the state, with the status, that `TickSpec` gives |
| Game.SnakeGame.Frame | snake.go:108-185 | one pass of the loop leaves the game in the state, with the status, that `FrameSpec` gives, and keeps the invariant while the game runs |

## Left out

- Drawing is not modelled: the pixel raster, block colours and the sprite (lines 40-54, 99, 101, 156, 161, 165, 183, 187).
- The window is not modelled: creation, `Closed`, `Update` and `Destroy`. `Game.SnakeGame.Frame` is one pass of the loop, so closing the window is simply not calling it again.
- The keyboard is a parameter: each frame's `JustPressed` keys are a `set<Key>`.
- The clock is a parameter: `time.Now` and `Sub` become a frame time given to each frame as a `nat`.
- The random source is a parameter. Each spawn takes the sequence of cells the source would yield, and `rand.Seed` is left out.
  - Spawning requires that some draw is free.
  - The loop's divergence when no draw is free is not modelled, and neither is the uniform distribution of draws.
- The `fmt.Printf` messages are left out. Their cases appear as the end reasons `OutOfBounds` and `SelfCollision`.
- Game.SnakeGame.Frame: the accumulator is an unbounded integer, so the `int64` overflow after about 292 years of accumulated frame time is not modelled.
- The linked `Block` chain is a sequence from tail to head, so the pointer surgery on `head.next` and `tail.next` is not modelled. The body stays in order and nothing else points into it.
- `rows` is the constant 100 set at line 73. `window_size` and `snake_width` matter only to drawing.
- The unused `existing` argument of `get_random_block` is left out.
