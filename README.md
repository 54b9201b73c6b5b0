# Snake game tick — a Dafny model

This project models the deterministic core of a console snake game written in
Go (`main.go`). A snake of grid cells moves on a `size × size` board whose
outermost ring is a wall. It eats apples to grow and score. The game ends when
the head runs into the body, or into the wall unless debug ("no-clip") mode is
on. The model covers the following parts of the program:

- the per-tick update of the game loop (`snackMove`);
- the wall rule (`hitTheWallChecker`) and the apple test (`eatTheAppleChecker`);
- apple placement (`genNewApple`) and `abs`;
- the heading encoding (Right = -2, Down = -1, Up = 1, Left = 2);
- the start state built by `gameInit`;
- the tick-interval formula;
- the glyph grid that `render` builds;
- the keyboard listener's mapping from arrow keys to the pending heading.

Modules:

- `Geometry` (geometry.dfy): pure rules. These are positions, headings,
  `Abs`, `Turn` (adopting the pending heading), `Advance` (one step of the
  head), `WallCheck`, `Spawn` and `IntervalMs`, with lemmas about them.
- `Body` (body.dfy): the body as a sequence, head first. Its specification
  functions are `Shift` and `CollisionCount`. Three methods run the source's
  loops: `SeedBody` builds the seed column, `CountCollisions` is the collision
  scan, and `ShiftBody` builds the shifted body in an array.
- `Board` (board.dfy): `Render` fills a `size × size` `array2<char>` in nested
  loops and then draws the snake over it. It is proved against `Glyph`, which
  is defined from the wall ring and the interior.
- `Game` (game.dfy): class `App` holds the state that the loop changes:
  `curDirection`, `nextDirection`, `body`, `apple`, `score` and `exited`. It
  also holds the fixed `size`, `debug` and `intervalMs`. Closing the one-shot
  `gameExit` channel is modelled by setting `exited`. `Tick` returns how many
  times it closed the channel. Module-level functions `Landing`, `Closes` and
  `Moved` describe what a tick does to the body. `TickKeepsShape` proves what
  the tick preserves. The same state as a value is a `Snapshot`. `TickFrom`
  is one tick on a snapshot, and `Replay` is the whole game loop over a run
  of inputs. The methods `Tick`, `Round` and `Run` are proved to leave the
  object in exactly the state these functions compute.

The class invariant `Valid()` is `WellFormed` of the current snapshot. It says
five things:

- `size >= 3`;
- the body has at least 5 cells;
- `score == 10 * (|body| - 5)`;
- both headings are legal;
- the apple is strictly inside the walls.

Two further snapshot predicates are preserved by every tick. `Inside` says every
segment is strictly inside the walls while the game runs. `NoOverlap` says
that, outside no-clip mode, no two segments share a cell while the game runs.
`TickKeepsNoOverlap` proves that `NoOverlap` is preserved on its own.
`TickFromKeeps` preserves `Inside`, and preserves the pair together. A
new game starts with both invariants when `size >= 7`. From them, `Tick` proves
that outside no-clip mode it closes the exit channel at most once. A second
close would make Go panic. `Run` carries the same fact over a whole game.

Three behaviours of the code that are easy to misread:

- In debug mode a wall hit makes the head take the wrapped position. Without
  debug, a hit keeps the ring cell and ends the game. For a head at (1, 5)
  moving Left on a 30-wide board, debug gives (28, 5) and the game continues.
  Without debug the head stays at (0, 5) and the game ends.
- The self-collision test is always on, whatever `debug` is. It compares the
  unwrapped new head with every cell of the pre-move body, the tail included.
- There is no level-up: the level is fixed at start.

## Model

| member | source | states |
|---|---|---|
| `Geometry.Abs` | main.go:237-242 | the result is non-negative and equals `v` or `-v` |
| `Geometry.Turn` | main.go:129-131 | the heading after a tick is either the current one or the pending one |
| `Geometry.TurnOnlyPerpendicular` | main.go:16-22 | with this encoding, the heading changes iff the pending one is perpendicular; an opposite (or equal) pending heading is ignored, so the snake never reverses in one tick (for a pending heading read once), and the result stays a legal heading |
| `Geometry.Advance` | main.go:135-145 | a legal heading moves the head exactly one cell on one axis (vertical headings keep x, horizontal keep y); Up and Left decrease a coordinate, Down and Right increase it; any other value leaves the head where it is |
| `Geometry.WallCheck` | main.go:177-193 | `hit` is reported iff the position changed, and at most one coordinate changes |
| `Geometry.WallCheckKeepsInterior` | main.go:177-193 | an interior position comes back unchanged with `hit == false` |
| `Geometry.WallCheckRing` | main.go:179-188 | on the board (size >= 3) a hit is reported iff the position is on the ring; only the first matching rule (x == 0, x == size-1, y == 0, y == size-1) fires and moves that coordinate to the opposite interior edge |
| `Geometry.CornerStaysOnRing` | main.go:179-183 | the corner (0, 0) is moved along x only, to (size-2, 0), which is still on the ring |
| `Geometry.WrapAfterStep` | main.go:151-156 | one step from an interior cell stays on the board, and the wall rule then returns an interior cell; a hit happens iff the step reached the ring |
| `Geometry.Spawn` | main.go:84-89 | draws in `[0, size-2)` give an apple strictly inside the walls |
| `Geometry.SpawnCoversInterior` | main.go:86-87 | every interior cell is produced by exactly one pair of draws |
| `Geometry.IntervalMs` | main.go:63 | for levels 1 to 10 the interval is in [25, 475] ms; above 10 it drops below 25 |
| `Geometry.IntervalDecreases` | main.go:63 | a higher level gives a strictly shorter interval, 50 ms per level |
| `Body.Shift` | main.go:158-160 | the shifted body keeps its length, starts with the new head, and holds old segment `i-1` at index `i` |
| `Body.GrowIsCons` | main.go:161-162 | shifting and re-appending the old tail equals the new head followed by the whole old body, one cell longer |
| `Body.CollisionCount` | main.go:146-150 | the number of segments on a cell is at most the body length and positive iff the cell is in the body |
| `Body.CollisionCountDistinct` | main.go:146-150 | in a body without overlaps the scan finds a cell at most once |
| `Body.ShiftKeepsShape` | main.go:158-166 | moving onto a free cell keeps a body without overlaps free of them, and keeps an interior body interior, with or without growth |
| `Geometry.HalfTowardZero` | main.go:76-77 | halving rounds toward zero, as Go's integer `/` does: twice the result is within 1 of the argument in absolute value, the sign is kept, and for non-negative arguments it is ordinary division by 2 |
| `Body.SeedBody` | main.go:74-78 | the seed is `SeedLength` (five) cells, head at (size/2, size/2-2) with halving toward zero, each next cell directly below the previous one, with no overlaps, and all interior when size >= 7 |
| `Body.CountCollisions` | main.go:146-150 | the scan counts the segments on the new head, which is positive iff the new head is in the body |
| `Body.ShiftBody` | main.go:133-160 | the array-built body equals `Shift` of the old body and the new head |
| `Board.GlyphMeaning` | main.go:196-222 | each on-board cell shows `O` iff a segment is on it; `A` iff it is the apple and not covered; `W` iff it is on the ring, not the apple and not covered; blank iff it is interior, not the apple and not covered |
| `Board.Render` | main.go:194-222 | the grid is newly allocated and `size × size`, and every cell holds `Glyph`: the apple before the wall, segments drawn over both, off-board segments ignored |
| `Game.Landing` | main.go:151-156 | without a hit the head is the unwrapped step; with a hit and debug off it is also the unwrapped step (the ring cell); in debug mode it is the wall rule's (wrapped) position |
| `Game.Closes` | main.go:146-156 | the tick closes the exit signal iff the unwrapped head is on a cell of the pre-move body (tail included) or it hits the wall with debug off |
| `Game.Moved` | main.go:158-166 | the new body starts with the new head and shifts the old one back; when the apple was eaten it is one longer and its rest is the whole old body |
| `Game.MoveBody` | main.go:133-166 | the collision scan, wall rule, shift and growth give the close count `Closes` and the body `Moved` |
| `Game.TickKeepsShape` | main.go:146-166 | from a body inside the walls the new head is on the board, and a tick that does not end the game keeps the body inside; with debug off and no overlaps the signal is closed at most once, and a continuing game keeps no overlaps |
| `Game.SmallBoardHeadLeavesBoard` | main.go:71-78 | on a board of size 5 the seed head starts on the ring, and moving up takes it off the board with no hit and no close |
| `Game.NoClipCanLandOnBody` | main.go:146-156 | in debug mode a head wrapped through the wall can land on the body without closing the signal, leaving the body overlapping itself |
| `Game.WallStopsWithoutNoClip` | main.go:151-156 | with debug off, a head at (1, 5) moving Left on a 30-wide board lands on (0, 5), a ring cell, although the wall rule would wrap it to (28, 5), and the exit signal is closed |
| `Game.KeyHeading` | main.go:105-114 | an arrow key gives its own legal heading (Up and Down vertical, Left and Right horizontal, Up and Left positive); any other key keeps the pending heading |
| `Game.TickFrom` | main.go:126-166 | one tick on a snapshot: the heading becomes `Turn(cur, next)`; the body becomes `Moved` of the old body and the landed head, so it grows by one exactly when the pre-move head was on the apple; the score then rises by 10 and the apple is re-drawn by `Spawn`; otherwise the apple is kept; and the game has ended iff it had already ended or the tick closed the signal |
| `Game.TickFromKeeps` | main.go:126-166 | a tick keeps `WellFormed`; from a body inside the walls it keeps `Inside` and puts the head on the board; with debug off and no overlaps it keeps `NoOverlap` and closes the signal at most once |
| `Game.TickKeepsNoOverlap` | main.go:146-166 | a tick keeps `NoOverlap` by itself, with no assumption about the walls: a tick that does not close the signal put the head on a cell outside the old body |
| `Game.Replay` | main.go:119-173 | the game loop over a run of inputs uses at most all of them, stops early only once the game has ended, does nothing on an ended game, and uses at least one input on a running game |
| `Game.ReplayGrows` | main.go:161-165 | over a whole run the body never shrinks and the score rises by exactly 10 per segment gained |
| `Game.ReplayStep` | main.go:119-170 | on a running game, Replay is one key press and one tick followed by Replay of the remaining inputs, with one more input used |
| `Game.App.constructor` | main.go:55-83 | a new game heads up with nothing pending, has score 0, the seed column, an apple from the two draws and the level's interval, and starts inside the walls with no overlaps when size >= 7 |
| `Game.App.GenNewApple` | main.go:84-89 | the apple becomes the spawned interior cell |
| `Game.App.EatsApple` | main.go:174-176 | true iff the head is on the apple, and then the head is inside the walls |
| `Game.App.Press` | main.go:105-114 | the pending heading becomes `KeyHeading` of the key, and nothing else in the state changes |
| `Game.App.Tick` | main.go:126-166 | the new state is `TickFrom` of the old one; the tick closes the signal `Closes` times; `Valid`, `Inside` and `NoOverlap` are preserved; with debug off the signal is closed at most once |
| `Game.App.Round` | main.go:105-166 | a key press followed by a tick gives `TickFrom` of the state with the pressed heading; on a run of inputs headed by this one it is the first step of `Replay`; the game has ended iff the signal was closed; the invariants are preserved |
| `Game.App.Run` | main.go:119-173 | the final state and the number of ticks are exactly those of `Replay` from the start state; the game has ended iff the signal was closed; `Valid`, `Inside` and `NoOverlap` hold at the end, and with debug off the signal is closed at most once in the whole game |

## Left out

- Concurrency is not modelled: the two goroutines, the `sync.WaitGroup` and the
  `gameExit` channel itself. The channel's close is the `exited` flag, and
  `Tick` requires `!exited`, as the `select` at the top of the loop guarantees.
- Go panics when `quitGame` closes the channel twice in one tick. The model
  counts the closes (the result of `Tick`, `closes` in `Run`) but does not
  model the panic. With debug off, the count is proved to be at most 1.
- Key presses do not interleave freely with ticks. `Run` takes one key press
  per tick. A press only overwrites `nextDirection`, so only the last press
  before the tick reads `nextDirection` matters.
- `Turn` reads the pending heading once. The source reads `nextDirection`
  twice, in the `abs` test and in the assignment (main.go:129-130). Nothing
  orders those reads against the listener's writes. A press between the two
  reads can therefore make the snake reverse: with Up current and Left
  pending, a Down press after the test sets the heading to Down. The proof
  that the snake never reverses holds only for the single-read model.
- The keyboard library is not modelled: opening and closing it, blocking reads,
  and `log.Fatal` on its errors. It is a foreign library doing I/O.
- `time.Sleep` and `time.Duration` are not modelled. Only the integer
  millisecond formula is.
- The `clear` subprocess and the printing are left out: the score line and the
  grid rows. `Render` returns the grid instead of printing it.
- Flag parsing and random seeding are left out. The two `rand.Intn` draws are
  the parameters `r1` and `r2`.
- `rand.Intn(n)` panics when `n <= 0`. The draws use `n = size-2`, so a game
  needs `size >= 3`, which the constructor requires.
- The draws lie in `[0, size-2)` because that is the range of `rand.Intn`.
  The model states this range as a precondition on `r1` and `r2`.
- The repository's other program variant, with a full-screen display and
  level-up every 100 points, is not part of this model.
- `Game.App.constructor` promises `Inside` and `NoOverlap` only when
  `size >= 7`. Smaller boards put the seed on the wall ring
  (see `SmallBoardHeadLeavesBoard`).
