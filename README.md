# Falling-block engine model

A Dafny model of the falling-block (Tetris-style) engine inside the React
game component of `front/app/page.tsx` (the desktop page) and
`front/app/mobile/page.tsx` (the mobile page). Up to line 333 the two files
hold the same engine, apart from the component's name and the drop-speed
constant. The model covers:

- the 10 by 20 board of `(value, "clear" | "merged")` cells;
- the seven tetrominoes and the clockwise rotation;
- the collision test;
- the player (`pos`, `tetromino`, `collided`) with sideways moves, soft
  drop, hard drop, rotation with a horizontal wall-kick search, and spawn;
- the landing effect (merge, sweep of complete rows, score and row
  counters), the level effect, the timer tick's guard, the keyboard
  handler's gating, and restart.

Files and modules:

- `tetrominos.dfy` (`Tetrominos`): the piece kinds, the catalog and `Rotated`.
- `playfield.dfy` (`Playfield`): cells, the board, the player, the collision
  predicate `Collides` and the looping `CheckCollision`.
- `landing.dfy` (`Landing`): `Merge` and its loop `MergePiece`; `Swept` and its
  loop `SweepRows`; counting lemmas.
- `motion.dfy` (`Motion`): spawn placement, the move, soft-drop, hard-drop and
  rotation outcomes, the hard drop's loop `DropDistance`, and the wall-kick
  loop `KickSearch`.
- `progression.dfy` (`Progression`): the points table and the level rule.
- `session.dfy` (`Session`): the class `Game`. It holds the component's state
  (`board`, `player`, `next`, `score`, `level`, `rows`, `paused`, `gameOver`).
  Each callback or effect of the component is one method.

The model follows the code in these places, where a reader might expect
otherwise:

- Spawning makes no collision check. The game ends only in the soft drop,
  when the piece is blocked below while still in row 0.
- The wall-kick search shifts by +1, -2, +3, -4, ... in turn, so the net
  offsets it tests are 0, +1, -1, +2, -2, .... It tests at most `w`
  positions, where `w` is the rotated matrix's width.
- The level effect runs again whenever the level changes (`SettleLevel`).
  From any settled state (fewer than ten rows per level) the cascade after
  one landing still lifts the level by at most one step, because a landing
  clears at most four rows (`AtMostOneLevelPerLanding`). Only a state the
  game never reaches, such as level 1 with 25 rows, would jump further.
- Clearing more than four rows would score 0, through the table's `|| 0`
  fallback. `LandingKeepsState` proves this case never arises.

## Model

| member | source | states |
|---|---|---|
| `Tetrominos.Tetromino` | front/app/page.tsx:28-86 | every catalog shape is rectangular, has an occupied cell, fits in 4 by 4, and its occupied cells carry only its own letter |
| `Tetrominos.Rotated` | front/app/page.tsx:204 | the rotation swaps the dimensions and takes entry (i, j) from the original's entry (rows-1-j, i) |
| `Tetrominos.RotateFourTimes` | front/app/page.tsx:204 | four clockwise rotations give back the original matrix |
| `Tetrominos.RotatedPlayable` | front/app/page.tsx:204 | a rotated playable shape is still rectangular, occupied and within 4 by 4 |
| `Tetrominos.RotatedOnlyKind` | front/app/page.tsx:204 | rotation keeps the piece's letter in every occupied cell |
| `Playfield.CreateBoard` | front/app/mobile/page.tsx:89-92 | a fresh board is 20 by 10 and all clear; it satisfies the cell invariant and has no complete row |
| `Playfield.CheckCollision` | front/app/page.tsx:139-165 | the nested scan with early return answers exactly `Collides`: some occupied cell is off the sides, below the floor, or (in rows y >= 0 only) on a cell that is not clear |
| `Playfield.CollidesSamePlace` | front/app/page.tsx:144-145 | the collision test depends only on the anchor plus offset, not on how it is split between them |
| `Playfield.CollidesShift` | front/app/page.tsx:144-145 | testing with offset (dx, dy) equals testing the translated piece with offset (0, 0) |
| `Landing.MergePiece` | front/app/page.tsx:227-239 | the cell-by-cell writes into the copied board give `Merge`: occupied piece cells inside the board become (value, merged), cells off the board are dropped, every other cell is unchanged, and the board stays 20 by 10 |
| `Landing.MergeConsistent` | front/app/mobile/page.tsx:229-239 | merging preserves the cell invariant "value is 0 iff state is clear" |
| `Landing.SweepRows` | front/app/page.tsx:242-252 | the accumulator ends as k fresh clear rows followed by the non-complete rows in their original order, and the counter ends as k, the number of complete rows |
| `Landing.SweptWellFormed` | front/app/page.tsx:242-252 | the swept board is still 20 rows of 10 cells |
| `Landing.SweptNoFullRows` | front/app/mobile/page.tsx:243-252 | after the sweep no row is entirely merged |
| `Landing.SweptConsistent` | front/app/mobile/page.tsx:247 | the sweep preserves the cell invariant |
| `Landing.SweptMergedCount` | front/app/mobile/page.tsx:243-252 | the sweep removes exactly 10 merged cells per cleared row and no others |
| `Landing.MergeCompletesAtMostPieceHeight` | front/app/page.tsx:229-252 | merging a piece into a board with no complete row completes at most as many rows as the piece matrix has rows |
| `Motion.SpawnX` | front/app/mobile/page.tsx:125 | the start column centres the matrix, leaning left on an odd split, and keeps a matrix that fits inside the board |
| `Motion.SpawnPlayer` | front/app/mobile/page.tsx:124-131 | a spawned player has a playable catalog shape in row 0 and is not landed |
| `Motion.SpawnFreeOnEmptyBoard` | front/app/mobile/page.tsx:124-131 | although spawn makes no collision check, every kind spawns on a free position of an empty board |
| `Motion.MoveCommitsFree` | front/app/page.tsx:168-172 | an accepted move changes only x, by `dir`, and the new position does not collide |
| `Motion.DropCommitsFree` | front/app/page.tsx:175-177 | a soft drop that moves the piece leaves it on a free position |
| `Motion.DropDistance` | front/app/page.tsx:189-193 | the hard drop's counter ends at the least d >= 0 with a collision at (0, d + 1); it terminates for any shape with an occupied cell |
| `Motion.HardDropRests` | front/app/page.tsx:189-199 | after a hard drop one row lower always collides, and the resting position is free whenever the piece moved |
| `Motion.SoftDropsMatchHardDrop` | front/app/page.tsx:175-199 | d + 1 soft drops reach the hard drop's landed player, unless the piece is still in row 0 there; in that case the soft drop ends the game and the hard drop does not |
| `Motion.OPieceFallsToFloor` | front/app/page.tsx:189-199 | an O piece hard-dropped from its spawn on an empty board rests with its top row on row 18 |
| `Motion.KickOffsetClosed` | front/app/page.tsx:207-213 | the net shift after k steps of the kick search is (k + 1) / 2 to the right for odd k and k / 2 to the left for even k |
| `Motion.KickSearch` | front/app/page.tsx:207-219 | the wall-kick loop returns the first free candidate among net offsets 0, +1, -1, +2, ... within the first w steps, and gives up exactly when all w collide |
| `Motion.RotateCommitsFree` | front/app/page.tsx:202-220 | a rotation either leaves the player unchanged or commits the rotated matrix in the same row, at most w / 2 columns away, on a free position |
| `Progression.LineScore` | front/app/page.tsx:255-256 | a landing scores nothing exactly when it clears no row, more rows than the table covers, or the level is 0 |
| `Progression.SettleLevel` | front/app/mobile/page.tsx:265-269 | re-running the level rule until it stops never lowers the level, raises it only when rows >= level * 10, and ends with rows < level * 10, i.e. at max(level, rows / 10 + 1) |
| `Session.Game.constructor` | front/app/page.tsx:96-136 | a new game has an empty board, score 0, level 1, rows 0, both flags clear, and the first spawned piece |
| `Session.Game.ResetPlayer` | front/app/mobile/page.tsx:119-132 | the pending piece (or the draw when none is pending) spawns centred in row 0, not landed; the upcoming draw becomes pending; nothing else changes |
| `Session.Game.Move` | front/app/page.tsx:168-172 | the player moves by `dir` exactly when that does not collide; nothing else changes |
| `Session.Game.Drop` | front/app/page.tsx:175-186 | three outcomes: free below, so one row down and not landed; blocked in row 0, so game over with the player unchanged; otherwise landed in place |
| `Session.Game.HardDrop` | front/app/page.tsx:189-199 | the player moves down by the drop distance and is landed; x, the shape and the game-over flag are unchanged |
| `Session.Game.Rotate` | front/app/page.tsx:202-220 | the player takes the rotation outcome (first free kick, or unchanged); the board and counters are unchanged; the session invariant holds |
| `Session.LandingKeepsState` | front/app/page.tsx:223-262 | landing keeps the session invariant (a 20 by 10 board, the cell invariant, no complete row, a playable piece, level at least 1) and never completes more than four rows |
| `Session.AtMostOneLevelPerLanding` | front/app/mobile/page.tsx:265-269 | from a settled state (rows < level * 10), re-running the level effect after one landing ends at most one level higher |
| `Session.RestartIsNewGame` | front/app/page.tsx:323-333 | restarting and spawning gives exactly the state of a new game, whatever player was left over |
| `Session.Game.Settle` | front/app/page.tsx:227-260 | the board becomes the swept merged board, score rises by the table entry for the k completed rows times the level, rows rises by k; nothing else changes |
| `Session.Game.Lock` | front/app/page.tsx:223-262 | on a landed player the state becomes `AfterLanding`: settled board and counters, then the next spawn; otherwise nothing changes; the session invariant holds |
| `Session.Game.LevelEffect` | front/app/mobile/page.tsx:265-269 | one evaluation raises the level by exactly 1 when rows >= level * 10 and otherwise leaves it; nothing else changes |
| `Session.Game.Tick` | front/app/mobile/page.tsx:276-281 | a tick performs exactly one soft drop when neither paused nor over, and otherwise changes nothing |
| `Session.Game.HandleKey` | front/app/mobile/page.tsx:292-321 | when over every key is ignored, pause and restart included; when paused only pause and restart act; otherwise each key dispatches to its operation |
| `Session.Game.Restart` | front/app/mobile/page.tsx:324-333 | a fresh all-clear board, score 0, level 1, rows 0, both flags clear, and a new spawn |

## Left out

- Rendering (`Cell`, `MiniBoard`, the layout, colours, the link to the other
  page): presentation only.
- The timer (`setTimeout`, `clearTimeout`, the interval `GAME_SPEED / level`)
  and the focus call: wall-clock behaviour and floating-point division. Only
  the tick's guard is modelled (`Game.Tick`), so the two files'
  different `GAME_SPEED` values play no part.
- `Math.random`: each random draw is a `Kind` parameter (`draw`, `upcoming`).
- React scheduling. Each effect or callback is one atomic method, and the
  caller decides when `Lock` and `LevelEffect` run. Batching and stale
  closures are not modelled.
- Session.Game.Restart: the real handler calls a `resetPlayer` that still
  sees the previous pending piece, so the old pending piece spawns. Here the
  pending piece is cleared first, as written, and the spawn uses `draw`.
- Session.Game.Rotate: in the source the kicked candidate shares its `pos`
  object with the current player and shifts it in place. The model works on
  values; both outcomes replace the whole player, so the end state is the same.
- Session.Game.constructor: the placeholder matrix `[[0]]` lives only until
  the mount effect's first spawn, and the constructor includes that spawn. A
  hard drop of that empty matrix would never end; the session invariant
  (`Playable`) rules it out.
- Tetrominos.Rotated: requires a rectangular, non-empty matrix (every
  catalog shape and every rotation of one is). A ragged matrix would read
  `undefined` entries in the source.
- The on-screen buttons call the operations directly, with no pause or
  game-over gating. The class methods `Move`, `Drop`, `Rotate`, `HardDrop`
  and `Restart` are that path.
- `e.preventDefault()` and the physical key names: only logical actions are
  modelled.
- Numbers are unbounded integers. JavaScript numbers are exact up to 2^53,
  far beyond any reachable score.
