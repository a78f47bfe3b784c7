# Coloris engine model

Coloris is a falling-block puzzle on a board 10 columns wide and 20 rows
tall. The falling piece is a vertical stack of three coloured cells at
column `x` with its top cell at row `y`. Row 0 is the top of the board. The
player moves the piece sideways, cycles its three colours, soft-drops it or
hard-drops it. A piece that cannot move down any more is written into the
grid. Then any horizontal or vertical line of three or more equal colours
matches. Each matched cell also clears its coloured up, down, left and right
neighbours; this is the blast zone. Every cleared cell scores 10 points. The
remaining cells fall to the bottom of their columns, and the check repeats
until no match is left. A new piece enters at column 5, row 0. The game ends
when one of the three cells under that spawn position is occupied. The tick
interval starts at 800 ms. It falls by 75 ms every minute, down to a floor of
150 ms. While soft drop is held, the tick is 50 ms.

The project has these modules, one per concern of
`app/components/ColorisGame.tsx`:

- `Board` (`board.dfy`): the grid, its cells, columns and filled cells.
- `Pieces` (`pieces.dfy`): pieces, the move validator, rotation, placement and the hard-drop scan.
- `Runs` (`runs.dfy`): a reference definition of a "line of three or more" in one row or column.
- `Matches` (`matches.dfy`): the two run scans and the blast zone.
- `Collapse` (`collapse.dfy`): clearing cells and per-column gravity.
- `Resolution` (`resolution.dfy`): one match-clear-fall pass, and the chain reaction with its termination and score.
- `Speed` (`speed.dfy`): the speed schedule and the tick interval.
- `Coloris` (`game.dfy`): the game state as a class, with start, spawn, the game-loop tick, player moves, hard drop and the speed timer.

The source updates its grid by copying it and then writing cells. These
writes are modelled as local sequence values that are reassigned cell by
cell (`SetCell`). The chain reaction in the source runs on timers. In the
model it is a loop, `ResolveChain`, proved equal to the recursive
specification `Resolve`. `Resolve` returns the settled grid and the points
the chain earns.

The class `Coloris.Game` has a ghost counter `clearedCells`. Its invariant
`Valid()` keeps `score == 10 * clearedCells`, so the score is always 10
points per cleared cell. `Valid()` also requires that:

- the falling piece of a running game sits at a valid position;
- the look-ahead piece waits at the spawn position;
- the speed stays between 150 and 800 ms.

Every operation preserves `Valid()`.

## Model

| member | source | states |
|---|---|---|
| Board.EmptyGrid | app/components/ColorisGame.tsx:16 | every cell of the new 20×10 grid is empty and it has no filled cells |
| Board.Column | app/components/ColorisGame.tsx:232-240 | column `c` read top to bottom, 20 cells, cell `r` is `g[r][c]` |
| Board.SetCellColumns | app/components/ColorisGame.tsx:284-285 | writing one cell changes that column at that row only and leaves every other column unchanged |
| Board.GridFromColumns | app/components/ColorisGame.tsx:279-288 | two grids with the same ten columns are equal |
| Pieces.Rotated | app/components/ColorisGame.tsx:388 | rotation keeps the position and permutes the colours (same multiset) |
| Pieces.RotateThrice | app/components/ColorisGame.tsx:388 | three rotations give back the original piece |
| Pieces.RotationKeepsFit | app/components/ColorisGame.tsx:386-390 | a rotated piece is valid exactly when the piece is, so rotation in a running game never fails |
| Pieces.IsValidMove | app/components/ColorisGame.tsx:309-318 | accepts exactly a present piece whose three cells are inside the columns, above the floor and empty; an accepted piece has `0 <= x < 10` and `y + 2 < 20` |
| Pieces.NewBlock | app/components/ColorisGame.tsx:20-24 | a fresh piece sits at column `Width / 2` (5), row 0, with the given colours |
| Pieces.NewBlockFitsEmpty | app/components/ColorisGame.tsx:20-24 | the spawn piece at column 5, row 0 is valid on an empty grid |
| Pieces.SpawnCheckIsValidator | app/components/ColorisGame.tsx:302-306 | at the spawn position, the game-over test (a truthy cell under any of the three slots) is exactly "the validator rejects the piece" |
| Pieces.PlaceBlockOnGrid | app/components/ColorisGame.tsx:320-327 | cell `(y+i, x)` gets colour `i` for each `i` with `y+i < 20`, and every other cell is unchanged |
| Pieces.PlacedFilledCells | app/components/ColorisGame.tsx:320-327 | placing a valid piece adds exactly its three cells to the filled cells, so the count grows by 3 |
| Pieces.LandingRow | app/components/ColorisGame.tsx:394-397 | the drop stops at a row at or below the start, and the row after the stop is invalid |
| Pieces.LandingPath | app/components/ColorisGame.tsx:394-397 | every row the drop passes through below the start is valid |
| Pieces.LandingIff | app/components/ColorisGame.tsx:395 | from the start down to the landing row, the loop's test (next row valid) holds exactly before the landing row |
| Pieces.FindLandingRow | app/components/ColorisGame.tsx:394-397 | the scan loop returns `LandingRow`; the row after it is invalid; the landing position is valid when the start was |
| Pieces.LandingFits | app/components/ColorisGame.tsx:392-398 | a hard drop from a valid position ends at a valid position |
| Pieces.Painted | app/components/ColorisGame.tsx:468-474 | painting the piece's slots from slot `i` on sets each on-grid cell of those slots to its colour, skips off-grid slots, and keeps every other cell |
| Pieces.Composited | app/components/ColorisGame.tsx:466-475 | the display grid shows each on-grid slot of the falling piece in its colour and the grid's own cell everywhere else |
| Pieces.CompositedIsPlacement | app/components/ColorisGame.tsx:466-475 | the grid drawn with the falling piece on top equals the grid that placing the piece would produce |
| Runs.RunStart | app/components/ColorisGame.tsx:235-237 | the first index of the maximal block of equal cells around `i`: all cells from it to `i` are equal, and the cell before it differs |
| Runs.RunEnd | app/components/ColorisGame.tsx:237 | the last index of that block: all cells from `i` to it are equal, and the cell after it differs |
| Runs.StartUnique | app/components/ColorisGame.tsx:235-237 | any index meeting the block-start conditions is `RunStart` |
| Runs.EndUnique | app/components/ColorisGame.tsx:237 | any index meeting the block-end conditions is `RunEnd` |
| Runs.SameRun | app/components/ColorisGame.tsx:235-237 | every cell of a block has the same start, end and colour |
| Runs.WholeRunMatches | app/components/ColorisGame.tsx:235-237 | every cell of a block of three or more equal colours matches, however long the block is |
| Runs.RunHasThree | app/components/ColorisGame.tsx:235 | a matching cell lies in a block with at least three equal coloured cells |
| Runs.ScanHit | app/components/ColorisGame.tsx:235-237 | when a triple starts at `y`, the extension loop adds exactly the cells from `y` to the end of its block |
| Runs.ScanMiss | app/components/ColorisGame.tsx:235 | when no triple starts at `y`, the scan adds nothing |
| Runs.ScanComplete | app/components/ColorisGame.tsx:233 | after the last start position, the scanned cells are exactly the cells in a block of three or more |
| Matches.FindVerticalRuns | app/components/ColorisGame.tsx:232-240 | adds to `acc` exactly the cells in a vertical block of three or more equal colours |
| Matches.FindHorizontalRuns | app/components/ColorisGame.tsx:243-251 | adds to `acc` exactly the cells in a horizontal block of three or more equal colours |
| Matches.FindMatches | app/components/ColorisGame.tsx:228-251 | `toClear` is exactly the set of matched cells |
| Matches.ExpandBlast | app/components/ColorisGame.tsx:253-262 | the blast zone is `toClear` plus every in-bounds coloured cell with a 4-neighbour in `toClear` |
| Matches.MatchedAreFilled | app/components/ColorisGame.tsx:235 | every matched cell is coloured |
| Matches.BlastInFilled | app/components/ColorisGame.tsx:253-262 | matched cells ⊆ blast zone ⊆ coloured cells |
| Matches.AtLeastThreeMatched | app/components/ColorisGame.tsx:235-237 | a grid with any match has at least three matched cells |
| Collapse.Stack | app/components/ColorisGame.tsx:281-287 | the coloured cells of a column in order, never more cells than the column has |
| Collapse.StackColoured | app/components/ColorisGame.tsx:282-286 | only coloured cells are stacked |
| Collapse.Blanks | app/components/ColorisGame.tsx:282 | `n` empty cells |
| Collapse.Compact | app/components/ColorisGame.tsx:279-288 | a settled column keeps its length |
| Collapse.StackAppend | app/components/ColorisGame.tsx:281-287 | the coloured cells of a concatenation are those of each part, in order |
| Collapse.CompactSettles | app/components/ColorisGame.tsx:279-288 | a compacted column has no coloured cell above an empty one, and keeps its coloured cells in their order |
| Collapse.SettledIsCompact | app/components/ColorisGame.tsx:279-288 | a column that is already settled is unchanged by compaction |
| Collapse.CompactUnique | app/components/ColorisGame.tsx:279-288 | the compacted column is the only settled column of that height with the same coloured cells in the same order |
| Collapse.CompactIdempotent | app/components/ColorisGame.tsx:279-288 | compacting twice is compacting once |
| Collapse.FallenColumns | app/components/ColorisGame.tsx:279-288 | every column of the fallen grid is that column compacted |
| Collapse.FallOverEmpty | app/components/ColorisGame.tsx:282 | an empty cell grows the gap by one and keeps the compacted suffix |
| Collapse.FallStays | app/components/ColorisGame.tsx:283 | a coloured cell with no gap below it stays and keeps the suffix compacted |
| Collapse.FallMoves | app/components/ColorisGame.tsx:283-286 | moving a coloured cell down by the gap keeps the suffix compacted |
| Collapse.ApplyGravity | app/components/ColorisGame.tsx:279-288 | the in-place gap-counting loop leaves every column compacted, i.e. the fallen grid |
| Collapse.ClearZone | app/components/ColorisGame.tsx:273-277 | every zone cell becomes empty and every other cell is unchanged |
| Collapse.ClearedCells | app/components/ColorisGame.tsx:273-277 | clearing removes exactly the zone from the filled cells; a zone of filled cells lowers the count by its size |
| Collapse.ColumnCellsCount | app/components/ColorisGame.tsx:279-288 | the filled cells of a column below a row are as many as its stacked cells |
| Collapse.CellsFromCount | app/components/ColorisGame.tsx:279-288 | the filled cells of columns `k..9` number the sum of their stack sizes |
| Collapse.CountByColumns | app/components/ColorisGame.tsx:279-288 | the number of filled cells is the sum of the per-column counts |
| Collapse.FallenTotals | app/components/ColorisGame.tsx:279-288 | gravity keeps each column's count of coloured cells |
| Collapse.FallenKeepsCount | app/components/ColorisGame.tsx:279-288 | gravity keeps the number of coloured cells |
| Resolution.PassShrinks | app/components/ColorisGame.tsx:253-288 | a pass on a grid with a match clears at least three cells and lowers the filled count by exactly the blast-zone size |
| Resolution.Resolve | app/components/ColorisGame.tsx:272-291 | the chain ends on a grid with no match, with no more filled cells than it began with, and earns 10 points per cell it removed |
| Resolution.ResolveUnfold | app/components/ColorisGame.tsx:290 | a chain with a match is one pass (10 points per blast cell) followed by the chain on the pass's result |
| Resolution.ResolveQuiet | app/components/ColorisGame.tsx:294 | on a grid with no match the chain changes nothing and scores nothing |
| Resolution.ResolveScoresOnMatch | app/components/ColorisGame.tsx:270 | a chain that starts with a match earns at least 30 points |
| Resolution.CheckForMatches | app/components/ColorisGame.tsx:227-295 | returns true exactly when a match exists; then it scores 10 per blast cell and returns the cleared and fallen grid; otherwise it scores nothing and leaves the grid unchanged |
| Resolution.ResolveChain | app/components/ColorisGame.tsx:272-291 | repeating the check until it returns false ends, and yields `Resolve`'s grid and points |
| Resolution.ChainStep | app/components/ColorisGame.tsx:288-290 | each repetition strictly lowers the filled count and keeps the chain's outcome |
| Speed.NextSpeed | app/components/ColorisGame.tsx:370 | the speed step is `max(150, prev − 75)` |
| Speed.SpeedSchedule | app/components/ColorisGame.tsx:369-371 | after `n` steps from 800 the speed is `max(150, 800 − 75n)` |
| Speed.FloorAfterNine | app/components/ColorisGame.tsx:369-371 | the floor of 150 ms is reached exactly from the ninth step on |
| Speed.TickInterval | app/components/ColorisGame.tsx:346 | the interval lies between 50 ms and the base speed, and is below 150 ms exactly when soft drop is held |
| Coloris.Game.constructor | app/components/ColorisGame.tsx:215-222 | an empty grid, score 0, no pieces, not started, not over, speed 800, no soft drop |
| Coloris.Game.StartGame | app/components/ColorisGame.tsx:451-463 | resets the grid, score, game-over flag, speed and soft drop, and sets the first piece and the look-ahead piece at the spawn position |
| Coloris.Game.SpawnBlock | app/components/ColorisGame.tsx:297-307 | the look-ahead piece becomes current and a new look-ahead piece is made; the game ends when the promoted piece is blocked |
| Coloris.Game.Settle | app/components/ColorisGame.tsx:322-331 | writes the piece into the grid; the grid becomes the chain's result; the score and the cleared count grow by the chain's points and cells |
| Coloris.Game.PlaceBlock | app/components/ColorisGame.tsx:320-332 | without a piece nothing changes; otherwise the piece is written, the chain resolved and the piece cleared |
| Coloris.Game.Fall | app/components/ColorisGame.tsx:348-355 | the piece moves down one row when that row is valid, and is placed otherwise |
| Coloris.Game.GameLoop | app/components/ColorisGame.tsx:335-356 | nothing happens unless a game runs; without a piece it spawns one; otherwise it is one fall step |
| Coloris.Game.MoveBlock | app/components/ColorisGame.tsx:380-384 | shifts the piece by `dx` exactly when the shifted piece is valid; otherwise nothing changes |
| Coloris.Game.RotateBlock | app/components/ColorisGame.tsx:386-390 | in a running game the piece is always rotated |
| Coloris.Game.HardDrop | app/components/ColorisGame.tsx:392-410 | places the piece at its landing row, resolves the chain and scores it |
| Coloris.Game.IncreaseSpeed | app/components/ColorisGame.tsx:365-371 | while a game runs the speed takes one step; otherwise it is unchanged |
| Coloris.Game.SetDropping | app/components/ColorisGame.tsx:412-429 | soft drop follows the key only while a game runs |
| Coloris.Game.CurrentInterval | app/components/ColorisGame.tsx:346 | the current tick interval lies between 50 ms and the base speed |

## Left out

- Timing of the chain reaction. Two 200 ms timers separate the clear from the fall and the fall from the next check, and the 'clearing' marker shows the blast zone in between. The model resolves the whole chain inside one call, and the 'clearing' marker is not modelled.
- Races with the chain. In the source, `currentBlock` is set to null before the chain starts, so the next spawn, moves and even a new placement can run while the chain's timers are pending. A spawn can then see the 'clearing' grid, and the chain's later grid writes overwrite any piece placed in between. The model runs the chain to completion before the next spawn and does not model these interleavings.
- Random colours (`Math.random` in `getRandomColor`). The colours are parameters of `StartGame`, `SpawnBlock` and `GameLoop`.
- Timers, the keyboard and the window. `setInterval`, key listeners and resize listeners are the callers of `GameLoop`, `IncreaseSpeed`, `MoveBlock`, `RotateBlock`, `HardDrop` and `SetDropping`. The model has no clock.
- The `gameStarted` guard of the key handler. It is not repeated inside `MoveBlock`, `RotateBlock` and `HardDrop`, since the source functions themselves check only the piece and `gameOver`.
- Rendering: `WavyTitle`, the cell styling, the preview box, the layout and the overlays. The only rendering logic modelled is `Composited`, the grid drawn with the falling piece on top.
- Cell contents. The source stores CSS colour strings; the model stores colour indices 0–4.
- Pieces.PlaceBlockOnGrid requires the piece to be on the board (`0 <= x < 10`, `y >= 0`). The game calls it only with the falling piece, and `Valid()` keeps that piece on the board.
- The Playwright tests and the build and lint configuration are not part of this model.
