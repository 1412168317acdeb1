# Minesweeper board engine in Dafny

This project models the board engine of a single-file Minesweeper game (`Main.cpp`) and proves its properties.

The game state has three parts:

- an N x N array of cells in row-major order, each with a `type`, a `flag` and an `open` bit;
- `death`, which is -1 or the index of the mine that went off;
- `num_opened`, which counts down from N*N.

The game itself is one file. This model splits it into four modules:

- **`Grid`**: tile coordinates, `index`, and the screen region of the restart button, in tile coordinates.
- **`Cells`**: the board as a value (`seq<Cell>`), with:
  - the pure query helpers `getType`, `isOpen`, `isFlag`, `isMine` and `calcMine`;
  - cell counting;
  - `Consistent`, the invariant of a running game. It says:
    - every non-mine cell holds its neighbour count;
    - exactly MINE_COUNT cells are mines;
    - a set `death` names an open mine, and then every mine is open;
    - `num_opened` equals N*N minus the open safe cells, minus one more after a loss.
- **`Flood`**: a specification of what `openCell` reveals on a safe tile. The open set must be *expanding*: every closed 0-count tile it contains has all its in-bounds neighbours in it. The newly opened cells must lie in every expanding set that contains the start tile. Together these make the result the least expanding set around the start.
- **`Engine`**: class `Board`, holding the array and the two counters. Its methods update them in place: `setType`, `openMines`, the recursive `openCell`, `toggleFlag`, the board part of `init`, the state effect of `draw`, and the tile-level dispatch of `mouse`. `Board.Valid()` is `Consistent` on the array's contents. The constructor and `Init` establish it. `OpenCell`, `OpenNeighbour`, `OpenCellTwice`, `ToggleFlag`, `RevealIfFinished` and `Mouse` require it and keep it. `SetType`, `OpenMines`, `ToggleFlagAsWritten`, `PlaceMines` and `FillCounts` are steps inside those operations, or the as-written toggle, and their contracts do not mention it.

BOARD_SIZE (24) and MINE_COUNT (100) become the parameters `n` and `mineCount` of a `Board`. They must satisfy `0 < n` and `0 <= mineCount < n*n`.

The random draws of `init` (`rand_int`) are an oracle. Each pass of the placement loop picks some in-bounds tile that is not yet a mine, using Dafny's `:|`. Draws that the game's retry loop rejects change nothing, so they are not modelled. The `FreeTileExists` lemma shows such a tile always exists.

`openCell` is proved to terminate with the number of closed cells as its measure. Its eight recursive calls go, in the game's order, through the helper method `Board.OpenNeighbour`, which covers one neighbour at a time.

## Model

| member | source | states |
|---|---|---|
| Grid.OriginalSizesValid | Main.cpp:11-12 | the original build's BOARD_SIZE (24) and MINE_COUNT (100) satisfy `0 < N` and `0 <= MINE_COUNT < N*N`, the requirements of a board |
| Grid.Index | Main.cpp:332 | an in-bounds tile's index lies in [0, N*N) |
| Grid.IndexInjective | Main.cpp:332 | two in-bounds tiles with the same index are the same tile |
| Grid.IndexOnto | Main.cpp:332 | every array position 0 <= i < N*N is the index of the in-bounds tile (i % N, i / N), so `index` is a bijection onto the array |
| Grid.RightEdgeWraps | Main.cpp:332 | without a bounds check, tile (N, y) has the index of tile (0, y+1) |
| Grid.LeftEdgeWraps | Main.cpp:332 | without a bounds check, tile (-1, y) has the index of tile (N-1, y-1) |
| Grid.OffBoardInArray | Main.cpp:332 | for a tile with x in -1..N off the board, the unchecked index lands in the cell array exactly when the tile is (N, y) with -1 <= y <= N-2 or (-1, y) with 1 <= y <= N |
| Grid.RequestRestart | Main.cpp:513-516 | `requestRestart`: x in N/2-1..N/2+1 and y in N+1..N+3 |
| Grid.RestartOutsideBoard | Main.cpp:513-516 | no tile of the restart region is on the board |
| Grid.RestartIndexPastArray | Main.cpp:513-516 | every tile of the restart region has an index of at least N*N, past the end of the cell array |
| Cells.GetType | Main.cpp:336 | `getType`: the `type` of the cell at `index(x, y)`, for an in-bounds tile |
| Cells.IsOpen | Main.cpp:334 | `isOpen`: the `open` bit of the cell at `index(x, y)`, for an in-bounds tile |
| Cells.IsFlag | Main.cpp:359 | `isFlag`: the `flag` of the cell at `index(x, y)`, for an in-bounds tile |
| Cells.IsMine | Main.cpp:340-345 | `isMine` is false for every tile off the board |
| Cells.CalcMine | Main.cpp:348-357 | `calcMine`: the eight `isMine` tests around (x, y), added in the game's order |
| Cells.CalcMineCountsNeighbours | Main.cpp:348-357 | `calcMine` equals the number of in-bounds Moore neighbours holding a mine, so it is always in 0..8 |
| Cells.CalcMineZero | Main.cpp:348-357 | a count of 0 means none of the eight neighbours is a mine |
| Cells.CalcMineSameMines | Main.cpp:348-357 | the count depends only on where the mines are |
| Cells.KindsInRange | Main.cpp:56-60 | under the count invariant every `type` is in 0..8 or is MINE |
| Cells.FreeTileExists | Main.cpp:454-464 | while fewer than N*N cells are mines, some in-bounds tile is not a mine, so the retry loop has a tile to stop on |
| Cells.FreshLayoutConsistent | Main.cpp:445-476 | a generated board with `death == -1` and `num_opened == N*N` satisfies the game invariant |
| Cells.MinesSetOpen | Main.cpp:367-373 | what `openMines(open)` leaves: every mine cell gets `open`, every other cell stays as it is |
| Cells.ToggleAt | Main.cpp:403 | a toggle flips the flag of exactly the target tile; types, open bits and every other flag stay the same |
| Cells.ToggleInvolution | Main.cpp:403 | toggling the same tile twice restores the board |
| Cells.ToggleKeepsConsistent | Main.cpp:403 | a toggle keeps the game invariant with the same counters |
| Cells.OpenSafeKeepsConsistent | Main.cpp:381-382 | opening a closed safe cell with `num_opened--` keeps the invariant, and the closed cells drop by one |
| Cells.DetonateKeepsConsistent | Main.cpp:381-387 | opening a closed mine is possible only while `death == -1`; setting `death` to it and opening every mine keeps the invariant with `num_opened` lowered by one |
| Cells.RevealKeepsConsistent | Main.cpp:439-442 | opening every mine keeps the invariant with the same counters |
| Cells.WonIffAllSafeOpen | Main.cpp:365 | with no mine gone off, `num_opened == MINE_COUNT` holds exactly when every safe cell is open |
| Cells.WinTestHoldsAfterLoss | Main.cpp:365 | a consistent lost game (N=2, one mine) in which `num_opened == MINE_COUNT` |
| Engine.ThreeClickLoss | Main.cpp:375-387 | from the generated 2 x 2 board with its mine at (0, 0), the three `openCell` effects on (1, 0), (0, 1) and (0, 0) end consistent with `death == 0` and `num_opened == 1 == MINE_COUNT` |
| Engine.TwoByTwoFresh | Main.cpp:445-476 | the 2 x 2 start board of that trace is a generated board with one mine |
| Engine.SafeClick | Main.cpp:375-401 | on a consistent 2 x 2 board, `openCell` on a closed tile with a non-zero count opens exactly that cell, keeps `death` and lowers `num_opened` by one |
| Flood.OffsetIsNeighbour | Main.cpp:392-399 | each recursive call's offset leads to one of the eight tiles around, never to the tile itself |
| Flood.FloodNoop | Main.cpp:376-379 | off the board or on an open tile the flood opens nothing, and that result meets the flood specification |
| Flood.FloodStart | Main.cpp:381-382 | opening the start tile alone satisfies the partial-flood predicate before any recursive call |
| Flood.NeighbourSafe | Main.cpp:390-399 | under the count invariant, no in-bounds neighbour of a 0-count tile is a mine, so no recursive call detonates |
| Flood.FloodStep | Main.cpp:392-399 | one recursive call that satisfies the flood specification extends the partial flood by one neighbour and never adds closed cells |
| Flood.AllNeighboursIn | Main.cpp:392-399 | the start tile and the eight recursive targets cover the whole 3 x 3 square |
| Flood.FloodFinish | Main.cpp:375-401 | after the eight calls, or at once for a non-zero count, the open cells form an expanding set, which completes the flood specification |
| Flood.AroundInMono | Main.cpp:392-399 | a square covered by a set is covered by every superset |
| Flood.ExpandsAntitone | Main.cpp:390 | an expanding set stays expanding when more cells are open, since open cells never recurse |
| Flood.FloodFromUnique | Main.cpp:375-401 | the flood specification determines the result: two boards that both meet it from the same start are equal |
| Flood.SpreadRow | Main.cpp:390-399 | on a board of closed 0-count cells, an expanding set holding a tile holds its whole row |
| Flood.SpreadColumn | Main.cpp:390-399 | the same, for the tile's whole column |
| Flood.NoMinesAllZero | Main.cpp:445-476 | a generated board with no mines has every cell closed with a count of 0 |
| Flood.EmptyBoardFloods | Main.cpp:375-401 | on a generated board with no mines, opening any tile opens every cell |
| Engine.Board.constructor | Main.cpp:445-476 | a new board is generated by `init`: the invariant holds, with a fresh layout, `death == -1` and `num_opened == N*N` |
| Engine.Board.GameOver | Main.cpp:361 | under the invariant, a lost game has `death` naming an open mine and every mine open |
| Engine.Board.IsDead | Main.cpp:363 | under the invariant, the detonated tile is an open mine |
| Engine.Board.DeadTileUnique | Main.cpp:363 | `isDead` holds for at most one tile on the board |
| Engine.Board.HasWonAsWritten | Main.cpp:365 | the game's own win test agrees with the corrected one while no mine has gone off |
| Engine.Board.HasWon | Main.cpp:365 | the corrected win test excludes `gameOver` |
| Engine.Board.WonIffCleared | Main.cpp:365 | under the invariant, the corrected win test holds exactly when no mine has gone off and every safe cell is open |
| Engine.Board.FinishedGateUnchanged | Main.cpp:527-535 | the dispatch gate `gameOver() \|\| hasWon()` is the same with either win test |
| Engine.Board.SetType | Main.cpp:338 | only the target cell's `type` changes, and it becomes the given value |
| Engine.Board.OpenMines | Main.cpp:367-373 | every mine cell's `open` becomes the argument; nothing else changes |
| Engine.Board.OpenCell | Main.cpp:375-401 | keeps the invariant and ensures `OpenCellEffect`: only `open` bits change, and only from closed to open; the in-bounds target ends open; off the board or on an open tile nothing changes; on a closed mine, `death` becomes its index, every mine opens, nothing else changes and `num_opened` drops by one; otherwise `death` is unchanged, the result is the least expanding set around the target (closure and minimality), mines are untouched, and `num_opened` drops by the number of newly opened cells |
| Engine.EffectUnique | Main.cpp:375-401 | `OpenCellEffect` determines the new state: two states that both meet it from the same old state have equal cells, `death` and `num_opened` |
| Engine.Board.OpenCellTwice | Main.cpp:377-379 | two calls of `openCell` on the same tile meet `OpenCellEffect` from the first state, so by `EffectUnique` they leave exactly the state one call leaves |
| Engine.SafeOpenFloods | Main.cpp:388-400 | when the target is not a closed mine, `openCell`'s effect keeps `death` and is a flood with the matching `num_opened` drop |
| Engine.NeighbourOpened | Main.cpp:392-399 | a recursive call on neighbour number k that meets `OpenCellEffect` keeps `death`, extends the partial flood to k+1 calls and lowers `num_opened` by the number of cells it opened |
| Engine.Board.OpenNeighbour | Main.cpp:392-399 | one recursive call on neighbour number k keeps the invariant and `death`, extends the partial flood, and lowers `num_opened` once per newly opened cell |
| Engine.Board.ToggleFlag | Main.cpp:403 | corrected `toggleFlag`: the board becomes `ToggleAt`, so a tile off the board is a no-op; the invariant and both counters are kept |
| Engine.Board.ToggleFlagAsWritten | Main.cpp:403 | the game's `toggleFlag` without a bounds check: whatever is at the raw index `x + y*N` has its flag flipped, so the index must land in the array |
| Engine.Board.Init | Main.cpp:445-476 | after `init` the invariant holds; exactly MINE_COUNT cells are mines; every non-mine cell holds its `calcMine` value; every cell is closed and unflagged; `death == -1` and `num_opened == N*N` |
| Engine.Board.PlaceMines | Main.cpp:453-464 | each pass of the placement loop adds exactly one mine, so MINE_COUNT cells end up mines; cells stay closed and unflagged |
| Engine.Board.FillCounts | Main.cpp:466-473 | the count loop leaves the mines where they are and makes the count invariant hold |
| Engine.Board.RevealIfFinished | Main.cpp:439-442 | when the game is over or the game's win test holds, every mine opens; otherwise nothing changes; the invariant is kept |
| Engine.Board.Mouse | Main.cpp:517-538 | only a left or right press acts. A left press in the restart region regenerates the board. Once the game is lost or won, every other press changes nothing. While playing, a left press has exactly `openCell`'s effect (`OpenCellEffect`: no-op, detonation or flood, with `death` and `num_opened`). A right press goes to the corrected, bounds-checked toggle: the board becomes `ToggleAt` with the counters kept, so a press off the board changes nothing, where the game's unchecked `toggleFlag` writes at the raw index (see Findings) |

## Left out

- Rendering: all OpenGL/GLUT drawing, `display`, `main`, the GL setup tail of `init` and `key`/`exit`. These are foreign calls with floating-point geometry.
- Logging: every `std::cout` message. The logging line at the end of `mouse` also calls `isFlag` on the raw click tile. Without a bounds check, tile (N, y) with -1 <= y <= N-2 lands on tile (0, y+1), and tile (-1, y) with 1 <= y <= N lands on tile (N-1, y-1); the call reads that cell's flag. Every other off-board tile indexes outside the array, which is undefined behaviour in C++ (see `Grid.OffBoardInArray`). Either way the read does not change the state.
- `rand_int`: its distribution and seeding. A draw is any in-bounds tile that is not yet a mine. Uniformity is not modelled, and neither are the rejected draws, which change nothing.
- The pixel-to-tile conversion at the start of `mouse`: it depends on the window height reported by GLUT. `Mouse` takes tile coordinates.
- Cells.GetType, Cells.IsOpen, Cells.IsFlag: these require in-bounds tiles, but the game never bounds-checks them. Tile (N, y) with -1 <= y <= N-2 lands on tile (0, y+1), and tile (-1, y) with 1 <= y <= N lands on tile (N-1, y-1), and the read returns that cell. Every other off-board tile indexes outside the array, which is undefined behaviour in C++. Every call the engine makes inside the model is in bounds. The one off-board reader, `isFlag` in the logging line of `mouse`, is left out with the logging.
- Engine.Board.RevealIfFinished: the rest of `draw` is rendering and is not modelled.
- Engine.Board.Mouse: a right press uses the corrected, bounds-checked toggle, not the game's unchecked `toggleFlag`, whose off-board writes are the second finding below.
- Engine.Board.OpenMines: the engine only ever calls `openMines` with `true`. The method is general in its argument, but no lemma is about `openMines(false)`.
- The global integer `num_opened` is unbounded here. Its values stay within 0..N*N, so no 32-bit wrap-around can occur.

## Findings

| source | as written | input that shows it | evidently intended | confidence | as-written member | corrected member |
|---|---|---|---|---|---|---|
| Main.cpp:365 | `hasWon` is `num_opened == MINE_COUNT`, and `openCell` also lowers `num_opened` for the detonated mine | N=2, one mine at (0,0). Open (1,0), then (0,1), then the mine. `num_opened` is 1 == MINE_COUNT, so the game counts as both lost and won | a win needs every safe cell open and no mine gone off, so it excludes `gameOver` | not executed | Engine.Board.HasWonAsWritten, Cells.WinTestHoldsAfterLoss, Engine.ThreeClickLoss | Engine.Board.HasWon, Engine.Board.WonIffCleared |
| Main.cpp:403 | `toggleFlag` has no bounds check, yet a right press in `mouse` passes any tile coordinates, including the restart region and the frame | a right press on the restart button, tile (N/2, N+2), writes at index N/2 + (N+2)*N >= N*N, past the array. A press on tile (N, y) with -1 <= y <= N-2 flips the flag of (0, y+1), and one on tile (-1, y) with 1 <= y <= N that of (N-1, y-1); every other off-board tile, (N, N-1) among them, indexes outside the array | a press off the board changes nothing | not executed | Engine.Board.ToggleFlagAsWritten, Grid.RestartIndexPastArray, Grid.RightEdgeWraps, Grid.LeftEdgeWraps, Grid.OffBoardInArray | Engine.Board.ToggleFlag, Engine.Board.Mouse, Cells.ToggleAt, Cells.ToggleInvolution |
