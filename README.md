# TiliToli sliding puzzle — a verified Dafny model

TiliToli is a browser sliding-tile puzzle: the generalised 15-puzzle on an
N×N grid. Its engine is the `TiliToli` class in `script.js`. The board is a
flat, row-major array of N² integers. 0 is the blank, and tile `v` belongs at
index `v-1`.

A new game does these steps:

- builds the solved board `[1, 2, …, N²-1, 0]`;
- scrambles it with `150·N` random legal moves of the blank, so the result is
  solvable by construction;
- resets the move and time counters and starts the clock.

Clicking a tile next to the blank slides it into the blank and counts the
move. After every move the win check scans the board. When every cell but the
last holds its own tile, play stops and the clock stops.

The model has four modules:

- `Geometry` (`geometry.dfy`) covers row and column, `isAdjacent`,
  `getAdjacentIndices`, and the picture-mode home cell and background offset.
  It is pure functions and lemmas.
- `Board` (`board.dfy`) treats the board as a value. It defines:
  - the solved board;
  - `IsBoard`, meaning a permutation of 0..N²-1;
  - `indexOf` and the swap;
  - `IsWon`, the win test;
  - `ApplyMove`/`ApplyMoves`, which give the meaning of legal moves.
- `Shuffle` (`shuffle.dfy`) covers the scramble. One step is `ShuffleStep` and
  a whole run is `ShuffleRun`. `Math.random` becomes a sequence of draws in
  [0, 1), one per step, passed in by the caller, so every property holds for
  any draws.
- `Game` (`game.dfy`) is the `TiliToli` class. Its fields `boardSize`, `tiles`,
  `moves`, `timer`, `timerRunning` and `isPlaying` are updated in place by its
  methods.
  - The loops of `generateBoard`, `shuffleBoard` and `checkWin` are `while`
    loops with invariants.
  - A ghost field `history` records every move made since the board was
    generated.
  - The object invariant `Valid()` requires two things of the board: it is a
    permutation, and replaying `history` from the solved board gives it. This
    is how the claim "the scramble keeps the board solvable" (script.js:123)
    is stated and kept through scrambling and play.

## Model

| member | source | states |
|---|---|---|
| Geometry.CellBounds | script.js:151-152 | for an on-board index, `row = index div N` and `col = index mod N` lie in [0, N) and `index == row·N + col` |
| Geometry.CellOf | script.js:151-152 | the index of (row, col) maps back to the same row and column |
| Geometry.AdjacentIndices | script.js:149-160 | on a board of side ≥ 2, every cell has at least two listed neighbours |
| Geometry.NeighbourUp | script.js:154 | a cell not in the top row has its `index - N` neighbour on the board, at distance 1 |
| Geometry.NeighbourDown | script.js:155 | a cell not in the bottom row has its `index + N` neighbour on the board, at distance 1 |
| Geometry.NeighbourLeft | script.js:156 | a cell not in the first column has its `index - 1` neighbour on the board, at distance 1 |
| Geometry.NeighbourRight | script.js:157 | a cell not in the last column has its `index + 1` neighbour on the board, at distance 1 |
| Geometry.IsAdjacent | script.js:176-183 | definition: the two cells' rows and columns differ by 1 in total (Manhattan distance 1); its partners are `AdjacentIffListed` and `AdjacentDirections` |
| Geometry.CellsAdjacent | script.js:176-183 | two on-board cells whose (row, col) pairs are at Manhattan distance 1 are adjacent |
| Geometry.AdjacentIndicesSound | script.js:149-160 | every listed index is on the board and satisfies `isAdjacent` with the cell |
| Geometry.AdjacentDirections | script.js:176-183 | an on-board cell adjacent to `i` is exactly one of up, down, left or right of `i`, and that side exists |
| Geometry.AdjacentIndicesComplete | script.js:149-160 | every on-board cell adjacent to `index` is listed |
| Geometry.AdjacentIffListed | script.js:176-183 | for on-board cells, `isAdjacent(i, j)` holds exactly when `j` is in `getAdjacentIndices(i)` (both directions) |
| Geometry.ListedSymmetric | script.js:149-160 | if `j` is listed for `i`, then `i` is listed for `j` |
| Geometry.AdjacentIndicesDistinct | script.js:149-160 | no index is listed twice |
| Geometry.AdjacentIndicesCount | script.js:149-160 | the list has 2 entries in a corner, 3 on an edge, 4 inside, and none when N = 1 |
| Geometry.HomeCell | script.js:235-236 | the home (row, col) of tile `v` is in [0, N)×[0, N), and `row·N + col == v-1` |
| Geometry.BackgroundPercent | script.js:238-239 | both offsets lie in [0, 100]; an offset is 0 exactly in the first row or column, and 100 exactly in the last |
| Geometry.PercentBounds | script.js:238-239 | `k·(100/(N-1))` lies in [0, 100]; it is 0 iff k = 0 and 100 iff k = N-1 |
| Board.SolvedShape | script.js:108-115 | the solved board has length N², `tiles[i] == i+1` for i < N²-1 and `tiles[N²-1] == 0`; it is a permutation and passes the win test |
| Board.Solved | script.js:108-115 | definition: the values 1 .. N²-1 in order, then the blank 0; its properties are stated by `SolvedShape` |
| Board.SolvedThree | script.js:108-115 | the solved 3×3 board is `[1, 2, 3, 4, 5, 6, 7, 8, 0]` |
| Board.IndexOf | script.js:165 | the result is -1 exactly when the value is absent; otherwise it is the first position holding the value |
| Board.Blank | script.js:165 | definition: the blank's cell is `indexOf(0)`; `BlankFound` and `BlankUnique` state that it finds the one blank |
| Board.BlankFound | script.js:133 | on a board, `indexOf(0)` finds a cell holding 0 |
| Board.BlankUnique | script.js:165 | a board has exactly one blank, at `indexOf(0)` |
| Board.Swap | script.js:168 | the two cells are exchanged, every other cell is unchanged, and the multiset of values is kept |
| Board.ApplyMove | script.js:165-168 | definition: the move is made when the blank is found, the index is on the board and `isAdjacent(index, emptyIndex)` holds, and is then the swap of the two cells; otherwise it is refused (None). `MoveEffect` and `MoveUndo` state its effect |
| Board.BlankClickRefused | script.js:166 | clicking the blank itself is not a move |
| Board.MoveEffect | script.js:166-168 | a legal move keeps a board a permutation and puts the blank at the clicked index; the moved tile lands in the blank's old cell and every other cell is unchanged |
| Board.MoveUndo | script.js:166-168 | clicking the blank's old cell right after a move restores the board |
| Board.MovesKeepBoard | script.js:166-168 | any sequence of legal moves keeps the board a permutation of 0..N²-1 |
| Board.MovesSnoc | script.js:166-168 | applying a path and then one more move is applying the extended path |
| Board.MovesAppend | script.js:166-168 | applying path p and then path q is applying p + q |
| Board.IsWon | script.js:185-188 | definition: every cell but the last holds its own tile (`tiles[i] == i + 1`); `WonIffSolved` relates it to the solved board |
| Board.WonIffSolved | script.js:185-192 | on a permutation, the win test (which never looks at the last cell) holds exactly when the board is the solved board |
| Shuffle.Pick | script.js:140-141 | `floor(r·len)` with r in [0, 1) is a valid position in a non-empty list |
| Shuffle.Without | script.js:137 | the filtered list is no longer than the list it filters |
| Shuffle.WithoutMembers | script.js:137 | the filter keeps exactly the entries different from `previousIndex` |
| Shuffle.ScrambleMove | script.js:134-141 | the cell chosen for the blank is on the board |
| Shuffle.ScrambleMoveLegal | script.js:136-141 | the chosen cell is a listed neighbour of the blank; it differs from `previousIndex` unless every neighbour equals `previousIndex` |
| Shuffle.ShuffleStep | script.js:133-145 | one scramble step keeps the board a permutation |
| Shuffle.ShuffleStepLegal | script.js:132-146 | a scramble step is a legal move of a neighbour of the blank, chosen away from `previousIndex` when possible; the next `previousIndex` is the blank's old cell |
| Shuffle.ShuffleRun | script.js:130-146 | after k draws the board is a permutation and exactly k moves have been recorded |
| Shuffle.ShuffleRunReaches | script.js:132-146 | the recorded moves, replayed as legal moves from the starting board, give the scrambled board |
| Shuffle.RunContinues | script.js:132-146 | a scramble extends any legal path that led to its starting board |
| Shuffle.RunExtend | script.js:132 | one more draw runs one more step on the walk so far |
| Shuffle.NoImmediateBacktrack | script.js:136-141 | for N ≥ 2 the filtered list is never empty, so the fallback is never used and the blank never steps straight back |
| Shuffle.ScrambleReachable | script.js:123-125 | a scramble of the solved board is reachable from the solved board by exactly as many legal moves as draws |
| Game.ClockParts | script.js:103-104 | minutes ≥ 0, 0 ≤ seconds < 60, and `minutes·60 + seconds == timer` |
| Game.TiliToli.constructor | script.js:2-8 | a new object plays a scrambled 4×4 game with zero moves and zero time, playing, with the clock running |
| Game.TiliToli.StartNewGame | script.js:69-77 | the invariant holds; moves and timer are 0; playing with the clock running; the board is the scramble of the solved board; the history has exactly `150·N` legal moves |
| Game.TiliToli.SelectSize | script.js:34-39 | the board size becomes the chosen size and a new game of that size starts |
| Game.TiliToli.ResetStats | script.js:79-83 | moves and timer are 0 |
| Game.TiliToli.StopTimer | script.js:85-90 | the held interval is cleared and no handle is held afterwards |
| Game.TiliToli.StartTimer | script.js:92-98 | a handle is held afterwards, and the new handle overwrites none still held (`lost == 0`), so no earlier interval is left ticking out of reach; this needs the stop at line 93 |
| Game.TiliToli.Tick | script.js:94-96 | a tick adds one second and keeps the invariant |
| Game.TiliToli.GenerateBoard | script.js:108-115 | the push loop builds the solved board; the history is empty and the invariant's board part holds |
| Game.TiliToli.ShuffleBoard | script.js:122-147 | the new board is the `ShuffleRun` of the old board with these draws; the history is extended by the scramble's moves; the invariant is kept |
| Game.TiliToli.HandleTileClick | script.js:162-174 | when not playing, or when the index is not adjacent to the blank, nothing changes; otherwise the board becomes `ApplyMove` of the old board and the move is recorded, `moves` grows by exactly 1 and play and clock stop exactly when the new board is won |
| Game.TiliToli.SlideIntoBlank | script.js:166-169 | the clicked tile and the blank swap as a legal move, the move is recorded, `moves` grows by 1 and the invariant is kept |
| Game.TiliToli.CheckWin | script.js:185-192 | play and clock stop exactly when every cell but the last holds its own tile; otherwise they are unchanged |
| Game.TiliToli.GameWon | script.js:194-196 | play stops and the held interval is cleared |

## Left out

- DOM and rendering are not modelled: element lookups, event wiring, `renderBoard`, CSS strings, the grid template in `generateBoard`, and the win modal with `closeModal`. They only display state. `closeModal` hides the modal and calls `startNewGame`, which is modelled.
- Image upload and `currentImage` are left out. They are browser file I/O, and the image never influences the engine.
- Timer scheduling is left out. Whether `timerInterval` holds a handle becomes the boolean `timerRunning`. An interval whose handle `startTimer` would overwrite is counted by `StartTimer`'s `lost` result, not in a field for every interval the browser holds. One delivery of the interval is the method `Tick`, which may only run while an interval is registered. The 300 ms `setTimeout` for the modal is dropped.
- `updateStatsUI` is not modelled as string formatting. `padStart` and `textContent` are left out; only the integer minutes/seconds split (`ClockParts`) is kept.
- `Math.random` is not modelled. Each draw is a caller-supplied real in [0, 1), so the contracts hold for any draws. Nothing is said about distribution or randomness quality.
- Floating point is not modelled. `Math.floor(Math.random() * len)` and the picture-mode percentages are computed on exact reals, not IEEE doubles.
- Board side 1 is excluded (`boardSize >= 2` is part of `Valid`). On a 1×1 board the shuffle's fallback would index an empty list, and the background offset would divide by zero. The size buttons only offer larger boards.
- Game.TiliToli.HandleTileClick: `handleTileClick` returns nothing, so the result is given by the new state (board, `moves`, `isPlaying`).
- Game.TiliToli.HandleTileClick: the exact cells changed by a move are stated through `ApplyMove` and `Board.MoveEffect` rather than repeated in the method's own contract.
- Game.TiliToli.ShuffleBoard: the swaps are made on a local copy of the board, stored back into `tiles` when the loop ends. `script.js` swaps `this.tiles` in place, and no code reads the board in between, so the observable result is the same.
- Game.TiliToli.HandleTileClick: the swap branch (lines 167-169) is the separate method `SlideIntoBlank`. Within it the `moves` counter is incremented before the win check, exactly as in the source.
- On the solved 3×3 board, after the first click on index 7, index 7 holds the blank, so a second click there is refused (`Board.BlankClickRefused`). Tile 8 moves back with a click on index 8 (`Board.MoveUndo`).
