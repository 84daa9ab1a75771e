# Hex engine: a verified model

This project models the engine of a browser Hex game and of its two Python
computer players. The game is played on an N x N rhombus of hexagonal cells.
Red connects column q = 0 to column q = N-1. Blue connects row r = 0 to row
r = N-1. After the opening move the second player may swap: the opening stone
is taken off and the swapping player takes its point reflection.

What is modelled, module by module:

- `Hex`: the shared vocabulary. It holds cells, positions, boards as
  `seq<seq<Cell>>` indexed `[r][q]`, the six neighbour offsets in the order
  every search tries them, and the point reflection.
- `Connectivity`: the win condition and the searches that decide it. `Wins`
  means a chain of the player's stones, each adjacent to the next, runs from
  the start edge to the end edge. The depth-first search of `game.js`
  (`dfs`, `findWinningPath`) marks a `visited` matrix (`array2<bool>`). It is
  proved sound (a success yields a chain) and complete (a failure leaves a
  closed region of explored cells that no chain can leave).
- `Rules`: the game state as a value, with the effect of one `makeMove`,
  one swap, one replayed history record and one loaded record. It also
  holds a whole game played through the board (clicks and swap-button
  presses).
- `Board.HexBoard`: `initBoard`, as nested loops that fill `boardData`.
- `Game.HexGame`: the class whose methods update the fields in place. These
  are `makeMove`, `swapFirstMove`, `addToHistory`, `checkWin`,
  `goToHistoryMove`, `highlightWinningPath` / `findWinningPath`,
  `initGame` and the constructor. Each method's postcondition gives the new
  state as a `Rules` function of the old one.
- `SaveLoad.HexSaveLoad`: the `gameData` record `saveGame` exports, and
  `replayMoves`.
- `Scan`: the `empty_cells` scan that both Python players start with.
- `HardAI`: `check_win` with `dfs_red` / `dfs_blue`, `connectivity_score`,
  `path_potential_score`, the deterministic part of `evaluate_move`, and
  the deterministic branches of `get_move`.
- `MediumAI`: `has_adjacent_same_color`, and `get_move` with its random
  draws passed in as parameters.
- `History`: the move-list line `onMoveAdded` writes and
  `getPositionNotation`, each with a parser that reads the line back.

`game.js` defines `makeMove` twice (lines 108 and 466). In a JavaScript class
the later definition replaces the earlier one, so only the one at line 466,
with its `isReplay` parameter, is modelled. `handleCellClick` calls it with
`isReplay` false.

## Model

| member | source | states |
|---|---|---|
| Hex.Opponent | Frontend/js/game.js:516 | the other colour is never the same colour |
| Hex.Place | Frontend/js/game.js:474 | writing one cell changes that cell and keeps the shape and every other cell |
| Hex.EmptyGrid | Frontend/js/board.js:48-53 | the fresh board is N rows of N cells, all empty |
| Hex.AllEmptyIsEmptyGrid | Frontend/js/board.js:48-53 | any N x N board whose every cell is empty is that fresh board |
| Hex.AdjacentSymmetric | Frontend/js/game.js:285-287 | the six offsets come in opposite pairs, so hex adjacency is symmetric |
| Hex.Reflect | Frontend/js/game.js:185-187 | the swap's target (N-1-q, N-1-r) stays on the board, and reflecting twice gives back the cell |
| Connectivity.StartCell | Frontend/js/game.js:244-263 | the cells checkWin starts from lie on the player's start edge (column 0 for red, row 0 for blue) |
| Connectivity.RegionBlocksEnd | Frontend/js/game.js:272-306 | no chain leads from inside a closed region of the player's stones to the end edge |
| Connectivity.RegionBlocksWin | Frontend/js/game.js:239-267 | a closed region holding every start-edge stone of the player rules out a win |
| Connectivity.MarkedIsClosed | Frontend/js/game.js:272-306 | once every visited cell is explored, the visited cells form a closed region |
| Connectivity.ExploredBlocksWin | Frontend/js/game.js:239-267 | when every start-edge stone has been visited and every visited cell explored, the player has not won |
| Connectivity.WinsFromSomeStart | Frontend/js/game.js:244-263 | every win starts at one of the start-edge cells the loop tries |
| Connectivity.FirstStart | Frontend/js/game.js:536-551 | the first start-edge stone the highlight loop finds holds the winner's colour and is on the start edge |
| Connectivity.Dfs | Frontend/js/game.js:272-306 | the search marks its cell and keeps earlier marks. On success it yields a chain from the cell to the end edge. On failure every cell it marked is explored |
| Connectivity.FindWinningPath | Frontend/js/game.js:568-605 | on success the path grows by a chain of distinct, previously unvisited cells from the cell to the end edge. On failure the pushes and pops cancel and the path is unchanged |
| Rules.Reset | Frontend/js/game.js:41-52 | the state initGame resets to is well shaped: an N x N grid, with no swap on offer |
| Rules.AfterMove | Frontend/js/game.js:474-517 | an accepted move keeps the state well shaped |
| Rules.MoveIfAccepted | Frontend/js/game.js:466-523 | makeMove on the state, accepted or refused, keeps the state well shaped |
| Rules.SwapBoard | Frontend/js/game.js:173-190 | the board part of the swap keeps the state well shaped |
| Rules.AfterSwap | Frontend/js/game.js:168-215 | a completed swap keeps the state well shaped |
| Rules.ReplayStep | Frontend/js/game.js:438-452 | replaying one record adds at most one move. It keeps the opening cell once a move exists, and the first replayed move on an empty cell becomes the opening |
| Rules.ReplayPrefix | Frontend/js/game.js:438-452 | replaying records 0..k-1 keeps the state well shaped and never lowers the move count |
| Rules.ReplayPrefixIgnoresRest | Frontend/js/game.js:438-452 | replaying to index k reads no record after k |
| Rules.MoveKeepsAgreement | Frontend/js/game.js:501-508 | the record addToHistory appends keeps the history in agreement with the fields, whoever won |
| Rules.MarkSwap | Frontend/js/game.js:204-205 | the swap marks history[0] as swapped and records the reflected cell, leaving its cell, its player and the later records as they were |
| Rules.SwapKeepsAgreement | Frontend/js/game.js:204-209 | a completed swap keeps the history in agreement with the fields |
| Rules.LoadStep | Frontend/js/save-load.js:240-254 | one loaded record keeps the state well shaped and never lowers the move count, thrown or not |
| Rules.LoadPrefix | Frontend/js/save-load.js:240-254 | loading records 0..k-1 keeps the state well shaped and never lowers the move count |
| Rules.LoadStopsAtThrow | Frontend/js/save-load.js:240-254 | after the first exception, later records change nothing |
| Rules.LoadWithoutSwapIsReplay | Frontend/js/save-load.js:240-254 | with no swap record and every row on the board, a load is exactly goToHistoryMove's replay |
| Rules.PlayStep | Frontend/js/game.js:82-103 | a click or a swap-button press keeps the state well shaped |
| Rules.PlayFrom | Frontend/js/game.js:82-103 | a sequence of actions keeps the state well shaped |
| Rules.ClickKeepsReplayable | Frontend/js/game.js:501-508 | an accepted click appends the record whose replay repeats it |
| Rules.ClickKeepsMatches | Frontend/js/game.js:501-507 | after an accepted click the history still matches the game: one record per move, numbered from 1, cells on the board, a swap only in record 0 |
| Rules.ClickReplays | Frontend/js/game.js:438-452 | replaying the appended record gives the state the click produced |
| Rules.SwapKeepsReplayable | Frontend/js/game.js:442-447 | after a swap, replaying record 0 swaps again and gives the swapped state |
| Rules.PlayIsReplayable | Frontend/js/game.js:423-461 | for a game of board clicks and swap presses from a reset board, with no move-list navigation in between: the history numbers its records 1, 2, ..., only record 0 can carry a swap, and replaying the whole history from a reset board gives back the game's state |
| Rules.PlayReplayable | Frontend/js/game.js:423-461 | the same, as one replayability invariant for every such game of clicks and swap presses |
| Rules.PlacingKeepsWin | Frontend/js/game.js:511-513 | putting a stone on an empty cell breaks no winning chain |
| Rules.MoveKeepsVerdict | Frontend/js/game.js:511-517 | after makeMove, the game is over exactly when there is a winner, and that winner has a winning chain |
| Rules.ReplayKeepsVerdict | Frontend/js/game.js:438-452 | replaying any history keeps that verdict sound |
| Rules.PlayKeepsTurnOrder | Frontend/js/game.js:511-517 | in a game of clicks and swap presses, turns alternate with the move count while the game runs. The game is over exactly when someone has a winning chain: a finished game's winner has one, and while the game runs neither colour has one. Until the swap is decided the board holds only the opening stone |
| Rules.OtherStoneKeepsNoWin | Frontend/js/game.js:511-517 | a stone of one colour never completes a chain of the other colour, so the player who did not move cannot have won |
| Rules.TurnOrderClick | Frontend/js/game.js:466-523 | a click keeps the turn order, the two-way verdict and the opening board |
| Rules.TurnOrderSwap | Frontend/js/game.js:168-215 | a swap press keeps the turn order, the two-way verdict and the opening board: the swapped stone alone wins nothing, and the swap is never allowed on a 1 x 1 board |
| Rules.SingleCellWins | Frontend/js/game.js:244-263 | on the 1 x 1 board one stone wins at once |
| Rules.EmptyBoardNoWin | Frontend/js/game.js:239-267 | the empty board has no winning chain |
| Rules.OpeningSwapped | Frontend/js/game.js:173-190 | swapping the lone opening stone leaves only its reflection on the board |
| Rules.NoStartStoneNoWin | Frontend/js/game.js:244-266 | without a stone on the start edge, checkWin's verdict is false |
| Rules.QuietClick | Frontend/js/game.js:514-517 | a non-winning accepted click places the stone, counts the move and passes the turn |
| Rules.WinningClick | Frontend/js/game.js:511-513 | a winning click ends the game with the mover as winner, still to move |
| Rules.RedRowChain | Frontend/js/game.js:244-252 | on the 3 x 3 board, red's row (0,0), (1,0), (2,0) is a winning chain |
| Rules.RedRowWins | Frontend/js/game.js:466-523 | the game red (0,0), blue (0,2), red (1,0), blue (1,2), red (2,0) ends with red the winner on move 5 |
| Rules.SwapReflectsOpening | Frontend/js/game.js:168-215 | on 5 x 5, after red opens at (1,1) and blue swaps: (1,1) is empty, blue holds (3,3), the count stays 1, blue is to move, and record 0 names (3,3) |
| Board.HexBoard.constructor | Frontend/js/board.js:6-34 | a new board is the empty grid of its size |
| Board.HexBoard.InitBoard | Frontend/js/board.js:39-53 | boardData becomes size rows of size entries, every one empty, whatever it held before |
| Game.HexGame.StateChangeEvent | Frontend/js/game.js:409-417 | the object passed to onGameStateChange carries the current player, gameOver, winner, moveCount and swapAvailable |
| Game.HexGame.constructor | Frontend/js/game.js:6-36 | a new game is in initGame's state with an empty history and cursor -1 |
| Game.HexGame.InitGame | Frontend/js/game.js:41-62 | the fields become Rules.Reset of the old ones, and the history empties |
| Game.HexGame.MakeMove | Frontend/js/game.js:466-523 | accepted exactly when the guards pass. The new state is Rules.MoveIfAccepted of the old one. A non-replayed accepted move truncates the history after the cursor and appends its record. Agreement with the history is kept |
| Game.HexGame.PlaceStone | Frontend/js/game.js:474-508 | the stone goes on the board, the count rises, the swap is offered after move 1 only, and the record goes to the history unless replaying |
| Game.HexGame.SwapFirstMove | Frontend/js/game.js:168-215 | refused exactly when the guard fails. Throws after changing the board exactly when the history is empty. Otherwise the state is Rules.AfterSwap and history[0] is marked |
| Game.HexGame.SwapFirstMoveChecked | Frontend/js/game.js:168-215 | the corrected swap: done exactly when the guard passes, always to Rules.AfterSwap, marking history[0] when there is one |
| Game.HexGame.AddToHistory | Frontend/js/game.js:220-234 | the history becomes the entries up to the cursor, then the move, and the cursor points at it |
| Game.HexGame.CheckWin | Frontend/js/game.js:239-267 | with one visited matrix shared by all searches, the result is exactly Wins |
| Game.HexGame.GoToHistoryMove | Frontend/js/game.js:423-461 | refused exactly outside the history. Otherwise the state is the replay of records 0..index from a reset board, the cursor is index, and the history is kept |
| Game.HexGame.ResetForReplay | Frontend/js/game.js:427-435 | the reset before the replay: Rules.Reset of the old fields, history kept |
| Game.HexGame.ReplayUpTo | Frontend/js/game.js:438-452 | the loop ends in Rules.ReplayPrefix of records 0..index, with the first record's cell as the opening |
| Game.HexGame.ReplayRecord | Frontend/js/game.js:439-451 | one loop iteration is Rules.ReplayStep |
| Game.HexGame.HighlightWinningPath | Frontend/js/game.js:528-553 | as written: a path is highlighted exactly when the game has a winner and the winner's FIRST start-edge stone reaches the end edge. Any path it gives is a distinct winning chain |
| Game.HexGame.HighlightWinningPathAnyStart | Frontend/js/game.js:528-553 | corrected: a path is highlighted exactly when the game has a winner with a winning chain, and the path is such a chain |
| Game.HighlightMissesWin | Frontend/js/game.js:536-543 | on the 3 x 3 board [[R,B,_],[B,B,_],[R,R,R]] red has won, but red's first start-edge stone (0,0) reaches nothing |
| SaveLoad.HexSaveLoad.constructor | Frontend/js/save-load.js:6-15 | the save/load object holds its game |
| SaveLoad.HexSaveLoad.SaveGame | Frontend/js/save-load.js:39-69 | nothing is saved exactly when the history is empty. Otherwise the record carries the whole history, the board size, the first player, the move count and the winner |
| SaveLoad.HexSaveLoad.ReplayMoves | Frontend/js/save-load.js:233-255 | as written: a missing or empty list changes nothing. Otherwise the game ends in Rules.LoadPrefix of the list from a reset board, throwing exactly when that load throws, with an empty history. A non-empty list leaves the game consistent with its (empty) history, so it can be navigated and played on; an empty list keeps that consistency if it held |
| SaveLoad.HexSaveLoad.LoadRecord | Frontend/js/save-load.js:241-253 | one loop iteration is Rules.LoadStep |
| SaveLoad.HexSaveLoad.ReplayMovesChecked | Frontend/js/save-load.js:233-255 | corrected: throws exactly when a row is off the board. Otherwise the game ends in goToHistoryMove's replay of the whole list. Either way the game is left consistent with its history, as for ReplayMoves |
| Rules.OneStoneNoWin | Frontend/js/save-load.js:246 | one stone wins nothing on a board at least 2 wide, so the replayed opening leaves the swap on offer |
| SaveLoad.SwapRecordBreaksLoad | Frontend/js/save-load.js:244-249 | a list whose record 0 carries a swap always throws on load, leaving the swap on offer |
| SaveLoad.SavedSwapGameFailsToLoad | Frontend/js/save-load.js:244-249 | a game played with the swap saves a list that throws on load and does not give back the saved state |
| SaveLoad.SwappedOpeningFailsToLoad | Frontend/js/save-load.js:244-249 | such a game exists: 5 x 5, red (1,1), blue swaps |
| SaveLoad.SavedGameReloads | Frontend/js/save-load.js:233-255 | a game played without the swap reloads to the state it was saved in |
| SaveLoad.LaterSwapFlagsIgnored | Frontend/js/save-load.js:244-253 | a swap flag on any record but the first is ignored: that record loads as a plain replayed move |
| SaveLoad.OccupiedRecordSkipped | Frontend/js/save-load.js:250-253 | a record whose cell is taken is refused by makeMove, changes nothing, and the load goes on |
| Scan.EmptyCells | Backend/ai/hard_ai.py:29-33 | a cell is listed exactly when it is on the board and empty |
| Scan.CollectEmptyCells | Backend/ai/hard_ai.py:29-33 | the nested loops build exactly that list, in row-then-column order |
| Scan.ScanRow | Backend/ai/hard_ai.py:31-33 | the inner loop appends row r's empty cells in column order |
| Scan.SplitCells | Backend/ai/hard_ai.py:32-33 | every scanned cell is either listed as empty or not, according to its entry |
| Scan.AllEmptyCount | Backend/ai/hard_ai.py:40 | the scan finds N*N empty cells exactly when every cell is empty |
| Scan.TwoStonesCount | Backend/ai/hard_ai.py:45 | two occupied cells leave at most N*N-2 empty ones |
| Scan.OneStoneCount | Backend/ai/hard_ai.py:45 | a board with a single stone has N*N-1 empty cells |
| Scan.OneStoneLeft | Backend/ai/hard_ai.py:45 | N*N-1 empty cells and one occupied cell mean that cell holds the only stone |
| HardAI.ExploredBlocksStart | Backend/ai/hard_ai.py:224-226 | a failed search from a start cell proves that cell reaches no end-edge cell |
| HardAI.NoStartReaches | Backend/ai/hard_ai.py:219-236 | when no start-edge stone reaches the end edge, the player has not won |
| HardAI.CheckWin | Backend/ai/hard_ai.py:214-236 | with a fresh visited matrix per start cell, the result is exactly Wins |
| HardAI.CheckWinsAgree | Backend/ai/hard_ai.py:214-298 | the browser's shared-matrix checkWin and the Python fresh-matrix check_win return the same verdict on every board, and it is Wins |
| HardAI.NeighbourCountPositive | Backend/ai/hard_ai.py:163-172 | the neighbour count is positive exactly when some counted neighbour holds the player's stone |
| HardAI.ConnectivityScore | Backend/ai/hard_ai.py:154-174 | the score is the count of own-colour neighbours over 6, lies in [0, 1], and is positive exactly when the cell touches an own stone |
| HardAI.PathPotentialScore | Backend/ai/hard_ai.py:176-212 | 1.0 when both goal edges hold an own stone, 0.5 when one does, 0.0 otherwise |
| HardAI.WinMaximisesPotential | Backend/ai/hard_ai.py:176-212 | a winning player touches both goal edges, so the potential is 1.0 |
| HardAI.EvaluateHeuristic | Backend/ai/hard_ai.py:87-103 | the connectivity and path terms are scored on the board with the candidate stone placed. The sum is in [0, 5] and at least 3 when that stone wins |
| HardAI.FindFirstStone | Backend/ai/hard_ai.py:47-54 | the first stone of the colour in row-then-column order, or none on the whole board |
| HardAI.ReflectOffCentre | Backend/ai/hard_ai.py:59-64 | off the centre cell the reflection is a different cell |
| HardAI.GetMove | Backend/ai/hard_ai.py:28-85 | None exactly when no cell is empty, and otherwise an empty cell. The centre on an empty board. For blue facing a single red stone off the centre, its reflection. From two stones on, the chosen empty cell |
| MediumAI.HasAdjacentSameColor | Backend/ai/medium_ai.py:73-92 | true exactly when an in-bounds neighbour holds the player's stone |
| MediumAI.EdgeFilterMembers | Backend/ai/medium_ai.py:60-63 | the filter keeps exactly the listed cells with q or r equal to 0 or N-1 |
| MediumAI.EdgeCellsAreEmptyBorderCells | Backend/ai/medium_ai.py:60-63 | edge_cells holds exactly the empty border cells |
| MediumAI.CollectEdgeCells | Backend/ai/medium_ai.py:60-63 | the loop builds that filter in order |
| MediumAI.FirstTouching | Backend/ai/medium_ai.py:43-45 | the first listed cell next to an own stone is listed and touches one |
| MediumAI.TouchPass | Backend/ai/medium_ai.py:43-57 | a pass picks only listed cells and picks nothing if every roll is at or above its threshold. Starting from the first roll, it picks the first touching cell when that roll is below the threshold |
| MediumAI.GetMove | Backend/ai/medium_ai.py:26-71 | None exactly when no cell is empty, and otherwise an empty cell. The centre on an empty board. The first cell next to an own stone when the first roll is below 0.7. The pickAny-th empty cell when every roll is at or above 0.7 |
| History.NumberRoundTrip | Frontend/js/history.js:44 | the decimal text of a move number reads back as that number |
| History.PositionNotation | Frontend/js/history.js:71-75 | the notation is the letter with code 97+q followed by the decimal text of r+1 |
| History.NotationRoundTrip | Frontend/js/history.js:71-75 | the notation reads back as (q, r) |
| History.MoveText | Frontend/js/history.js:39-49 | no line exactly when a swapped record lacks newPosition (the property access throws) |
| History.MoveTextTokens | Frontend/js/history.js:44-48 | a line is its fields joined by single spaces |
| History.NormalLineRoundTrip | Frontend/js/history.js:47-48 | a normal line reads back as its number, colour and cell |
| History.SwapLineRoundTrip | Frontend/js/history.js:42-44 | a swapped line reads back as its number, colour, cell and new cell |
| History.MoveTextRoundTrip | Frontend/js/history.js:39-49 | every written line reads back as the record it shows, so the line loses no field it displays |

## Left out

- DOM and SVG work is left out: cell polygons, classes, borders, labels, status text, buttons, scrolling. Only the board data and fields are modelled.
- `addBoardEventListeners`, `handleCellClick`'s event plumbing and the `setTimeout` that schedules the computer's move are left out. `Rules.PlayStep` models a click's effect.
- `makeAIMove`, `getRandomMove` and `getMediumAIMove` (game.js:311-376) are not part of this model: they are browser-side glue and timers.
- The earlier `makeMove` at game.js:108 is not modelled, because the later definition replaces it.
- Rules.PlayIsReplayable, Rules.PlayReplayable and Rules.PlayKeepsTurnOrder cover games of board clicks and swap presses only. Clicking the move list (goToHistoryMove, history.js:54-55) in the middle of a game is not an action of that model: after a jump back the later records stay in the history, so replaying the whole history no longer gives the current state, and a swap pressed after a jump to move 1 marks record 0 while keeping records played without the swap.
- HardAI.ConnectivityScore, HardAI.PathPotentialScore and HardAI.EvaluateHeuristic compute with exact Dafny reals where the source uses Python floats. `count / 6.0` and the weighted sum are rounded there; no bound or sign stated here depends on the rounding.
- Game.HexGame.MakeMove requires the row to be on the board. In the source a row off the board makes `boardData[r]` undefined and the access throws. The load path models that throw (`Rules.LoadStep`).
- HardAI.GetMove: the Monte Carlo evaluation (random playouts) and `position_score` are not modelled. The argmax over the scored cells is the parameter `choice`. With exactly N*N-1 empty cells, outside the reflection case, the contract states only that the move is an empty cell.
- HardAI.EvaluateHeuristic: leaves out `position_score` and the Monte Carlo term (`random.shuffle`, floating-point win ratio). The board copy is implicit, because boards are values.
- MediumAI.GetMove: `random.random()` is the parameter `roll` (the k-th call is `roll(k)`), and the two `random.choice` calls are the indices `pickEdge` and `pickAny`. The block pass and the edge branch are stated only through "an empty cell".
- History.PositionNotation requires `0 <= q` and `97 + q` below the surrogate range. `String.fromCharCode` outside that range (negative columns, surrogates, wrap at 65536) is not modelled.
- History's DOM side of `onMoveAdded` (element creation, click handler, highlight) and `goToMove`, `updateCurrentMoveHighlight` and `clearHistory` are left out. Only the line text is modelled.
- File download and upload, `JSON.stringify`/`JSON.parse`, `loadGameSettings` and `loadBoardStyle` are left out. A loaded file is already a move list of records here, and the game options are constants of `HexGame`.
- `easy_ai.py`, `server.py`, `main.js` and `style.js` are not part of this model.
- `boardOptions` (colours, cell size, orientation) in the saved record are left out.

## Findings

| source | as written | input that shows it | evidently intended | confidence | as-written member | corrected member |
|---|---|---|---|---|---|---|
| Frontend/js/save-load.js:244-249 | `replayMoves` replays record 0 with `isReplay` true, so nothing enters the history (`initGame` emptied it). The following `swapFirstMove` then writes `this.history[0].swapUsed` (game.js:204) on an empty history and throws a TypeError after it has already changed the board. `loadGame` catches it and the rest of the list is never replayed | 5 x 5 board, red opens at (1,1), blue swaps, the game is saved and loaded | a saved game that used the swap loads back to the swapped position and goes on with the later moves | not executed | SaveLoad.HexSaveLoad.ReplayMoves, SaveLoad.SavedSwapGameFailsToLoad, SaveLoad.SwappedOpeningFailsToLoad | Game.HexGame.SwapFirstMoveChecked, SaveLoad.HexSaveLoad.ReplayMovesChecked, Rules.PlayIsReplayable |
| Frontend/js/game.js:538-550 | `highlightWinningPath` runs one `findWinningPath` from the first start-edge stone of the winner and then breaks whatever it found, so a win from a later start stone highlights nothing | 3 x 3 board, rows [R,B,_], [B,B,_], [R,R,R]: red wins along row 2, but red's first column-0 stone (0,0) is shut in by blue | the winning chain is highlighted whenever the game has a winner | not executed | Game.HexGame.HighlightWinningPath, Game.HighlightMissesWin | Game.HexGame.HighlightWinningPathAnyStart |
