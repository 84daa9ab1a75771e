/**
 * HexGame (game.js): the game engine over a HexBoard. Each method updates the
 * fields in place as the source does, and its postcondition ties the new
 * state to the rule functions of module Rules applied to the old state.
 */
module Game {
  import opened Hex
  import opened Connectivity
  import opened Board
  import opened Rules

  datatype GameMode = HumanHuman | HumanAI
  datatype Difficulty = Easy | Medium | Hard

  /** The outcome of swapFirstMove: refused (false), done (true), or the exception thrown on an empty history. */
  datatype SwapResult = SwapRefused | SwapDone | HistoryMissing

  /** The object updateGameState hands to onGameStateChange. */
  datatype StateChange = StateChange(currentPlayer: Player, gameOver: bool, winner: Option<Player>, moveCount: int, swapAvailable: bool)

  class HexGame {
    const board: HexBoard
    /** options: fixed for the lifetime of the game in this model. */
    const firstPlayer: Player
    const gameMode: GameMode
    const aiDifficulty: Difficulty

    var currentPlayer: Player
    var gameOver: bool
    var winner: Option<Player>
    var moveCount: int
    var swapRule: bool
    var swapAvailable: bool
    var firstMovePosition: Option<Pos>
    var history: seq<MoveRecord>
    var currentHistoryIndex: int

    /** boardData and the scalar fields as one value. */
    function Snapshot(): GameState
      reads this, board
    {
      GameState(board.boardData, currentPlayer, gameOver, winner, moveCount, swapRule, swapAvailable, firstMovePosition)
    }

    /** The object passed to onGameStateChange by updateGameState. */
    function StateChangeEvent(): (e: StateChange)
      reads this
      ensures e.gameOver == gameOver && e.winner == winner && e.moveCount == moveCount
      ensures e.currentPlayer == currentPlayer && e.swapAvailable == swapAvailable
    {
      StateChange(currentPlayer, gameOver, winner, moveCount, swapAvailable)
    }

    /** Shapes: the grid is size x size, recorded cells are on the board, the cursor is inside the history or -1. */
    ghost predicate WellFormed()
      reads this, board
    {
      Shaped(Snapshot(), board.size) && HistoryShaped(history, currentHistoryIndex, board.size)
    }

    /** The fields agree with the history (Rules.Agrees). */
    ghost predicate Consistent()
      reads this, board
    {
      Agrees(Snapshot(), history, currentHistoryIndex, board.size)
    }

    ghost predicate Valid()
      reads this, board
    {
      WellFormed() && Consistent()
    }

    /** new HexGame(board, options): the fields start as initGame leaves them. */
    constructor (board: HexBoard, firstPlayer: Player, gameMode: GameMode, aiDifficulty: Difficulty)
      modifies board
      ensures this.board == board && this.firstPlayer == firstPlayer
      ensures this.gameMode == gameMode && this.aiDifficulty == aiDifficulty
      ensures Valid()
      ensures Snapshot() == GameState(EmptyGrid(board.size), firstPlayer, false, None, 0, false, false, None)
      ensures history == [] && currentHistoryIndex == -1
    {
      this.board := board;
      this.firstPlayer := firstPlayer;
      this.gameMode := gameMode;
      this.aiDifficulty := aiDifficulty;
      currentPlayer := firstPlayer;
      gameOver := false;
      winner := None;
      moveCount := 0;
      swapRule := false;
      swapAvailable := false;
      firstMovePosition := None;
      history := [];
      currentHistoryIndex := -1;
      new;
      InitGame();
    }

    /** initGame: the reset state, an empty history, and a fresh empty board. */
    method InitGame()
      modifies this, board
      ensures Valid()
      ensures Snapshot() == Reset(old(Snapshot()), board.size, firstPlayer)
      ensures history == [] && currentHistoryIndex == -1
    {
      currentPlayer := firstPlayer;
      gameOver := false;
      winner := None;
      moveCount := 0;
      swapRule := false;
      swapAvailable := false;
      history := [];
      currentHistoryIndex := -1;
      board.InitBoard();
    }

    /**
     * makeMove(q, r, isReplay), the definition at game.js:466 that overrides the
     * earlier one. The row index is not checked by the source: boardData[r]
     * for a row off the board is undefined and the access throws, so the row is
     * required here. A column off the board reads undefined, which is not null,
     * and the move is refused.
     */
    method MakeMove(q: int, r: int, isReplay: bool) returns (ok: bool)
      requires WellFormed() && 0 <= r < board.size
      modifies this, board
      ensures WellFormed()
      ensures ok == Accepted(old(Snapshot()), board.size, Pos(q, r), isReplay)
      ensures Snapshot() == MoveIfAccepted(old(Snapshot()), board.size, Pos(q, r), isReplay)
      ensures ok && !isReplay ==>
                history == old(history[..currentHistoryIndex + 1]) + [Record(old(Snapshot()), Pos(q, r))]
                && currentHistoryIndex == |history| - 1
      ensures !(ok && !isReplay) ==> history == old(history) && currentHistoryIndex == old(currentHistoryIndex)
      ensures !isReplay && old(Consistent()) ==> Consistent()
    {
      ghost var s := Snapshot();
      ghost var p := Pos(q, r);
      if gameOver && !isReplay {
        return false;
      }
      if q < 0 || q >= board.size || board.boardData[r][q] != Empty {
        return false;
      }
      PlaceStone(q, r, isReplay);
      var won := CheckWin(currentPlayer);
      if won {
        gameOver := true;
        winner := Some(currentPlayer);
      } else {
        currentPlayer := Opponent(currentPlayer);
      }
      if !isReplay {
        MoveKeepsAgreement(s, old(history), old(currentHistoryIndex), board.size, p, Place(s.grid, p, Stone(s.currentPlayer)), won);
      }
      ok := true;
    }

    /**
     * The part of makeMove between its guards and the win check: the mover's
     * stone goes on the board, the move is counted, the swap is offered after
     * the first move only (which records its cell), and a move that is not a
     * replay is added to the history. The turn is not decided yet.
     */
    method PlaceStone(q: int, r: int, isReplay: bool)
      requires WellFormed() && 0 <= r < board.size && 0 <= q < board.size
      modifies this, board
      ensures Snapshot() == MoveEffect(old(Snapshot()), Pos(q, r), Place(old(board.boardData), Pos(q, r), Stone(old(currentPlayer))), false)
                              .(currentPlayer := old(currentPlayer))
      ensures board.Valid()
      ensures !isReplay ==>
                history == old(history[..currentHistoryIndex + 1]) + [Record(old(Snapshot()), Pos(q, r))]
                && currentHistoryIndex == |history| - 1
      ensures isReplay ==> history == old(history) && currentHistoryIndex == old(currentHistoryIndex)
    {
      board.boardData := Place(board.boardData, Pos(q, r), Stone(currentPlayer));
      moveCount := moveCount + 1;
      if moveCount == 1 {
        swapAvailable := true;
        firstMovePosition := Some(Pos(q, r));
      } else {
        swapAvailable := false;
      }
      if !isReplay {
        AddToHistory(MoveRecord(currentPlayer, Pos(q, r), moveCount, false, None));
      }
    }

    /**
     * swapFirstMove: refused unless the swap is offered, exactly one move has
     * been made and the game is running. Otherwise the opening stone is taken
     * off, the player to move gets its point reflection, history[0] is marked
     * and the offer withdrawn; the turn and the move count stay as they are.
     * With an empty history the board has already changed when the write to
     * history[0] throws.
     */
    method SwapFirstMove() returns (result: SwapResult)
      requires WellFormed()
      modifies this, board
      ensures WellFormed()
      ensures old(Consistent()) ==> Consistent()
      ensures result == SwapRefused <==> !SwapAllowed(old(Snapshot()))
      ensures result == SwapRefused ==> Snapshot() == old(Snapshot()) && history == old(history)
      ensures result == HistoryMissing <==> SwapAllowed(old(Snapshot())) && old(history) == []
      ensures result == HistoryMissing ==> Snapshot() == SwapBoard(old(Snapshot()), board.size) && history == []
      ensures result == SwapDone ==>
                && |old(history)| > 0
                && Snapshot() == AfterSwap(old(Snapshot()), board.size)
                && history == MarkSwap(old(history), old(Snapshot()), board.size)
      ensures currentHistoryIndex == old(currentHistoryIndex)
    {
      if !swapAvailable || moveCount != 1 || gameOver {
        return SwapRefused;
      }
      var p := firstMovePosition.value;
      board.boardData := Place(board.boardData, p, Empty);
      var size := board.size;
      var reflected := Pos(size - 1 - p.q, size - 1 - p.r);
      board.boardData := Place(board.boardData, reflected, Stone(currentPlayer));
      if |history| == 0 {
        return HistoryMissing;
      }
      SwapKeepsAgreement(old(Snapshot()), history, currentHistoryIndex, size);
      history := history[0 := history[0].(swapUsed := true, newPosition := Some(reflected))];
      swapRule := true;
      swapAvailable := false;
      return SwapDone;
    }

    /**
     * The intended swapFirstMove: the same guard and board change, and the
     * write to history[0] made only when there is a history[0], so the swap
     * always completes once allowed.
     */
    method SwapFirstMoveChecked() returns (swapped: bool)
      requires WellFormed()
      modifies this, board
      ensures WellFormed()
      ensures old(Consistent()) ==> Consistent()
      ensures swapped <==> SwapAllowed(old(Snapshot()))
      ensures !swapped ==> Snapshot() == old(Snapshot()) && history == old(history)
      ensures swapped ==> Snapshot() == AfterSwap(old(Snapshot()), board.size)
      ensures swapped && old(history) == [] ==> history == []
      ensures swapped && old(history) != [] ==> history == MarkSwap(old(history), old(Snapshot()), board.size)
      ensures currentHistoryIndex == old(currentHistoryIndex)
    {
      if !swapAvailable || moveCount != 1 || gameOver {
        return false;
      }
      var p := firstMovePosition.value;
      board.boardData := Place(board.boardData, p, Empty);
      var size := board.size;
      var reflected := Pos(size - 1 - p.q, size - 1 - p.r);
      board.boardData := Place(board.boardData, reflected, Stone(currentPlayer));
      if |history| > 0 {
        SwapKeepsAgreement(old(Snapshot()), history, currentHistoryIndex, size);
        history := history[0 := history[0].(swapUsed := true, newPosition := Some(reflected))];
      }
      swapRule := true;
      swapAvailable := false;
      return true;
    }

    /**
     * addToHistory: drop the entries after the cursor, append the move, and
     * point the cursor at it. (onMoveAdded, the display hook, is in module History.)
     */
    method AddToHistory(move: MoveRecord)
      requires -1 <= currentHistoryIndex < |history|
      modifies this`history, this`currentHistoryIndex
      ensures history == old(history[..currentHistoryIndex + 1]) + [move]
      ensures currentHistoryIndex == |history| - 1
    {
      if currentHistoryIndex < |history| - 1 {
        history := history[..currentHistoryIndex + 1];
      }
      history := history + [move];
      currentHistoryIndex := |history| - 1;
    }

    /**
     * checkWin: one visited matrix shared by the searches from every stone of
     * the player on its start edge, skipping those already visited. True
     * exactly when the player has a winning chain.
     */
    method CheckWin(player: Player) returns (won: bool)
      requires board.Valid()
      ensures won == Wins(board.boardData, board.size, player)
    {
      var size := board.size;
      var grid := board.boardData;
      var visited := new bool[size, size]((_, _) => false);
      for k := 0 to size
        invariant forall i, j :: 0 <= i < size && 0 <= j < size && visited[i, j] ==>
                    Explored(grid, size, player, visited, Pos(j, i))
        invariant forall e :: 0 <= e < k && Owned(grid, size, StartCell(player, e), player) ==>
                    visited[StartCell(player, e).r, StartCell(player, e).q]
      {
        var s := StartCell(player, k);
        if grid[s.r][s.q] == Stone(player) && !visited[s.r, s.q] {
          var found, chain := Dfs(grid, size, player, visited, s);
          if found {
            assert WinningChain(grid, size, player, chain);
            return true;
          }
        }
      }
      ExploredBlocksWin(grid, size, player, visited);
      return false;
    }

    /**
     * goToHistoryMove(index): refused outside the history. Otherwise a fresh
     * board and fresh scalars (firstMovePosition excepted), then records
     * 0..index replayed with isReplay, swapping again after record 0 when it
     * carries a swap; the cursor moves to index and the history is kept.
     */
    method GoToHistoryMove(index: int) returns (ok: bool)
      requires Valid()
      modifies this, board
      ensures Valid()
      ensures ok <==> 0 <= index < |old(history)|
      ensures history == old(history)
      ensures !ok ==> Snapshot() == old(Snapshot()) && currentHistoryIndex == old(currentHistoryIndex)
      ensures ok ==> currentHistoryIndex == index
      ensures ok ==> RowsOnBoard(history, board.size, index + 1)
                     && Snapshot() == ReplayPrefix(Reset(old(Snapshot()), board.size, firstPlayer), board.size, history, index + 1)
    {
      if index < 0 || index >= |history| {
        return false;
      }
      ResetForReplay();
      ReplayUpTo(index);
      currentHistoryIndex := index;
      ok := true;
    }

    /**
     * The reset at the head of goToHistoryMove: a fresh empty board and the
     * initial fields. firstMovePosition and the history are kept.
     */
    method ResetForReplay()
      requires Valid()
      modifies this, board
      ensures WellFormed() && SwapRecorded(history, board.size)
      ensures history == old(history) && currentHistoryIndex == old(currentHistoryIndex)
      ensures Snapshot() == Reset(old(Snapshot()), board.size, firstPlayer)
    {
      board.InitBoard();
      currentPlayer := firstPlayer;
      gameOver := false;
      winner := None;
      moveCount := 0;
      swapRule := false;
      swapAvailable := false;
    }

    /** The loop of goToHistoryMove: replay records 0 .. index in order from the reset state. */
    method ReplayUpTo(index: int)
      requires WellFormed() && SwapRecorded(history, board.size) && 0 <= index < |history|
      requires moveCount == 0 && board.boardData == EmptyGrid(board.size)
      modifies this, board
      ensures WellFormed()
      ensures history == old(history) && currentHistoryIndex == old(currentHistoryIndex)
      ensures moveCount >= 1 && firstMovePosition == Some(history[0].position)
      ensures RowsOnBoard(history, board.size, index + 1)
      ensures Snapshot() == ReplayPrefix(old(Snapshot()), board.size, history, index + 1)
    {
      ghost var start := Snapshot();
      for i := 0 to index + 1
        invariant WellFormed()
        invariant history == old(history) && currentHistoryIndex == old(currentHistoryIndex)
        invariant RowsOnBoard(history, board.size, i)
        invariant Snapshot() == ReplayPrefix(start, board.size, history, i)
        invariant i == 0 ==> moveCount == 0
        invariant i > 0 ==> moveCount >= 1 && firstMovePosition == Some(history[0].position)
      {
        ReplayRecord(i);
      }
    }

    /**
     * The body of goToHistoryMove's loop for record i: replay its move, and
     * for record 0 carrying a swap, swap again. The result of either call is
     * ignored.
     */
    method ReplayRecord(i: int)
      requires WellFormed() && 0 <= i < |history|
      requires i == 0 ==> moveCount == 0 && SwapRecorded(history, board.size)
      modifies this, board
      ensures WellFormed()
      ensures history == old(history) && currentHistoryIndex == old(currentHistoryIndex)
      ensures Snapshot() == ReplayStep(old(Snapshot()), board.size, history[i], i)
    {
      var move := history[i];
      if i == 0 && move.swapUsed && move.newPosition.Some? {
        var placed := MakeMove(move.position.q, move.position.r, true);
        var swapped := SwapFirstMove();
        assert swapped != HistoryMissing;
      } else {
        var placed := MakeMove(move.position.q, move.position.r, true);
      }
    }

    /**
     * highlightWinningPath as written: nothing unless the game is over with a
     * winner; otherwise one path search from the FIRST start-edge stone of the
     * winner, after which the loop breaks whatever the search found. The path
     * is non-empty exactly when that one stone reaches the end edge.
     */
    method HighlightWinningPath() returns (path: seq<Pos>)
      requires board.Valid()
      ensures path != [] ==> gameOver && winner.Some? && WinningChain(board.boardData, board.size, winner.value, path)
                             && Distinct(path)
      ensures path != [] <==>
                gameOver && winner.Some? && FirstStart(board.boardData, board.size, winner.value, 0).Some?
                && ReachesEnd(board.boardData, board.size, winner.value, FirstStart(board.boardData, board.size, winner.value, 0).value)
    {
      path := [];
      if !gameOver || winner.None? {
        return;
      }
      var player := winner.value;
      var size := board.size;
      var grid := board.boardData;
      var visited := new bool[size, size]((_, _) => false);
      for k := 0 to size
        invariant path == []
        invariant forall i, j :: 0 <= i < size && 0 <= j < size ==> !visited[i, j]
        invariant FirstStart(grid, size, player, 0) == FirstStart(grid, size, player, k)
      {
        var s := StartCell(player, k);
        if grid[s.r][s.q] == Stone(player) {
          assert FirstStart(grid, size, player, k) == Some(s);
          var found, newPath, suffix := FindWinningPath(grid, size, player, visited, s, path);
          path := newPath;
          if found {
            assert ReachesEnd(grid, size, player, s);
          } else {
            MarkedIsClosed(grid, size, player, visited);
            MarkedAt(visited, s);
            RegionBlocksEnd(grid, size, player, Marked(visited), s);
          }
          break;
        }
      }
    }

    /**
     * The intended highlight: a path search from every start-edge stone of the
     * winner not yet visited, stopping at the first that succeeds. The path
     * is non-empty exactly when the winner has a winning chain.
     */
    method HighlightWinningPathAnyStart() returns (path: seq<Pos>)
      requires board.Valid()
      ensures path != [] ==> gameOver && winner.Some? && WinningChain(board.boardData, board.size, winner.value, path)
                             && Distinct(path)
      ensures path != [] <==> gameOver && winner.Some? && Wins(board.boardData, board.size, winner.value)
    {
      path := [];
      if !gameOver || winner.None? {
        return;
      }
      var player := winner.value;
      var size := board.size;
      var grid := board.boardData;
      var visited := new bool[size, size]((_, _) => false);
      for k := 0 to size
        invariant path == []
        invariant forall i, j :: 0 <= i < size && 0 <= j < size && visited[i, j] ==>
                    Explored(grid, size, player, visited, Pos(j, i))
        invariant forall e :: 0 <= e < k && Owned(grid, size, StartCell(player, e), player) ==>
                    visited[StartCell(player, e).r, StartCell(player, e).q]
      {
        var s := StartCell(player, k);
        if grid[s.r][s.q] == Stone(player) && !visited[s.r, s.q] {
          var found, newPath, suffix := FindWinningPath(grid, size, player, visited, s, path);
          if found {
            assert newPath == suffix;
            assert WinningChain(grid, size, player, newPath);
            path := newPath;
            return;
          }
        }
      }
      ExploredBlocksWin(grid, size, player, visited);
    }
  }
  /**
   * The board on which highlightWinningPath as written shows nothing although
   * red has won: red's first stone on column 0, at (0, 0), is walled in by
   * blue, while the bottom row is a red chain from column 0 to column 2.
   */
  function MissedWinBoard(): (g: seq<seq<Cell>>)
    ensures IsGrid(g, 3)
  {
    [[Stone(Red), Stone(Blue), Empty],
     [Stone(Blue), Stone(Blue), Empty],
     [Stone(Red), Stone(Red), Stone(Red)]]
  }

  /** Red wins on that board, along the bottom row. */
  lemma MissedWinRedWins()
    ensures Wins(MissedWinBoard(), 3, Red)
  {
    var g := MissedWinBoard();
    var row := [Pos(0, 2), Pos(1, 2), Pos(2, 2)];
    assert Adjacent(row[0], row[1]) by {
      assert row[1] == Neighbor(row[0], 1);
    }
    assert Adjacent(row[1], row[2]) by {
      assert row[2] == Neighbor(row[1], 1);
    }
    assert g[2] == [Stone(Red), Stone(Red), Stone(Red)];
    assert Owned(g, 3, row[0], Red) && Owned(g, 3, row[1], Red) && Owned(g, 3, row[2], Red);
    assert IsChain(g, 3, Red, row);
    assert WinningChain(g, 3, Red, row);
  }

  /** The corner (0, 0) is red, and its only neighbours on the board are blue. */
  lemma MissedWinCornerShut()
    ensures ShutIn(MissedWinBoard(), 3, Red, {Pos(0, 0)}, Pos(0, 0))
  {
    var g := MissedWinBoard();
    forall d | 0 <= d < 6
      ensures !Owned(g, 3, Neighbor(Pos(0, 0), d), Red)
    {
      var m := Neighbor(Pos(0, 0), d);
      if InBounds(m, 3) {
        assert m == Pos(1, 0) || m == Pos(0, 1);
      }
    }
  }

  /**
   * On that board red wins, yet the one search highlightWinningPath runs,
   * from the first red stone of column 0, cannot reach column 2: by the
   * postcondition of HighlightWinningPath the highlighted path is empty.
   */
  lemma HighlightMissesWin()
    ensures Wins(MissedWinBoard(), 3, Red)
    ensures FirstStart(MissedWinBoard(), 3, Red, 0) == Some(Pos(0, 0))
    ensures !ReachesEnd(MissedWinBoard(), 3, Red, Pos(0, 0))
  {
    MissedWinRedWins();
    assert StartCell(Red, 0) == Pos(0, 0);
    MissedWinCornerShut();
    RegionBlocksEnd(MissedWinBoard(), 3, Red, {Pos(0, 0)}, Pos(0, 0));
  }
}
