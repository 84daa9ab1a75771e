/**
 * HexSaveLoad (save-load.js): the record saveGame exports and the replay of a
 * loaded move list. File download and upload, JSON text and the settings and
 * style widgets are not modelled; a loaded file is already a move list here.
 */
module SaveLoad {
  import opened Hex
  import opened Connectivity
  import opened Board
  import opened Rules
  import opened Game

  /** gameData.gameState: the scalar fields saveGame copies. */
  datatype SavedState = SavedState(currentPlayer: Player, gameOver: bool, winner: Option<Player>,
                                   moveCount: int, swapRule: bool, swapAvailable: bool)

  /** The gameData object saveGame serialises (boardOptions, the colours and geometry, left out). */
  datatype GameData = GameData(boardSize: nat, firstPlayer: Player, gameMode: GameMode, aiDifficulty: Difficulty,
                               moves: seq<MoveRecord>, gameState: SavedState)

  class HexSaveLoad {
    const game: HexGame

    constructor (game: HexGame)
      ensures this.game == game
    {
      this.game := game;
    }

    /**
     * saveGame: nothing to save while the history is empty; otherwise the
     * options, the whole history as the move list, and the scalar state.
     * The board itself is not saved: a load rebuilds it from the moves.
     */
    function SaveGame(): (data: Option<GameData>)
      reads game, game.board
      ensures data.None? <==> game.history == []
      ensures data.Some? ==> data.value.moves == game.history && data.value.boardSize == game.board.size
      ensures data.Some? ==> data.value.firstPlayer == game.firstPlayer
                             && data.value.gameState.moveCount == game.moveCount
                             && data.value.gameState.winner == game.winner
    {
      if |game.history| == 0 then None
      else Some(GameData(game.board.size, game.firstPlayer, game.gameMode, game.aiDifficulty, game.history,
                         SavedState(game.currentPlayer, game.gameOver, game.winner, game.moveCount,
                                    game.swapRule, game.swapAvailable)))
    }

    /**
     * replayMoves as written. A missing or empty list changes nothing.
     * Otherwise initGame, then each record replayed in order with isReplay,
     * swapping after record 0 when it carries a swap. The history stays
     * empty, so an allowed swap changes the board and then throws; a row off
     * the board throws in makeMove. threw reports the exception, which ends
     * the loop (loadGame catches it).
     */
    method ReplayMoves(moves: Option<seq<MoveRecord>>) returns (threw: bool)
      requires game.WellFormed()
      modifies game, game.board
      ensures game.WellFormed()
      ensures (moves.Some? && moves.value != []) || old(game.Valid()) ==> game.Valid()
      ensures moves.None? || moves.value == [] ==>
                !threw && game.Snapshot() == old(game.Snapshot())
                && game.history == old(game.history) && game.currentHistoryIndex == old(game.currentHistoryIndex)
      ensures moves.Some? && moves.value != [] ==>
                var l := LoadPrefix(Reset(old(game.Snapshot()), game.board.size, game.firstPlayer),
                                    game.board.size, moves.value, |moves.value|);
                && game.Snapshot() == l.state && threw == l.threw
                && game.history == [] && game.currentHistoryIndex == -1
    {
      if moves.None? || |moves.value| == 0 {
        return false;
      }
      var list := moves.value;
      var n := game.board.size;
      ghost var start := Reset(game.Snapshot(), n, game.firstPlayer);
      game.InitGame();
      for i := 0 to |list|
        invariant game.Valid() && game.history == [] && game.currentHistoryIndex == -1
        invariant !LoadPrefix(start, n, list, i).threw
        invariant game.Snapshot() == LoadPrefix(start, n, list, i).state
      {
        threw := LoadRecord(list, i);
        if threw {
          LoadStopsAtThrow(start, n, list, i + 1, |list|);
          return;
        }
      }
      threw := false;
    }

    /** One iteration of replayMoves's loop, on record i of a load. */
    method LoadRecord(list: seq<MoveRecord>, i: nat) returns (threw: bool)
      requires game.WellFormed() && game.history == [] && game.currentHistoryIndex == -1 && i < |list|
      modifies game, game.board
      ensures game.WellFormed() && game.history == [] && game.currentHistoryIndex == -1
      ensures LoadStep(old(game.Snapshot()), game.board.size, list[i], i) == Loaded(game.Snapshot(), threw)
    {
      var move := list[i];
      if !(0 <= move.position.r < game.board.size) {
        return true;
      }
      if i == 0 && move.swapUsed && move.newPosition.Some? {
        var placed := game.MakeMove(move.position.q, move.position.r, true);
        var swapped := game.SwapFirstMove();
        threw := swapped == HistoryMissing;
      } else {
        var placed := game.MakeMove(move.position.q, move.position.r, true);
        threw := false;
      }
    }

    /**
     * The intended replay: the same loop with the corrected swap, which
     * completes when the history is empty. With every row on the board the
     * load ends in the state goToHistoryMove reaches on the same records;
     * a row off the board still throws.
     */
    method ReplayMovesChecked(moves: Option<seq<MoveRecord>>) returns (threw: bool)
      requires game.WellFormed()
      modifies game, game.board
      ensures game.WellFormed()
      ensures (moves.Some? && moves.value != []) || old(game.Valid()) ==> game.Valid()
      ensures moves.None? || moves.value == [] ==>
                !threw && game.Snapshot() == old(game.Snapshot())
                && game.history == old(game.history) && game.currentHistoryIndex == old(game.currentHistoryIndex)
      ensures moves.Some? && moves.value != [] ==>
                && game.history == [] && game.currentHistoryIndex == -1
                && (threw <==> !RowsOnBoard(moves.value, game.board.size, |moves.value|))
                && (!threw ==> game.Snapshot() == ReplayPrefix(Reset(old(game.Snapshot()), game.board.size, game.firstPlayer),
                                                               game.board.size, moves.value, |moves.value|))
    {
      if moves.None? || |moves.value| == 0 {
        return false;
      }
      var list := moves.value;
      var n := game.board.size;
      ghost var start := Reset(game.Snapshot(), n, game.firstPlayer);
      game.InitGame();
      for i := 0 to |list|
        invariant game.Valid() && game.history == [] && game.currentHistoryIndex == -1
        invariant RowsOnBoard(list, n, i)
        invariant game.Snapshot() == ReplayPrefix(start, n, list, i)
      {
        var move := list[i];
        if !(0 <= move.position.r < n) {
          return true;
        }
        ghost var before := game.Snapshot();
        if i == 0 && move.swapUsed && move.newPosition.Some? {
          var placed := game.MakeMove(move.position.q, move.position.r, true);
          var swapped := game.SwapFirstMoveChecked();
        } else {
          var placed := game.MakeMove(move.position.q, move.position.r, true);
        }
        assert game.Snapshot() == ReplayStep(before, n, move, i);
      }
      threw := false;
    }
  }

  // ---------------------------------------------------------------------------
  // Saving and loading a played game

  /**
   * On a board at least two wide, a saved move list whose record 0 carries a
   * swap never loads: the replayed opening cannot win, so the swap is allowed,
   * and with the history empty it throws.
   */
  lemma SwapRecordBreaksLoad(s0: GameState, n: nat, first: Player, moves: seq<MoveRecord>)
    requires n >= 2 && |moves| > 0 && moves[0].swapUsed && moves[0].newPosition.Some? && InBounds(moves[0].position, n)
    ensures LoadPrefix(Reset(s0, n, first), n, moves, |moves|).threw
    ensures LoadPrefix(Reset(s0, n, first), n, moves, |moves|).state.swapAvailable
  {
    var R := Reset(s0, n, first);
    var p := moves[0].position;
    OneStoneNoWin(n, p, first);
    assert IsEmptyAt(R.grid, n, p);
    var placed := MoveIfAccepted(R, n, p, true);
    assert placed == AfterMove(R, n, p);
    assert SwapAllowed(placed);
    assert LoadPrefix(R, n, moves, 1) == LoadStep(R, n, moves[0], 0);
    LoadStopsAtThrow(R, n, moves, 1, |moves|);
  }

  /**
   * A game played through the board that used the swap saves a move list
   * that does not load back: the load throws, and it leaves the swap on offer
   * where the saved game had taken it.
   */
  lemma SavedSwapGameFailsToLoad(s0: GameState, t: GameState, n: nat, first: Player, acts: seq<Action>)
    requires n >= 2
    requires var pl := PlayFrom(Reset(s0, n, first), n, acts); |pl.records| > 0 && pl.records[0].swapUsed
    ensures var pl := PlayFrom(Reset(s0, n, first), n, acts);
            var l := LoadPrefix(Reset(t, n, first), n, pl.records, |pl.records|);
            l.threw && l.state != pl.state
  {
    var pl := PlayFrom(Reset(s0, n, first), n, acts);
    PlayIsReplayable(s0, t, n, first, acts);
    SwapRecordBreaksLoad(t, n, first, pl.records);
    assert !pl.state.swapAvailable;
  }

  /** Such games exist: the opening (1,1) on a 5 x 5 board, swapped. */
  lemma SwappedOpeningFailsToLoad(s0: GameState, t: GameState)
    ensures var pl := PlayFrom(Reset(s0, 5, Red), 5, [Click(Pos(1, 1)), SwapClick]);
            LoadPrefix(Reset(t, 5, Red), 5, pl.records, |pl.records|).threw
  {
    SwapReflectsOpening(s0);
    SavedSwapGameFailsToLoad(s0, t, 5, Red, [Click(Pos(1, 1)), SwapClick]);
  }

  /**
   * Without a swap, the move list saved from a game played through the board
   * loads back to the state the game was in when it was saved.
   */
  lemma SavedGameReloads(s0: GameState, t: GameState, n: nat, first: Player, acts: seq<Action>)
    requires var pl := PlayFrom(Reset(s0, n, first), n, acts); |pl.records| > 0 && !pl.records[0].swapUsed
    ensures var pl := PlayFrom(Reset(s0, n, first), n, acts);
            LoadPrefix(Reset(t, n, first), n, pl.records, |pl.records|) == Loaded(pl.state, false)
  {
    var pl := PlayFrom(Reset(s0, n, first), n, acts);
    PlayIsReplayable(s0, t, n, first, acts);
    LoadWithoutSwapIsReplay(Reset(t, n, first), n, pl.records, |pl.records|);
  }
  /** Swap flags on any record but the first are ignored: the record loads as a plain move. */
  lemma LaterSwapFlagsIgnored(s: GameState, n: nat, m: MoveRecord, i: nat)
    requires Shaped(s, n) && i > 0
    ensures LoadStep(s, n, m, i) == LoadStep(s, n, m.(swapUsed := false, newPosition := None), i)
    ensures 0 <= m.position.r < n ==> LoadStep(s, n, m, i) == Loaded(MoveIfAccepted(s, n, m.position, true), false)
  {
  }

  /**
   * A record whose cell is taken (or whose column is off the board) is
   * refused by makeMove, changes nothing, and the load goes on with the next
   * record.
   */
  lemma OccupiedRecordSkipped(s: GameState, n: nat, moves: seq<MoveRecord>, k: nat)
    requires Shaped(s, n) && k < |moves| && !LoadPrefix(s, n, moves, k).threw
    requires 0 <= moves[k].position.r < n && !IsEmptyAt(LoadPrefix(s, n, moves, k).state.grid, n, moves[k].position)
    requires k > 0 || !moves[k].swapUsed
    ensures LoadPrefix(s, n, moves, k + 1) == LoadPrefix(s, n, moves, k)
  {
    var before := LoadPrefix(s, n, moves, k).state;
    assert !Accepted(before, n, moves[k].position, true);
    assert MoveIfAccepted(before, n, moves[k].position, true) == before;
  }
}
