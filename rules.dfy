/**
 * The rules that HexGame (game.js) enforces, written as functions on a value
 * snapshot of its state. The HexGame class in module Game is proved to follow
 * these functions step by step; the properties of a whole game (replaying a
 * history reproduces the game that wrote it, the verdict is always a real win,
 * turns alternate) are proved here about the functions.
 */
module Rules {
  import opened Hex
  import opened Connectivity

  /** One entry of HexGame.history: {player, position, moveNumber, swapUsed, newPosition}. */
  datatype MoveRecord = MoveRecord(player: Player, position: Pos, moveNumber: int, swapUsed: bool, newPosition: Option<Pos>)

  /** boardData and the scalar fields of HexGame that a move or a swap changes. */
  datatype GameState = GameState(
    grid: seq<seq<Cell>>,
    currentPlayer: Player,
    gameOver: bool,
    winner: Option<Player>,
    moveCount: int,
    swapRule: bool,
    swapAvailable: bool,
    firstMovePosition: Option<Pos>)

  /** The grid is n x n, and while the swap is offered the opening cell is known and on the board. */
  predicate Shaped(s: GameState, n: nat) {
    && IsGrid(s.grid, n)
    && (s.swapAvailable ==> s.firstMovePosition.Some? && InBounds(s.firstMovePosition.value, n))
  }

  /**
   * initGame, and the reset at the start of goToHistoryMove: an empty board,
   * firstPlayer to move, no winner, no moves, no swap. firstMovePosition is
   * not reset by either.
   */
  function Reset(s: GameState, n: nat, first: Player): (t: GameState)
    ensures Shaped(t, n)
  {
    GameState(EmptyGrid(n), first, false, None, 0, false, false, s.firstMovePosition)
  }

  /**
   * makeMove's guards: a finished game refuses all but replayed moves, and the
   * cell must be empty. A column outside the row reads undefined, which is not
   * null, so that move is refused too.
   */
  predicate Accepted(s: GameState, n: nat, p: Pos, isReplay: bool)
    requires IsGrid(s.grid, n) && 0 <= p.r < n
  {
    && (isReplay || !s.gameOver)
    && 0 <= p.q < n
    && s.grid[p.r][p.q] == Empty
  }

  /**
   * The fields after an accepted move on p, given the new grid and whether
   * the mover won: one more move, the swap offered exactly after the first
   * move (which records its cell), then either the mover wins and keeps the
   * turn, or the turn passes.
   */
  function MoveEffect(s: GameState, p: Pos, grid: seq<seq<Cell>>, won: bool): GameState {
    var count := s.moveCount + 1;
    GameState(
      grid,
      if won then s.currentPlayer else Opponent(s.currentPlayer),
      s.gameOver || won,
      if won then Some(s.currentPlayer) else s.winner,
      count,
      s.swapRule,
      count == 1,
      if count == 1 then Some(p) else s.firstMovePosition)
  }

  /** The effect of an accepted makeMove: the mover's stone on p, and the mover wins when that completes a chain. */
  ghost function AfterMove(s: GameState, n: nat, p: Pos): (t: GameState)
    requires Shaped(s, n) && InBounds(p, n)
    ensures Shaped(t, n)
  {
    var grid := Place(s.grid, p, Stone(s.currentPlayer));
    MoveEffect(s, p, grid, Wins(grid, n, s.currentPlayer))
  }

  /** makeMove(q, r, isReplay) on the state: AfterMove if accepted, otherwise nothing changes. */
  ghost function MoveIfAccepted(s: GameState, n: nat, p: Pos, isReplay: bool): (t: GameState)
    requires Shaped(s, n) && 0 <= p.r < n
    ensures Shaped(t, n)
  {
    if Accepted(s, n, p, isReplay) then AfterMove(s, n, p) else s
  }

  /** swapFirstMove's guard. */
  predicate SwapAllowed(s: GameState) {
    s.swapAvailable && s.moveCount == 1 && !s.gameOver
  }

  /** The board part of the swap: the opening cell emptied, its reflection taken by the player to move. */
  function SwapBoard(s: GameState, n: nat): (t: GameState)
    requires Shaped(s, n) && s.swapAvailable
    ensures Shaped(t, n)
  {
    var p := s.firstMovePosition.value;
    s.(grid := Place(Place(s.grid, p, Empty), Reflect(p, n), Stone(s.currentPlayer)))
  }

  /** A completed swap: the board part, then swapRule set and the offer withdrawn. */
  function AfterSwap(s: GameState, n: nat): (t: GameState)
    requires Shaped(s, n) && s.swapAvailable
    ensures Shaped(t, n)
  {
    SwapBoard(s, n).(swapRule := true, swapAvailable := false)
  }

  /** The rows of the first k records are on the board (makeMove indexes boardData[r] unchecked). */
  predicate RowsOnBoard(h: seq<MoveRecord>, n: nat, k: nat)
    requires k <= |h|
  {
    forall i :: 0 <= i < k ==> 0 <= h[i].position.r < n
  }

  /**
   * One iteration of goToHistoryMove's loop: replay record m as move i, and for
   * i == 0 with a recorded swap, swap again. The history already holds the
   * record, so the swap completes.
   */
  ghost function ReplayStep(s: GameState, n: nat, m: MoveRecord, i: nat): (t: GameState)
    requires Shaped(s, n) && 0 <= m.position.r < n
    ensures Shaped(t, n)
    ensures s.moveCount <= t.moveCount <= s.moveCount + 1
    ensures s.moveCount >= 1 ==> t.firstMovePosition == s.firstMovePosition
    ensures s.moveCount == 0 && IsEmptyAt(s.grid, n, m.position) ==> t.moveCount == 1 && t.firstMovePosition == Some(m.position)
  {
    var placed := MoveIfAccepted(s, n, m.position, true);
    if i == 0 && m.swapUsed && m.newPosition.Some? && SwapAllowed(placed) then AfterSwap(placed, n) else placed
  }

  /** The state after replaying records 0 .. k-1 of h from s. */
  ghost function ReplayPrefix(s: GameState, n: nat, h: seq<MoveRecord>, k: nat): (t: GameState)
    requires Shaped(s, n) && k <= |h| && RowsOnBoard(h, n, k)
    ensures Shaped(t, n)
    ensures s.moveCount <= t.moveCount
    decreases k
  {
    if k == 0 then s else ReplayStep(ReplayPrefix(s, n, h, k - 1), n, h[k - 1], k - 1)
  }

  /** Replaying a prefix does not look at the records after it. */
  lemma {:induction false} ReplayPrefixIgnoresRest(s: GameState, n: nat, h: seq<MoveRecord>, more: seq<MoveRecord>, k: nat)
    requires Shaped(s, n) && k <= |h| && RowsOnBoard(h, n, k)
    ensures RowsOnBoard(h + more, n, k)
    ensures ReplayPrefix(s, n, h + more, k) == ReplayPrefix(s, n, h, k)
  {
    assert forall i :: 0 <= i < k ==> (h + more)[i] == h[i];
    if k > 0 {
      ReplayPrefixIgnoresRest(s, n, h, more, k - 1);
    }
  }

  // ---------------------------------------------------------------------------
  // The history beside the state

  /** Recorded cells are on the board and the cursor is inside the history or -1. */
  predicate HistoryShaped(h: seq<MoveRecord>, cursor: int, n: nat) {
    RecordsOnBoard(h, n) && -1 <= cursor < |h|
  }

  /** A swap recorded in history[0] names the reflection of its cell. */
  predicate SwapRecorded(h: seq<MoveRecord>, n: nat) {
    |h| > 0 && h[0].swapUsed && h[0].newPosition.Some? ==> h[0].newPosition == Some(Reflect(h[0].position, n))
  }

  /**
   * How HexGame's fields and its history agree: while the swap is offered the
   * opening cell is history[0]'s; a swap recorded in history[0] names the
   * reflection of its cell; the move count is never negative, and before the
   * first move the history is empty.
   */
  predicate Agrees(s: GameState, h: seq<MoveRecord>, cursor: int, n: nat) {
    && (s.swapAvailable && |h| > 0 ==> s.firstMovePosition == Some(h[0].position))
    && SwapRecorded(h, n)
    && s.moveCount >= 0
    && (s.moveCount == 0 ==> h == [] && cursor == -1)
  }

  /** A move played through the board, appended after the cursor, keeps the history in agreement with the state, whoever won. */
  lemma MoveKeepsAgreement(s: GameState, h: seq<MoveRecord>, cursor: int, n: nat, p: Pos, grid: seq<seq<Cell>>, won: bool)
    requires Shaped(s, n) && HistoryShaped(h, cursor, n)
    requires InBounds(p, n) && Accepted(s, n, p, false)
    ensures var h2 := h[..cursor + 1] + [Record(s, p)];
            && HistoryShaped(h2, |h2| - 1, n)
            && (Agrees(s, h, cursor, n) ==> Agrees(MoveEffect(s, p, grid, won), h2, |h2| - 1, n))
  {
    var h2 := h[..cursor + 1] + [Record(s, p)];
    if cursor >= 0 {
      assert h2[0] == h[0];
    } else {
      assert h2 == [Record(s, p)];
    }
  }

  /** history[0] after a completed swap: marked as swapped, with the reflected cell. */
  function MarkSwap(h: seq<MoveRecord>, s: GameState, n: nat): (h2: seq<MoveRecord>)
    requires |h| > 0 && s.firstMovePosition.Some?
    ensures |h2| == |h| && h2[1..] == h[1..]
    ensures h2[0].swapUsed && h2[0].newPosition == Some(Reflect(s.firstMovePosition.value, n))
    ensures h2[0].position == h[0].position && h2[0].player == h[0].player
  {
    h[0 := h[0].(swapUsed := true, newPosition := Some(Reflect(s.firstMovePosition.value, n)))]
  }

  /** A completed swap keeps the history in agreement with the state. */
  lemma SwapKeepsAgreement(s: GameState, h: seq<MoveRecord>, cursor: int, n: nat)
    requires Shaped(s, n) && HistoryShaped(h, cursor, n)
    requires SwapAllowed(s) && |h| > 0
    ensures HistoryShaped(MarkSwap(h, s, n), cursor, n)
    ensures Agrees(s, h, cursor, n) ==> Agrees(AfterSwap(s, n), MarkSwap(h, s, n), cursor, n)
  {
    var h2 := MarkSwap(h, s, n);
    assert forall i :: 1 <= i < |h| ==> h2[i] == h[i];
  }

  // ---------------------------------------------------------------------------
  // Loading a saved game (save-load.js replayMoves)

  /** The state a load leaves, and whether it ended in an exception. */
  datatype Loaded = Loaded(state: GameState, threw: bool)

  /**
   * One iteration of replayMoves: a row off the board makes makeMove throw;
   * otherwise the record is replayed, and for index 0 with a recorded swap the
   * swap is attempted. The history is empty during a load, so an allowed swap
   * changes the board and then throws writing history[0].
   */
  ghost function LoadStep(s: GameState, n: nat, m: MoveRecord, i: nat): (l: Loaded)
    requires Shaped(s, n)
    ensures Shaped(l.state, n)
    ensures s.moveCount <= l.state.moveCount
  {
    if !(0 <= m.position.r < n) then Loaded(s, true)
    else
      var placed := MoveIfAccepted(s, n, m.position, true);
      if i == 0 && m.swapUsed && m.newPosition.Some? && SwapAllowed(placed) then Loaded(SwapBoard(placed, n), true)
      else Loaded(placed, false)
  }

  /** The outcome of loading records 0 .. k-1: the loop stops at the first exception. */
  ghost function LoadPrefix(s: GameState, n: nat, moves: seq<MoveRecord>, k: nat): (l: Loaded)
    requires Shaped(s, n) && k <= |moves|
    ensures Shaped(l.state, n)
    ensures s.moveCount <= l.state.moveCount
    decreases k
  {
    if k == 0 then Loaded(s, false)
    else
      var prev := LoadPrefix(s, n, moves, k - 1);
      if prev.threw then prev else LoadStep(prev.state, n, moves[k - 1], k - 1)
  }

  /** Once a load has thrown, the later records change nothing. */
  lemma {:induction false} LoadStopsAtThrow(s: GameState, n: nat, moves: seq<MoveRecord>, j: nat, k: nat)
    requires Shaped(s, n) && j <= k <= |moves| && LoadPrefix(s, n, moves, j).threw
    ensures LoadPrefix(s, n, moves, k) == LoadPrefix(s, n, moves, j)
    decreases k
  {
    if k > j {
      LoadStopsAtThrow(s, n, moves, j, k - 1);
    }
  }

  /** Without a swap record and with every row on the board, a load replays exactly as goToHistoryMove does. */
  lemma {:induction false} LoadWithoutSwapIsReplay(s: GameState, n: nat, moves: seq<MoveRecord>, k: nat)
    requires Shaped(s, n) && k <= |moves| && RowsOnBoard(moves, n, k)
    requires |moves| > 0 ==> !moves[0].swapUsed
    ensures LoadPrefix(s, n, moves, k) == Loaded(ReplayPrefix(s, n, moves, k), false)
    decreases k
  {
    if k > 0 {
      LoadWithoutSwapIsReplay(s, n, moves, k - 1);
    }
  }

  // ---------------------------------------------------------------------------
  // Forward play: what the history of a game played through the board holds

  /** A click on a cell (handleCellClick) or on the swap button. Clicks on the move list are not actions here. */
  datatype Action = Click(cell: Pos) | SwapClick

  /** The game state together with the history it has written. */
  datatype Play = Play(state: GameState, records: seq<MoveRecord>)

  /** The record addToHistory receives for an accepted move on p. */
  function Record(s: GameState, p: Pos): MoveRecord {
    MoveRecord(s.currentPlayer, p, s.moveCount + 1, false, None)
  }

  /**
   * One user action. handleCellClick ignores finished games and cells off the
   * board, then calls makeMove(q, r). The swap button calls swapFirstMove,
   * which marks history[0] (and throws after changing the board if there is none).
   */
  ghost function PlayStep(pl: Play, n: nat, a: Action): (next: Play)
    requires Shaped(pl.state, n)
    ensures Shaped(next.state, n)
  {
    match a
    case Click(p) =>
      if InBounds(p, n) && Accepted(pl.state, n, p, false) then
        Play(AfterMove(pl.state, n, p), pl.records + [Record(pl.state, p)])
      else pl
    case SwapClick =>
      if !SwapAllowed(pl.state) then pl
      else if |pl.records| == 0 then Play(SwapBoard(pl.state, n), pl.records)
      else Play(AfterSwap(pl.state, n), MarkSwap(pl.records, pl.state, n))
  }

  /** The actions applied in order. */
  ghost function PlayFrom(s: GameState, n: nat, acts: seq<Action>): (pl: Play)
    requires Shaped(s, n)
    ensures Shaped(pl.state, n)
    decreases |acts|
  {
    if |acts| == 0 then Play(s, [])
    else PlayStep(PlayFrom(s, n, acts[..|acts| - 1]), n, acts[|acts| - 1])
  }

  /** Every record's cell is on the board. */
  predicate RecordsOnBoard(h: seq<MoveRecord>, n: nat) {
    forall i :: 0 <= i < |h| ==> InBounds(h[i].position, n)
  }

  /** Facts about a played game that its history reflects. */
  ghost predicate HistoryMatches(pl: Play, n: nat) {
    && pl.state.moveCount == |pl.records|
    && RecordsOnBoard(pl.records, n)
    && (forall i :: 0 <= i < |pl.records| ==> pl.records[i].moveNumber == i + 1)
    && (forall i :: 0 < i < |pl.records| ==> !pl.records[i].swapUsed)
    && (pl.state.swapAvailable ==>
          |pl.records| == 1 && !pl.records[0].swapUsed && pl.state.firstMovePosition == Some(pl.records[0].position))
    && (|pl.records| > 0 && pl.records[0].swapUsed ==>
          pl.records[0].newPosition == Some(Reflect(pl.records[0].position, n)))
  }

  /** The history of pl replays, from the reset board R, to the state pl is in. */
  ghost predicate Replayable(pl: Play, n: nat, start: GameState, R: GameState)
    requires Shaped(R, n)
  {
    && HistoryMatches(pl, n)
    && RowsOnBoard(pl.records, n, |pl.records|)
    && (|pl.records| == 0 ==> pl.state == start)
    && (|pl.records| > 0 ==> ReplayPrefix(R, n, pl.records, |pl.records|) == pl.state)
  }

  /** An accepted click appends the record that replays it. */
  lemma ClickKeepsReplayable(pl: Play, n: nat, s0: GameState, t: GameState, first: Player, p: Pos)
    requires Shaped(pl.state, n) && Replayable(pl, n, Reset(s0, n, first), Reset(t, n, first))
    ensures Replayable(PlayStep(pl, n, Click(p)), n, Reset(s0, n, first), Reset(t, n, first))
  {
    if InBounds(p, n) && Accepted(pl.state, n, p, false) {
      ClickKeepsMatches(pl, n, p);
      ClickReplays(pl, n, s0, t, first, p);
    }
  }

  /** The record appended by an accepted click carries the next move number and no swap. */
  lemma ClickKeepsMatches(pl: Play, n: nat, p: Pos)
    requires Shaped(pl.state, n) && HistoryMatches(pl, n) && InBounds(p, n) && Accepted(pl.state, n, p, false)
    ensures HistoryMatches(PlayStep(pl, n, Click(p)), n)
    ensures RowsOnBoard(PlayStep(pl, n, Click(p)).records, n, |PlayStep(pl, n, Click(p)).records|)
  {
    var next := PlayStep(pl, n, Click(p));
    assert next.records == pl.records + [Record(pl.state, p)];
    assert forall i :: 0 <= i < |pl.records| ==> next.records[i] == pl.records[i];
  }

  /** Replaying the record an accepted click appends repeats the click. */
  lemma ClickReplays(pl: Play, n: nat, s0: GameState, t: GameState, first: Player, p: Pos)
    requires Shaped(pl.state, n) && Replayable(pl, n, Reset(s0, n, first), Reset(t, n, first))
    requires InBounds(p, n) && Accepted(pl.state, n, p, false)
    requires RowsOnBoard(PlayStep(pl, n, Click(p)).records, n, |PlayStep(pl, n, Click(p)).records|)
    ensures ReplayPrefix(Reset(t, n, first), n, PlayStep(pl, n, Click(p)).records, |pl.records| + 1) == PlayStep(pl, n, Click(p)).state
  {
    var R := Reset(t, n, first);
    var next := PlayStep(pl, n, Click(p));
    var k := |pl.records|;
    var m := Record(pl.state, p);
    assert next.records == pl.records + [m];
    assert next.records[k] == m;
    ReplayPrefixIgnoresRest(R, n, pl.records, [m], k);
    assert ReplayPrefix(R, n, next.records, k + 1) == ReplayStep(ReplayPrefix(R, n, pl.records, k), n, m, k);
    if k == 0 {
      assert ReplayPrefix(R, n, pl.records, 0) == R;
      assert AfterMove(R, n, p) == AfterMove(Reset(s0, n, first), n, p);
    }
  }

  /** A completed swap marks record 0, whose replay then swaps again. */
  lemma SwapKeepsReplayable(pl: Play, n: nat, s0: GameState, t: GameState, first: Player)
    requires Shaped(pl.state, n) && Replayable(pl, n, Reset(s0, n, first), Reset(t, n, first))
    ensures Replayable(PlayStep(pl, n, SwapClick), n, Reset(s0, n, first), Reset(t, n, first))
  {
    var R := Reset(t, n, first);
    var next := PlayStep(pl, n, SwapClick);
    if SwapAllowed(pl.state) && |pl.records| > 0 {
      var m0 := pl.records[0];
      var marked := MarkSwap(pl.records, pl.state, n)[0];
      assert |pl.records| == 1 && next.records == [marked];
      assert ReplayPrefix(R, n, pl.records, 1) == ReplayStep(R, n, m0, 0);
      assert ReplayStep(R, n, m0, 0) == MoveIfAccepted(R, n, m0.position, true);
      assert ReplayPrefix(R, n, next.records, 1) == ReplayStep(R, n, marked, 0);
    }
  }

  /**
   * The history written by a game of board clicks and swap-button presses,
   * with no navigation through the move list in between, reproduces the game:
   * replaying all of it from a reset board (goToHistoryMove to the last index)
   * gives back the state the game is in, the swap included. Each record
   * carries moveNumber i + 1, and only record 0 can carry a swap.
   */
  lemma {:induction false} PlayIsReplayable(s0: GameState, t: GameState, n: nat, first: Player, acts: seq<Action>)
    ensures HistoryMatches(PlayFrom(Reset(s0, n, first), n, acts), n)
    ensures var pl := PlayFrom(Reset(s0, n, first), n, acts);
            && RowsOnBoard(pl.records, n, |pl.records|)
            && (|pl.records| > 0 ==> ReplayPrefix(Reset(t, n, first), n, pl.records, |pl.records|) == pl.state)
    decreases |acts|
  {
    PlayReplayable(s0, t, n, first, acts);
  }

  lemma {:induction false} PlayReplayable(s0: GameState, t: GameState, n: nat, first: Player, acts: seq<Action>)
    ensures Replayable(PlayFrom(Reset(s0, n, first), n, acts), n, Reset(s0, n, first), Reset(t, n, first))
    decreases |acts|
  {
    if |acts| > 0 {
      var front := acts[..|acts| - 1];
      PlayReplayable(s0, t, n, first, front);
      var prev := PlayFrom(Reset(s0, n, first), n, front);
      match acts[|acts| - 1]
      case Click(p) => ClickKeepsReplayable(prev, n, s0, t, first, p);
      case SwapClick => SwapKeepsReplayable(prev, n, s0, t, first);
    }
  }

  // ---------------------------------------------------------------------------
  // The verdict and the turn order

  /** A game is over exactly when it has a winner, and the winner really has a winning chain. */
  ghost predicate VerdictSound(s: GameState, n: nat) {
    && (s.gameOver <==> s.winner.Some?)
    && (s.winner.Some? ==> Wins(s.grid, n, s.winner.value))
  }

  /** Putting a stone on an empty cell breaks no winning chain. */
  lemma PlacingKeepsWin(grid: seq<seq<Cell>>, n: nat, p: Pos, c: Cell, player: Player)
    requires IsGrid(grid, n) && InBounds(p, n) && grid[p.r][p.q] == Empty
    requires Wins(grid, n, player)
    ensures Wins(Place(grid, p, c), n, player)
  {
    var path :| WinningChain(grid, n, player, path);
    var g := Place(grid, p, c);
    forall i | 0 <= i < |path|
      ensures Owned(g, n, path[i], player)
    {
      assert Owned(grid, n, path[i], player);
    }
    assert WinningChain(g, n, player, path);
  }

  /** makeMove, replayed or not, keeps the verdict sound. */
  lemma MoveKeepsVerdict(s: GameState, n: nat, p: Pos, isReplay: bool)
    requires Shaped(s, n) && 0 <= p.r < n && VerdictSound(s, n)
    ensures VerdictSound(MoveIfAccepted(s, n, p, isReplay), n)
  {
    if Accepted(s, n, p, isReplay) && s.winner.Some? {
      PlacingKeepsWin(s.grid, n, p, Stone(s.currentPlayer), s.winner.value);
    }
  }

  /** Whatever a history holds, replaying it from a reset board ends with a sound verdict. */
  lemma {:induction false} ReplayKeepsVerdict(s: GameState, n: nat, h: seq<MoveRecord>, k: nat)
    requires Shaped(s, n) && k <= |h| && RowsOnBoard(h, n, k) && VerdictSound(s, n)
    ensures VerdictSound(ReplayPrefix(s, n, h, k), n)
    decreases k
  {
    if k > 0 {
      ReplayKeepsVerdict(s, n, h, k - 1);
      MoveKeepsVerdict(ReplayPrefix(s, n, h, k - 1), n, h[k - 1].position, true);
    }
  }

  /**
   * While the game runs, the player to move alternates with the move count
   * (firstPlayer after an even count) and neither colour has a winning chain.
   */
  ghost predicate TurnOrder(s: GameState, n: nat, first: Player) {
    && s.moveCount >= 0
    && VerdictSound(s, n)
    && (s.gameOver ==> s.currentPlayer == s.winner.value)
    && (!s.gameOver ==> s.currentPlayer == if s.moveCount % 2 == 0 then first else Opponent(first))
    && (!s.gameOver ==> !Wins(s.grid, n, Red) && !Wins(s.grid, n, Blue))
  }

  /**
   * The board around the opening: empty before the first move, and while the
   * swap is on offer, nothing but firstPlayer's opening stone.
   */
  ghost predicate OpeningBoard(s: GameState, n: nat, first: Player) {
    && (s.moveCount == 0 ==> s.grid == EmptyGrid(n) && !s.gameOver)
    && (s.swapAvailable ==>
          && s.moveCount == 1 && s.firstMovePosition.Some? && InBounds(s.firstMovePosition.value, n)
          && s.grid == Place(EmptyGrid(n), s.firstMovePosition.value, Stone(first)))
  }

  /** The empty board has no winning chain. */
  lemma EmptyBoardNoWin(n: nat, player: Player)
    ensures !Wins(EmptyGrid(n), n, player)
  {
    NoStartStoneNoWin(EmptyGrid(n), n, player);
  }

  /** A single stone cannot join two opposite edges of a board at least two wide. */
  lemma OneStoneNoWin(n: nat, p: Pos, player: Player)
    requires n >= 2 && InBounds(p, n)
    ensures !Wins(Place(EmptyGrid(n), p, Stone(player)), n, player)
  {
    var g := Place(EmptyGrid(n), p, Stone(player));
    forall path | IsChain(g, n, player, path) && OnStartEdge(path[0], player)
      ensures !OnEndEdge(path[|path| - 1], n, player)
    {
      assert Owned(g, n, path[0], player) && Owned(g, n, path[|path| - 1], player);
      assert path[0] == p && path[|path| - 1] == p;
    }
  }

  /** On the 1 x 1 board a stone on the only cell joins both edges at once. */
  lemma SingleCellWins(g: seq<seq<Cell>>, c: Player)
    requires IsGrid(g, 1) && g[0][0] == Stone(c)
    ensures Wins(g, 1, c)
  {
    assert WinningChain(g, 1, c, [Pos(0, 0)]);
  }

  /** A stone of one colour never completes a chain of the other colour. */
  lemma OtherStoneKeepsNoWin(g: seq<seq<Cell>>, n: nat, p: Pos, a: Player, b: Player)
    requires IsGrid(g, n) && InBounds(p, n) && a != b && !Wins(g, n, b)
    ensures !Wins(Place(g, p, Stone(a)), n, b)
  {
    var g2 := Place(g, p, Stone(a));
    forall path | WinningChain(g2, n, b, path)
      ensures WinningChain(g, n, b, path)
    {
      forall i | 0 <= i < |path|
        ensures Owned(g, n, path[i], b)
      {
        assert Owned(g2, n, path[i], b);
      }
    }
  }

  /** Swapping the lone opening stone leaves the reflected stone alone on the board. */
  lemma OpeningSwapped(n: nat, p: Pos, first: Player, c: Cell)
    requires InBounds(p, n)
    ensures Place(Place(Place(EmptyGrid(n), p, Stone(first)), p, Empty), Reflect(p, n), c)
            == Place(EmptyGrid(n), Reflect(p, n), c)
  {
    AllEmptyIsEmptyGrid(Place(Place(EmptyGrid(n), p, Stone(first)), p, Empty), n);
  }

  /** A click keeps the turn order and the opening board. */
  lemma TurnOrderClick(pl: Play, n: nat, first: Player, p: Pos)
    requires Shaped(pl.state, n) && TurnOrder(pl.state, n, first) && OpeningBoard(pl.state, n, first)
    ensures TurnOrder(PlayStep(pl, n, Click(p)).state, n, first)
    ensures OpeningBoard(PlayStep(pl, n, Click(p)).state, n, first)
  {
    var s := pl.state;
    if InBounds(p, n) && Accepted(s, n, p, false) {
      MoveKeepsVerdict(s, n, p, false);
      var cur := s.currentPlayer;
      if !Wins(Place(s.grid, p, Stone(cur)), n, cur) {
        OtherStoneKeepsNoWin(s.grid, n, p, cur, Opponent(cur));
      }
    }
  }

  /**
   * A press of the swap button keeps the turn order and the opening board.
   * The swap is only allowed while the opening stone stands alone and has not
   * won, which rules out the 1 x 1 board; the reflected stone then wins
   * nothing, and the opener has no stone left.
   */
  lemma TurnOrderSwap(pl: Play, n: nat, first: Player)
    requires Shaped(pl.state, n) && TurnOrder(pl.state, n, first) && OpeningBoard(pl.state, n, first)
    requires pl.state.moveCount == |pl.records|
    ensures TurnOrder(PlayStep(pl, n, SwapClick).state, n, first)
    ensures OpeningBoard(PlayStep(pl, n, SwapClick).state, n, first)
  {
    var s := pl.state;
    if SwapAllowed(s) {
      var p := s.firstMovePosition.value;
      var cur := s.currentPlayer;
      if n == 1 {
        SingleCellWins(s.grid, first);
      }
      OpeningSwapped(n, p, first, Stone(cur));
      OneStoneNoWin(n, Reflect(p, n), cur);
      EmptyBoardNoWin(n, first);
      OtherStoneKeepsNoWin(EmptyGrid(n), n, Reflect(p, n), cur, first);
    }
  }

  /**
   * Played through the board, the game alternates turns (the swap keeps the
   * turn and the count, so the swapping player moves again). It is over
   * exactly when someone has a winning chain: a finished game has a winner
   * with a chain, and a running game has no chain of either colour. The
   * winner is left as the player to move.
   */
  lemma {:induction false} PlayKeepsTurnOrder(s0: GameState, n: nat, first: Player, acts: seq<Action>)
    ensures TurnOrder(PlayFrom(Reset(s0, n, first), n, acts).state, n, first)
    ensures OpeningBoard(PlayFrom(Reset(s0, n, first), n, acts).state, n, first)
    decreases |acts|
  {
    if |acts| == 0 {
      EmptyBoardNoWin(n, Red);
      EmptyBoardNoWin(n, Blue);
    } else {
      var front := acts[..|acts| - 1];
      PlayKeepsTurnOrder(s0, n, first, front);
      var prev := PlayFrom(Reset(s0, n, first), n, front);
      match acts[|acts| - 1]
      case Click(p) => TurnOrderClick(prev, n, first, p);
      case SwapClick =>
        PlayIsReplayable(s0, s0, n, first, front);
        TurnOrderSwap(prev, n, first);
    }
  }

  // ---------------------------------------------------------------------------
  // Concrete games

  /** A board on which the player has no stone on its start edge has no winning chain. */
  lemma NoStartStoneNoWin(grid: seq<seq<Cell>>, n: nat, player: Player)
    requires forall k :: 0 <= k < n ==> !Owned(grid, n, StartCell(player, k), player)
    ensures !Wins(grid, n, player)
  {
    RegionBlocksWin(grid, n, player, {});
  }

  /** Playing one more action extends the game by one step. */
  lemma PlayFromSnoc(s: GameState, n: nat, acts: seq<Action>, k: nat)
    requires Shaped(s, n) && k < |acts|
    ensures PlayFrom(s, n, acts[..k + 1]) == PlayStep(PlayFrom(s, n, acts[..k]), n, acts[k])
  {
    assert acts[..k + 1][..k] == acts[..k];
  }

  /** An accepted click that does not win: the stone, one more move, and the turn passes. */
  lemma QuietClick(pl: Play, n: nat, p: Pos)
    requires Shaped(pl.state, n) && InBounds(p, n) && !pl.state.gameOver && pl.state.grid[p.r][p.q] == Empty
    requires !Wins(Place(pl.state.grid, p, Stone(pl.state.currentPlayer)), n, pl.state.currentPlayer)
    ensures var t := PlayStep(pl, n, Click(p)).state;
            && t.grid == Place(pl.state.grid, p, Stone(pl.state.currentPlayer))
            && t.currentPlayer == Opponent(pl.state.currentPlayer)
            && !t.gameOver && t.winner == pl.state.winner && t.moveCount == pl.state.moveCount + 1
            && t.swapAvailable == (t.moveCount == 1)
            && (t.moveCount == 1 ==> t.firstMovePosition == Some(p))
  {
  }

  /** An accepted click that wins: the game ends with the mover as winner and still to move. */
  lemma WinningClick(pl: Play, n: nat, p: Pos)
    requires Shaped(pl.state, n) && InBounds(p, n) && !pl.state.gameOver && pl.state.grid[p.r][p.q] == Empty
    requires Wins(Place(pl.state.grid, p, Stone(pl.state.currentPlayer)), n, pl.state.currentPlayer)
    ensures var t := PlayStep(pl, n, Click(p)).state;
            && t.gameOver && t.winner == Some(pl.state.currentPlayer) && t.currentPlayer == pl.state.currentPlayer
            && t.moveCount == pl.state.moveCount + 1
  {
  }

  /** The moves of the size-3 game below: red (0,0), blue (0,2), red (1,0), blue (1,2), red (2,0). */
  function RedRowActs(): seq<Action> {
    [Click(Pos(0, 0)), Click(Pos(0, 2)), Click(Pos(1, 0)), Click(Pos(1, 2)), Click(Pos(2, 0))]
  }

  /** The board of that game after its first k moves, k < 5. */
  function RedRowGrid(k: nat): seq<seq<Cell>> {
    var R, B, E := Stone(Red), Stone(Blue), Empty;
    if k == 0 then [[E, E, E], [E, E, E], [E, E, E]]
    else if k == 1 then [[R, E, E], [E, E, E], [E, E, E]]
    else if k == 2 then [[R, E, E], [E, E, E], [B, E, E]]
    else if k == 3 then [[R, R, E], [E, E, E], [B, E, E]]
    else [[R, R, E], [E, E, E], [B, B, E]]
  }

  /** The player who made move k (1 <= k <= 4) of that game has no winning chain yet. */
  lemma RedRowNoWin(k: nat)
    requires 1 <= k <= 4
    ensures !Wins(RedRowGrid(k), 3, if k % 2 == 1 then Red else Blue)
  {
    var g := RedRowGrid(k);
    if k == 1 {
      RegionBlocksWin(g, 3, Red, {Pos(0, 0)});
    } else if k == 3 {
      RegionBlocksWin(g, 3, Red, {Pos(0, 0), Pos(1, 0)});
    } else {
      NoStartStoneNoWin(g, 3, Blue);
    }
  }

  /** Move k (1 <= k <= 4) of that game puts the mover's stone on its cell and nothing else. */
  lemma RedRowPlace(k: nat)
    requires 1 <= k <= 4
    ensures RedRowActs()[k - 1].Click? && InBounds(RedRowActs()[k - 1].cell, 3)
    ensures var p := RedRowActs()[k - 1].cell;
            && RedRowGrid(k - 1)[p.r][p.q] == Empty
            && Place(RedRowGrid(k - 1), p, Stone(if k % 2 == 1 then Red else Blue)) == RedRowGrid(k)
  {
    var p := RedRowActs()[k - 1].cell;
    var c := Stone(if k % 2 == 1 then Red else Blue);
    assert RedRowGrid(k - 1)[p.r][p.q := c] == RedRowGrid(k)[p.r];
  }

  /** The state of that game after its first k moves, k <= 4: nobody has won and the turn alternates. */
  ghost predicate RedRowAt(s: GameState, k: nat) {
    && s.grid == RedRowGrid(k) && !s.gameOver && s.winner == None && s.moveCount == k
    && s.currentPlayer == (if k % 2 == 0 then Red else Blue)
  }

  /** Move k (1 <= k <= 4) of that game is accepted and wins nothing. */
  lemma RedRowStep(prev: Play, k: nat)
    requires 1 <= k <= 4 && Shaped(prev.state, 3) && RedRowAt(prev.state, k - 1)
    ensures RedRowAt(PlayStep(prev, 3, RedRowActs()[k - 1]).state, k)
  {
    var p := RedRowActs()[k - 1].cell;
    RedRowPlace(k);
    RedRowNoWin(k);
    QuietClick(prev, 3, p);
  }

  /** No one has won during the first four moves, and the turn alternates. */
  lemma {:induction false} RedRowQuiet(s0: GameState, k: nat)
    requires k <= 4
    ensures RedRowAt(PlayFrom(Reset(s0, 3, Red), 3, RedRowActs()[..k]).state, k)
  {
    var s := Reset(s0, 3, Red);
    if k == 0 {
      AllEmptyIsEmptyGrid(RedRowGrid(0), 3);
      assert RedRowActs()[..0] == [];
    } else {
      RedRowQuiet(s0, k - 1);
      PlayFromSnoc(s, 3, RedRowActs(), k - 1);
      RedRowStep(PlayFrom(s, 3, RedRowActs()[..k - 1]), k);
    }
  }

  /** The fifth move, red (2,0), gives red the chain (0,0), (1,0), (2,0). */
  lemma RedRowChain()
    ensures Wins(Place(RedRowGrid(4), Pos(2, 0), Stone(Red)), 3, Red)
  {
    var R, B, E := Stone(Red), Stone(Blue), Empty;
    var g4 := RedRowGrid(4);
    var g5 := [[R, R, R], [E, E, E], [B, B, E]];
    assert g4[0][2 := R] == g5[0];
    assert Place(g4, Pos(2, 0), R) == g5;
    var chain := [Pos(0, 0), Pos(1, 0), Pos(2, 0)];
    forall i | 0 <= i < 3
      ensures Owned(g5, 3, chain[i], Red)
    {
      assert chain[i] == Pos(i, 0) && g5[0][i] == R;
    }
    forall i | 0 <= i < 2
      ensures Adjacent(chain[i], chain[i + 1])
    {
      assert chain[i + 1] == Neighbor(chain[i], 1);
    }
    assert WinningChain(g5, 3, Red, chain);
  }

  /** The fifth move, red (2,0), completes red's row. */
  lemma RedRowLast(prev: Play)
    requires Shaped(prev.state, 3) && RedRowAt(prev.state, 4)
    ensures var s := PlayStep(prev, 3, Click(Pos(2, 0))).state;
            && s.gameOver && s.winner == Some(Red) && s.currentPlayer == Red && s.moveCount == 5
  {
    RedRowChain();
    WinningClick(prev, 3, Pos(2, 0));
  }

  /** Size 3, red first: red (0,0), blue (0,2), red (1,0), blue (1,2), red (2,0). Red joins column 0 to column 2 and wins. */
  lemma RedRowWins(s0: GameState)
    ensures var s := PlayFrom(Reset(s0, 3, Red), 3, RedRowActs()).state;
            && s.gameOver && s.winner == Some(Red) && s.currentPlayer == Red && s.moveCount == 5
  {
    var s := Reset(s0, 3, Red);
    var acts := RedRowActs();
    RedRowQuiet(s0, 4);
    PlayFromSnoc(s, 3, acts, 4);
    assert acts[..5] == acts;
    RedRowLast(PlayFrom(s, 3, acts[..4]));
  }

  /** Size 5: red opens at (1,1) and blue swaps. (1,1) is empty again, blue holds (3,3), the count stays 1 and blue moves next. */
  lemma SwapReflectsOpening(s0: GameState)
    ensures var s := PlayFrom(Reset(s0, 5, Red), 5, [Click(Pos(1, 1)), SwapClick]).state;
            && s.grid[1][1] == Empty && s.grid[3][3] == Stone(Blue)
            && !s.swapAvailable && s.swapRule && s.moveCount == 1 && s.currentPlayer == Blue
    ensures PlayFrom(Reset(s0, 5, Red), 5, [Click(Pos(1, 1)), SwapClick]).records
              == [MoveRecord(Red, Pos(1, 1), 1, true, Some(Pos(3, 3)))]
  {
    var acts := [Click(Pos(1, 1)), SwapClick];
    var s := Reset(s0, 5, Red);
    var g1 := Place(s.grid, Pos(1, 1), Stone(Red));
    forall k | 0 <= k < 5
      ensures !Owned(g1, 5, StartCell(Red, k), Red)
    {
      assert g1[k][0] == s.grid[k][0];
    }
    NoStartStoneNoWin(g1, 5, Red);
    assert acts[..0] == [];
    PlayFromSnoc(s, 5, acts, 0);
    QuietClick(Play(s, []), 5, Pos(1, 1));
    var p1 := PlayFrom(s, 5, acts[..1]);
    assert SwapAllowed(p1.state) && |p1.records| == 1 && p1.state.firstMovePosition == Some(Pos(1, 1));
    PlayFromSnoc(s, 5, acts, 1);
    assert acts[..2] == acts;
    assert Reflect(Pos(1, 1), 5) == Pos(3, 3);
  }
}
