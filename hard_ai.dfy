/**
 * HardAI (hard_ai.py): its own win check (check_win with dfs_red / dfs_blue),
 * the two board heuristics it scores a candidate with, and the deterministic
 * branches of get_move. The board is the same grid as boardData; 'red',
 * 'blue' and None are Stone(Red), Stone(Blue) and Empty.
 */
module HardAI {
  import opened Hex
  import opened Connectivity
  import opened Scan
  import Board
  import Game

  // ---------------------------------------------------------------------------
  // check_win

  /**
   * A start cell whose search has marked a closed set of explored cells
   * cannot reach the end edge.
   */
  lemma ExploredBlocksStart(grid: seq<seq<Cell>>, n: nat, player: Player, visited: array2<bool>, s: Pos)
    requires visited.Length0 == n && visited.Length1 == n && InBounds(s, n)
    requires forall i, j :: 0 <= i < n && 0 <= j < n && visited[i, j] ==> Explored(grid, n, player, visited, Pos(j, i))
    requires visited[s.r, s.q]
    ensures !ReachesEnd(grid, n, player, s)
  {
    MarkedIsClosed(grid, n, player, visited);
    MarkedAt(visited, s);
    RegionBlocksEnd(grid, n, player, Marked(visited), s);
  }

  /** When no stone of the player on its start edge reaches the end edge, the player has not won. */
  lemma NoStartReaches(grid: seq<seq<Cell>>, n: nat, player: Player)
    requires forall k :: 0 <= k < n && Owned(grid, n, StartCell(player, k), player) ==>
               !ReachesEnd(grid, n, player, StartCell(player, k))
    ensures !Wins(grid, n, player)
  {
    forall path | IsChain(grid, n, player, path) && OnStartEdge(path[0], player)
      ensures !OnEndEdge(path[|path| - 1], n, player)
    {
      var s := path[0];
      assert Owned(grid, n, s, player);
      var k := if player == Red then s.r else s.q;
      assert s == StartCell(player, k);
    }
  }

  /**
   * check_win: every cell of the player's start edge (column 0 for red, row 0
   * for blue) holding the player's stone starts a search with a fresh visited
   * matrix; the first search that reaches the end edge decides. The result is
   * exactly the win condition.
   */
  method CheckWin(board: seq<seq<Cell>>, n: nat, player: Player) returns (won: bool)
    requires IsGrid(board, n)
    ensures won == Wins(board, n, player)
  {
    for k := 0 to n
      invariant forall e :: 0 <= e < k && Owned(board, n, StartCell(player, e), player) ==>
                  !ReachesEnd(board, n, player, StartCell(player, e))
    {
      var s := StartCell(player, k);
      if board[s.r][s.q] == Stone(player) {
        var visited := new bool[n, n]((_, _) => false);
        var found, chain := Dfs(board, n, player, visited, s);
        if found {
          assert WinningChain(board, n, player, chain);
          return true;
        }
        ExploredBlocksStart(board, n, player, visited, s);
      }
    }
    NoStartReaches(board, n, player);
    return false;
  }

  /**
   * game.js checkWin shares one visited matrix across all start cells,
   * check_win allocates a fresh one per start cell: on the same board they
   * return the same verdict.
   */
  method CheckWinsAgree(game: Game.HexGame, player: Player) returns (shared: bool, separate: bool)
    requires game.board.Valid()
    ensures shared == separate
    ensures shared == Wins(game.board.boardData, game.board.size, player)
  {
    shared := game.CheckWin(player);
    separate := CheckWin(game.board.boardData, game.board.size, player);
  }

  // ---------------------------------------------------------------------------
  // connectivity_score

  /** How many of the first d neighbour offsets of c hold a stone of player. */
  function NeighbourCount(board: seq<seq<Cell>>, n: nat, c: Pos, player: Player, d: nat): (k: nat)
    requires d <= 6
    ensures k <= d
  {
    if d == 0 then 0
    else NeighbourCount(board, n, c, player, d - 1) + if Owned(board, n, Neighbor(c, d - 1), player) then 1 else 0
  }

  /** The count is positive exactly when one of the counted neighbours holds a stone of player. */
  lemma {:induction false} NeighbourCountPositive(board: seq<seq<Cell>>, n: nat, c: Pos, player: Player, d: nat)
    requires d <= 6
    ensures NeighbourCount(board, n, c, player, d) > 0 <==> exists e :: 0 <= e < d && Owned(board, n, Neighbor(c, e), player)
  {
    if d > 0 {
      NeighbourCountPositive(board, n, c, player, d - 1);
      if Owned(board, n, Neighbor(c, d - 1), player) {
        assert 0 <= d - 1 < d;
      }
    }
  }

  /**
   * connectivity_score: the number of in-bounds neighbours of c holding
   * player, over 6. It lies in [0, 1] and is positive exactly when c has a
   * neighbour of the player's colour.
   */
  method ConnectivityScore(board: seq<seq<Cell>>, n: nat, c: Pos, player: Player) returns (score: real)
    requires IsGrid(board, n)
    ensures score == NeighbourCount(board, n, c, player, 6) as real / 6.0
    ensures 0.0 <= score <= 1.0
    ensures score > 0.0 <==> Touches(board, n, c, player)
  {
    var connected := 0;
    for d := 0 to 6
      invariant connected == NeighbourCount(board, n, c, player, d)
    {
      var next := Neighbor(c, d);
      if 0 <= next.q < n && 0 <= next.r < n {
        if board[next.r][next.q] == Stone(player) {
          connected := connected + 1;
        }
      }
    }
    NeighbourCountPositive(board, n, c, player, 6);
    score := connected as real / 6.0;
  }

  // ---------------------------------------------------------------------------
  // path_potential_score

  /** The k-th cell of the player's goal edge: column N-1 for red, row N-1 for blue. */
  function EndCell(player: Player, k: int, n: nat): (p: Pos)
    ensures OnEndEdge(p, n, player)
  {
    if player == Red then Pos(n - 1, k) else Pos(k, n - 1)
  }

  /** Some cell of the player's start edge holds the player's stone. */
  ghost predicate TouchesStartEdge(board: seq<seq<Cell>>, n: nat, player: Player) {
    exists k :: 0 <= k < n && Owned(board, n, StartCell(player, k), player)
  }

  /** Some cell of the player's goal edge holds the player's stone. */
  ghost predicate TouchesEndEdge(board: seq<seq<Cell>>, n: nat, player: Player) {
    exists k :: 0 <= k < n && Owned(board, n, EndCell(player, k, n), player)
  }

  /** The value path_potential_score promises: 1 for both edges, 0.5 for one, 0 for none. */
  ghost function Potential(board: seq<seq<Cell>>, n: nat, player: Player): real {
    var s := TouchesStartEdge(board, n, player);
    var e := TouchesEndEdge(board, n, player);
    if s && e then 1.0 else if s || e then 0.5 else 0.0
  }

  /**
   * path_potential_score: one pass along the player's two edges, setting a
   * flag for each edge that holds a stone of the player.
   */
  method PathPotentialScore(board: seq<seq<Cell>>, n: nat, player: Player) returns (score: real)
    requires IsGrid(board, n)
    ensures score == Potential(board, n, player)
  {
    var startConnected := false;
    var endConnected := false;
    for k := 0 to n
      invariant startConnected <==> exists e :: 0 <= e < k && Owned(board, n, StartCell(player, e), player)
      invariant endConnected <==> exists e :: 0 <= e < k && Owned(board, n, EndCell(player, e, n), player)
    {
      var s := StartCell(player, k);
      var t := EndCell(player, k, n);
      if board[s.r][s.q] == Stone(player) {
        startConnected := true;
      }
      if board[t.r][t.q] == Stone(player) {
        endConnected := true;
      }
    }
    if startConnected && endConnected {
      score := 1.0;
    } else if startConnected || endConnected {
      score := 0.5;
    } else {
      score := 0.0;
    }
  }

  /** A player who has won touches both goal edges, so the heuristic gives the full 1.0. */
  lemma WinMaximisesPotential(board: seq<seq<Cell>>, n: nat, player: Player)
    requires Wins(board, n, player)
    ensures Potential(board, n, player) == 1.0
  {
    var path :| WinningChain(board, n, player, path);
    var a := path[0];
    var b := path[|path| - 1];
    assert Owned(board, n, a, player) && Owned(board, n, b, player);
    assert a == StartCell(player, if player == Red then a.r else a.q);
    assert b == EndCell(player, if player == Red then b.r else b.q, n);
  }

  // ---------------------------------------------------------------------------
  // evaluate_move

  /**
   * The deterministic part of evaluate_move: the candidate stone goes on a
   * copy of the board, and the connectivity and path terms are scored on that
   * copy (position_score and the Monte Carlo term are not modelled). The
   * caller's board is a value here, so it is untouched by construction.
   */
  method EvaluateHeuristic(board: seq<seq<Cell>>, n: nat, c: Pos, player: Player) returns (score: real)
    requires IsGrid(board, n) && InBounds(c, n)
    ensures var copy := Place(board, c, Stone(player));
            score == 2.0 * (NeighbourCount(copy, n, c, player, 6) as real / 6.0) + 3.0 * Potential(copy, n, player)
    ensures 0.0 <= score <= 5.0
    ensures Wins(Place(board, c, Stone(player)), n, player) ==> score >= 3.0
  {
    var copy := Place(board, c, Stone(player));
    var connectivity := ConnectivityScore(copy, n, c, player);
    var potential := PathPotentialScore(copy, n, player);
    score := 2.0 * connectivity + 3.0 * potential;
    if Wins(copy, n, player) {
      WinMaximisesPotential(copy, n, player);
    }
  }

  // ---------------------------------------------------------------------------
  // get_move

  /** No stone of player lies before (q, r) in scan order (rows first, then columns). */
  predicate NoneBefore(board: seq<seq<Cell>>, n: nat, player: Player, r: int, q: int)
    requires IsGrid(board, n)
  {
    forall i, j :: 0 <= i < n && 0 <= j < n && (i < r || (i == r && j < q)) ==> board[i][j] != Stone(player)
  }

  /**
   * The red_move search of get_move: scan rows, then columns, and stop at the
   * first stone of player (break out of the column loop, then out of the row
   * loop).
   */
  method FindFirstStone(board: seq<seq<Cell>>, n: nat, player: Player) returns (found: Option<Pos>)
    requires IsGrid(board, n)
    ensures found.Some? ==> InBounds(found.value, n) && board[found.value.r][found.value.q] == Stone(player)
                            && NoneBefore(board, n, player, found.value.r, found.value.q)
    ensures found.None? ==> NoneBefore(board, n, player, n, 0)
  {
    found := None;
    for r := 0 to n
      invariant found.None? && NoneBefore(board, n, player, r, 0)
    {
      for q := 0 to n
        invariant found.None? && NoneBefore(board, n, player, r, q)
      {
        if board[r][q] == Stone(player) {
          found := Some(Pos(q, r));
          break;
        }
      }
      if found.Some? {
        break;
      }
    }
  }

  /** Off the centre cell, the point reflection moves the cell. */
  lemma ReflectOffCentre(p: Pos, n: nat)
    requires InBounds(p, n) && p != Pos(n / 2, n / 2)
    ensures Reflect(p, n) != p
  {
  }

  /**
   * get_move, with the Monte Carlo evaluation replaced by the index choice
   * of the cell it settles on among the empty cells: None on a full board;
   * the centre on an empty board; for blue facing a single red stone off the
   * centre, that stone's point reflection; otherwise, and always from the
   * third stone on, the chosen empty cell. Every returned cell is empty.
   */
  method GetMove(board: seq<seq<Cell>>, n: nat, player: Player, choice: nat) returns (move: Option<Pos>)
    requires IsGrid(board, n)
    ensures move.None? <==> forall p :: !IsEmptyAt(board, n, p)
    ensures move.Some? ==> IsEmptyAt(board, n, move.value)
    ensures n > 0 && board == EmptyGrid(n) ==> move == Some(Pos(n / 2, n / 2))
    ensures player == Blue ==> forall p :: OnlyStone(board, n, p) && board[p.r][p.q] == Stone(Red) && p != Pos(n / 2, n / 2) ==>
              move == Some(Reflect(p, n))
    ensures 0 < |EmptyCells(board, n)| < n * n - 1 ==>
              move == Some(EmptyCells(board, n)[choice % |EmptyCells(board, n)|])
  {
    var cells := CollectEmptyCells(board, n);
    if |cells| == 0 {
      return None;
    }
    AllEmptyCount(board, n);
    if |cells| == n * n {
      var center := n / 2;
      assert IsEmptyAt(board, n, Pos(center, center));
      return Some(Pos(center, center));
    }
    var redMove: Option<Pos> := None;
    if |cells| == n * n - 1 && player == Blue {
      redMove := FindFirstStone(board, n, Red);
      if redMove.Some? {
        var p := redMove.value;
        var center := n / 2;
        if p.q != center || p.r != center {
          OneStoneLeft(board, n, p);
          ReflectOffCentre(p, n);
          forall p' | OnlyStone(board, n, p')
            ensures p' == p
          {
            assert !IsEmptyAt(board, n, p);
          }
          assert IsEmptyAt(board, n, Reflect(p, n));
          return Some(Reflect(p, n));
        }
      }
    }
    forall p | player == Blue && OnlyStone(board, n, p) && board[p.r][p.q] == Stone(Red)
      ensures p == Pos(n / 2, n / 2)
    {
      OneStoneCount(board, n, p);
      assert redMove.Some?;
      assert !IsEmptyAt(board, n, redMove.value);
    }
    assert cells[choice % |cells|] in cells;
    move := Some(cells[choice % |cells|]);
  }
}
