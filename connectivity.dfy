/**
 * Edge-to-edge connectivity, the win condition of Hex.
 *
 * The specification: a player has won when a chain of that player's stones,
 * each hex-adjacent to the next, runs from the player's start edge to the
 * opposite edge. The searches of game.js (dfs, findWinningPath) and of
 * hard_ai.py (dfs_red, dfs_blue) are modelled here as methods over a
 * visited matrix that they mark as they go, and proved sound and complete
 * against that specification.
 */
module Connectivity {
  import opened Hex

  /** Red starts from column 0, blue from row 0. */
  predicate OnStartEdge(p: Pos, player: Player) {
    if player == Red then p.q == 0 else p.r == 0
  }

  /** Red must reach column N-1, blue row N-1. */
  predicate OnEndEdge(p: Pos, n: nat, player: Player) {
    if player == Red then p.q == n - 1 else p.r == n - 1
  }

  /** The k-th cell of the player's start edge, in the order the searches scan it. */
  function StartCell(player: Player, k: int): (p: Pos)
    ensures OnStartEdge(p, player)
  {
    if player == Red then Pos(0, k) else Pos(k, 0)
  }

  /** A non-empty run of the player's stones, each adjacent to the next. */
  ghost predicate IsChain(grid: seq<seq<Cell>>, n: nat, player: Player, path: seq<Pos>) {
    && |path| > 0
    && (forall i :: 0 <= i < |path| ==> Owned(grid, n, path[i], player))
    && (forall i :: 0 <= i < |path| - 1 ==> Adjacent(path[i], path[i + 1]))
  }

  /** A chain from the player's start edge to the player's end edge. */
  ghost predicate WinningChain(grid: seq<seq<Cell>>, n: nat, player: Player, path: seq<Pos>) {
    IsChain(grid, n, player, path) && OnStartEdge(path[0], player) && OnEndEdge(path[|path| - 1], n, player)
  }

  /** The win condition. */
  ghost predicate Wins(grid: seq<seq<Cell>>, n: nat, player: Player) {
    exists path :: WinningChain(grid, n, player, path)
  }

  /** Some chain of the player's stones leads from s to the player's end edge. */
  ghost predicate ReachesEnd(grid: seq<seq<Cell>>, n: nat, player: Player, s: Pos) {
    exists path :: IsChain(grid, n, player, path) && path[0] == s && OnEndEdge(path[|path| - 1], n, player)
  }

  predicate Distinct(path: seq<Pos>) {
    forall i, j :: 0 <= i < j < |path| ==> path[i] != path[j]
  }

  /**
   * A set of cells none of which is on the end edge and which contains every
   * stone of the player next to one of its cells: no chain can leave it.
   */
  ghost predicate ClosedRegion(grid: seq<seq<Cell>>, n: nat, player: Player, region: set<Pos>) {
    forall p :: p in region ==> ShutIn(grid, n, player, region, p)
  }

  /** p is not on the end edge and every stone of the player next to p lies in region. */
  ghost predicate ShutIn(grid: seq<seq<Cell>>, n: nat, player: Player, region: set<Pos>, p: Pos) {
    && !OnEndEdge(p, n, player)
    && forall d :: 0 <= d < 6 && Owned(grid, n, Neighbor(p, d), player) ==> Neighbor(p, d) in region
  }

  lemma ChainCons(grid: seq<seq<Cell>>, n: nat, player: Player, c: Pos, chain: seq<Pos>)
    requires IsChain(grid, n, player, chain)
    requires Owned(grid, n, c, player) && Adjacent(c, chain[0])
    ensures IsChain(grid, n, player, [c] + chain)
  {
    var path := [c] + chain;
    forall i | 0 <= i < |path| - 1
      ensures Adjacent(path[i], path[i + 1])
    {
      if i > 0 {
        assert path[i] == chain[i - 1] && path[i + 1] == chain[i];
      }
    }
  }

  /** A cell put in front of a repetition-free path that does not contain it keeps it repetition-free. */
  lemma DistinctCons(c: Pos, path: seq<Pos>)
    requires Distinct(path) && c !in path
    ensures Distinct([c] + path)
  {
    var full := [c] + path;
    forall i, j | 0 <= i < j < |full|
      ensures full[i] != full[j]
    {
      assert full[j] == path[j - 1];
      if i > 0 {
        assert full[i] == path[i - 1];
      }
    }
  }

  /** Every cell of a chain that starts inside a closed region stays inside it. */
  lemma {:induction false} ChainStaysInRegion(grid: seq<seq<Cell>>, n: nat, player: Player, region: set<Pos>, path: seq<Pos>)
    requires ClosedRegion(grid, n, player, region)
    requires IsChain(grid, n, player, path) && path[0] in region
    ensures forall i :: 0 <= i < |path| ==> path[i] in region
  {
    if |path| > 1 {
      var front := path[..|path| - 1];
      assert IsChain(grid, n, player, front) by {
        assert forall i :: 0 <= i < |front| ==> front[i] == path[i];
      }
      ChainStaysInRegion(grid, n, player, region, front);
      var last, prev := path[|path| - 1], path[|path| - 2];
      assert prev == front[|front| - 1];
      assert Adjacent(prev, last);
      var d :| 0 <= d < 6 && last == Neighbor(prev, d);
      assert ShutIn(grid, n, player, region, prev);
      assert Owned(grid, n, last, player);
      forall i | 0 <= i < |path|
        ensures path[i] in region
      {
        if i < |path| - 1 {
          assert path[i] == front[i];
        }
      }
    }
  }

  /** No chain leads from a cell of a closed region to the end edge. */
  lemma RegionBlocksEnd(grid: seq<seq<Cell>>, n: nat, player: Player, region: set<Pos>, s: Pos)
    requires ClosedRegion(grid, n, player, region) && s in region
    ensures !ReachesEnd(grid, n, player, s)
  {
    forall path | IsChain(grid, n, player, path) && path[0] == s
      ensures !OnEndEdge(path[|path| - 1], n, player)
    {
      ChainStaysInRegion(grid, n, player, region, path);
      assert ShutIn(grid, n, player, region, path[|path| - 1]);
    }
  }

  /** A closed region holding every stone of the player on the start edge rules out a win. */
  lemma RegionBlocksWin(grid: seq<seq<Cell>>, n: nat, player: Player, region: set<Pos>)
    requires ClosedRegion(grid, n, player, region)
    requires forall k :: 0 <= k < n && Owned(grid, n, StartCell(player, k), player) ==> StartCell(player, k) in region
    ensures !Wins(grid, n, player)
  {
    forall path | IsChain(grid, n, player, path) && OnStartEdge(path[0], player)
      ensures !OnEndEdge(path[|path| - 1], n, player)
    {
      var s := path[0];
      assert Owned(grid, n, s, player);
      assert s == StartCell(player, if player == Red then s.r else s.q);
      ChainStaysInRegion(grid, n, player, region, path);
      assert ShutIn(grid, n, player, region, path[|path| - 1]);
    }
  }

  /** The first cell of the player's start edge, from the k-th on, that holds a stone of the player. */
  function FirstStart(grid: seq<seq<Cell>>, n: nat, player: Player, k: nat): (first: Option<Pos>)
    ensures first.Some? ==> Owned(grid, n, first.value, player) && OnStartEdge(first.value, player)
    decreases n - k
  {
    if k >= n then None
    else if Owned(grid, n, StartCell(player, k), player) then Some(StartCell(player, k))
    else FirstStart(grid, n, player, k + 1)
  }

  /** A winning chain is a chain from one of the start-edge cells that the searches try. */
  lemma WinsFromSomeStart(grid: seq<seq<Cell>>, n: nat, player: Player)
    requires Wins(grid, n, player)
    ensures exists k :: 0 <= k < n && Owned(grid, n, StartCell(player, k), player) && ReachesEnd(grid, n, player, StartCell(player, k))
  {
    var path :| WinningChain(grid, n, player, path);
    var s := path[0];
    assert Owned(grid, n, s, player);
    var k := if player == Red then s.r else s.q;
    assert s == StartCell(player, k);
    assert IsChain(grid, n, player, path) && path[0] == s && OnEndEdge(path[|path| - 1], n, player);
  }

  // ---------------------------------------------------------------------------
  // The visited matrix shared by a search

  /** Cells marked in the visited matrix. */
  ghost function Marked(visited: array2<bool>): set<Pos>
    reads visited
  {
    set i, j | 0 <= i < visited.Length0 && 0 <= j < visited.Length1 && visited[i, j] :: Pos(j, i)
  }

  /** Cells not yet marked: the measure that makes every search terminate. */
  ghost function Unmarked(visited: array2<bool>): set<Pos>
    reads visited
  {
    set i, j | 0 <= i < visited.Length0 && 0 <= j < visited.Length1 && !visited[i, j] :: Pos(j, i)
  }

  /** The search is done with p: p is not on the end edge and all of its stones' neighbours are marked. */
  ghost predicate Explored(grid: seq<seq<Cell>>, n: nat, player: Player, visited: array2<bool>, p: Pos)
    reads visited
    requires visited.Length0 == n && visited.Length1 == n
  {
    && !OnEndEdge(p, n, player)
    && forall d :: 0 <= d < 6 && Owned(grid, n, Neighbor(p, d), player) ==> visited[Neighbor(p, d).r, Neighbor(p, d).q]
  }

  /** If every marked cell is explored, the marked cells form a closed region. */
  lemma MarkedIsClosed(grid: seq<seq<Cell>>, n: nat, player: Player, visited: array2<bool>)
    requires visited.Length0 == n && visited.Length1 == n
    requires forall i, j :: 0 <= i < n && 0 <= j < n && visited[i, j] ==> Explored(grid, n, player, visited, Pos(j, i))
    ensures ClosedRegion(grid, n, player, Marked(visited))
  {
    var region := Marked(visited);
    forall p | p in region
      ensures ShutIn(grid, n, player, region, p)
    {
      var i, j :| 0 <= i < n && 0 <= j < n && visited[i, j] && p == Pos(j, i);
      assert Explored(grid, n, player, visited, Pos(j, i));
      forall d | 0 <= d < 6 && Owned(grid, n, Neighbor(p, d), player)
        ensures Neighbor(p, d) in region
      {
        var m := Neighbor(p, d);
        assert visited[m.r, m.q];
        assert m == Pos(m.q, m.r);
      }
    }
  }

  /** A cell is marked exactly when its entry of the visited matrix is set. */
  lemma MarkedAt(visited: array2<bool>, p: Pos)
    requires 0 <= p.r < visited.Length0 && 0 <= p.q < visited.Length1
    ensures p in Marked(visited) <==> visited[p.r, p.q]
    ensures p in Unmarked(visited) <==> !visited[p.r, p.q]
  {
    if visited[p.r, p.q] {
      assert p == Pos(p.q, p.r);
    } else {
      assert p == Pos(p.q, p.r);
    }
  }

  /**
   * When every marked cell is explored and every stone of the player on its
   * start edge is marked, the player has no winning chain: the searches that
   * marked them failed everywhere.
   */
  lemma ExploredBlocksWin(grid: seq<seq<Cell>>, n: nat, player: Player, visited: array2<bool>)
    requires visited.Length0 == n && visited.Length1 == n
    requires forall i, j :: 0 <= i < n && 0 <= j < n && visited[i, j] ==> Explored(grid, n, player, visited, Pos(j, i))
    requires forall k :: 0 <= k < n && Owned(grid, n, StartCell(player, k), player) ==>
               visited[StartCell(player, k).r, StartCell(player, k).q]
    ensures !Wins(grid, n, player)
  {
    MarkedIsClosed(grid, n, player, visited);
    forall k | 0 <= k < n && Owned(grid, n, StartCell(player, k), player)
      ensures StartCell(player, k) in Marked(visited)
    {
      MarkedAt(visited, StartCell(player, k));
    }
    RegionBlocksWin(grid, n, player, Marked(visited));
  }

  /** Marking cells only shrinks the unmarked set. */
  twostate lemma UnmarkedShrinks(visited: array2<bool>)
    requires forall i, j :: 0 <= i < visited.Length0 && 0 <= j < visited.Length1 && old(visited[i, j]) ==> visited[i, j]
    ensures Unmarked(visited) <= old(Unmarked(visited))
  {
    forall p | p in Unmarked(visited)
      ensures p in old(Unmarked(visited))
    {
      var i, j :| 0 <= i < visited.Length0 && 0 <= j < visited.Length1 && !visited[i, j] && p == Pos(j, i);
      assert !old(visited[i, j]);
    }
  }

  // ---------------------------------------------------------------------------
  // The searches

  /**
   * game.js dfs (and hard_ai.py dfs_red / dfs_blue, the same search with the
   * colour fixed): mark c, succeed on the end edge, otherwise recurse into
   * each unmarked stone of the player among the six neighbours, in order.
   * On success the ghost chain is a chain from c to the end edge; on failure
   * every cell this call marked is explored.
   */
  method Dfs(grid: seq<seq<Cell>>, n: nat, player: Player, visited: array2<bool>, c: Pos)
    returns (found: bool, ghost chain: seq<Pos>)
    requires IsGrid(grid, n) && visited.Length0 == n && visited.Length1 == n
    requires Owned(grid, n, c, player) && !visited[c.r, c.q]
    modifies visited
    decreases Unmarked(visited)
    ensures visited[c.r, c.q]
    ensures forall i, j :: 0 <= i < n && 0 <= j < n && old(visited[i, j]) ==> visited[i, j]
    ensures found ==> IsChain(grid, n, player, chain) && chain[0] == c && OnEndEdge(chain[|chain| - 1], n, player)
    ensures !found ==> forall i, j :: 0 <= i < n && 0 <= j < n && visited[i, j] && !old(visited[i, j]) ==>
                         Explored(grid, n, player, visited, Pos(j, i))
  {
    MarkedAt(visited, c);
    visited[c.r, c.q] := true;
    UnmarkedShrinks(visited);
    MarkedAt(visited, c);
    if OnEndEdge(c, n, player) {
      return true, [c];
    }
    for d := 0 to 6
      invariant visited[c.r, c.q]
      invariant forall i, j :: 0 <= i < n && 0 <= j < n && old(visited[i, j]) ==> visited[i, j]
      invariant Unmarked(visited) < old(Unmarked(visited))
      invariant forall i, j :: 0 <= i < n && 0 <= j < n && visited[i, j] && !old(visited[i, j]) && Pos(j, i) != c ==>
                  Explored(grid, n, player, visited, Pos(j, i))
      invariant forall e :: 0 <= e < d && Owned(grid, n, Neighbor(c, e), player) ==> visited[Neighbor(c, e).r, Neighbor(c, e).q]
    {
      var next := Neighbor(c, d);
      if 0 <= next.q < n && 0 <= next.r < n {
        if grid[next.r][next.q] == Stone(player) && !visited[next.r, next.q] {
          var f, sub := Dfs(grid, n, player, visited, next);
          UnmarkedShrinks(visited);
          MarkedAt(visited, c);
          if f {
            ChainCons(grid, n, player, c, sub);
            return true, [c] + sub;
          }
        }
      }
    }
    return false, [];
  }

  /**
   * game.js findWinningPath: the same search, pushing each cell it enters onto
   * path and popping it again when that cell leads nowhere. On success path has
   * grown by a chain of distinct cells, unmarked before the call, from c to the
   * end edge; on failure path is exactly what it was.
   */
  method FindWinningPath(grid: seq<seq<Cell>>, n: nat, player: Player, visited: array2<bool>, c: Pos, path: seq<Pos>)
    returns (found: bool, newPath: seq<Pos>, ghost suffix: seq<Pos>)
    requires IsGrid(grid, n) && visited.Length0 == n && visited.Length1 == n
    requires Owned(grid, n, c, player) && !visited[c.r, c.q]
    modifies visited
    decreases Unmarked(visited)
    ensures visited[c.r, c.q]
    ensures forall i, j :: 0 <= i < n && 0 <= j < n && old(visited[i, j]) ==> visited[i, j]
    ensures found ==> newPath == path + suffix && IsChain(grid, n, player, suffix) && suffix[0] == c
                      && OnEndEdge(suffix[|suffix| - 1], n, player) && Distinct(suffix)
                      && forall k :: 0 <= k < |suffix| ==> suffix[k] in old(Unmarked(visited))
    ensures !found ==> newPath == path
    ensures !found ==> forall i, j :: 0 <= i < n && 0 <= j < n && visited[i, j] && !old(visited[i, j]) ==>
                         Explored(grid, n, player, visited, Pos(j, i))
  {
    MarkedAt(visited, c);
    visited[c.r, c.q] := true;
    UnmarkedShrinks(visited);
    MarkedAt(visited, c);
    newPath := path + [c];
    if OnEndEdge(c, n, player) {
      return true, newPath, [c];
    }
    for d := 0 to 6
      invariant newPath == path + [c]
      invariant visited[c.r, c.q]
      invariant forall i, j :: 0 <= i < n && 0 <= j < n && old(visited[i, j]) ==> visited[i, j]
      invariant Unmarked(visited) < old(Unmarked(visited))
      invariant forall i, j :: 0 <= i < n && 0 <= j < n && visited[i, j] && !old(visited[i, j]) && Pos(j, i) != c ==>
                  Explored(grid, n, player, visited, Pos(j, i))
      invariant forall e :: 0 <= e < d && Owned(grid, n, Neighbor(c, e), player) ==> visited[Neighbor(c, e).r, Neighbor(c, e).q]
    {
      var next := Neighbor(c, d);
      if 0 <= next.q < n && 0 <= next.r < n {
        if grid[next.r][next.q] == Stone(player) && !visited[next.r, next.q] {
          MarkedAt(visited, c);
          ghost var before := Unmarked(visited);
          var f, extended, sub := FindWinningPath(grid, n, player, visited, next, newPath);
          UnmarkedShrinks(visited);
          MarkedAt(visited, c);
          if f {
            ChainCons(grid, n, player, c, sub);
            FreshCons(c, sub, before, old(Unmarked(visited)));
            AppendAssoc(path, [c], sub);
            return true, extended, [c] + sub;
          }
        }
      }
    }
    assert newPath[..|newPath| - 1] == path;
    newPath := newPath[..|newPath| - 1];
    return false, newPath, [];
  }

  lemma AppendAssoc(a: seq<Pos>, b: seq<Pos>, c: seq<Pos>)
    ensures (a + b) + c == a + (b + c)
  {
  }

  /** A new cell in front of fresh, repetition-free cells stays repetition-free and fresh. */
  lemma FreshCons(c: Pos, sub: seq<Pos>, later: set<Pos>, earlier: set<Pos>)
    requires Distinct(sub) && (forall k :: 0 <= k < |sub| ==> sub[k] in later)
    requires c !in later && later <= earlier && c in earlier
    ensures Distinct([c] + sub)
    ensures forall k :: 0 <= k < |[c] + sub| ==> ([c] + sub)[k] in earlier
  {
    DistinctCons(c, sub);
  }
}
