/**
 * Shared vocabulary of the Hex engine: players, cell occupants, coordinates,
 * the N x N occupancy grid and the six hex-neighbour offsets that every
 * search in the game (game.js, hard_ai.py, medium_ai.py) walks in the same order.
 */
module Hex {

  datatype Option<T> = None | Some(value: T)

  /** The two sides. Red joins column q = 0 to column q = N-1, blue joins row r = 0 to row r = N-1. */
  datatype Player = Red | Blue

  function Opponent(p: Player): (o: Player)
    ensures o != p
  {
    if p == Red then Blue else Red
  }

  /** One entry of boardData: null (Empty) or the colour of the stone on it. */
  datatype Cell = Empty | Stone(owner: Player)

  /** A coordinate: q is the column, r the row; the grid is addressed grid[r][q]. */
  datatype Pos = Pos(q: int, r: int)

  /** grid has n rows of n entries each. */
  predicate IsGrid(grid: seq<seq<Cell>>, n: nat) {
    |grid| == n && forall r :: 0 <= r < n ==> |grid[r]| == n
  }

  predicate InBounds(p: Pos, n: nat) {
    0 <= p.q < n && 0 <= p.r < n
  }

  /** The cell at p holds a stone of player (false outside the grid). */
  predicate Owned(grid: seq<seq<Cell>>, n: nat, p: Pos, player: Player) {
    InBounds(p, n) && p.r < |grid| && p.q < |grid[p.r]| && grid[p.r][p.q] == Stone(player)
  }

  /** The cell at p is on the grid and empty. */
  predicate IsEmptyAt(grid: seq<seq<Cell>>, n: nat, p: Pos) {
    InBounds(p, n) && p.r < |grid| && p.q < |grid[p.r]| && grid[p.r][p.q] == Empty
  }

  /** The grid with cell p replaced by c and every other cell kept. */
  function Place(grid: seq<seq<Cell>>, p: Pos, c: Cell): (g: seq<seq<Cell>>)
    requires 0 <= p.r < |grid| && 0 <= p.q < |grid[p.r]|
    ensures |g| == |grid|
    ensures forall i :: 0 <= i < |grid| ==> |g[i]| == |grid[i]|
    ensures g[p.r][p.q] == c
    ensures forall i, j :: 0 <= i < |grid| && 0 <= j < |grid[i]| && (i != p.r || j != p.q) ==> g[i][j] == grid[i][j]
  {
    grid[p.r := grid[p.r][p.q := c]]
  }

  /** The all-empty n x n grid that HexBoard.initBoard builds. */
  function EmptyGrid(n: nat): (g: seq<seq<Cell>>)
    ensures IsGrid(g, n)
    ensures forall r, q :: 0 <= r < n && 0 <= q < n ==> g[r][q] == Empty
  {
    seq(n, _ => seq(n, _ => Empty))
  }

  /** A grid of the right shape whose every cell is empty is the empty grid. */
  lemma AllEmptyIsEmptyGrid(g: seq<seq<Cell>>, n: nat)
    requires IsGrid(g, n)
    requires forall r, q :: 0 <= r < n && 0 <= q < n ==> g[r][q] == Empty
    ensures g == EmptyGrid(n)
  {
    var e := EmptyGrid(n);
    forall r | 0 <= r < n
      ensures g[r] == e[r]
    {
      assert forall q :: 0 <= q < n ==> g[r][q] == e[r][q];
    }
  }

  /** The six hex-neighbour offsets (dq, dr), in the order every search tries them. */
  function Offset(d: nat): (int, int)
    requires d < 6
  {
    if d == 0 then (-1, 0)
    else if d == 1 then (1, 0)
    else if d == 2 then (0, -1)
    else if d == 3 then (0, 1)
    else if d == 4 then (-1, 1)
    else (1, -1)
  }

  function Neighbor(p: Pos, d: nat): Pos
    requires d < 6
  {
    Pos(p.q + Offset(d).0, p.r + Offset(d).1)
  }

  /** Some in-bounds hex neighbour of c holds a stone of player. */
  ghost predicate Touches(grid: seq<seq<Cell>>, n: nat, c: Pos, player: Player) {
    exists d :: 0 <= d < 6 && Owned(grid, n, Neighbor(c, d), player)
  }

  /** b lies at one of the six hex offsets from a. */
  predicate Adjacent(a: Pos, b: Pos) {
    exists d :: 0 <= d < 6 && b == Neighbor(a, d)
  }

  /** Hex adjacency is symmetric: every offset has its opposite in the list. */
  lemma AdjacentSymmetric(a: Pos, b: Pos)
    requires Adjacent(a, b)
    ensures Adjacent(b, a)
  {
    var d :| 0 <= d < 6 && b == Neighbor(a, d);
    var e := if d % 2 == 0 then d + 1 else d - 1;
    assert a == Neighbor(b, e);
  }

  /** Point reflection through the centre of the board: (N-1-q, N-1-r). */
  function Reflect(p: Pos, n: nat): (m: Pos)
    ensures InBounds(p, n) ==> InBounds(m, n)
    ensures Pos(n - 1 - m.q, n - 1 - m.r) == p
  {
    Pos(n - 1 - p.q, n - 1 - p.r)
  }
}
