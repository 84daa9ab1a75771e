/**
 * MediumAI (medium_ai.py): the neighbour test and get_move. The calls to
 * random.random() are the successive values roll(0), roll(1), ... and the two
 * random.choice calls are the indices pickEdge and pickAny, so every branch of
 * get_move is a function of its inputs.
 */
module MediumAI {
  import opened Hex
  import opened Scan

  /**
   * has_adjacent_same_color: try the six offsets in order and answer true at
   * the first in-bounds neighbour holding player.
   */
  method HasAdjacentSameColor(board: seq<seq<Cell>>, q: int, r: int, player: Player, n: nat) returns (found: bool)
    requires IsGrid(board, n)
    ensures found <==> Touches(board, n, Pos(q, r), player)
  {
    for d := 0 to 6
      invariant forall e :: 0 <= e < d ==> !Owned(board, n, Neighbor(Pos(q, r), e), player)
    {
      var next := Neighbor(Pos(q, r), d);
      if 0 <= next.q < n && 0 <= next.r < n {
        if board[next.r][next.q] == Stone(player) {
          return true;
        }
      }
    }
    return false;
  }

  /** The cell lies on one of the four borders of the board. */
  predicate OnBorder(p: Pos, n: nat) {
    p.q == 0 || p.q == n - 1 || p.r == 0 || p.r == n - 1
  }

  /** The border cells of the list, in list order. */
  function EdgeFilter(cells: seq<Pos>, n: nat): (edge: seq<Pos>)
    ensures |edge| <= |cells|
  {
    if |cells| == 0 then []
    else
      var c := cells[|cells| - 1];
      EdgeFilter(cells[..|cells| - 1], n) + if OnBorder(c, n) then [c] else []
  }

  /** A cell is kept by the filter exactly when it is in the list and on a border. */
  lemma {:induction false} EdgeFilterMembers(cells: seq<Pos>, n: nat)
    ensures forall p :: p in EdgeFilter(cells, n) <==> p in cells && OnBorder(p, n)
  {
    if |cells| > 0 {
      var front := cells[..|cells| - 1];
      EdgeFilterMembers(front, n);
      assert cells == front + [cells[|cells| - 1]];
    }
  }

  /** edge_cells holds exactly the empty cells of the board that lie on a border. */
  lemma EdgeCellsAreEmptyBorderCells(board: seq<seq<Cell>>, n: nat)
    requires IsGrid(board, n)
    ensures forall p :: p in EdgeFilter(EmptyCells(board, n), n) <==> IsEmptyAt(board, n, p) && OnBorder(p, n)
  {
    EdgeFilterMembers(EmptyCells(board, n), n);
  }

  /** The edge_cells loop of get_move: keep the cells with q or r equal to 0 or N-1. */
  method CollectEdgeCells(cells: seq<Pos>, n: nat) returns (edge: seq<Pos>)
    ensures edge == EdgeFilter(cells, n)
  {
    edge := [];
    for i := 0 to |cells|
      invariant edge == EdgeFilter(cells[..i], n)
    {
      var c := cells[i];
      assert cells[..i + 1][..i] == cells[..i];
      if c.q == 0 || c.q == n - 1 || c.r == 0 || c.r == n - 1 {
        edge := edge + [c];
      }
    }
    assert cells[..|cells|] == cells;
  }

  /** The first cell of the list with a neighbour holding player. */
  ghost function FirstTouching(board: seq<seq<Cell>>, n: nat, player: Player, cells: seq<Pos>): (first: Option<Pos>)
    ensures first.Some? ==> first.value in cells && Touches(board, n, first.value, player)
  {
    if |cells| == 0 then None
    else if Touches(board, n, cells[0], player) then Some(cells[0])
    else FirstTouching(board, n, player, cells[1..])
  }

  /**
   * One pass of get_move over the empty cells: each cell next to a stone of
   * player draws the next roll, and the first roll below threshold picks that
   * cell. Rolls are numbered from k0 on; k is the next unused one.
   */
  method TouchPass(board: seq<seq<Cell>>, n: nat, player: Player, cells: seq<Pos>, roll: nat -> real, k0: nat, threshold: real)
    returns (pick: Option<Pos>, k: nat)
    requires IsGrid(board, n)
    ensures k >= k0
    ensures pick.Some? ==> pick.value in cells
    ensures (forall j :: roll(j) >= threshold) ==> pick.None?
    ensures k0 == 0 && roll(0) < threshold && FirstTouching(board, n, player, cells).Some? ==>
              pick == FirstTouching(board, n, player, cells)
  {
    k := k0;
    for i := 0 to |cells|
      invariant k >= k0
      invariant k == 0 ==> FirstTouching(board, n, player, cells) == FirstTouching(board, n, player, cells[i..])
      invariant k0 == 0 && k > 0 ==> roll(0) >= threshold
    {
      var c := cells[i];
      assert cells[i..][1..] == cells[i + 1..];
      var touches := HasAdjacentSameColor(board, c.q, c.r, player, n);
      if touches {
        var x := roll(k);
        k := k + 1;
        if x < threshold {
          assert c in cells;
          return Some(c), k;
        }
      }
    }
    return None, k;
  }

  /**
   * get_move: None on a full board and the centre on an empty one. Otherwise
   * the empty cells in scan order are offered first to the "connect" rule
   * (a cell next to the player's own stone, taken when its roll is below 0.7),
   * then to the "block" rule (next to an opponent stone, below 0.6), then a
   * border cell when there is one and the roll is below 0.4, and finally the
   * pickAny-th empty cell. Whatever the rolls, the move is an empty cell.
   */
  method GetMove(board: seq<seq<Cell>>, n: nat, player: Player, roll: nat -> real, pickEdge: nat, pickAny: nat)
    returns (move: Option<Pos>)
    requires IsGrid(board, n)
    ensures move.None? <==> forall p :: !IsEmptyAt(board, n, p)
    ensures move.Some? ==> IsEmptyAt(board, n, move.value)
    ensures n > 0 && board == EmptyGrid(n) ==> move == Some(Pos(n / 2, n / 2))
    ensures |EmptyCells(board, n)| < n * n && FirstTouching(board, n, player, EmptyCells(board, n)).Some? && roll(0) < 0.7 ==>
              move == FirstTouching(board, n, player, EmptyCells(board, n))
    ensures 0 < |EmptyCells(board, n)| < n * n && (forall k :: roll(k) >= 0.7) ==>
              move == Some(EmptyCells(board, n)[pickAny % |EmptyCells(board, n)|])
  {
    var cells := CollectEmptyCells(board, n);
    if |cells| == 0 {
      return None;
    }
    AllEmptyCount(board, n);
    if |cells| == n * n {
      var center := n / 2;
      assert IsEmptyAt(board, n, Pos(center, center));
      return Some(Pos(center, center));
    }
    var pick, k := TouchPass(board, n, player, cells, roll, 0, 0.7);
    if pick.Some? {
      return pick;
    }
    pick, k := TouchPass(board, n, Opponent(player), cells, roll, k, 0.6);
    if pick.Some? {
      return pick;
    }
    var edge := CollectEdgeCells(cells, n);
    if |edge| > 0 {
      var x := roll(k);
      k := k + 1;
      if x < 0.4 {
        EdgeFilterMembers(cells, n);
        assert edge[pickEdge % |edge|] in edge;
        return Some(edge[pickEdge % |edge|]);
      }
    }
    assert cells[pickAny % |cells|] in cells;
    move := Some(cells[pickAny % |cells|]);
  }
}
