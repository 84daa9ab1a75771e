/**
 * The empty-cell scan that both Python AIs (hard_ai.py and medium_ai.py)
 * start get_move with: rows r = 0 .. N-1, and within a row columns
 * q = 0 .. N-1, collecting every cell that holds None.
 */
module Scan {
  import opened Hex

  /** Cells (0, r) .. (q-1, r) of row r, in scan order. */
  function RowCells(r: int, q: nat): (cells: seq<Pos>)
    ensures |cells| == q
    ensures forall i :: 0 <= i < q ==> cells[i] == Pos(i, r)
  {
    if q == 0 then [] else RowCells(r, q - 1) + [Pos(q - 1, r)]
  }

  /** All cells of rows 0 .. r-1 of an n-wide board, in scan order. */
  function Rows(n: nat, r: nat): seq<Pos> {
    if r == 0 then [] else Rows(n, r - 1) + RowCells(r - 1, n)
  }

  /** The first r rows hold r * n cells. */
  lemma {:induction false} RowsLength(n: nat, r: nat)
    ensures |Rows(n, r)| == r * n
  {
    if r > 0 {
      RowsLength(n, r - 1);
      assert |Rows(n, r)| == (r - 1) * n + n;
    }
  }

  /** Every cell of the n x n board, in scan order. */
  function AllCells(n: nat): seq<Pos> {
    Rows(n, n)
  }

  /** The cells of the list whose board entry is Empty, in list order. */
  function Empties(board: seq<seq<Cell>>, n: nat, cells: seq<Pos>): (e: seq<Pos>)
    ensures |e| <= |cells|
  {
    if |cells| == 0 then []
    else
      var c := cells[|cells| - 1];
      Empties(board, n, cells[..|cells| - 1]) + if IsEmptyAt(board, n, c) then [c] else []
  }

  /** The cells of the list that are not empty cells of the board, in list order. */
  function Stones(board: seq<seq<Cell>>, n: nat, cells: seq<Pos>): (s: seq<Pos>)
  {
    if |cells| == 0 then []
    else
      var c := cells[|cells| - 1];
      Stones(board, n, cells[..|cells| - 1]) + if IsEmptyAt(board, n, c) then [] else [c]
  }

  /** Empties and Stones split the list: their lengths add up to its length. */
  lemma {:induction false} SplitLength(board: seq<seq<Cell>>, n: nat, cells: seq<Pos>)
    ensures |Empties(board, n, cells)| + |Stones(board, n, cells)| == |cells|
  {
    if |cells| > 0 {
      SplitLength(board, n, cells[..|cells| - 1]);
    }
  }

  /** A cell of the list is in exactly one of Empties and Stones, according to its entry. */
  lemma {:induction false} SplitCells(board: seq<seq<Cell>>, n: nat, cells: seq<Pos>)
    ensures forall p :: p in Empties(board, n, cells) <==> p in cells && IsEmptyAt(board, n, p)
    ensures forall p :: p in Stones(board, n, cells) <==> p in cells && !IsEmptyAt(board, n, p)
  {
    if |cells| > 0 {
      var front := cells[..|cells| - 1];
      SplitCells(board, n, front);
      assert forall p :: p in cells <==> p in front || p == cells[|cells| - 1];
    }
  }

  /** Scanning one more cell appends it when it is empty. */
  lemma EmptiesSnoc(board: seq<seq<Cell>>, n: nat, cells: seq<Pos>, c: Pos)
    ensures Empties(board, n, cells + [c]) == Empties(board, n, cells) + if IsEmptyAt(board, n, c) then [c] else []
  {
    assert (cells + [c])[..|cells|] == cells;
  }

  /** Rows(n, r) holds exactly the cells of the first r rows. */
  lemma {:induction false} RowsInBounds(n: nat, r: nat)
    ensures forall p :: p in Rows(n, r) <==> 0 <= p.q < n && 0 <= p.r < r
  {
    if r > 0 {
      RowsInBounds(n, r - 1);
      var front := Rows(n, r - 1);
      var row := RowCells(r - 1, n);
      assert Rows(n, r) == front + row;
      forall p: Pos
        ensures p in Rows(n, r) <==> 0 <= p.q < n && 0 <= p.r < r
      {
        if p in row {
          var i :| 0 <= i < |row| && row[i] == p;
        }
        if 0 <= p.q < n && p.r == r - 1 {
          assert row[p.q] == p;
        }
      }
    }
  }

  /** empty_cells: the empty cells of the board in scan order. */
  function EmptyCells(board: seq<seq<Cell>>, n: nat): (cells: seq<Pos>)
    requires IsGrid(board, n)
    ensures forall p :: p in cells <==> IsEmptyAt(board, n, p)
  {
    RowsInBounds(n, n);
    SplitCells(board, n, AllCells(n));
    Empties(board, n, AllCells(n))
  }

  /** The occupied cells of the board, in scan order. */
  function StoneCells(board: seq<seq<Cell>>, n: nat): seq<Pos> {
    Stones(board, n, AllCells(n))
  }

  /** Every cell of the board is counted once, as empty or as occupied. */
  lemma ScanCount(board: seq<seq<Cell>>, n: nat)
    requires IsGrid(board, n)
    ensures |EmptyCells(board, n)| + |StoneCells(board, n)| == n * n
  {
    RowsLength(n, n);
    SplitLength(board, n, AllCells(n));
  }

  /** StoneCells holds exactly the occupied cells of the board. */
  lemma StoneCellsMembers(board: seq<seq<Cell>>, n: nat)
    requires IsGrid(board, n)
    ensures forall p :: p in StoneCells(board, n) <==> InBounds(p, n) && board[p.r][p.q] != Empty
  {
    RowsInBounds(n, n);
    SplitCells(board, n, AllCells(n));
  }

  /** The scan finds n * n empty cells exactly when every cell is empty. */
  lemma AllEmptyCount(board: seq<seq<Cell>>, n: nat)
    requires IsGrid(board, n)
    ensures |EmptyCells(board, n)| == n * n <==> forall r, q :: 0 <= r < n && 0 <= q < n ==> board[r][q] == Empty
  {
    ScanCount(board, n);
    StoneCellsMembers(board, n);
    var stones := StoneCells(board, n);
    if |stones| == 0 {
      forall r, q | 0 <= r < n && 0 <= q < n
        ensures board[r][q] == Empty
      {
        assert Pos(q, r) !in stones;
      }
    } else {
      assert stones[0] in stones;
    }
  }

  /** Two different occupied cells leave at most n * n - 2 empty ones. */
  lemma TwoStonesCount(board: seq<seq<Cell>>, n: nat, a: Pos, b: Pos)
    requires IsGrid(board, n) && InBounds(a, n) && InBounds(b, n) && a != b
    requires board[a.r][a.q] != Empty && board[b.r][b.q] != Empty
    ensures |EmptyCells(board, n)| <= n * n - 2
  {
    ScanCount(board, n);
    StoneCellsMembers(board, n);
    TwoMembers(StoneCells(board, n), a, b);
  }

  /** A list holding two different elements has at least two entries. */
  lemma TwoMembers(s: seq<Pos>, a: Pos, b: Pos)
    requires a in s && b in s && a != b
    ensures |s| >= 2
  {
    var i :| 0 <= i < |s| && s[i] == a;
    var j :| 0 <= j < |s| && s[j] == b;
    assert i != j;
  }

  /** Scanning one more cell appends it when it holds a stone. */
  lemma StonesSnoc(board: seq<seq<Cell>>, n: nat, cells: seq<Pos>, c: Pos)
    ensures Stones(board, n, cells + [c]) == Stones(board, n, cells) + if IsEmptyAt(board, n, c) then [] else [c]
  {
    assert (cells + [c])[..|cells|] == cells;
  }

  /** p holds a stone and every other cell of the board is empty. */
  ghost predicate OnlyStone(board: seq<seq<Cell>>, n: nat, p: Pos)
    requires IsGrid(board, n)
  {
    && InBounds(p, n) && board[p.r][p.q] != Empty
    && forall c :: InBounds(c, n) && c != p ==> IsEmptyAt(board, n, c)
  }

  /** One step of the scan over a board with a single stone at p. */
  lemma StonesStep(board: seq<seq<Cell>>, n: nat, p: Pos, front: seq<Pos>, c: Pos, before: bool)
    requires IsGrid(board, n) && OnlyStone(board, n, p) && InBounds(c, n)
    requires Stones(board, n, front) == (if before then [p] else []) && (before ==> c != p)
    ensures Stones(board, n, front + [c]) == if before || c == p then [p] else []
  {
    StonesSnoc(board, n, front, c);
    assert c != p ==> IsEmptyAt(board, n, c);
  }

  /** The scan up to cell (q, r): rows 0 .. r-1, then the first q cells of row r. */
  function Prefix(n: nat, r: nat, q: nat): seq<Pos> {
    Rows(n, r) + RowCells(r, q)
  }

  /** The scan up to cell (q, r) has passed the cell p. */
  predicate Passed(p: Pos, r: nat, q: nat) {
    p.r < r || (p.r == r && p.q < q)
  }

  /** The scan up to the start of row r is the first r rows. */
  lemma PrefixRows(n: nat, r: nat)
    ensures Prefix(n, r, 0) == Rows(n, r)
  {
  }

  /** The scan starts with nothing collected. */
  lemma PrefixEmpty(n: nat)
    ensures Prefix(n, 0, 0) == []
  {
  }

  /** Having scanned all of row r - 1 is having scanned the first r rows. */
  lemma PrefixRowStart(n: nat, r: nat)
    requires 0 < r
    ensures Prefix(n, r, 0) == Prefix(n, r - 1, n)
  {
    assert Rows(n, r) == Rows(n, r - 1) + RowCells(r - 1, n);
  }

  /** The next cell of the scan after the first q cells of row r is (q, r). */
  lemma PrefixStep(n: nat, r: nat, q: nat)
    ensures Prefix(n, r, q + 1) == Prefix(n, r, q) + [Pos(q, r)]
  {
    assert RowCells(r, q + 1) == RowCells(r, q) + [Pos(q, r)];
  }

  /** The whole scan is the scan up to the end of the last row. */
  lemma AllCellsPrefix(n: nat)
    requires 0 < n
    ensures AllCells(n) == Prefix(n, n - 1, n)
  {
    assert Rows(n, n) == Rows(n, n - 1) + RowCells(n - 1, n);
  }

  /** With a single stone on the board, a scan prefix has met it exactly when it has passed its cell. */
  lemma {:induction false} StonesPrefix(board: seq<seq<Cell>>, n: nat, p: Pos, r: nat, q: nat)
    requires IsGrid(board, n) && OnlyStone(board, n, p) && r < n && q <= n
    ensures Stones(board, n, Prefix(n, r, q)) == if Passed(p, r, q) then [p] else []
    decreases r, q
  {
    if q == 0 {
      if r == 0 {
        PrefixEmpty(n);
      } else {
        StonesPrefix(board, n, p, r - 1, n);
        PrefixRowStart(n, r);
      }
    } else {
      StonesPrefix(board, n, p, r, q - 1);
      PrefixStep(n, r, q - 1);
      StonesStep(board, n, p, Prefix(n, r, q - 1), Pos(q - 1, r), Passed(p, r, q - 1));
    }
  }

  /** A board with a single stone has n * n - 1 empty cells. */
  lemma OneStoneCount(board: seq<seq<Cell>>, n: nat, p: Pos)
    requires IsGrid(board, n) && OnlyStone(board, n, p)
    ensures |EmptyCells(board, n)| == n * n - 1
  {
    StonesPrefix(board, n, p, n - 1, n);
    AllCellsPrefix(n);
    ScanCount(board, n);
  }

  /** Conversely, n * n - 1 empty cells leave every cell but the occupied one empty. */
  lemma OneStoneLeft(board: seq<seq<Cell>>, n: nat, p: Pos)
    requires IsGrid(board, n) && InBounds(p, n) && board[p.r][p.q] != Empty
    requires |EmptyCells(board, n)| == n * n - 1
    ensures OnlyStone(board, n, p)
  {
    forall c | InBounds(c, n) && c != p
      ensures IsEmptyAt(board, n, c)
    {
      if board[c.r][c.q] != Empty {
        TwoStonesCount(board, n, p, c);
      }
    }
  }

  /**
   * The scan as a loop: rows in order, columns in order within a row,
   * appending each empty cell.
   */
  method CollectEmptyCells(board: seq<seq<Cell>>, n: nat) returns (cells: seq<Pos>)
    requires IsGrid(board, n)
    ensures cells == EmptyCells(board, n)
  {
    cells := [];
    PrefixRows(n, 0);
    for r := 0 to n
      invariant cells == Empties(board, n, Prefix(n, r, 0))
    {
      cells := ScanRow(board, n, r, cells);
      PrefixRowStart(n, r + 1);
    }
    PrefixRows(n, n);
  }

  /** The inner loop of the scan: the columns of row r, in order. */
  method ScanRow(board: seq<seq<Cell>>, n: nat, r: nat, before: seq<Pos>) returns (cells: seq<Pos>)
    requires IsGrid(board, n) && r < n
    requires before == Empties(board, n, Prefix(n, r, 0))
    ensures cells == Empties(board, n, Prefix(n, r, n))
  {
    cells := before;
    for q := 0 to n
      invariant cells == Empties(board, n, Prefix(n, r, q))
    {
      EmptiesSnoc(board, n, Prefix(n, r, q), Pos(q, r));
      PrefixStep(n, r, q);
      assert IsEmptyAt(board, n, Pos(q, r)) == (board[r][q] == Empty);
      if board[r][q] == Empty {
        cells := cells + [Pos(q, r)];
      }
    }
  }
}
