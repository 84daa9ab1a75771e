/**
 * HexBoard's occupancy grid (board.js). Only boardData and the board size are
 * modelled; the SVG cells, hexagon geometry, borders and labels are drawing.
 */
module Board {
  import opened Hex

  class HexBoard {
    /** options.size: the board is size x size. */
    const size: nat
    /** boardData[r][q]: Empty for null, otherwise the colour of the stone. */
    var boardData: seq<seq<Cell>>

    ghost predicate Valid()
      reads this
    {
      IsGrid(boardData, size)
    }

    /** The constructor ends by calling initBoard. */
    constructor (size: nat)
      ensures this.size == size
      ensures Valid() && boardData == EmptyGrid(size)
    {
      this.size := size;
      boardData := [];
      new;
      InitBoard();
    }

    /**
     * initBoard: replaces boardData by a fresh grid of size rows, each of size
     * null entries, whatever the board held before.
     */
    method InitBoard()
      modifies this
      ensures Valid()
      ensures |boardData| == size
      ensures forall r :: 0 <= r < size ==> |boardData[r]| == size
      ensures forall r, q :: 0 <= r < size && 0 <= q < size ==> boardData[r][q] == Empty
      ensures boardData == EmptyGrid(size)
    {
      boardData := [];
      for r := 0 to size
        invariant |boardData| == r
        invariant forall i :: 0 <= i < r ==> |boardData[i]| == size
        invariant forall i, q :: 0 <= i < r && 0 <= q < size ==> boardData[i][q] == Empty
      {
        boardData := boardData + [[]];
        for q := 0 to size
          invariant |boardData| == r + 1 && |boardData[r]| == q
          invariant forall i :: 0 <= i < r ==> |boardData[i]| == size
          invariant forall i, j :: 0 <= i < r && 0 <= j < size ==> boardData[i][j] == Empty
          invariant forall j :: 0 <= j < q ==> boardData[r][j] == Empty
        {
          boardData := boardData[r := boardData[r] + [Empty]];
        }
      }
      AllEmptyIsEmptyGrid(boardData, size);
    }
  }
}
