/** The 8-puzzle board as far as the program implements it: the
    constructor's deep copy of the tile grid and dimension(). The grid is an
    immutable sequence of rows here: these values stand for the fresh
    arrays that System.arraycopy fills, which later writes to the caller's
    arrays cannot reach. The board's remaining
    methods have no implementation in the program; the solver takes them as
    parameters. */
module Boards {

  datatype Board = Board(dimension: int, tiles: seq<seq<int>>)

  /** new Board(tiles): dimension is the number of rows and every row is
      copied element by element; nothing is validated, so ragged rows, a
      non-square grid or a grid without a blank are kept as they are. */
  method NewBoard(tiles: array<array<int>>) returns (b: Board)
    ensures b.dimension == tiles.Length == |b.tiles|
    ensures forall i :: 0 <= i < tiles.Length ==> b.tiles[i] == tiles[i][..]
  {
    var rows: seq<seq<int>> := [];
    var i := 0;
    while i < tiles.Length
      invariant 0 <= i <= tiles.Length
      invariant |rows| == i
      invariant forall k :: 0 <= k < i ==> rows[k] == tiles[k][..]
    {
      var row := CopyRow(tiles[i]);
      rows := rows + [row];
      i := i + 1;
    }
    b := Board(tiles.Length, rows);
  }

  /** System.arraycopy of one whole row into a fresh array. */
  method CopyRow(a: array<int>) returns (row: seq<int>)
    ensures |row| == a.Length
    ensures forall j :: 0 <= j < a.Length ==> row[j] == a[j]
  {
    var copy := new int[a.Length];
    var j := 0;
    while j < a.Length
      invariant 0 <= j <= a.Length
      invariant forall k :: 0 <= k < j ==> copy[k] == a[k]
    {
      copy[j] := a[j];
      j := j + 1;
    }
    row := copy[..];
  }

  /** A fresh array holding a, b and c. */
  method Row(a: int, b: int, c: int) returns (row: array<int>)
    ensures fresh(row) && row[..] == [a, b, c]
  {
    row := new int[3];
    row[0], row[1], row[2] := a, b, c;
  }

  /** dimension() after new Board(tiles) is tiles.length, as the program's
      initialization test expects of a 3-by-3 grid, and the board holds the
      grid's tiles. */
  method InitializationScenario() returns (b: Board)
    ensures b.dimension == 3
    ensures b.tiles == [[1, 2, 3], [4, 0, 5], [7, 8, 6]]
  {
    var r0 := Row(1, 2, 3);
    var r1 := Row(4, 0, 5);
    var r2 := Row(7, 8, 6);
    var tiles := new array<int>[3];
    tiles[0], tiles[1], tiles[2] := r0, r1, r2;
    b := NewBoard(tiles);
    assert b.tiles[0] == r0[..] && b.tiles[1] == r1[..] && b.tiles[2] == r2[..];
  }
}
