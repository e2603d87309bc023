/** The Board class of game.py:10-46: an n×n grid of tile colours, read and written with
    bounds checks, and deep-copied for simulations. */
module Boards {
  import opened Grid

  class Board {
    /** The side length of the board. */
    const n: nat
    /** The number of colours the board was generated with; only carried through Clone. */
    const m: int
    /** The colour of each tile, row by row; the source keeps a list of lists of Tile objects,
        whose only attribute is this colour. */
    var grid: seq<seq<int>>

    ghost predicate Valid()
      reads this
    {
      |grid| == n && Square(grid)
    }

    constructor (n: nat, m: int, colors: seq<seq<int>>)
      requires |colors| == n && Square(colors)
      ensures Valid()
      ensures this.n == n && this.m == m && grid == colors
    {
      this.n := n;
      this.m := m;
      grid := colors;
    }

    /** A bounds-checked read: the colour at (x, y) on the board, None off the board. */
    function GetTile(x: int, y: int): (tile: Option<int>)
      reads this
      requires Valid()
      ensures tile.Some? <==> InBounds(n, (x, y))
      ensures tile.Some? ==> tile.value == At(grid, (x, y))
    {
      if 0 <= x < n && 0 <= y < n then Some(grid[x][y]) else None
    }

    /** A bounds-checked write: on the board, (x, y) takes the colour and no other tile changes;
        off the board, nothing changes. */
    method SetTileColor(x: int, y: int, color: int)
      requires Valid()
      modifies this
      ensures Valid()
      ensures RepaintedFrom(grid, old(grid), {(x, y)}, color)
      ensures forall i, j ::
                GetTile(i, j) == if (i, j) == (x, y) && InBounds(n, (x, y)) then Some(color) else old(GetTile(i, j))
    {
      if 0 <= x < n && 0 <= y < n {
        grid := grid[x := grid[x][y := color]];
      }
    }

    /** The colour of the tile at the origin (0, 0). */
    function OriginColor(): (c: int)
      reads this
      requires Valid() && n >= 1
      ensures GetTile(0, 0) == Some(c)
    {
      grid[0][0]
    }

    /** A new board with the same size, the same number of colours and the same colour on every
        tile; being a fresh object, later writes to either board leave the other as it is. */
    method Clone() returns (copy: Board)
      requires Valid()
      ensures fresh(copy) && copy.Valid()
      ensures copy.n == n && copy.m == m && copy.grid == grid
    {
      var g := grid;
      var colors := seq(n, x requires 0 <= x < n => seq(n, y requires 0 <= y < n => g[x][y]));
      forall x | 0 <= x < n ensures colors[x] == g[x] {
        assert |colors[x]| == |g[x]|;
      }
      copy := new Board(n, m, colors);
    }
  }
}
