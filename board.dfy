/** The board: an 8x8 grid of cells holding 0 (empty), 1 (BLACK) or 2 (WHITE),
    read and written through 1-based (column, row) coordinates. */
module Board {

  datatype Option<T> = None | Some(value: T)

  const BLACK: int := 1
  const WHITE: int := 2
  const BOARD_SIZE: int := 8

  /** A board value, indexed [row][column] from 0, like the `Pieces` list of lists. */
  type Grid = seq<seq<int>>

  predicate IsGrid(g: Grid)
  {
    |g| == 8 && forall r :: 0 <= r < 8 ==> |g[r]| == 8
  }

  /** The side that `evaluate`, `_getFlips` and `MinMax` take to be the other one. */
  function Opponent(player: int): (o: int)
    ensures o == BLACK || o == WHITE
    ensures o != player
    ensures player == BLACK || player == WHITE ==> o == 3 - player
  {
    if player == BLACK then WHITE else BLACK
  }

  /** The mutable `Pieces` list of lists: `SetPos` and the writes of `flipPieces` and
      `MinMax` change it in place, and every holder of the same object sees the change. */
  class Pieces {
    var rows: Grid

    constructor (rows: Grid)
      requires IsGrid(rows)
      ensures this.rows == rows
    {
      this.rows := rows;
    }

    /** `Pieces[r][c] = v`, indexed from 0. */
    method Write(r: int, c: int, v: int)
      requires IsGrid(rows) && 0 <= r < 8 && 0 <= c < 8
      modifies this
      ensures rows == old(rows)[r := old(rows)[r][c := v]]
      ensures IsGrid(rows)
    {
      rows := rows[r := rows[r][c := v]];
    }
  }

  /** `Pos`: the cell at column x and row y, numbered from 1; None off the board. */
  function Pos(g: Grid, x: int, y: int): (r: Option<int>)
    requires IsGrid(g)
    ensures r.Some? <==> 1 <= x <= 8 && 1 <= y <= 8
    ensures r.Some? ==> r.value == g[y - 1][x - 1]
  {
    if 1 <= x && x <= 8 && 1 <= y && y <= 8 then Some(g[y - 1][x - 1]) else None
  }

  /** The value-level effect of `SetPos`: whether it wrote, and the board after. */
  function WithPos(g: Grid, x: int, y: int, piece: int): (res: (bool, Grid))
    requires IsGrid(g)
    ensures IsGrid(res.1)
    ensures res.0 <==> 1 <= x <= 8 && 1 <= y <= 8 && 0 <= piece <= 2
    ensures !res.0 ==> res.1 == g
  {
    if x < 1 || 8 < x || y < 1 || 8 < y || piece !in [0, 1, 2] then (false, g)
    else (true, g[y - 1 := g[y - 1][x - 1 := piece]])
  }

  /** A successful `SetPos` changes exactly the one cell. */
  lemma WithPosAt(g: Grid, x: int, y: int, piece: int, cx: int, cy: int)
    requires IsGrid(g)
    ensures Pos(WithPos(g, x, y, piece).1, cx, cy) ==
      if (cx, cy) == (x, y) && WithPos(g, x, y, piece).0 then Some(piece) else Pos(g, cx, cy)
  {
  }

  /** `SetPos` on the live board; `ok` is false exactly where Python's `SetPos` returns False. */
  method SetPos(b: Pieces, x: int, y: int, piece: int) returns (ok: bool)
    requires IsGrid(b.rows)
    modifies b
    ensures (ok, b.rows) == WithPos(old(b.rows), x, y, piece)
  {
    if x < 1 || 8 < x || y < 1 || 8 < y || piece !in [0, 1, 2] {
      return false;
    }
    b.Write(y - 1, x - 1, piece);
    ok := true;
  }
}
