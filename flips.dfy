/** The in-place flipping that `MinMax` uses: `_incrementMove`, `_getFlips` and
    `flipPieces`. Cells are 0-based pairs (a, b) addressing `Pieces[a][b]`, that is
    row a and column b of the board. */
module Flips {
  import opened Board
  import opened Rules
  import opened Games

  type Cell = (int, int)

  /** The directions in the order `flipPieces` lists them. */
  const FlipDirections: seq<(int, int)> :=
    [(1, 1), (1, 0), (1, -1), (0, -1), (-1, -1), (-1, 0), (-1, 1), (0, 1)]

  lemma FlipDirectionsAreDirections(k: int)
    requires 0 <= k < 8
    ensures IsDirection(FlipDirections[k].0, FlipDirections[k].1)
  {
  }

  predicate InRange(c: Cell)
  {
    0 <= c.0 < 8 && 0 <= c.1 < 8
  }

  predicate AllInRange(cells: seq<Cell>)
  {
    forall i :: 0 <= i < |cells| ==> InRange(cells[i])
  }

  /** `map(sum, zip(move, direction))`. */
  function Add(c: Cell, d: (int, int)): Cell
  {
    (c.0 + d.0, c.1 + d.1)
  }

  /** How many more steps in direction d stay within 0..7, as a termination measure. */
  function Room(c: Cell, d: (int, int)): nat
  {
    (if d.0 > 0 && c.0 < 8 then 8 - c.0 else if d.0 < 0 && c.0 >= 0 then c.0 + 1 else 0) +
    (if d.1 > 0 && c.1 < 8 then 8 - c.1 else if d.1 < 0 && c.1 >= 0 then c.1 + 1 else 0)
  }

  /** The positions `_incrementMove` yields once it has reached c: c itself and each
      further step, as long as both coordinates stay within 0..7. */
  function Steps(c: Cell, d: (int, int)): (cells: seq<Cell>)
    requires IsDirection(d.0, d.1)
    ensures AllInRange(cells)
    decreases Room(c, d)
  {
    if InRange(c) then [c] + Steps(Add(c, d), d) else []
  }

  /** The generator yields consecutive steps and stops at the first position off the board. */
  lemma {:induction false} StepsConsecutive(c: Cell, d: (int, int))
    requires IsDirection(d.0, d.1)
    ensures |Steps(c, d)| > 0 <==> InRange(c)
    ensures |Steps(c, d)| > 0 ==> Steps(c, d)[0] == c
    ensures forall i :: 0 <= i < |Steps(c, d)| - 1 ==> Steps(c, d)[i + 1] == Add(Steps(c, d)[i], d)
    ensures |Steps(c, d)| > 0 ==> !InRange(Add(Steps(c, d)[|Steps(c, d)| - 1], d))
    decreases Room(c, d)
  {
    if InRange(c) {
      StepsConsecutive(Add(c, d), d);
    }
  }

  /** `_incrementMove(move, direction)`, with everything it yields collected in order. */
  method IncrementMove(move: Cell, direction: (int, int)) returns (yielded: seq<Cell>)
    requires IsDirection(direction.0, direction.1)
    ensures yielded == Steps(Add(move, direction), direction)
  {
    var m := Add(move, direction);
    yielded := [];
    while InRange(m)
      invariant yielded + Steps(m, direction) == Steps(Add(move, direction), direction)
      decreases Room(m, direction)
    {
      assert Steps(m, direction) == [m] + Steps(Add(m, direction), direction);
      assert (yielded + [m]) + Steps(Add(m, direction), direction) == yielded + ([m] + Steps(Add(m, direction), direction));
      yielded := yielded + [m];
      m := Add(m, direction);
    }
  }

  /** The loop of `_getFlips` over the positions still to be visited, with the list
      `flips` collected so far: an opponent piece is collected, an empty cell gives up,
      one of the player's pieces ends the walk only once something has been collected,
      and any other cell is walked past. Running out of positions gives up. */
  function Collect(g: Grid, cells: seq<Cell>, player: int, flips: seq<Cell>): (r: seq<Cell>)
    requires IsGrid(g) && AllInRange(cells)
    ensures AllInRange(flips) ==> AllInRange(r)
    decreases |cells|
  {
    if cells == [] then []
    else
      var v := g[cells[0].0][cells[0].1];
      if v == Opponent(player) then Collect(g, cells[1..], player, flips + [cells[0]])
      else if v == 0 then []
      else if v == player && |flips| > 1 then flips
      else Collect(g, cells[1..], player, flips)
  }

  /** `_getFlips(origin, direction, player, game)` on the board g. */
  function FlipsToward(g: Grid, origin: Cell, d: (int, int), player: int): (r: seq<Cell>)
    requires IsGrid(g) && IsDirection(d.0, d.1)
    ensures InRange(origin) ==> AllInRange(r)
  {
    Collect(g, Steps(Add(origin, d), d), player, [origin])
  }

  /** The walk returns nothing, or the list collected so far grown by opponent pieces
      met on the walk. */
  lemma {:induction false} CollectGrows(g: Grid, cells: seq<Cell>, player: int, flips: seq<Cell>)
    requires IsGrid(g) && AllInRange(cells)
    ensures var r := Collect(g, cells, player, flips);
      r == [] ||
      (|r| > 1 && |flips| <= |r| && r[..|flips|] == flips &&
       forall i :: |flips| <= i < |r| ==> r[i] in cells && g[r[i].0][r[i].1] == Opponent(player))
    decreases |cells|
  {
    if cells != [] {
      var c := cells[0];
      var r := Collect(g, cells, player, flips);
      if g[c.0][c.1] == Opponent(player) {
        CollectGrows(g, cells[1..], player, flips + [c]);
        if r != [] {
          assert r[..|flips| + 1][..|flips|] == flips;
        }
      } else if g[c.0][c.1] != 0 && !(g[c.0][c.1] == player && |flips| > 1) {
        CollectGrows(g, cells[1..], player, flips);
      }
    }
  }

  /** A walk that returns something stopped on one of the player's pieces, met before
      any empty cell and after every cell it collected. */
  lemma {:induction false} CollectCloses(g: Grid, cells: seq<Cell>, player: int, flips: seq<Cell>)
    requires IsGrid(g) && AllInRange(cells)
    ensures var r := Collect(g, cells, player, flips);
      r != [] ==>
        exists j :: 0 <= j < |cells| && g[cells[j].0][cells[j].1] == player &&
          (forall i :: 0 <= i < j ==> g[cells[i].0][cells[i].1] != 0) &&
          (forall i :: |flips| <= i < |r| ==> r[i] in cells[..j])
    decreases |cells|
  {
    var r := Collect(g, cells, player, flips);
    if cells != [] && r != [] {
      var c := cells[0];
      var rest := cells[1..];
      var v := g[c.0][c.1];
      if v == player && |flips| > 1 && v != Opponent(player) {
        assert g[cells[0].0][cells[0].1] == player;
      } else {
        var acc := if v == Opponent(player) then flips + [c] else flips;
        assert r == Collect(g, rest, player, acc);
        CollectCloses(g, rest, player, acc);
        CollectGrows(g, rest, player, acc);
        var j :| 0 <= j < |rest| && g[rest[j].0][rest[j].1] == player &&
          (forall i :: 0 <= i < j ==> g[rest[i].0][rest[i].1] != 0) &&
          (forall i :: |acc| <= i < |r| ==> r[i] in rest[..j]);
        assert rest[..j] == cells[1..j + 1];
        forall i | |flips| <= i < |r|
          ensures r[i] in cells[..j + 1]
        {
          if i < |acc| {
            assert r[i] == acc[i] == c;
          }
        }
        forall i | 0 <= i < j + 1
          ensures g[cells[i].0][cells[i].1] != 0
        {
          if i > 0 {
            assert cells[i] == rest[i - 1];
          }
        }
        assert cells[j + 1] == rest[j];
      }
    }
  }

  /** `_getFlips` on the live board: the loop over what `_incrementMove` yields, with
      its early `return flips` and its `break`. */
  method GetFlips(origin: Cell, direction: (int, int), player: int, game: Game) returns (flips: seq<Cell>)
    requires game.Valid() && IsDirection(direction.0, direction.1)
    ensures flips == FlipsToward(game.pieces.rows, origin, direction, player)
  {
    ghost var g := game.pieces.rows;
    ghost var target := FlipsToward(g, origin, direction, player);
    flips := [origin];
    var opponent := if player == BLACK then WHITE else BLACK;
    var cells := IncrementMove(origin, direction);
    for i := 0 to |cells|
      invariant Collect(g, cells[i..], player, flips) == target
    {
      var (x, y) := cells[i];
      assert cells[i..][1..] == cells[i + 1..];
      if game.pieces.rows[x][y] == opponent {
        flips := flips + [(x, y)];
      } else if game.pieces.rows[x][y] == 0 {
        break;
      } else if game.pieces.rows[x][y] == player && |flips| > 1 {
        return flips;
      }
    }
    return [];
  }

  /** A run of n >= 1 opponent pieces closed by one of the player's pieces is collected
      whole when nothing but the origin has been collected yet. */
  lemma {:induction false} CollectFlanked(g: Grid, cells: seq<Cell>, player: int, flips: seq<Cell>, n: nat)
    requires IsGrid(g) && AllInRange(cells) && 1 <= |flips| && player != 0
    requires n < |cells| && (|flips| > 1 || n >= 1)
    requires forall i :: 0 <= i < n ==> g[cells[i].0][cells[i].1] == Opponent(player)
    requires g[cells[n].0][cells[n].1] == player
    ensures Collect(g, cells, player, flips) == flips + cells[..n]
    decreases n
  {
    if n > 0 {
      CollectFlanked(g, cells[1..], player, flips + [cells[0]], n - 1);
      assert (flips + [cells[0]]) + cells[1..][..n - 1] == flips + cells[..n];
    }
  }

  /** The walk goes on past one of the player's own pieces while only the origin has been
      collected: when the three cells after the origin hold the player, the opponent and
      the player, the opponent's piece is collected, although the standard capture rule
      (`Capturing`, at the same cell and direction in 1-based (x, y) terms) rejects
      that direction. */
  lemma WalksPastOwnPiece(g: Grid, o: Cell, d: (int, int), player: int)
    requires IsGrid(g) && IsDirection(d.0, d.1) && (player == BLACK || player == WHITE)
    requires InRange(Add(o, d)) && InRange(Add(Add(o, d), d)) && InRange(Add(Add(Add(o, d), d), d))
    requires g[o.0 + d.0][o.1 + d.1] == player
    requires g[o.0 + 2 * d.0][o.1 + 2 * d.1] == Opponent(player)
    requires g[o.0 + 3 * d.0][o.1 + 3 * d.1] == player
    ensures FlipsToward(g, o, d, player) == [o, Add(Add(o, d), d)]
    ensures !Capturing(g, o.1 + 1, o.0 + 1, d.1, d.0, player)
  {
    var c1 := Add(o, d);
    var c2 := Add(c1, d);
    var c3 := Add(c2, d);
    var rest := Steps(c3, d);
    assert Steps(c1, d) == [c1] + ([c2] + rest) by {
      assert Steps(c2, d) == [c2] + rest;
    }
    assert Collect(g, [c1] + ([c2] + rest), player, [o]) == Collect(g, [c2] + rest, player, [o]) by {
      assert ([c1] + ([c2] + rest))[1..] == [c2] + rest;
    }
    assert Collect(g, [c2] + rest, player, [o]) == Collect(g, rest, player, [o, c2]) by {
      assert ([c2] + rest)[1..] == rest;
    }
    assert Collect(g, rest, player, [o, c2]) == [o, c2] by {
      assert rest[0] == c3 && g[c3.0][c3.1] == player;
    }
    assert Run(g, o.1 + 1 + d.1, o.0 + 1 + d.0, d.1, d.0, 3 - player) == [] by {
      assert Pos(g, o.1 + 1 + d.1, o.0 + 1 + d.0) == Some(player);
    }
  }

  /** The cells of `cells` set to `piece`, one write after the other. */
  function SetCells(g: Grid, cells: seq<Cell>, piece: int): (h: Grid)
    requires IsGrid(g) && AllInRange(cells)
    ensures IsGrid(h)
    decreases |cells|
  {
    if cells == [] then g
    else
      var h := SetCells(g, cells[..|cells| - 1], piece);
      var c := cells[|cells| - 1];
      h[c.0 := h[c.0][c.1 := piece]]
  }

  /** After the writes, a cell holds `piece` if it was listed and is otherwise untouched. */
  lemma {:induction false} SetCellsAt(g: Grid, cells: seq<Cell>, piece: int, a: int, b: int)
    requires IsGrid(g) && AllInRange(cells) && 0 <= a < 8 && 0 <= b < 8
    ensures SetCells(g, cells, piece)[a][b] == if (a, b) in cells then piece else g[a][b]
    decreases |cells|
  {
    if cells != [] {
      var init := cells[..|cells| - 1];
      SetCellsAt(g, init, piece, a, b);
      assert (a, b) in cells <==> (a, b) in init || (a, b) == cells[|cells| - 1] by {
        assert cells == init + [cells[|cells| - 1]];
      }
    }
  }

  /** One more write extends the fold by one cell. */
  lemma SetCellsSnoc(g: Grid, cells: seq<Cell>, i: int, piece: int)
    requires IsGrid(g) && AllInRange(cells) && 0 <= i < |cells|
    ensures AllInRange(cells[..i]) && AllInRange(cells[..i + 1])
    ensures var h := SetCells(g, cells[..i], piece);
      SetCells(g, cells[..i + 1], piece) == h[cells[i].0 := h[cells[i].0][cells[i].1 := piece]]
  {
    assert cells[..i + 1][..i] == cells[..i];
  }

  /** The board after `flipPieces` has worked through the first k directions: each
      direction's flips are computed on the board left by the directions before it. */
  function FlipAll(g: Grid, origin: Cell, player: int, k: int): (h: Grid)
    requires IsGrid(g) && InRange(origin) && 0 <= k <= 8
    ensures IsGrid(h)
  {
    if k == 0 then g
    else
      var prev := FlipAll(g, origin, player, k - 1);
      FlipDirectionsAreDirections(k - 1);
      SetCells(prev, FlipsToward(prev, origin, FlipDirections[k - 1], player), player)
  }

  /** `flipPieces(player, coord, game)`: writes `player` into every cell the eight walks
      return, each walk starting after the writes of the walks before it. */
  method FlipPieces(player: int, coord: Cell, game: Game)
    requires game.Valid() && InRange(coord)
    modifies game.pieces
    ensures game.pieces.rows == FlipAll(old(game.pieces.rows), coord, player, 8)
  {
    ghost var g := game.pieces.rows;
    for k := 0 to 8
      invariant game.Valid()
      invariant game.pieces.rows == FlipAll(g, coord, player, k)
    {
      var direction := FlipDirections[k];
      FlipDirectionsAreDirections(k);
      var flips := GetFlips(coord, direction, player, game);
      ghost var h := game.pieces.rows;
      for i := 0 to |flips|
        invariant IsGrid(game.pieces.rows)
        invariant game.pieces.rows == SetCells(h, flips[..i], player)
      {
        var (x, y) := flips[i];
        game.pieces.Write(x, y, player);
        assert game.pieces.rows == SetCells(h, flips[..i + 1], player) by {
          SetCellsSnoc(h, flips, i, player);
        }
      }
      assert flips[..|flips|] == flips;
    }
  }

  /** One walk's writes only turn cells into the player's: the origin, or cells that held
      the opponent's piece. */
  lemma FlipStepChanges(g: Grid, origin: Cell, d: (int, int), player: int, a: int, b: int)
    requires IsGrid(g) && InRange(origin) && IsDirection(d.0, d.1) && 0 <= a < 8 && 0 <= b < 8
    ensures var h := SetCells(g, FlipsToward(g, origin, d, player), player);
      h[a][b] == g[a][b] || (h[a][b] == player && ((a, b) == origin || g[a][b] == Opponent(player)))
  {
    var flips := FlipsToward(g, origin, d, player);
    SetCellsAt(g, flips, player, a, b);
    if (a, b) in flips && (a, b) != origin {
      CollectGrows(g, Steps(Add(origin, d), d), player, [origin]);
      var i :| 0 <= i < |flips| && flips[i] == (a, b);
      assert i >= 1;
    }
  }

  /** Flipping only turns cells into the player's: a cell that changed holds `player` and
      is the origin or held the opponent's piece before. */
  lemma {:induction false} FlipAllChanges(g: Grid, origin: Cell, player: int, k: int, a: int, b: int)
    requires IsGrid(g) && InRange(origin) && 0 <= k <= 8 && 0 <= a < 8 && 0 <= b < 8
    ensures var h := FlipAll(g, origin, player, k);
      h[a][b] == g[a][b] || (h[a][b] == player && ((a, b) == origin || g[a][b] == Opponent(player)))
  {
    if k > 0 {
      var prev := FlipAll(g, origin, player, k - 1);
      FlipDirectionsAreDirections(k - 1);
      FlipAllChanges(g, origin, player, k - 1, a, b);
      FlipStepChanges(prev, origin, FlipDirections[k - 1], player, a, b);
    }
  }
}
