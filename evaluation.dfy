/** `evaluate`: the heuristic score of a board for one player, from the positional
    weights of that player's pieces and a bonus for holding more pieces. Cells are
    `Pieces[a][b]`, visited row by row as `np.argwhere` lists them. */
module Evaluation {
  import opened Board

  /** The weight of one of the player's pieces at `Pieces[a][b]`, taken from the first
      list the coordinate is in: corners, the cells next to the corners, the rest of
      the edges, the second ring, and finally the centre. */
  function Weight(a: int, b: int): (w: int)
    ensures -10 <= w <= 50
  {
    var c := (a, b);
    if c in {(0, 0), (0, 7), (7, 0), (7, 7)} then 50
    else if c in {(0, 1), (1, 0), (1, 1), (6, 0), (7, 1), (6, 1),
                  (0, 6), (1, 7), (1, 6), (7, 6), (6, 7), (6, 6)} then -10
    else if c in {(0, 2), (0, 5), (2, 0), (2, 7), (5, 0), (5, 7), (7, 2), (7, 5)} then 30
    else if c in {(0, 3), (0, 4), (3, 0), (3, 7), (4, 0), (4, 7), (7, 3), (7, 4)} then 20
    else if c in {(1, 2), (1, 3), (1, 4), (1, 5), (2, 1), (2, 6), (3, 1), (3, 6),
                  (4, 1), (4, 6), (5, 1), (5, 6), (6, 2), (6, 3), (6, 4), (6, 5)} then 1
    else if c in {(2, 2), (2, 5), (5, 2), (5, 5)} then 4
    else if c in {(2, 3), (2, 4), (3, 2), (4, 2), (3, 5), (4, 5), (5, 3), (5, 4)} then 3
    else 2
  }

  /** The weight the cell `Pieces[a][b]` adds: its weight when it holds `player`. */
  function Contribution(g: Grid, player: int, a: int, b: int): int
    requires IsGrid(g) && 0 <= a < 8 && 0 <= b < 8
  {
    if g[a][b] == player then Weight(a, b) else 0
  }

  /** The weights of the player's pieces among the first n cells of row a. */
  function RowSum(g: Grid, player: int, a: int, n: int): int
    requires IsGrid(g) && 0 <= a < 8 && 0 <= n <= 8
  {
    if n == 0 then 0 else RowSum(g, player, a, n - 1) + Contribution(g, player, a, n - 1)
  }

  /** The weights of the player's pieces in the first m rows. */
  function RowsSum(g: Grid, player: int, m: int): int
    requires IsGrid(g) && 0 <= m <= 8
  {
    if m == 0 then 0 else RowsSum(g, player, m - 1) + RowSum(g, player, m - 1, 8)
  }

  /** How many of the first n cells of row a hold v. */
  function RowCount(g: Grid, v: int, a: int, n: int): (c: nat)
    requires IsGrid(g) && 0 <= a < 8 && 0 <= n <= 8
    ensures c <= n
  {
    if n == 0 then 0 else RowCount(g, v, a, n - 1) + (if g[a][n - 1] == v then 1 else 0)
  }

  /** How many cells of the first m rows hold v. */
  function RowsCount(g: Grid, v: int, m: int): (c: nat)
    requires IsGrid(g) && 0 <= m <= 8
    ensures c <= 8 * m
  {
    if m == 0 then 0 else RowsCount(g, v, m - 1) + RowCount(g, v, m - 1, 8)
  }

  /** `np.count_nonzero(board_array == v)`. */
  function Count(g: Grid, v: int): (c: nat)
    requires IsGrid(g)
    ensures c <= 64
  {
    RowsCount(g, v, 8)
  }

  /** The positional part of the score: the weights of the player's own pieces only. */
  function Positional(g: Grid, player: int): int
    requires IsGrid(g)
  {
    RowsSum(g, player, 8)
  }

  /** The value of `evaluate(g, player)`: the positional part, then +300 when the player
      has strictly more pieces than the opponent and -30 otherwise. */
  function Score(g: Grid, player: int): int
    requires IsGrid(g)
  {
    Positional(g, player) + (if Count(g, player) > Count(g, Opponent(player)) then 300 else -30)
  }

  /** The weights laid out as a board, row a and column b holding `Weight(a, b)`. */
  const WeightTable: seq<seq<int>> := [
    [50, -10, 30, 20, 20, 30, -10, 50],
    [-10, -10, 1, 1, 1, 1, -10, -10],
    [30, 1, 4, 3, 3, 4, 1, 30],
    [20, 1, 3, 2, 2, 3, 1, 20],
    [20, 1, 3, 2, 2, 3, 1, 20],
    [30, 1, 4, 3, 3, 4, 1, 30],
    [-10, -10, 1, 1, 1, 1, -10, -10],
    [50, -10, 30, 20, 20, 30, -10, 50]]

  /** The lists give the board its symmetric pattern of weights. */
  lemma WeightAt(a: int, b: int)
    requires 0 <= a < 8 && 0 <= b < 8
    ensures Weight(a, b) == WeightTable[a][b]
  {
  }

  /** The most negative and the most positive total the first n weights of row a can make. */
  function RowLow(a: int, n: int): int
    requires 0 <= a < 8 && 0 <= n <= 8
  {
    if n == 0 then 0 else RowLow(a, n - 1) + (if WeightTable[a][n - 1] < 0 then WeightTable[a][n - 1] else 0)
  }

  function RowHigh(a: int, n: int): int
    requires 0 <= a < 8 && 0 <= n <= 8
  {
    if n == 0 then 0 else RowHigh(a, n - 1) + (if WeightTable[a][n - 1] > 0 then WeightTable[a][n - 1] else 0)
  }

  /** The same for the first m rows. */
  function RowsLow(m: int): int
    requires 0 <= m <= 8
  {
    if m == 0 then 0 else RowsLow(m - 1) + RowLow(m - 1, 8)
  }

  function RowsHigh(m: int): int
    requires 0 <= m <= 8
  {
    if m == 0 then 0 else RowsHigh(m - 1) + RowHigh(m - 1, 8)
  }

  lemma {:induction false} RowSumBounds(g: Grid, player: int, a: int, n: int)
    requires IsGrid(g) && 0 <= a < 8 && 0 <= n <= 8
    ensures RowLow(a, n) <= RowSum(g, player, a, n) <= RowHigh(a, n)
  {
    if n > 0 {
      RowSumBounds(g, player, a, n - 1);
      WeightAt(a, n - 1);
    }
  }

  lemma {:induction false} RowsSumBounds(g: Grid, player: int, m: int)
    requires IsGrid(g) && 0 <= m <= 8
    ensures RowsLow(m) <= RowsSum(g, player, m) <= RowsHigh(m)
  {
    if m > 0 {
      RowsSumBounds(g, player, m - 1);
      RowSumBounds(g, player, m - 1, 8);
    }
  }

  /** Row by row the negative weights total -20, -40, 0, 0, 0, 0, -40, -20 ... */
  lemma LowTotal()
    ensures RowsLow(8) == -120
  {
    assert RowLow(0, 8) == -20;
    assert RowLow(1, 8) == -40;
    assert RowLow(2, 8) == 0;
    assert RowLow(3, 8) == 0;
    assert RowLow(4, 8) == 0;
    assert RowLow(5, 8) == 0;
    assert RowLow(6, 8) == -40;
    assert RowLow(7, 8) == -20;
  }

  /** ... and the positive ones 200, 4, 76, 52, 52, 76, 4, 200. */
  lemma HighTotal()
    ensures RowsHigh(8) == 664
  {
    assert RowHigh(0, 8) == 200;
    assert RowHigh(1, 8) == 4;
    assert RowHigh(2, 8) == 76;
    assert RowHigh(3, 8) == 52;
    assert RowHigh(4, 8) == 52;
    assert RowHigh(5, 8) == 76;
    assert RowHigh(6, 8) == 4;
    assert RowHigh(7, 8) == 200;
  }

  /** Whatever the board, the score lies in [-150, 964]. */
  lemma ScoreBounds(g: Grid, player: int)
    requires IsGrid(g)
    ensures -150 <= Score(g, player) <= 964
  {
    RowsSumBounds(g, player, 8);
    LowTotal();
    HighTotal();
  }

  /** Only the player's own pieces carry weight: two boards on which the player holds the
      same cells have the same positional part, whatever the other cells hold. */
  lemma PositionalOwnOnly(g: Grid, h: Grid, player: int)
    requires IsGrid(g) && IsGrid(h)
    requires forall a, b :: 0 <= a < 8 && 0 <= b < 8 ==> (g[a][b] == player <==> h[a][b] == player)
    ensures Positional(g, player) == Positional(h, player)
  {
    RowsOwnOnly(g, h, player, 8);
  }

  lemma {:induction false} RowsOwnOnly(g: Grid, h: Grid, player: int, m: int)
    requires IsGrid(g) && IsGrid(h) && 0 <= m <= 8
    requires forall a, b :: 0 <= a < 8 && 0 <= b < 8 ==> (g[a][b] == player <==> h[a][b] == player)
    ensures RowsSum(g, player, m) == RowsSum(h, player, m)
  {
    if m > 0 {
      RowsOwnOnly(g, h, player, m - 1);
      RowOwnOnly(g, h, player, m - 1, 8);
    }
  }

  lemma {:induction false} RowOwnOnly(g: Grid, h: Grid, player: int, a: int, n: int)
    requires IsGrid(g) && IsGrid(h) && 0 <= a < 8 && 0 <= n <= 8
    requires forall b :: 0 <= b < 8 ==> (g[a][b] == player <==> h[a][b] == player)
    ensures RowSum(g, player, a, n) == RowSum(h, player, a, n)
  {
    if n > 0 {
      RowOwnOnly(g, h, player, a, n - 1);
    }
  }

  /** Putting one of the player's pieces on a cell it did not hold adds exactly that
      cell's weight to the positional part. */
  lemma PlacingAddsWeight(g: Grid, player: int, a: int, b: int)
    requires IsGrid(g) && 0 <= a < 8 && 0 <= b < 8 && g[a][b] != player
    ensures Positional(g[a := g[a][b := player]], player) == Positional(g, player) + Weight(a, b)
  {
    RowsPlacing(g, player, a, b, 8);
  }

  lemma {:induction false} RowsPlacing(g: Grid, player: int, a: int, b: int, m: int)
    requires IsGrid(g) && 0 <= a < 8 && 0 <= b < 8 && g[a][b] != player && 0 <= m <= 8
    ensures RowsSum(g[a := g[a][b := player]], player, m) ==
      RowsSum(g, player, m) + (if a < m then Weight(a, b) else 0)
  {
    if m > 0 {
      RowsPlacing(g, player, a, b, m - 1);
      RowPlacing(g, player, a, b, m - 1, 8);
    }
  }

  lemma {:induction false} RowPlacing(g: Grid, player: int, a: int, b: int, r: int, n: int)
    requires IsGrid(g) && 0 <= a < 8 && 0 <= b < 8 && g[a][b] != player && 0 <= r < 8 && 0 <= n <= 8
    ensures RowSum(g[a := g[a][b := player]], player, r, n) ==
      RowSum(g, player, r, n) + (if r == a && b < n then Weight(a, b) else 0)
  {
    if n > 0 {
      RowPlacing(g, player, a, b, r, n - 1);
    }
  }

  /** `evaluate(board, player)`: the counts, then the loop over the player's pieces in
      row-major order adding each one's weight, then the bonus. */
  method Evaluate(board: Grid, player: int) returns (score: int)
    requires IsGrid(board)
    ensures score == Score(board, player)
    ensures -150 <= score <= 964
  {
    score := 0;
    var opponent := if player == BLACK then WHITE else BLACK;
    var numP := Count(board, player);
    var numO := Count(board, opponent);
    for a := 0 to 8
      invariant score == RowsSum(board, player, a)
    {
      for b := 0 to 8
        invariant score == RowsSum(board, player, a) + RowSum(board, player, a, b)
      {
        if board[a][b] == player {
          score := score + Weight(a, b);
        }
      }
    }
    score := score + if numP > numO then 300 else -30;
    assert -150 <= score <= 964 by {
      ScoreBounds(board, player);
    }
  }
}
