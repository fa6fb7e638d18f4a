/** `MinMax`: a fixed-depth search in which BLACK maximises and WHITE minimises. Each
    move is played in place on the shared board, which is never restored. */
module Search {
  import opened Board
  import opened Rules
  import opened Games
  import opened Flips
  import opened Evaluation

  /** A score as `MinMax` compares them: an `evaluate` result, or one of the infinite
      sentinels `-float('inf')` and `float('inf')`. */
  datatype Value = NegInf | Fin(n: int) | PosInf

  /** Python's `<` on these values. */
  predicate Less(u: Value, v: Value)
  {
    match (u, v)
    case (NegInf, NegInf) => false
    case (NegInf, _) => true
    case (Fin(i), Fin(j)) => i < j
    case (Fin(_), PosInf) => true
    case (_, _) => false
  }

  /** `Less` is a strict total order. */
  lemma LessOrder(u: Value, v: Value, w: Value)
    ensures !Less(u, u)
    ensures u != v ==> Less(u, v) || Less(v, u)
    ensures Less(u, v) && Less(v, w) ==> Less(u, w)
    ensures Less(u, v) ==> !Less(v, u)
  {
  }

  /** The list `[x, y, score]` that `MinMax` returns. */
  datatype Choice = Choice(x: int, y: int, score: Value)

  /** The starting `best` of a search: no move, and the worst score for the player. */
  function Initial(player: int): (c: Choice)
    ensures c.x == -1 && c.y == -1
    ensures c.score == if player == BLACK then NegInf else PosInf
  {
    if player == BLACK then Choice(-1, -1, NegInf) else Choice(-1, -1, PosInf)
  }

  /** Whether c replaces best: strictly greater for BLACK, strictly smaller otherwise. */
  predicate Better(player: int, c: Choice, best: Choice)
  {
    if player == BLACK then Less(best.score, c.score) else Less(c.score, best.score)
  }

  /** `Better` is a strict total order on scores. */
  lemma BetterOrder(player: int, c: Choice, d: Choice, e: Choice)
    ensures !Better(player, c, c)
    ensures c.score != d.score ==> Better(player, c, d) || Better(player, d, c)
    ensures Better(player, c, d) && Better(player, d, e) ==> Better(player, c, e)
    ensures Better(player, c, d) ==> !Better(player, d, c)
  {
    LessOrder(c.score, d.score, e.score);
    LessOrder(e.score, d.score, c.score);
  }

  /** One update of `best` at the end of the loop body. */
  function Update(player: int, best: Choice, c: Choice): Choice
  {
    if Better(player, c, best) then c else best
  }

  /** `best` after the candidates cs, one update after the other, starting from b. */
  function Pick(player: int, b: Choice, cs: seq<Choice>): Choice
    decreases |cs|
  {
    if cs == [] then b else Update(player, Pick(player, b, cs[..|cs| - 1]), cs[|cs| - 1])
  }

  /** The choice is the best one: nothing beats it, and it is the start or the first
      candidate that beats both the start and every candidate before it. So ties keep
      the earliest candidate. */
  lemma {:induction false} PickBest(player: int, b: Choice, cs: seq<Choice>)
    ensures var r := Pick(player, b, cs);
      !Better(player, b, r) &&
      (forall i :: 0 <= i < |cs| ==> !Better(player, cs[i], r)) &&
      (r == b ||
       exists j :: 0 <= j < |cs| && r == cs[j] && Better(player, r, b) &&
         forall i :: 0 <= i < j ==> Better(player, r, cs[i]))
    decreases |cs|
  {
    if cs != [] {
      var init := cs[..|cs| - 1];
      var c := cs[|cs| - 1];
      var p := Pick(player, b, init);
      PickBest(player, b, init);
      BetterOrder(player, b, p, c);
      if Better(player, c, p) {
        forall i | 0 <= i < |init|
          ensures Better(player, c, cs[i])
        {
          BetterOrder(player, c, p, cs[i]);
          assert cs[i] == init[i];
        }
        forall i | 0 <= i < |cs|
          ensures !Better(player, cs[i], c)
        {
          BetterOrder(player, cs[i], c, c);
        }
        assert Pick(player, b, cs) == cs[|cs| - 1];
      } else {
        forall i | 0 <= i < |cs|
          ensures !Better(player, cs[i], p)
        {
          if i < |init| {
            assert cs[i] == init[i];
          }
        }
        if p != b {
          var j :| 0 <= j < |init| && p == init[j] && Better(player, p, b) &&
            forall i :: 0 <= i < j ==> Better(player, p, init[i]);
          assert p == cs[j];
          forall i | 0 <= i < j
            ensures Better(player, p, cs[i])
          {
            assert cs[i] == init[i];
          }
        }
      }
    }
  }

  /** The choice is the start or one of the candidates. */
  lemma {:induction false} PickFrom(player: int, b: Choice, cs: seq<Choice>)
    ensures Pick(player, b, cs) == b || Pick(player, b, cs) in cs
    decreases |cs|
  {
    if cs != [] {
      PickFrom(player, b, cs[..|cs| - 1]);
      assert cs[..|cs| - 1] <= cs;
    }
  }

  /** `Pieces[a][b] = p`, the write `MinMax` makes with `Where = [a, b]`. */
  function Place(g: Grid, a: int, b: int, p: int): (h: Grid)
    requires IsGrid(g) && 0 <= a < 8 && 0 <= b < 8
    ensures IsGrid(h)
  {
    g[a := g[a][b := p]]
  }

  /** `Where = [a, b]` names the cell `Pos(a + 1, b + 1)`, at row b; yet `MinMax` writes the
      cell `Pos(b + 1, a + 1)`, at row a. Off the diagonal the move's own cell is left as it was. */
  lemma PlaceIsTransposed(g: Grid, a: int, b: int, p: int)
    requires IsGrid(g) && 0 <= a < 8 && 0 <= b < 8
    ensures Pos(Place(g, a, b, p), b + 1, a + 1) == Some(p)
    ensures a != b ==> Pos(Place(g, a, b, p), a + 1, b + 1) == Pos(g, a + 1, b + 1)
  {
  }

  predicate MovesInRange(moves: seq<Move>)
  {
    forall i :: 0 <= i < |moves| ==> 0 <= moves[i].x < 8 && 0 <= moves[i].y < 8
  }

  lemma LegalMovesInRange(g: Grid, next: int)
    requires IsGrid(g)
    ensures MovesInRange(LegalMoves(g, next))
  {
    LegalMovesExact(g, next);
    forall i | 0 <= i < |LegalMoves(g, next)|
      ensures 0 <= LegalMoves(g, next)[i].x < 8 && 0 <= LegalMoves(g, next)[i].y < 8
    {
      assert LegalMoves(g, next)[i] in LegalMoves(g, next);
    }
  }

  /** The result of `MinMax(player, game, depth)` when `game` holds g and `Next` is next,
      with the board the search leaves behind. */
  function MinMaxOf(player: int, next: int, g: Grid, depth: nat): (r: (Choice, Grid))
    requires IsGrid(g)
    ensures IsGrid(r.1)
    decreases depth, 2, 0
  {
    if depth == 0 then (Choice(-1, -1, Fin(Score(g, player))), g)
    else
      var e := Searched(player, next, g, depth);
      (Pick(player, Initial(player), e.0), e.1)
  }

  /** The loop of `MinMax` over the moves `ValidMoves` lists for `Next`. */
  function Searched(player: int, next: int, g: Grid, depth: nat): (r: (seq<Choice>, Grid))
    requires IsGrid(g) && depth >= 1
    ensures IsGrid(r.1) && |r.0| == |LegalMoves(g, next)|
    decreases depth, 1, 0
  {
    LegalMovesInRange(g, next);
    Explore(player, next, g, LegalMoves(g, next), depth)
  }

  /** The loop of `MinMax` over moves, from the board g: for each move the candidate it
      yields, and the board left after the last one. Each move is played on the board
      the previous ones left. */
  function Explore(player: int, next: int, g: Grid, moves: seq<Move>, depth: nat): (r: (seq<Choice>, Grid))
    requires IsGrid(g) && depth >= 1 && MovesInRange(moves)
    ensures IsGrid(r.1) && |r.0| == |moves|
    decreases depth, 0, |moves|
  {
    if moves == [] then ([], g)
    else
      var e := Explore(player, next, g, moves[..|moves| - 1], depth);
      var m := moves[|moves| - 1];
      var played := FlipAll(Place(e.1, m.x, m.y, player), (m.x, m.y), player, 8);
      var sub := MinMaxOf(Opponent(player), next, played, depth - 1);
      (e.0 + [sub.0.(x := m.x, y := m.y)], sub.1)
  }

  /** Each candidate carries the coordinates of its move. */
  lemma {:induction false} ExploreCoords(player: int, next: int, g: Grid, moves: seq<Move>, depth: nat, i: int)
    requires IsGrid(g) && depth >= 1 && MovesInRange(moves) && 0 <= i < |moves|
    ensures var c := Explore(player, next, g, moves, depth).0[i];
      c.x == moves[i].x && c.y == moves[i].y
    decreases |moves|
  {
    if i < |moves| - 1 {
      ExploreCoords(player, next, g, moves[..|moves| - 1], depth, i);
    }
  }

  /** At depth 0 the search returns `[-1, -1, evaluate(...)]`, a finite score within the
      bounds of `evaluate`, and leaves the board alone. */
  lemma MinMaxLeaf(player: int, next: int, g: Grid)
    requires IsGrid(g)
    ensures var r := MinMaxOf(player, next, g, 0);
      r.0.x == -1 && r.0.y == -1 && r.0.score.Fin? && -150 <= r.0.score.n <= 964 &&
      r.0.score.n == Score(g, player) && r.1 == g
  {
    ScoreBounds(g, player);
  }

  /** With no legal move for `Next`, the search returns the sentinel and leaves the board alone. */
  lemma NoMovesSentinel(player: int, next: int, g: Grid, depth: nat)
    requires IsGrid(g) && depth >= 1 && LegalMoves(g, next) == []
    ensures MinMaxOf(player, next, g, depth) ==
      (if player == BLACK then Choice(-1, -1, NegInf) else Choice(-1, -1, PosInf), g)
  {
    assert Searched(player, next, g, depth) == ([], g);
  }

  /** Above depth 0 the search returns the sentinel or the coordinates of a move that
      `NextBoardPosition` accepts for `Next`, whatever the side `player` is; no candidate
      is strictly better for `player`, and ties keep the earliest. */
  lemma MinMaxChoice(player: int, next: int, g: Grid, depth: nat)
    requires IsGrid(g) && depth >= 1
    ensures var r := MinMaxOf(player, next, g, depth).0;
      r == Initial(player) ||
      exists m :: m in LegalMoves(g, next) && r.x == m.x && r.y == m.y && Accepts(g, next, m.x + 1, m.y + 1)
    ensures var cs := Searched(player, next, g, depth).0;
      var r := MinMaxOf(player, next, g, depth).0;
      (forall i :: 0 <= i < |cs| ==> !Better(player, cs[i], r)) &&
      (r == Initial(player) ||
       exists j :: 0 <= j < |cs| && r == cs[j] && forall i :: 0 <= i < j ==> Better(player, r, cs[i]))
  {
    LegalMovesInRange(g, next);
    var moves := LegalMoves(g, next);
    var cs := Explore(player, next, g, moves, depth).0;
    assert cs == Searched(player, next, g, depth).0;
    var r := MinMaxOf(player, next, g, depth).0;
    assert r == Pick(player, Initial(player), cs);
    PickBest(player, Initial(player), cs);
    if r != Initial(player) {
      var j :| 0 <= j < |cs| && r == cs[j] && Better(player, r, Initial(player)) &&
        forall i :: 0 <= i < j ==> Better(player, r, cs[i]);
      ExploreCoords(player, next, g, moves, depth, j);
      LegalMovesExact(g, next);
      assert moves[j] in moves;
    }
  }

  /** The board is not restored: after a search of depth 1 over a single legal move, the
      board holds that move played at `Pieces[x][y]` with its flips. */
  lemma NoRestore(player: int, next: int, g: Grid)
    requires IsGrid(g) && |LegalMoves(g, next)| == 1
    ensures var m := LegalMoves(g, next)[0];
      0 <= m.x < 8 && 0 <= m.y < 8 &&
      MinMaxOf(player, next, g, 1).1 == FlipAll(Place(g, m.x, m.y, player), (m.x, m.y), player, 8)
  {
    LegalMovesInRange(g, next);
    var moves := LegalMoves(g, next);
    assert moves[..0] == [];
  }

  /** One more round of the loop extends the candidates by one. */
  lemma ExploreSnoc(player: int, next: int, g: Grid, moves: seq<Move>, depth: nat, i: int)
    requires IsGrid(g) && depth >= 1 && MovesInRange(moves) && 0 <= i < |moves|
    ensures MovesInRange(moves[..i]) && MovesInRange(moves[..i + 1])
    ensures var e := Explore(player, next, g, moves[..i], depth);
      var m := moves[i];
      var played := FlipAll(Place(e.1, m.x, m.y, player), (m.x, m.y), player, 8);
      var sub := MinMaxOf(Opponent(player), next, played, depth - 1);
      var c := sub.0.(x := m.x, y := m.y);
      Explore(player, next, g, moves[..i + 1], depth) == (e.0 + [c], sub.1) &&
      Pick(player, Initial(player), e.0 + [c]) == Update(player, Pick(player, Initial(player), e.0), c)
  {
    assert moves[..i + 1][..i] == moves[..i];
    var e := Explore(player, next, g, moves[..i], depth);
    var m := moves[i];
    var played := FlipAll(Place(e.1, m.x, m.y, player), (m.x, m.y), player, 8);
    var c := MinMaxOf(Opponent(player), next, played, depth - 1).0.(x := m.x, y := m.y);
    assert (e.0 + [c])[..|e.0|] == e.0;
  }

  /** The move of one round of the `MinMax` loop: `Pieces[x][y] = player`, then
      `flipPieces(player, [x, y], game)`. */
  method PlayAt(game: Game, x: int, y: int, player: int)
    requires game.Valid() && 0 <= x < 8 && 0 <= y < 8
    modifies game.pieces
    ensures game.pieces == old(game.pieces) && game.next == old(game.next) && game.Valid()
    ensures game.pieces.rows == FlipAll(Place(old(game.pieces.rows), x, y, player), (x, y), player, 8)
  {
    game.pieces.Write(x, y, player);
    FlipPieces(player, (x, y), game);
  }

  /** The body of the loop of `MinMax` for one move: play it at `Pieces[x][y]`, search
      the reply one level down, assign `temp` back and label the result with (x, y).
      `temp` is the very object that was written, so the assignment undoes nothing. */
  method Round(player: int, game: Game, x: int, y: int, depth: nat) returns (score: Choice)
    requires game.Valid() && 0 <= x < 8 && 0 <= y < 8 && depth >= 1
    modifies game, game.pieces
    ensures game.pieces == old(game.pieces) && game.next == old(game.next) && game.Valid()
    ensures var sub := MinMaxOf(Opponent(player), old(game.next),
      FlipAll(Place(old(game.pieces.rows), x, y, player), (x, y), player, 8), depth - 1);
      score == sub.0.(x := x, y := y) && game.pieces.rows == sub.1
    decreases depth, 0
  {
    var temp := game.pieces;
    PlayAt(game, x, y, player);
    var nextP := if player == BLACK then WHITE else BLACK;
    score := MinMax(nextP, game, depth - 1);
    game.pieces := temp;
    score := score.(x := x, y := y);
  }

  /** `MinMax(player, game, depth)`: the evaluation at depth 0, otherwise the loop over
      the moves `ValidMoves` lists for `Next`, keeping a candidate only when it is
      strictly better. The board object stays the same throughout. */
  method MinMax(player: int, game: Game, depth: nat) returns (best: Choice)
    requires game.Valid()
    modifies game, game.pieces
    ensures game.pieces == old(game.pieces) && game.next == old(game.next) && game.Valid()
    ensures best == MinMaxOf(player, game.next, old(game.pieces.rows), depth).0
    ensures game.pieces.rows == MinMaxOf(player, game.next, old(game.pieces.rows), depth).1
    decreases depth, 1
  {
    if player == BLACK {
      best := Choice(-1, -1, NegInf);
    } else {
      best := Choice(-1, -1, PosInf);
    }
    if depth == 0 {
      var score := Evaluate(game.pieces.rows, player);
      return Choice(-1, -1, Fin(score));
    }
    ghost var g, next := game.pieces.rows, game.next;
    var moves := game.ValidMoves();
    LegalMovesInRange(g, next);
    assert moves == LegalMoves(g, next);
    for i := 0 to |moves|
      invariant game.pieces == old(game.pieces) && game.next == next && game.Valid()
      invariant MovesInRange(moves) && MovesInRange(moves[..i])
      invariant (best, game.pieces.rows) ==
        (Pick(player, Initial(player), Explore(player, next, g, moves[..i], depth).0),
         Explore(player, next, g, moves[..i], depth).1)
    {
      ghost var prev := best;
      var score := Round(player, game, moves[i].x, moves[i].y, depth);
      if player == BLACK {
        best := if Less(best.score, score.score) then score else best;
      } else {
        best := if Less(score.score, best.score) then score else best;
      }
      assert best == Update(player, prev, score);
      assert (best, game.pieces.rows) ==
        (Pick(player, Initial(player), Explore(player, next, g, moves[..i + 1], depth).0),
         Explore(player, next, g, moves[..i + 1], depth).1) by {
        ExploreSnoc(player, next, g, moves, depth, i);
      }
    }
    assert moves[..|moves|] == moves;
    assert MinMaxOf(player, next, g, depth) ==
      (Pick(player, Initial(player), Explore(player, next, g, moves, depth).0), Explore(player, next, g, moves, depth).1);
  }
}
