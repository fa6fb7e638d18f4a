/** The `Game` object: a board (`Pieces`) and the side that plays next (`Next`),
    with move generation and a move applied to a deep copy. */
module Games {
  import opened Board
  import opened Rules

  class Game {
    var pieces: Pieces
    var next: int

    ghost predicate Valid()
      reads this, pieces
    {
      IsGrid(pieces.rows)
    }

    /** `Game(board=...)`: the game takes the given board as it is, without copying. */
    constructor (pieces: Pieces, next: int)
      requires IsGrid(pieces.rows)
      ensures Valid() && this.pieces == pieces && this.next == next
    {
      this.pieces := pieces;
      this.next := next;
    }

    /** `Next`: who plays next. */
    function Next(): int
      reads this
    {
      next
    }

    /** `__UpdateBoardDirection`: walks from (x, y) over the opponent's pieces and, if the
        walk ends on one of ours, turns (x, y) and the pieces walked over into ours. */
    method UpdateBoardDirection(newBoard: Pieces, x: int, y: int, dx: int, dy: int) returns (captured: bool)
      requires IsGrid(newBoard.rows) && IsDirection(dx, dy)
      modifies newBoard
      ensures (captured, newBoard.rows) == UpdateDirection(old(newBoard.rows), x, y, dx, dy, next)
    {
      var player := Next();
      var opponent := 3 - player;
      var lookX, lookY := x + dx, y + dy;
      var flipList: seq<(int, int)> := [];
      ghost var g := newBoard.rows;
      ghost var run := RunFrom(g, x, y, dx, dy, player);
      ghost var stop := RunStop(g, x + dx, y + dy, dx, dy, opponent);
      while Pos(newBoard.rows, lookX, lookY) == Some(opponent)
        invariant newBoard.rows == g
        invariant flipList + Run(g, lookX, lookY, dx, dy, opponent) == run
        invariant RunStop(g, lookX, lookY, dx, dy, opponent) == stop
        decreases Reach(lookX, lookY, dx, dy)
      {
        ReachDecreases(g, lookX, lookY, dx, dy, opponent);
        assert (flipList + [(lookX, lookY)]) + Run(g, lookX + dx, lookY + dy, dx, dy, opponent) == run &&
               RunStop(g, lookX + dx, lookY + dy, dx, dy, opponent) == stop by {
          RunAppend(g, lookX, lookY, dx, dy, opponent, flipList);
        }
        flipList := flipList + [(lookX, lookY)];
        lookX, lookY := lookX + dx, lookY + dy;
      }
      assert flipList == run && (lookX, lookY) == stop by {
        RunEmpty(g, lookX, lookY, dx, dy, opponent);
      }
      if Pos(newBoard.rows, lookX, lookY) == Some(player) && |flipList| > 0 {
        var _ := SetPos(newBoard, x, y, player);
        ghost var placed := newBoard.rows;
        for i := 0 to |flipList|
          invariant newBoard.rows == SetAll(placed, flipList[..i], player)
        {
          var flipX := flipList[i].0;
          var flipY := flipList[i].1;
          var _ := SetPos(newBoard, flipX, flipY, player);
          assert newBoard.rows == SetAll(placed, flipList[..i + 1], player) by {
            SetAllSnoc(placed, flipList, i, player);
          }
        }
        assert flipList[..|flipList|] == flipList;
        return true;
      }
      return false;
    }

    /** `NextBoardPosition`: the game after `move`, or None when the cell is not empty
        or nothing is captured. The move's side is ignored: the mover is `Next`. The
        original board is never written: the work is done on a deep copy. */
    method NextBoardPosition(move: Move) returns (r: Option<Game>)
      requires Valid()
      ensures r.Some? <==> Accepts(pieces.rows, next, move.x, move.y)
      ensures r.Some? ==> fresh(r.value) && fresh(r.value.pieces) && r.value.Valid()
      ensures r.Some? ==> r.value.pieces.rows == NextBoard(pieces.rows, next, move.x, move.y).value
      ensures r.Some? ==> r.value.next == 3 - next
    {
      var x := move.x;
      var y := move.y;
      if Pos(pieces.rows, x, y) != Some(0) {
        return None;
      }
      var newBoard := new Pieces(pieces.rows);
      ghost var g := pieces.rows;
      var captured := false;
      for k := 0 to 8
        invariant (captured, newBoard.rows) == Sweep(g, x, y, next, k)
      {
        ghost var prev := (captured, newBoard.rows);
        var (dx, dy) := Directions[k];
        DirectionsAreDirections(k);
        var c := UpdateBoardDirection(newBoard, x, y, dx, dy);
        assert (prev.0 || c, newBoard.rows) == Sweep(g, x, y, next, k + 1) by {
          SweepNext(g, x, y, next, k + 1, prev, dx, dy);
        }
        captured := captured || c;
      }
      if !captured {
        return None;
      }
      var game := new Game(newBoard, 3 - Next());
      return Some(game);
    }

    /** `ValidMoves`: every cell, row by row, at which `NextBoardPosition` succeeds for
        `Next`, reported 0-based. */
    method ValidMoves() returns (moves: seq<Move>)
      requires Valid()
      ensures moves == LegalMoves(pieces.rows, next)
    {
      ghost var g, player := pieces.rows, next;
      ghost var accepts := AcceptsOn(g, player);
      moves := [];
      for y := 1 to 9
        invariant pieces.rows == g && next == player
        invariant moves == ScanTo(accepts, player, y, 1)
      {
        for x := 1 to 9
          invariant pieces.rows == g && next == player
          invariant moves == ScanTo(accepts, player, y, x)
        {
          var move := Move(x, y, Next());
          var r := NextBoardPosition(move);
          assert accepts(x, y) == r.Some?;
          if r.Some? {
            move := move.(x := move.x - 1, y := move.y - 1);
            moves := moves + [move];
          }
        }
      }
    }
  }
}
