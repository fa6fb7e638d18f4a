/** Move legality and capture, as values: the walk of `__UpdateBoardDirection`,
    the eight-direction sweep of `NextBoardPosition` and the row-major scan of
    `ValidMoves`, all in the 1-based coordinates of `Pos`. */
module Rules {
  import opened Board

  /** The directions in the order `NextBoardPosition` tries them. */
  const Directions: seq<(int, int)> :=
    [(1, 0), (0, 1), (-1, 0), (0, -1), (1, 1), (-1, 1), (1, -1), (-1, -1)]

  predicate IsDirection(dx: int, dy: int)
  {
    -1 <= dx <= 1 && -1 <= dy <= 1 && (dx, dy) != (0, 0)
  }

  lemma DirectionsAreDirections(j: int)
    requires 0 <= j < 8
    ensures IsDirection(Directions[j].0, Directions[j].1)
  {
  }

  lemma DirectionsDistinct(i: int, j: int)
    requires 0 <= i < 8 && 0 <= j < 8 && Directions[i] == Directions[j]
    ensures i == j
  {
  }

  /** The coordinate `n` steps from `l` in direction `d` (d in -1..1). */
  function Step(l: int, n: int, d: int): int
    decreases n
  {
    if n <= 0 then l else Step(l, n - 1, d) + d
  }

  lemma {:induction false} StepClosed(l: int, n: int, d: int)
    requires 0 <= n && -1 <= d <= 1
    ensures Step(l, n, d) == if d == 0 then l else if d > 0 then l + n else l - n
    decreases n
  {
    if n > 0 {
      StepClosed(l, n - 1, d);
    }
  }

  function Sign(n: int): int
  {
    if n > 0 then 1 else if n < 0 then -1 else 0
  }

  function Abs(n: int): int
  {
    if n < 0 then -n else n
  }

  /** (cx, cy) lies strictly beyond (x, y) on the ray in direction (dx, dy). */
  predicate OnRay(x: int, y: int, dx: int, dy: int, cx: int, cy: int)
  {
    Sign(cx - x) == dx && Sign(cy - y) == dy && (dx == 0 || dy == 0 || Abs(cx - x) == Abs(cy - y))
  }

  lemma StepShift(l: int, n: int, d: int)
    requires 0 <= n && -1 <= d <= 1
    ensures Step(l + d, n, d) == Step(l, n + 1, d)
  {
    StepClosed(l + d, n, d);
    StepClosed(l, n + 1, d);
  }

  /** How many more cells a walk from (lx, ly) can visit before it leaves 1..8. */
  function Reach1(l: int, d: int): nat
  {
    if d > 0 then (if l <= 8 then 9 - l else 0)
    else if d < 0 then (if l >= 1 then l else 0)
    else 0
  }

  function Reach(lx: int, ly: int, dx: int, dy: int): nat
  {
    Reach1(lx, dx) + Reach1(ly, dy)
  }

  /** The cells the walk collects: from (lx, ly) on, as long as each holds `opp`. */
  function Run(g: Grid, lx: int, ly: int, dx: int, dy: int, opp: int): seq<(int, int)>
    requires IsGrid(g) && IsDirection(dx, dy)
    decreases Reach(lx, ly, dx, dy)
  {
    if Pos(g, lx, ly) == Some(opp) then
      ReachDecreases(g, lx, ly, dx, dy, opp);
      [(lx, ly)] + Run(g, lx + dx, ly + dy, dx, dy, opp)
    else []
  }

  /** Where the walk from (lx, ly) stops: the first position not holding `opp`. */
  function RunStop(g: Grid, lx: int, ly: int, dx: int, dy: int, opp: int): (int, int)
    requires IsGrid(g) && IsDirection(dx, dy)
    decreases Reach(lx, ly, dx, dy)
  {
    if Pos(g, lx, ly) == Some(opp) then
      ReachDecreases(g, lx, ly, dx, dy, opp);
      RunStop(g, lx + dx, ly + dy, dx, dy, opp)
    else (lx, ly)
  }

  /** The walk visits consecutive cells of the ray, each holding `opp`, and stops at
      the first cell (or off-board position) that does not. */
  lemma {:induction false} RunShape(g: Grid, lx: int, ly: int, dx: int, dy: int, opp: int)
    requires IsGrid(g) && IsDirection(dx, dy)
    ensures forall i :: 0 <= i < |Run(g, lx, ly, dx, dy, opp)| ==>
      Run(g, lx, ly, dx, dy, opp)[i] == (Step(lx, i, dx), Step(ly, i, dy)) &&
      Pos(g, Step(lx, i, dx), Step(ly, i, dy)) == Some(opp)
    ensures Pos(g, Step(lx, |Run(g, lx, ly, dx, dy, opp)|, dx), Step(ly, |Run(g, lx, ly, dx, dy, opp)|, dy)) != Some(opp)
  {
    forall i | 0 <= i < |Run(g, lx, ly, dx, dy, opp)|
      ensures Run(g, lx, ly, dx, dy, opp)[i] == (Step(lx, i, dx), Step(ly, i, dy))
      ensures Pos(g, Step(lx, i, dx), Step(ly, i, dy)) == Some(opp)
    {
      RunAt(g, lx, ly, dx, dy, opp, i);
    }
    RunEnd(g, lx, ly, dx, dy, opp);
  }

  /** Every collected cell is on the board and holds `opp`. */
  lemma RunInBoard(g: Grid, lx: int, ly: int, dx: int, dy: int, opp: int)
    requires IsGrid(g) && IsDirection(dx, dy)
    ensures forall c :: c in Run(g, lx, ly, dx, dy, opp) ==> Pos(g, c.0, c.1) == Some(opp)
  {
    forall i | 0 <= i < |Run(g, lx, ly, dx, dy, opp)|
      ensures Pos(g, Run(g, lx, ly, dx, dy, opp)[i].0, Run(g, lx, ly, dx, dy, opp)[i].1) == Some(opp)
    {
      RunAt(g, lx, ly, dx, dy, opp, i);
    }
  }

  lemma {:induction false} RunAt(g: Grid, lx: int, ly: int, dx: int, dy: int, opp: int, i: int)
    requires IsGrid(g) && IsDirection(dx, dy) && 0 <= i < |Run(g, lx, ly, dx, dy, opp)|
    ensures Run(g, lx, ly, dx, dy, opp)[i] == (Step(lx, i, dx), Step(ly, i, dy))
    ensures Pos(g, Step(lx, i, dx), Step(ly, i, dy)) == Some(opp)
    decreases i
  {
    RunUnfold(g, lx, ly, dx, dy, opp);
    if i > 0 {
      RunAt(g, lx + dx, ly + dy, dx, dy, opp, i - 1);
      StepShift(lx, i - 1, dx);
      StepShift(ly, i - 1, dy);
    }
  }

  /** The walk stops just after the cells it collected, on a position not holding `opp`. */
  lemma {:induction false} RunEnd(g: Grid, lx: int, ly: int, dx: int, dy: int, opp: int)
    requires IsGrid(g) && IsDirection(dx, dy)
    ensures RunStop(g, lx, ly, dx, dy, opp) ==
      (Step(lx, |Run(g, lx, ly, dx, dy, opp)|, dx), Step(ly, |Run(g, lx, ly, dx, dy, opp)|, dy))
    ensures Pos(g, RunStop(g, lx, ly, dx, dy, opp).0, RunStop(g, lx, ly, dx, dy, opp).1) != Some(opp)
    decreases Reach(lx, ly, dx, dy)
  {
    if Pos(g, lx, ly) == Some(opp) {
      ReachDecreases(g, lx, ly, dx, dy, opp);
      RunEnd(g, lx + dx, ly + dy, dx, dy, opp);
      RunUnfold(g, lx, ly, dx, dy, opp);
      StepShift(lx, |Run(g, lx + dx, ly + dy, dx, dy, opp)|, dx);
      StepShift(ly, |Run(g, lx + dx, ly + dy, dx, dy, opp)|, dy);
    } else {
      RunEmpty(g, lx, ly, dx, dy, opp);
    }
  }

  /** The walk of `__UpdateBoardDirection` from the move (x, y). */
  function RunFrom(g: Grid, x: int, y: int, dx: int, dy: int, player: int): seq<(int, int)>
    requires IsGrid(g) && IsDirection(dx, dy)
  {
    Run(g, x + dx, y + dy, dx, dy, 3 - player)
  }

  /** A direction captures when the walk collected something and stopped on one of
      the mover's own pieces. */
  predicate Capturing(g: Grid, x: int, y: int, dx: int, dy: int, player: int)
    requires IsGrid(g) && IsDirection(dx, dy)
  {
    var stop := RunStop(g, x + dx, y + dy, dx, dy, 3 - player);
    |RunFrom(g, x, y, dx, dy, player)| > 0 && Pos(g, stop.0, stop.1) == Some(player)
  }

  /** The k cells after (x, y) hold the opponent and the next one holds `player`. */
  predicate Flanked(g: Grid, x: int, y: int, dx: int, dy: int, player: int, k: int)
    requires IsGrid(g)
  {
    1 <= k &&
    (forall i :: 1 <= i <= k ==> Pos(g, Step(x, i, dx), Step(y, i, dy)) == Some(3 - player)) &&
    Pos(g, Step(x, k + 1, dx), Step(y, k + 1, dy)) == Some(player)
  }

  /** The walk from the move, in terms of the steps from (x, y): the first n steps hold
      the opponent, and the walk stops at step n + 1, which does not. */
  lemma WalkSteps(g: Grid, x: int, y: int, dx: int, dy: int, player: int)
    requires IsGrid(g) && IsDirection(dx, dy)
    ensures forall i :: 1 <= i <= |RunFrom(g, x, y, dx, dy, player)| ==>
      Pos(g, Step(x, i, dx), Step(y, i, dy)) == Some(3 - player)
    ensures RunStop(g, x + dx, y + dy, dx, dy, 3 - player) ==
      (Step(x, |RunFrom(g, x, y, dx, dy, player)| + 1, dx), Step(y, |RunFrom(g, x, y, dx, dy, player)| + 1, dy))
    ensures Pos(g, Step(x, |RunFrom(g, x, y, dx, dy, player)| + 1, dx),
                   Step(y, |RunFrom(g, x, y, dx, dy, player)| + 1, dy)) != Some(3 - player)
  {
    var run := RunFrom(g, x, y, dx, dy, player);
    RunEnd(g, x + dx, y + dy, dx, dy, 3 - player);
    StepShift(x, |run|, dx);
    StepShift(y, |run|, dy);
    forall i | 1 <= i <= |run|
      ensures Pos(g, Step(x, i, dx), Step(y, i, dy)) == Some(3 - player)
    {
      RunAt(g, x + dx, y + dy, dx, dy, 3 - player, i - 1);
      StepShift(x, i - 1, dx);
      StepShift(y, i - 1, dy);
    }
  }

  /** A direction captures exactly when some positive number of opponent pieces
      lies between (x, y) and a piece of the mover's. */
  lemma CapturingIff(g: Grid, x: int, y: int, dx: int, dy: int, player: int)
    requires IsGrid(g) && IsDirection(dx, dy)
    ensures Capturing(g, x, y, dx, dy, player) <==> exists k :: Flanked(g, x, y, dx, dy, player, k)
  {
    var n := |RunFrom(g, x, y, dx, dy, player)|;
    WalkSteps(g, x, y, dx, dy, player);
    if Capturing(g, x, y, dx, dy, player) {
      assert Flanked(g, x, y, dx, dy, player, n);
    }
    if k :| Flanked(g, x, y, dx, dy, player, k) {
      assert k == n;
    }
  }

  /** `SetPos(piece)` on each of `cells`, in order. */
  function SetAll(g: Grid, cells: seq<(int, int)>, piece: int): (h: Grid)
    requires IsGrid(g)
    ensures IsGrid(h)
    decreases |cells|
  {
    if cells == [] then g
    else
      var last := cells[|cells| - 1];
      WithPos(SetAll(g, cells[..|cells| - 1], piece), last.0, last.1, piece).1
  }

  /** One more `SetPos` extends the prefix of cells already set. */
  lemma SetAllSnoc(g: Grid, cells: seq<(int, int)>, i: int, piece: int)
    requires IsGrid(g) && 0 <= i < |cells|
    ensures SetAll(g, cells[..i + 1], piece) == WithPos(SetAll(g, cells[..i], piece), cells[i].0, cells[i].1, piece).1
  {
    assert cells[..i + 1][..i] == cells[..i];
  }

  /** Exactly the listed on-board cells end up holding the piece (when it is a valid one). */
  lemma {:induction false} SetAllAt(g: Grid, cells: seq<(int, int)>, piece: int, cx: int, cy: int)
    requires IsGrid(g)
    ensures Pos(SetAll(g, cells, piece), cx, cy) ==
      if (cx, cy) in cells && 1 <= cx <= 8 && 1 <= cy <= 8 && 0 <= piece <= 2 then Some(piece) else Pos(g, cx, cy)
    decreases |cells|
  {
    if cells != [] {
      var init := cells[..|cells| - 1];
      var last := cells[|cells| - 1];
      SetAllAt(g, init, piece, cx, cy);
      WithPosAt(SetAll(g, init, piece), last.0, last.1, piece, cx, cy);
      assert (cx, cy) in cells <==> (cx, cy) in init || (cx, cy) == cells[|cells| - 1];
    }
  }

  /** `__UpdateBoardDirection` as a value: whether the direction captured, and the board after. */
  function UpdateDirection(g: Grid, x: int, y: int, dx: int, dy: int, player: int): (res: (bool, Grid))
    requires IsGrid(g) && IsDirection(dx, dy)
    ensures IsGrid(res.1)
    ensures res.0 <==> Capturing(g, x, y, dx, dy, player)
    ensures !res.0 ==> res.1 == g
  {
    if Capturing(g, x, y, dx, dy, player) then
      (true, SetAll(WithPos(g, x, y, player).1, RunFrom(g, x, y, dx, dy, player), player))
    else (false, g)
  }

  /** Placing the move and then the collected cells (all on the board) changes exactly those cells. */
  lemma PlaceAllAt(g: Grid, x: int, y: int, run: seq<(int, int)>, player: int, cx: int, cy: int)
    requires IsGrid(g) && forall c :: c in run ==> Pos(g, c.0, c.1).Some?
    ensures Pos(SetAll(WithPos(g, x, y, player).1, run, player), cx, cy) ==
      if 0 <= player <= 2 && (((cx, cy) == (x, y) && 1 <= x <= 8 && 1 <= y <= 8) || (cx, cy) in run)
      then Some(player) else Pos(g, cx, cy)
  {
    SetAllAt(WithPos(g, x, y, player).1, run, player, cx, cy);
    WithPosAt(g, x, y, player, cx, cy);
    if (cx, cy) in run {
      assert Pos(g, cx, cy).Some?;
    }
  }

  /** A capturing direction turns exactly the move and the walked-over cells into the
      mover's pieces (when the mover is a valid piece); the rest stays as it was. */
  lemma UpdateDirectionAt(g: Grid, x: int, y: int, dx: int, dy: int, player: int, cx: int, cy: int)
    requires IsGrid(g) && IsDirection(dx, dy) && Capturing(g, x, y, dx, dy, player)
    ensures Pos(UpdateDirection(g, x, y, dx, dy, player).1, cx, cy) ==
      if 0 <= player <= 2 &&
         (((cx, cy) == (x, y) && 1 <= x <= 8 && 1 <= y <= 8) || (cx, cy) in RunFrom(g, x, y, dx, dy, player))
      then Some(player) else Pos(g, cx, cy)
  {
    var run := RunFrom(g, x, y, dx, dy, player);
    assert forall c :: c in run ==> Pos(g, c.0, c.1).Some? by {
      RunInBoard(g, x + dx, y + dy, dx, dy, 3 - player);
    }
    assert UpdateDirection(g, x, y, dx, dy, player).1 == SetAll(WithPos(g, x, y, player).1, run, player);
    PlaceAllAt(g, x, y, run, player, cx, cy);
  }

  /** The first k directions of `NextBoardPosition`, applied in order. The results are
      or-ed without short-circuit, so every direction is applied. */
  function Sweep(g: Grid, x: int, y: int, player: int, k: int): (res: (bool, Grid))
    requires IsGrid(g) && 0 <= k <= 8
    ensures IsGrid(res.1)
  {
    if k == 0 then (false, g)
    else
      var prev := Sweep(g, x, y, player, k - 1);
      DirectionsAreDirections(k - 1);
      var here := UpdateDirection(prev.1, x, y, Directions[k - 1].0, Directions[k - 1].1, player);
      (prev.0 || here.0, here.1)
  }

  lemma SweepNext(g: Grid, x: int, y: int, player: int, k: int, prev: (bool, Grid), dx: int, dy: int)
    requires IsGrid(g) && 1 <= k <= 8 && Sweep(g, x, y, player, k - 1) == prev
    requires (dx, dy) == Directions[k - 1]
    ensures IsDirection(dx, dy) && IsGrid(prev.1)
    ensures Sweep(g, x, y, player, k) ==
      (prev.0 || UpdateDirection(prev.1, x, y, dx, dy, player).0, UpdateDirection(prev.1, x, y, dx, dy, player).1)
  {
    DirectionsAreDirections(k - 1);
  }

  /** `NextBoardPosition` as a value: the board after the move, or None when it is rejected. */
  function NextBoard(g: Grid, player: int, x: int, y: int): Option<Grid>
    requires IsGrid(g)
  {
    if Pos(g, x, y) != Some(0) then None
    else
      var res := Sweep(g, x, y, player, 8);
      if res.0 then Some(res.1) else None
  }

  predicate CapturesToward(g: Grid, x: int, y: int, player: int, j: int)
    requires IsGrid(g) && 0 <= j < 8
  {
    DirectionsAreDirections(j);
    Capturing(g, x, y, Directions[j].0, Directions[j].1, player)
  }

  function RunToward(g: Grid, x: int, y: int, player: int, j: int): seq<(int, int)>
    requires IsGrid(g) && 0 <= j < 8
  {
    DirectionsAreDirections(j);
    RunFrom(g, x, y, Directions[j].0, Directions[j].1, player)
  }

  /** (cx, cy) is captured by one of the first k directions, judged on the original board. */
  predicate Flipped(g: Grid, x: int, y: int, player: int, k: int, cx: int, cy: int)
    requires IsGrid(g) && 0 <= k <= 8
  {
    exists j :: 0 <= j < k && CapturesToward(g, x, y, player, j) && (cx, cy) in RunToward(g, x, y, player, j)
  }

  /** g and h agree on every cell the walk from (lx, ly) in direction (dx, dy) can visit. */
  ghost predicate AgreeFrom(g: Grid, h: Grid, lx: int, ly: int, dx: int, dy: int)
  {
    IsGrid(g) && IsGrid(h) &&
    forall i :: 0 <= i ==> Pos(g, Step(lx, i, dx), Step(ly, i, dy)) == Pos(h, Step(lx, i, dx), Step(ly, i, dy))
  }

  lemma StepOnRay(x: int, y: int, dx: int, dy: int, n: nat)
    requires IsDirection(dx, dy)
    ensures OnRay(x, y, dx, dy, Step(x + dx, n, dx), Step(y + dy, n, dy))
  {
    StepClosed(x + dx, n, dx);
    StepClosed(y + dy, n, dy);
  }

  lemma RunOnRay(g: Grid, x: int, y: int, dx: int, dy: int, player: int)
    requires IsGrid(g) && IsDirection(dx, dy)
    ensures forall c :: c in RunFrom(g, x, y, dx, dy, player) ==> OnRay(x, y, dx, dy, c.0, c.1)
  {
    var run := RunFrom(g, x, y, dx, dy, player);
    RunShape(g, x + dx, y + dy, dx, dy, 3 - player);
    forall i | 0 <= i < |run|
      ensures OnRay(x, y, dx, dy, run[i].0, run[i].1)
    {
      StepOnRay(x, y, dx, dy, i);
    }
  }

  lemma AgreeNext(g: Grid, h: Grid, lx: int, ly: int, dx: int, dy: int)
    requires IsDirection(dx, dy) && AgreeFrom(g, h, lx, ly, dx, dy)
    ensures AgreeFrom(g, h, lx + dx, ly + dy, dx, dy)
  {
    var mx, my := lx + dx, ly + dy;
    forall i | 0 <= i
      ensures Pos(g, Step(mx, i, dx), Step(my, i, dy)) == Pos(h, Step(mx, i, dx), Step(my, i, dy))
    {
      StepShift(lx, i, dx);
      StepShift(ly, i, dy);
      assert Pos(g, Step(lx, i + 1, dx), Step(ly, i + 1, dy)) == Pos(h, Step(lx, i + 1, dx), Step(ly, i + 1, dy));
    }
  }

  /** The walk only reads the cells it can visit. */
  lemma {:induction false} RunFrame(g: Grid, h: Grid, lx: int, ly: int, dx: int, dy: int, opp: int)
    requires IsDirection(dx, dy) && AgreeFrom(g, h, lx, ly, dx, dy)
    ensures Run(g, lx, ly, dx, dy, opp) == Run(h, lx, ly, dx, dy, opp)
    ensures RunStop(g, lx, ly, dx, dy, opp) == RunStop(h, lx, ly, dx, dy, opp)
    decreases Reach(lx, ly, dx, dy)
  {
    assert Pos(g, Step(lx, 0, dx), Step(ly, 0, dy)) == Pos(h, Step(lx, 0, dx), Step(ly, 0, dy));
    if Pos(g, lx, ly) == Some(opp) {
      ReachDecreases(g, lx, ly, dx, dy, opp);
      AgreeNext(g, h, lx, ly, dx, dy);
      RunFrame(g, h, lx + dx, ly + dy, dx, dy, opp);
      RunUnfold(g, lx, ly, dx, dy, opp);
      RunUnfold(h, lx, ly, dx, dy, opp);
    } else {
      RunEmpty(g, lx, ly, dx, dy, opp);
      RunEmpty(h, lx, ly, dx, dy, opp);
    }
  }

  lemma ReachDecreases(g: Grid, lx: int, ly: int, dx: int, dy: int, opp: int)
    requires IsGrid(g) && IsDirection(dx, dy) && Pos(g, lx, ly) == Some(opp)
    ensures Reach(lx + dx, ly + dy, dx, dy) < Reach(lx, ly, dx, dy)
  {
  }

  lemma RunUnfold(g: Grid, lx: int, ly: int, dx: int, dy: int, opp: int)
    requires IsGrid(g) && IsDirection(dx, dy) && Pos(g, lx, ly) == Some(opp)
    ensures Run(g, lx, ly, dx, dy, opp) == [(lx, ly)] + Run(g, lx + dx, ly + dy, dx, dy, opp)
  {
  }

  /** One step of the walk: the cell just collected, followed by the rest of the walk. */
  lemma RunAppend(g: Grid, lx: int, ly: int, dx: int, dy: int, opp: int, acc: seq<(int, int)>)
    requires IsGrid(g) && IsDirection(dx, dy) && Pos(g, lx, ly) == Some(opp)
    ensures (acc + [(lx, ly)]) + Run(g, lx + dx, ly + dy, dx, dy, opp) == acc + Run(g, lx, ly, dx, dy, opp)
    ensures RunStop(g, lx + dx, ly + dy, dx, dy, opp) == RunStop(g, lx, ly, dx, dy, opp)
  {
    RunUnfold(g, lx, ly, dx, dy, opp);
    assert (acc + [(lx, ly)]) + Run(g, lx + dx, ly + dy, dx, dy, opp) ==
      acc + ([(lx, ly)] + Run(g, lx + dx, ly + dy, dx, dy, opp));
  }

  lemma RunEmpty(g: Grid, lx: int, ly: int, dx: int, dy: int, opp: int)
    requires IsGrid(g) && IsDirection(dx, dy) && Pos(g, lx, ly) != Some(opp)
    ensures Run(g, lx, ly, dx, dy, opp) == []
  {
  }

  lemma CapturingFrame(g: Grid, h: Grid, x: int, y: int, dx: int, dy: int, player: int)
    requires IsDirection(dx, dy) && AgreeFrom(g, h, x + dx, y + dy, dx, dy)
    ensures RunFrom(g, x, y, dx, dy, player) == RunFrom(h, x, y, dx, dy, player)
    ensures Capturing(g, x, y, dx, dy, player) == Capturing(h, x, y, dx, dy, player)
  {
    RunFrame(g, h, x + dx, y + dy, dx, dy, 3 - player);
    RunEnd(g, x + dx, y + dy, dx, dy, 3 - player);
    var n := |RunFrom(g, x, y, dx, dy, player)|;
    assert Pos(g, Step(x + dx, n, dx), Step(y + dy, n, dy)) == Pos(h, Step(x + dx, n, dx), Step(y + dy, n, dy));
  }

  /** After the first k directions, h holds the mover's piece exactly on the cells those
      directions collected on the original board g, and on the move itself when `flag`
      (some direction captured); every other cell is as in g. */
  ghost predicate CellsAfter(g: Grid, h: Grid, x: int, y: int, player: int, k: int, flag: bool)
    requires IsGrid(g) && IsGrid(h) && 0 <= k <= 8
  {
    forall cx, cy {:trigger Pos(h, cx, cy)} :: (Pos(h, cx, cy) ==
      if Flipped(g, x, y, player, k, cx, cy) || ((cx, cy) == (x, y) && flag)
      then Some(player) else Pos(g, cx, cy))
  }

  /** No cell on direction k's ray is the move or was collected by an earlier direction. */
  lemma NotEarlier(g: Grid, x: int, y: int, player: int, k: int, i: nat)
    requires IsGrid(g) && 0 <= k < 8
    ensures IsDirection(Directions[k].0, Directions[k].1)
    ensures (Step(x + Directions[k].0, i, Directions[k].0), Step(y + Directions[k].1, i, Directions[k].1)) != (x, y)
    ensures !Flipped(g, x, y, player, k, Step(x + Directions[k].0, i, Directions[k].0), Step(y + Directions[k].1, i, Directions[k].1))
  {
    DirectionsAreDirections(k);
    var (dx, dy) := Directions[k];
    var cx, cy := Step(x + dx, i, dx), Step(y + dy, i, dy);
    StepOnRay(x, y, dx, dy, i);
    if Flipped(g, x, y, player, k, cx, cy) {
      var j :| 0 <= j < k && CapturesToward(g, x, y, player, j) && (cx, cy) in RunToward(g, x, y, player, j);
      DirectionsAreDirections(j);
      RunOnRay(g, x, y, Directions[j].0, Directions[j].1, player);
      assert OnRay(x, y, Directions[j].0, Directions[j].1, cx, cy);
      DirectionsDistinct(j, k);
    }
  }

  lemma AgreeAt(g: Grid, h: Grid, x: int, y: int, player: int, k: int, flag: bool, i: nat)
    requires IsGrid(g) && IsGrid(h) && 0 <= k < 8 && CellsAfter(g, h, x, y, player, k, flag)
    ensures Pos(g, Step(x + Directions[k].0, i, Directions[k].0), Step(y + Directions[k].1, i, Directions[k].1)) ==
      Pos(h, Step(x + Directions[k].0, i, Directions[k].0), Step(y + Directions[k].1, i, Directions[k].1))
  {
    NotEarlier(g, x, y, player, k, i);
  }

  /** Direction k's ray is untouched by the directions before it. */
  lemma AgreesBefore(g: Grid, h: Grid, x: int, y: int, player: int, k: int, flag: bool)
    requires IsGrid(g) && IsGrid(h) && 0 <= k < 8 && CellsAfter(g, h, x, y, player, k, flag)
    ensures IsDirection(Directions[k].0, Directions[k].1)
    ensures AgreeFrom(g, h, x + Directions[k].0, y + Directions[k].1, Directions[k].0, Directions[k].1)
  {
    DirectionsAreDirections(k);
    var (dx, dy) := Directions[k];
    var mx, my := x + dx, y + dy;
    forall i | 0 <= i
      ensures Pos(g, Step(mx, i, dx), Step(my, i, dy)) == Pos(h, Step(mx, i, dx), Step(my, i, dy))
    {
      AgreeAt(g, h, x, y, player, k, flag, i);
    }
  }

  lemma FlippedStep(g: Grid, x: int, y: int, player: int, k: int, cx: int, cy: int)
    requires IsGrid(g) && 0 <= k < 8
    ensures Flipped(g, x, y, player, k + 1, cx, cy) <==>
      Flipped(g, x, y, player, k, cx, cy) ||
      (CapturesToward(g, x, y, player, k) && (cx, cy) in RunToward(g, x, y, player, k))
  {
    if Flipped(g, x, y, player, k + 1, cx, cy) {
      var j :| 0 <= j < k + 1 && CapturesToward(g, x, y, player, j) && (cx, cy) in RunToward(g, x, y, player, j);
      if j < k {
        assert Flipped(g, x, y, player, k, cx, cy);
      }
    }
  }

  /** On a board satisfying the invariant for k, direction k walks and captures as on
      the original board. */
  lemma SameWalk(g: Grid, h: Grid, x: int, y: int, player: int, k: int, flag: bool)
    requires IsGrid(g) && IsGrid(h) && 0 <= k < 8 && CellsAfter(g, h, x, y, player, k, flag)
    ensures IsDirection(Directions[k].0, Directions[k].1)
    ensures UpdateDirection(h, x, y, Directions[k].0, Directions[k].1, player).0 == CapturesToward(g, x, y, player, k)
    ensures RunFrom(h, x, y, Directions[k].0, Directions[k].1, player) == RunToward(g, x, y, player, k)
  {
    AgreesBefore(g, h, x, y, player, k, flag);
    CapturingFrame(g, h, x, y, Directions[k].0, Directions[k].1, player);
  }

  /** One cell after applying direction k to a board that satisfies the invariant for k. */
  lemma CellStepAt(g: Grid, h: Grid, x: int, y: int, player: int, k: int, flag: bool, cx: int, cy: int)
    requires IsGrid(g) && IsGrid(h) && 0 <= k < 8 && 0 <= player <= 2 && 1 <= x <= 8 && 1 <= y <= 8
    requires CellsAfter(g, h, x, y, player, k, flag)
    requires IsDirection(Directions[k].0, Directions[k].1)
    requires UpdateDirection(h, x, y, Directions[k].0, Directions[k].1, player).0 == CapturesToward(g, x, y, player, k)
    requires RunFrom(h, x, y, Directions[k].0, Directions[k].1, player) == RunToward(g, x, y, player, k)
    ensures Pos(UpdateDirection(h, x, y, Directions[k].0, Directions[k].1, player).1, cx, cy) ==
      if Flipped(g, x, y, player, k + 1, cx, cy) ||
         ((cx, cy) == (x, y) && (flag || UpdateDirection(h, x, y, Directions[k].0, Directions[k].1, player).0))
      then Some(player) else Pos(g, cx, cy)
  {
    var (dx, dy) := Directions[k];
    var here := UpdateDirection(h, x, y, dx, dy, player);
    FlippedStep(g, x, y, player, k, cx, cy);
    assert Pos(h, cx, cy) == if Flipped(g, x, y, player, k, cx, cy) || ((cx, cy) == (x, y) && flag)
      then Some(player) else Pos(g, cx, cy);
    if here.0 {
      UpdateDirectionAt(h, x, y, dx, dy, player, cx, cy);
      assert Pos(here.1, cx, cy) == if (cx, cy) == (x, y) || (cx, cy) in RunToward(g, x, y, player, k)
        then Some(player) else Pos(h, cx, cy);
    }
  }

  /** Applying direction k to a board that satisfies the invariant for k gives one
      that satisfies it for k + 1, and the direction captures there exactly when it
      captures on the original board. */
  lemma CellsStep(g: Grid, h: Grid, x: int, y: int, player: int, k: int, flag: bool)
    requires IsGrid(g) && IsGrid(h) && 0 <= k < 8 && 0 <= player <= 2 && 1 <= x <= 8 && 1 <= y <= 8
    requires CellsAfter(g, h, x, y, player, k, flag)
    ensures IsDirection(Directions[k].0, Directions[k].1)
    ensures UpdateDirection(h, x, y, Directions[k].0, Directions[k].1, player).0 == CapturesToward(g, x, y, player, k)
    ensures CellsAfter(g, UpdateDirection(h, x, y, Directions[k].0, Directions[k].1, player).1, x, y, player, k + 1,
      flag || UpdateDirection(h, x, y, Directions[k].0, Directions[k].1, player).0)
  {
    SameWalk(g, h, x, y, player, k, flag);
    var here := UpdateDirection(h, x, y, Directions[k].0, Directions[k].1, player);
    forall cx, cy
      ensures Pos(here.1, cx, cy) ==
        if Flipped(g, x, y, player, k + 1, cx, cy) || ((cx, cy) == (x, y) && (flag || here.0))
        then Some(player) else Pos(g, cx, cy)
    {
      CellStepAt(g, h, x, y, player, k, flag, cx, cy);
    }
  }

  /** The invariant after the first k directions of the sweep. */
  lemma {:induction false} SweepExact(g: Grid, x: int, y: int, player: int, k: int)
    requires IsGrid(g) && 0 <= k <= 8 && 0 <= player <= 2 && 1 <= x <= 8 && 1 <= y <= 8
    ensures Sweep(g, x, y, player, k).0 <==> exists j :: 0 <= j < k && CapturesToward(g, x, y, player, j)
    ensures CellsAfter(g, Sweep(g, x, y, player, k).1, x, y, player, k, Sweep(g, x, y, player, k).0)
  {
    if k > 0 {
      var prev := Sweep(g, x, y, player, k - 1);
      SweepExact(g, x, y, player, k - 1);
      CellsStep(g, prev.1, x, y, player, k - 1, prev.0);
      SweepNext(g, x, y, player, k, prev, Directions[k - 1].0, Directions[k - 1].1);
      assert (exists j :: 0 <= j < k && CapturesToward(g, x, y, player, j)) <==>
        (exists j :: 0 <= j < k - 1 && CapturesToward(g, x, y, player, j)) || CapturesToward(g, x, y, player, k - 1);
    }
  }

  /** A move is accepted exactly on an empty cell with at least one capturing direction;
      the accepted board has the mover at the move and on every cell a capturing
      direction collected, and every other cell as before. */
  lemma NextBoardExact(g: Grid, player: int, x: int, y: int)
    requires IsGrid(g) && 0 <= player <= 2
    ensures NextBoard(g, player, x, y).Some? <==>
      Pos(g, x, y) == Some(0) && exists j :: 0 <= j < 8 && CapturesToward(g, x, y, player, j)
    ensures NextBoard(g, player, x, y).Some? ==>
      IsGrid(NextBoard(g, player, x, y).value) &&
      forall cx, cy :: Pos(NextBoard(g, player, x, y).value, cx, cy) ==
        if (cx, cy) == (x, y) || Flipped(g, x, y, player, 8, cx, cy) then Some(player) else Pos(g, cx, cy)
  {
    if Pos(g, x, y) == Some(0) {
      SweepExact(g, x, y, player, 8);
    }
  }

  /** A candidate move: 0-based column and row ("Where") and the side ("As"). */
  datatype Move = Move(x: int, y: int, player: int)

  function Index(m: Move): int
  {
    8 * m.y + m.x
  }

  /** Whether `NextBoardPosition` accepts the move (x, y) for `next`. */
  predicate Accepts(g: Grid, next: int, x: int, y: int)
  {
    IsGrid(g) && NextBoard(g, next, x, y).Some?
  }

  function AcceptsOn(g: Grid, next: int): (int, int) -> bool
  {
    (x, y) => Accepts(g, next, x, y)
  }

  /** Different cells of the board have different row-major positions. */
  lemma IndexInjective(m: Move, n: Move)
    requires 0 <= m.x < 8 && 0 <= n.x < 8 && m.player == n.player && Index(m) == Index(n)
    ensures m == n
  {
  }

  /** The moves `ValidMoves` has found once its scan reaches column x of row y (both
      1-based; column 9 stands for the end of the row), given which cells are accepted. */
  function ScanTo(accepts: (int, int) -> bool, next: int, y: int, x: int): seq<Move>
    requires 1 <= y <= 9 && 1 <= x <= 9 && (y == 9 ==> x == 1)
    decreases y, x
  {
    if x == 1 then (if y == 1 then [] else ScanTo(accepts, next, y - 1, 9))
    else ScanTo(accepts, next, y, x - 1) + (if accepts(x - 1, y) then [Move(x - 2, y - 1, next)] else [])
  }

  /** Before (x, y) the scan has found exactly the accepted cells that come earlier. */
  lemma {:induction false} ScanToMembers(accepts: (int, int) -> bool, next: int, y: int, x: int)
    requires 1 <= y <= 9 && 1 <= x <= 9 && (y == 9 ==> x == 1)
    ensures forall m :: m in ScanTo(accepts, next, y, x) <==>
      m.player == next && 0 <= m.x < 8 && 0 <= m.y < 8 && Index(m) < 8 * (y - 1) + (x - 1) &&
      accepts(m.x + 1, m.y + 1)
    decreases y, x
  {
    if x == 1 {
      if y > 1 {
        ScanToMembers(accepts, next, y - 1, 9);
      }
    } else {
      ScanToMembers(accepts, next, y, x - 1);
      var cell := Move(x - 2, y - 1, next);
      var before := ScanTo(accepts, next, y, x - 1);
      var found := if accepts(x - 1, y) then [cell] else [];
      assert ScanTo(accepts, next, y, x) == before + found;
      forall m
        ensures m in ScanTo(accepts, next, y, x) <==>
          m.player == next && 0 <= m.x < 8 && 0 <= m.y < 8 && Index(m) < 8 * (y - 1) + (x - 1) &&
          accepts(m.x + 1, m.y + 1)
      {
        assert m in before + found <==> m in before || m in found;
        if m.player == next && 0 <= m.x < 8 && 0 <= m.y < 8 && Index(m) == Index(cell) {
          IndexInjective(m, cell);
        }
      }
    }
  }

  /** The scan reports cells in strictly increasing row-major position. */
  lemma {:induction false} ScanToOrdered(accepts: (int, int) -> bool, next: int, y: int, x: int)
    requires 1 <= y <= 9 && 1 <= x <= 9 && (y == 9 ==> x == 1)
    ensures forall i, j :: 0 <= i < j < |ScanTo(accepts, next, y, x)| ==>
      Index(ScanTo(accepts, next, y, x)[i]) < Index(ScanTo(accepts, next, y, x)[j])
    decreases y, x
  {
    if x == 1 {
      if y > 1 {
        ScanToOrdered(accepts, next, y - 1, 9);
      }
    } else {
      ScanToOrdered(accepts, next, y, x - 1);
      ScanToMembers(accepts, next, y, x - 1);
      var before := ScanTo(accepts, next, y, x - 1);
      forall i | 0 <= i < |before|
        ensures Index(before[i]) < 8 * (y - 1) + (x - 2)
      {
        assert before[i] in before;
      }
    }
  }

  /** What `ValidMoves` returns for the side `next` on board g. */
  function LegalMoves(g: Grid, next: int): seq<Move>
  {
    ScanTo(AcceptsOn(g, next), next, 9, 1)
  }

  /** The legal-move list holds exactly the moves `NextBoardPosition` accepts for `next`. */
  lemma LegalMovesExact(g: Grid, next: int)
    requires IsGrid(g)
    ensures forall m :: m in LegalMoves(g, next) <==>
      m.player == next && 0 <= m.x < 8 && 0 <= m.y < 8 && NextBoard(g, next, m.x + 1, m.y + 1).Some?
  {
    ScanToMembers(AcceptsOn(g, next), next, 9, 1);
  }

  /** The legal-move list is in row-major order, without repetitions. */
  lemma LegalMovesOrdered(g: Grid, next: int)
    ensures forall i, j :: 0 <= i < j < |LegalMoves(g, next)| ==>
      Index(LegalMoves(g, next)[i]) < Index(LegalMoves(g, next)[j])
  {
    ScanToOrdered(AcceptsOn(g, next), next, 9, 1);
  }

  /** A legal move is never on an occupied cell. */
  lemma LegalMovesEmpty(g: Grid, next: int, m: Move)
    requires IsGrid(g) && m in LegalMoves(g, next)
    ensures 0 <= m.x < 8 && 0 <= m.y < 8 && g[m.y][m.x] == 0
  {
    LegalMovesExact(g, next);
    assert Pos(g, m.x + 1, m.y + 1) == Some(0);
  }
}
