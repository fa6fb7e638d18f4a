# Othello move picker: a Dafny model

This project models the move-picking core of `python/main.py`, an Othello (Reversi) player on an 8x8 board. Each cell holds 0 (empty), 1 (`BLACK`) or 2 (`WHITE`). The file is Python 2 code (`xrange`, `map` returning a list), and the model follows Python 2 semantics throughout. The model covers:

- the board accessors `Pos` and `SetPos`, which take 1-based (column, row) coordinates;
- the `Game` object, with `__UpdateBoardDirection`, `NextBoardPosition`, `ValidMoves` and `Next`. Legality is decided and captures are made on a deep copy of the board;
- the in-place flipping the search uses, with `_incrementMove`, `_getFlips` and `flipPieces`. These use 0-based pairs that index the board as `Pieces[a][b]`;
- the heuristic `evaluate`;
- the fixed-depth `MinMax`, in which BLACK maximises and WHITE minimises.

## Layout

- `board.dfy` (module `Board`): the value type `Grid` (the `Pieces` list of lists, indexed [row][column]). It also holds the mutable `Pieces` class, whose object identity models Python aliasing, plus `Pos`, `SetPos` and `Opponent`.
- `rules.dfy` (module `Rules`): value-level specification of move legality, covering the capture walk, the eight-direction sweep, the accepted board and the legal-move list. It proves what these compute: exactly which cells change, both directions of "accepted", and the row-major order.
- `games.dfy` (module `Games`): the class `Game` whose methods are proved against `Rules`.
- `flips.dfy` (module `Flips`): `_incrementMove`, `_getFlips` and `flipPieces` as methods over the live board, each proved against a specification function.
- `evaluation.dfy` (module `Evaluation`): the score as a recursive row-by-row sum. `Evaluate` is the loop, proved equal to it, and there are lemmas about bounds and about which pieces count.
- `search.dfy` (module `Search`): `MinMax` as a method on the shared board, proved equal to `MinMaxOf`, a function returning the chosen `[x, y, score]` together with the board left behind. The properties of the choice are proved as lemmas about that function.

## Behaviour of the code that the model keeps

All of the following come from `python/main.py` as written, and the model keeps each of them.

- **`MinMax` writes the transposed cell.** A move's `Where` is `[column, row]` (0-based), and `Pos` reads `board[y-1][x-1]`. Even so, `MinMax` writes `Pieces[x][y]`, and `flipPieces` / `_getFlips` walk `Pieces[x][y]` too (`Search.PlaceIsTransposed`).
- **The board is never restored.** `temp = game._board['Pieces']` is an alias of the same list, so `game._board['Pieces'] = temp` undoes nothing. Each move of the loop is played on the board the previous moves (and their sub-searches) left behind (`Search.Explore`, `Search.NoRestore`). The program's own comments, `# SAVE` (python/main.py:291) and `# REVRT g._board['Pieces'] to previous state` (python/main.py:298), show that a restore was intended. The model follows the code, which does not restore.
- **The move list ignores `player`.** `game.ValidMoves()` lists moves for `game.Next()`, which `MinMax` never changes, so every level of the search uses the moves of the side in `Next`.
- **`_getFlips` walks past one of the player's own pieces** when only the origin has been collected (`Flips.WalksPastOwnPiece`).
- **`flipPieces` reads the board lazily.** It uses a generator expression, so each direction's `_getFlips` reads the board after the writes for the earlier directions (`Flips.FlipAll`).
- **No moves means the sentinel.** With no moves and depth above 0, `MinMax` returns `[-1, -1, -inf]` for BLACK and `[-1, -1, inf]` otherwise, and leaves the board alone (`Search.NoMovesSentinel`). For a side other than BLACK, `best` starts at `+inf` and the side minimises.

## Modelling choices

- Python's `±float('inf')` sentinels and the integer scores are the datatype `Value = NegInf | Fin(int) | PosInf`. Its `Less` is Python's `<` on these values.
- `[x, y, score]` is the datatype `Choice`.
- `SetPos` returns `None` on success and `False` on failure. This is modelled as `ok: bool`, true exactly when it writes.
- The eight `__UpdateBoardDirection` calls of `NextBoardPosition` are joined with `|`, which does not short-circuit. They are modelled as a loop over `Directions` in the same order, with the results or-ed together.
- `copy.deepcopy` is a fresh `Pieces` object holding the same grid value.
- `_incrementMove` is modelled as a method returning the whole list it yields. `_getFlips` then loops over that list. This is the same sequence of reads, because `_getFlips` does not write.
- `np.count_nonzero` and `np.argwhere` are modelled as counting and row-major iteration over the 8x8 grid.
- `depth` is a `nat`. The caller passes 3.

## Model

| member | source | states |
|---|---|---|
| Board.Opponent | python/main.py:235 | the other side is always BLACK or WHITE and never the side itself; for BLACK or WHITE it is 3 - player |
| Board.Pos | python/main.py:114-117 | a value exactly for 1 <= x, y <= 8, and then the cell at row y-1, column x-1 |
| Board.WithPos | python/main.py:122-125 | the write happens exactly for an on-board coordinate and a piece in {0, 1, 2}; otherwise the board is unchanged |
| Board.WithPosAt | python/main.py:122-125 | a successful write changes exactly the one cell (x, y) to the piece; every other cell reads as before |
| Board.SetPos | python/main.py:122-125 | the live board and the success flag are exactly those of `WithPos` on the old board |
| Board.Pieces.Write | python/main.py:320 | `Pieces[r][c] = v` replaces that one cell and keeps the board 8x8 |
| Board.Pieces.constructor | python/main.py:88 | the deep copy holds the same board value in a new object |
| Rules.RunShape | python/main.py:63-66 | the walk visits consecutive cells of the ray, each holding the opponent, and stops at the first that does not |
| Rules.RunInBoard | python/main.py:63-64 | every cell put on `flip_list` is on the board and holds the opponent |
| Rules.RunEnd | python/main.py:63-67 | the walk stops just past the collected cells, on a position not holding the opponent |
| Rules.WalkSteps | python/main.py:60-67 | the collected cells are steps 1..n from the move; step n+1 is where the walk stops |
| Rules.CapturingIff | python/main.py:63-67 | a direction captures iff for some k >= 1 the k cells after the move hold the opponent and cell k+1 holds the player |
| Rules.SetAllAt | python/main.py:73-76 | after the `SetPos` loop exactly the listed on-board cells hold the piece (for a valid piece) |
| Rules.UpdateDirection | python/main.py:57-78 | the result is true iff the direction captures; when false the board is untouched |
| Rules.UpdateDirectionAt | python/main.py:67-77 | a capturing direction turns exactly the move and the walked-over cells into the player's |
| Rules.PlaceAllAt | python/main.py:72-76 | placing the move and then the collected cells changes exactly those cells |
| Rules.SweepExact | python/main.py:91-98 | after k directions the or-ed result is true iff one of them captures, and each cell holds the player exactly if collected by one of them (or it is the move and something was captured); every other cell is untouched |
| Rules.NextBoardExact | python/main.py:82-104 | accepted iff the cell is empty and some direction captures; the accepted board has the mover at the move and at every cell a capturing direction collected, all else as before |
| Games.Game.Next | python/main.py:34-35 | `Next`, the side to move; definition |
| Rules.Sweep | python/main.py:91-98 | the eight `__UpdateBoardDirection` calls in order, or-ed without short-circuit; definition, characterised by `SweepExact` |
| Rules.NextBoard | python/main.py:82-104 | `NextBoardPosition` as a value; definition, characterised by `NextBoardExact` |
| Rules.ScanTo | python/main.py:43-49 | the nested scan, y outer and x inner; definition, characterised by `ScanToMembers` and `ScanToOrdered` |
| Rules.LegalMoves | python/main.py:41-51 | what `ValidMoves` returns; definition, characterised by `LegalMovesExact`, `LegalMovesOrdered` and `LegalMovesEmpty` |
| Rules.ScanToMembers | python/main.py:43-49 | part-way through the scan the list holds exactly the accepted cells visited so far, 0-based, with `As` = the side |
| Rules.ScanToOrdered | python/main.py:43-49 | the scan lists cells in strictly increasing row-major position |
| Rules.LegalMovesExact | python/main.py:41-51 | a move is listed iff its side is `Next`, it lies in 0..7 and `NextBoardPosition` accepts it at (x+1, y+1) |
| Rules.LegalMovesOrdered | python/main.py:43-44 | the moves come in row-major order (y outer, x inner) without repetition |
| Rules.LegalMovesEmpty | python/main.py:85-87 | a listed move is never on an occupied cell |
| Games.Game.constructor | python/main.py:20-25 | the game takes the given board object as it is, with the given `Next` |
| Games.Game.UpdateBoardDirection | python/main.py:57-78 | the result and the new board are those of `UpdateDirection` on the old board, for the side `Next` |
| Games.Game.NextBoardPosition | python/main.py:82-104 | `Some` iff the move is accepted; then a fresh game holding `NextBoard`'s board with `Next` = 3 - Next; the original is not written |
| Games.Game.ValidMoves | python/main.py:41-51 | the returned list is exactly `LegalMoves` of the board for `Next` |
| Flips.FlipDirectionsAreDirections | python/main.py:315 | each of the eight listed directions is a unit step |
| Flips.Steps | python/main.py:338-345 | every yielded position has both coordinates in 0..7 |
| Flips.StepsConsecutive | python/main.py:338-345 | the generator yields something iff its first position is on the board; it starts there, goes one step at a time, and stops at the first position off the board |
| Flips.IncrementMove | python/main.py:338-345 | the loop yields exactly `Steps` from one step past `move` |
| Flips.Collect | python/main.py:327-336 | from on-board positions the walk only collects on-board positions |
| Flips.FlipsToward | python/main.py:323-336 | from an on-board origin every returned position is on the board |
| Flips.CollectGrows | python/main.py:327-336 | the walk returns [] or extends the list collected so far to length > 1, with every new cell taken from the walk and holding the opponent |
| Flips.CollectCloses | python/main.py:329-336 | a non-empty result stopped at a cell holding the player, with no empty cell before it and every collected cell before it |
| Flips.CollectFlanked | python/main.py:329-335 | a run of opponent pieces closed by a player's piece is returned whole |
| Flips.WalksPastOwnPiece | python/main.py:334 | on player, opponent, player after the origin `_getFlips` returns [origin, the opponent's cell], although `Capturing` rejects that direction |
| Flips.GetFlips | python/main.py:323-336 | the loop, with its `break` and early return, returns exactly `FlipsToward` on the live board |
| Flips.SetCellsAt | python/main.py:319-320 | after the writes a cell holds the player iff it was listed; otherwise it is untouched |
| Flips.FlipAll | python/main.py:310-320 | the eight directions of `flipPieces` in order, each walking the board the earlier ones left; definition, characterised by `FlipAllChanges` |
| Flips.FlipPieces | python/main.py:310-320 | the live board becomes `FlipAll` of the old one: the eight directions in order, each walking the board the previous ones left |
| Flips.FlipStepChanges | python/main.py:316-320 | one direction's writes only turn the origin or opponent cells into the player's |
| Flips.FlipAllChanges | python/main.py:310-320 | after `flipPieces` every changed cell holds the player and is the origin or held the opponent |
| Evaluation.Weight | python/main.py:248-267 | every positional weight lies in [-10, 50] |
| Evaluation.WeightAt | python/main.py:248-267 | the first-match lists give exactly the symmetric table of weights (corners 50, next to corners -10, …) |
| Evaluation.Count | python/main.py:236-237 | `np.count_nonzero(board_array == v)`: at most the 64 cells |
| Evaluation.Score | python/main.py:240-270 | the positional sum of the player's pieces plus 300 or -30; definition, characterised by `ScoreBounds`, `PositionalOwnOnly` and `PlacingAddsWeight` |
| Evaluation.ScoreBounds | python/main.py:243-272 | the score of any board lies in [-150, 964] |
| Evaluation.PositionalOwnOnly | python/main.py:240-267 | only the player's own pieces carry weight: boards on which the player holds the same cells score the same positional part |
| Evaluation.PlacingAddsWeight | python/main.py:244-267 | one more of the player's pieces adds exactly that cell's weight |
| Evaluation.Evaluate | python/main.py:225-272 | the loop returns `Score`: the weights of the player's pieces plus 300 if the player has strictly more pieces, else -30, within [-150, 964] |
| Search.LessOrder | python/main.py:304-306 | `<` on scores and the infinite sentinels is a strict total order |
| Search.Initial | python/main.py:280-283 | `best` starts at [-1, -1, -inf] for BLACK and [-1, -1, inf] otherwise |
| Search.BetterOrder | python/main.py:303-306 | "replaces `best`" is a strict total order on scores for either side |
| Search.PickBest | python/main.py:303-306 | nothing beats the kept candidate; it is the start or the first candidate better than the start and every earlier one (ties keep the earliest) |
| Search.PickFrom | python/main.py:301-307 | the kept candidate is the start or one of the candidates |
| Search.PlaceIsTransposed | python/main.py:293 | the write to `Pieces[x][y]` lands on `Pos(y+1, x+1)`; off the diagonal the move's own cell is left as it was |
| Search.LegalMovesInRange | python/main.py:289-290 | every listed `Where` is in 0..7 |
| Search.MinMaxOf | python/main.py:276-307 | the result of `MinMax` and the board left behind; definition, characterised by `MinMaxLeaf`, `NoMovesSentinel`, `MinMaxChoice` and `NoRestore` |
| Search.Searched | python/main.py:289-301 | the loop over the moves `ValidMoves` lists for `Next`: one candidate per legal move |
| Search.Explore | python/main.py:289-301 | the loop over moves, each played on the board the previous rounds left: one candidate per move; characterised by `ExploreCoords` |
| Search.ExploreCoords | python/main.py:301 | each candidate carries the coordinates of its move |
| Search.MinMaxLeaf | python/main.py:285-287 | at depth 0: [-1, -1, evaluate(...)], a finite score in [-150, 964], board unchanged |
| Search.NoMovesSentinel | python/main.py:280-289 | with no moves for `Next`, the result is [-1, -1, -inf] for BLACK and [-1, -1, inf] otherwise, and the board is unchanged |
| Search.MinMaxChoice | python/main.py:289-307 | the result is the sentinel or the coordinates of a move accepted for `Next`; no candidate is strictly better and ties keep the earliest |
| Search.NoRestore | python/main.py:292-299 | after one move at depth 1 the board holds that move and its flips: the "restore" does nothing |
| Search.PlayAt | python/main.py:293-296 | the same board object now holds the move written at `Pieces[x][y]` followed by `flipPieces` |
| Search.Round | python/main.py:290-301 | one loop body: the reply's search on the played board, relabelled with (x, y); the board left is the one that search left |
| Search.MinMax | python/main.py:276-307 | the result and the board left behind are exactly `MinMaxOf` of the old board and `Next` |

## Left out

- HTTP and JSON handling (`MainHandler`, the `webapp2` app, JSON parsing in `Game.__init__`): transport and library I/O. The constructor takes the board directly.
- `PrettyPrint`, `PrettyMove`, `printBoard` and the `print` calls: debug output only.
- `Game.Pos`: a one-line delegation to `Pos`, which is modelled.
- numpy itself: `np.array`, `np.count_nonzero` and `np.argwhere` are modelled as counting and iteration over the grid.
- Floating point: `±float('inf')` is only a sentinel and is replaced by `Value`.
- The unused `random` import.
- Boards of other shapes: every operation requires an 8x8 board. A smaller board, or one with a short row, makes the program raise `IndexError`. A larger rectangular board is accepted by the program and excluded by the model. `Pos`, `_getFlips` and `MinMax` only reach indices 0..7 (python/main.py:115-116, :293, :330), but `evaluate` counts and weighs every cell (python/main.py:236-241), so its score would differ.
- Cell values are arbitrary integers and `Next` is an arbitrary integer. The exception is the cell-by-cell statements of `Rules.SweepExact` and `Rules.NextBoardExact`, which require the mover to be 0, 1 or 2: `SetPos` refuses any other piece, so for another mover those statements would be false.
