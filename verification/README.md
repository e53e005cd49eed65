# Jump61 board engine and game-tree search, in Dafny

Jump61 is played on an N x N board of squares. A square is unowned
(WHITE, one spot) or belongs to RED or BLUE and holds a number of spots.
Players add one spot at a time to an unowned square or one of their own.
A square holding more spots than it has orthogonal neighbours explodes:
it gives one spot to each neighbour, and each neighbour then takes the
exploding square's colour. A side wins once it owns every square.

This project models two Java classes:

- `jump61/Board.java`, the rules engine. It covers square numbering,
  neighbour counts, turn derivation, legality, win detection, adding a
  spot with its recursive chain reaction (`jump`), and the undo stack of
  board snapshots.
- `jump61/AI.java`, the automated player's fixed-depth search.
  - `findMoves` lists the legal moves.
  - `staticEval` scores a position.
  - `minMax` searches with an alpha-beta window.
  - `searchForMove` chooses the move.

The model is functional. A board is an immutable record
`Board(size, cells, moves, history)`:
- `cells` holds the squares in row-major order;
- `history` is the stack of square sequences that the snapshots hold.

Each Java mutator is a function from the old board to the new one.
`minMax` modifies its board in place, by an `addSpot` and an `undo` for
every candidate. The model threads the board through the search instead.
Each call returns the board it leaves behind, and the contents of the
`_foundMove` field afterwards.

Modules, in dependency order:

- `Squares` (squares.dfy): the `Side` and `Square` values, INITIAL, the
  spot total and per-side counts.
- `Geometry` (geometry.dfy): `row`, `col`, `sqNum`, `exists` and
  `neighbors`. Java's truncating `/` and `%` are spelled out as `Quot`
  and `Rem`.
- `Cascade` (cascade.dfy): these work on the square sequence.
  - `getWinner`, `internalSet` and `simpleAdd`.
  - `jump`, which carries a fuel (see Left out).
  - `JumpAll`, the neighbour loop inside `jump`.
- `Boards` (boards.dfy): the board record, with its constructors,
  queries, `set`, `markUndo`, `addSpot` and `undo`.
- `AI` (ai.dfy): `findMoves`, `staticEval`, `minMax` with its loop and
  one loop turn as separate functions, and `searchForMove`.

The model follows the code literally where it departs from the game's
usual description:

- `staticEval` returns minus the winning value when RED has won. A RED
  `searchForMove` therefore searches with sense -1.
- Every child search uses sense -1.
- A maximising node sets alpha to max(beta, score).
- Child searches are called with `saveMove` true, so they overwrite
  `_foundMove` too. The root writes it last.
- `undo` restores the squares from a snapshot built by `Board(Board)`,
  so the move counter reads 0 afterwards, not its pre-move value.
- The first `addSpot` on an empty history pushes two identical
  snapshots, unless the game is already won; then it pushes one.
- `jump` checks for a winner only on entry. A square that explodes
  still passes spots to its remaining neighbours after one of them has
  won the game. The winner stays the same, as `Cascade.JumpAll` states.

## Model

| member | source | states |
|---|---|---|
| `Squares.Make` | jump61/Board.java:257-267 | the stored square has at least one spot; a positive count gives that many spots of the player, any other count gives the neutral INITIAL square |
| `Squares.SpotSumUpdate` | jump61/Board.java:122-129 | replacing one square changes the spot total by the difference between the new and the old square's spots |
| `Squares.SpotSumAllInitial` | jump61/Board.java:53-55 | a board of INITIAL squares holds exactly one spot per square |
| `Squares.CountAll` | jump61/Board.java:211-220 | a side owns at most every square, and owns as many squares as the board has exactly when every square is its own |
| `Squares.CountPartition` | jump61/Board.java:211-220 | the RED, BLUE and WHITE counts add up to the number of squares |
| `Geometry.Row` | jump61/Board.java:148-151 | a square number of 0 or more has a row of at least 1; Java's truncating division puts the squares -N+1..-1 in row 1 too, and every negative number in row 1 or less |
| `Geometry.Col` | jump61/Board.java:153-156 | a square number of 0 or more has a column in 1..N; because Java's remainder takes the dividend's sign, a negative number gets a column in 2-N..1 |
| `Geometry.SquareAt` | jump61/Board.java:137-161 | sqNum(R, C) is the only existing square whose row is R and column is C, and when (R, C) exists that square exists and lies at row R, column C |
| `Geometry.NeighborsRC` | jump61/Board.java:386-404 | a position has at most 4 neighbours; an existing one has at least 2 on a board of side 2 or more, and none on a 1 x 1 board |
| `Geometry.Neighbors` | jump61/Board.java:406-409 | a square has at most 4 neighbours; an existing square has at least 2 on a board of side 2 or more, and none on a 1 x 1 board |
| `Geometry.RowColRoundTrip` | jump61/Board.java:148-161 | for an existing square, row and col lie in 1..N and sqNum of them gives the square back |
| `Geometry.SqNumRoundTrip` | jump61/Board.java:137-161 | an existing (row, column) numbers an existing square whose row and column are that row and column again |
| `Geometry.NeighborSteps` | jump61/Board.java:308-323 | each guarded step of jump (right, left, up, down) lands on an existing square one column or one row away, in the same row or column |
| `Geometry.NeighborList` | jump61/Board.java:305-323 | jump visits exactly neighbors(S) squares, all of them on the board |
| `Geometry.NeighborListIsAdjacency` | jump61/Board.java:386-409 | the squares jump visits are exactly the orthogonally adjacent squares, each visited once, so neighbors(S) counts the adjacent squares |
| `Geometry.AdjacentIsStep` | jump61/Board.java:308-323 | every orthogonally adjacent square is reached by one of jump's four guarded steps |
| `Geometry.NeighborsByPosition` | jump61/Board.java:386-409 | on a board of side at least 2, a corner has 2 neighbours, another edge square 3 and an inner square 4 |
| `Cascade.Winner` | jump61/Board.java:201-220 | there is a winner exactly when one side owns every square; the winner is RED or BLUE, never WHITE, and owns every square |
| `Cascade.InternalSet` | jump61/Board.java:257-267 | square N alone changes: NUM spots of PLAYER when NUM > 0, else the neutral one-spot square; the spot total moves by the new count less the old |
| `Cascade.SimpleAdd` | jump61/Board.java:291-295 | square N alone changes: it holds its old spots plus DELTA, owned by PLAYER, and the spot total grows by DELTA, when that sum is positive; otherwise it becomes the neutral square |
| `Cascade.Explode` | jump61/Board.java:305-307 | an over-full square S keeps its owner and loses one spot per neighbour, so the spot total drops by its neighbour count; no other square changes |
| `Cascade.Jump` | jump61/Board.java:301-326 | the chain reaction conserves the spot total and keeps S's owner; every square it changes gets the exploder's colour and at least one spot; it changes nothing on a won board; when S belongs to RED or BLUE, run to completion from a board that is over-full at most at S, by one spot, it ends won or with no square over-full |
| `Cascade.JumpAll` | jump61/Board.java:308-323 | serving k neighbours adds exactly k spots and repaints only in S's colour; a game that was won stays won by the same side; when S belongs to RED or BLUE, run to completion from a won or stable board it ends won or stable |
| `Cascade.PassSpot` | jump61/Board.java:308-322 | one spot passed to a neighbour raises the total by one, keeps a won game won by the same side, and leaves a stable board over-full at most at that neighbour |
| `Cascade.ExplosionSettlesSource` | jump61/Board.java:305-307 | the exploding square keeps its owner and its spots less its neighbour count; when it belongs to RED or BLUE on a board that is stable elsewhere, it is left with one spot and the whole board is stable |
| `Boards.NewBoard` | jump61/Board.java:46-56 | N*N INITIAL squares, no moves, an empty undo history |
| `Boards.Clear` | jump61/Board.java:74-85 | the board becomes N*N INITIAL squares with no moves and an empty undo history |
| `Boards.InitialPosition` | jump61/Board.java:131-135 | an initial board holds N*N spots, so RED is to move (N*N + N is even); nobody has won; and when N >= 2 no square is over-full |
| `Boards.Copy` | jump61/Board.java:58-67 | the copy has the same size and squares, a move counter of 0 and an empty undo history |
| `Boards.CopyKeepsRules` | jump61/Board.java:58-67 | the copy has the same side to move, the same winner and the same legal moves as the original |
| `Boards.InternalCopy` | jump61/Board.java:94-102 | the squares and the move counter come from the source board; the history stays the receiving board's own |
| `Boards.NumPieces` | jump61/Board.java:122-129 | the total is at least the spots of any one square |
| `Boards.WhoseMove` | jump61/Board.java:131-135 | the side to move is RED or BLUE, never WHITE |
| `Boards.GetWinner` | jump61/Board.java:201-209 | there is a winner exactly when RED or BLUE owns as many squares as the board has; the winner is never WHITE and owns every square |
| `Boards.IsLegal` | jump61/Board.java:179-190 | legal exactly when nobody has won, N is a square, PLAYER is to move and the opponent does not own square N; a legal player is never WHITE |
| `Boards.IsLegalRC` | jump61/Board.java:173-177 | the answer for (R, C) is the answer for any existing square at row R, column C; a yes means PLAYER is to move and sqNum(R, C) is a square |
| `Boards.IsLegalPlayer` | jump61/Board.java:192-199 | a player allowed to move is never WHITE, and a player with any legal square is allowed to move |
| `Boards.NumOfSide` | jump61/Board.java:211-220 | the count is at most the number of squares, and equals it exactly when the side owns every square |
| `Boards.SameSquaresSameRules` | jump61/Board.java:131-209 | whoseMove, getWinner and isLegal depend only on the size and the squares, not on the move counter or the history |
| `Boards.AddSpotReadsSquares` | jump61/Board.java:228-241 | the squares addSpot leaves, and so the winner after it, depend only on the size and the squares it starts from, not on the counter or the history |
| `Boards.LegalMoveExists` | jump61/Board.java:179-190 | while nobody has won, the side to move has a legal square |
| `Boards.Set` | jump61/Board.java:243-267 | the square at row R, column C becomes Make(player, num), and every other square is unchanged; the spot total changes by the difference |
| `Boards.MarkUndo` | jump61/Board.java:280-283 | one snapshot of the current squares goes on top of the history; nothing else changes |
| `Boards.AddSpot` | jump61/Board.java:228-241 | on a won board the squares and counter are unchanged; otherwise there is exactly one more spot, the other side is to move, the counter goes up by one and the pre-move squares top the history; only squares the player now owns, with at least one spot, change; square N ends the player's, and when N had fewer spots than neighbours the move changes square N alone, to the player with one more spot |
| `Boards.OneMoreSpotPassesTurn` | jump61/Board.java:131-135 | one more spot on a board of the same size hands the move to the other side |
| `Boards.MoverWins` | jump61/Board.java:131-135 | a legal move that ends the game is won by the player who made it, and the loser is then to move |
| `Boards.Undo` | jump61/Board.java:269-278 | the squares become the last snapshot, the move counter reads 0 and the snapshot leaves the history |
| `Boards.FirstMoveSnapshots` | jump61/Board.java:229-238 | the first move in an unfinished game on an empty history leaves two identical snapshots of the position before it |
| `Boards.UndoAfterAddSpot` | jump61/Board.java:269-283 | undo after a move in an unfinished game restores every square and the history from before the move; an empty history ends with one snapshot; the counter reads 0 |
| `Boards.AddSpotKeepsQuiescent` | jump61/Board.java:301-326 | a move whose chain reaction completes keeps the board quiet: won, 1 x 1, or with no square over-full |
| `Boards.SingleSquareMoveWins` | jump61/Board.java:229-239 | on a 1 x 1 board that nobody has won, adding a spot wins the game |
| `Boards.StableMoveSettles` | jump61/Board.java:301-326 | a move on a stable board whose chain reaction completes ends won or stable |
| `AI.FindMoves` | jump61/AI.java:31-40 | the listed moves are exactly the squares legal for the player, in strictly increasing order |
| `AI.FindMovesFrom` | jump61/AI.java:34-38 | from square I on, the list holds exactly the legal squares at or after I, strictly increasing |
| `AI.StaticEval` | jump61/AI.java:103-115 | a RED win scores -winningValue and a BLUE win +winningValue; an unfinished game scores strictly between minus and plus the number of squares |
| `AI.StaticEvalSwapped` | jump61/AI.java:106-115 | exchanging RED and BLUE on the board negates the evaluation |
| `AI.AcceptsOrders` | jump61/AI.java:83-86 | with sense 1 a response replaces the score when at least as high, with sense -1 when at least as low, so ties go to the later move; any response in range beats the initial -sense*MAX_VALUE |
| `AI.RootNeverCutsOff` | jump61/AI.java:88-95 | narrowing a root window (beta at MAX_VALUE for a maximiser, alpha at MIN_VALUE for a minimiser) by any score in range keeps it a root window and never triggers the break |
| `AI.MinMax` | jump61/AI.java:61-101 | the value is within +-MAX_VALUE and the board's squares come back unchanged; at depth 0 or on a won board it is the static value and records nothing; otherwise the recorded move is legal for the side to move |
| `AI.MinMaxLoop` | jump61/AI.java:76-96 | the loop keeps the value in range and restores the board; the score never worsens for the node's sense; the final move is the one it started with or a legal move at or after M; it ends with a legal final move when it starts with one, or starts from the initial score with a legal move still ahead; from a root window it never breaks, so it visits every legal move |
| `AI.LoopTurn` | jump61/AI.java:77-95 | the loop at a legal move M keeps every promise of the loop: value in range, board restored, score never worse for the node's sense, final move unchanged or a legal move at or after M, never a break from a root window; and from the initial score it always ends on a legal move |
| `AI.Visit` | jump61/AI.java:77-92 | one loop turn restores the board; the move and the child's value replace the best so far exactly when sense * response >= sense * score, otherwise both stay; the score never worsens for the node's sense; a tie goes to the later move; the first move always takes the child's value |
| `AI.Sense` | jump61/AI.java:50-56 | the root searches with sense -1 exactly for RED and +1 for BLUE |
| `AI.RootSweep` | jump61/AI.java:45-58 | on an unfinished game the root loop over a Board(Board) copy ends with a legal move for the side to move and gives back the copy's squares |
| `AI.SearchVisitsEveryMove` | jump61/AI.java:50-57 | on an unfinished game the root of searchForMove never breaks out of its loop, and the move returned is the final move of that complete sweep |
| `AI.LoopStep` | jump61/AI.java:76-96 | one turn of the loop: a square that is not a legal move is passed over; after a legal one the loop breaks with that turn's result when alpha exceeds beta, and otherwise goes on from the next square with the restored board and the narrowed window |
| `AI.CutBeyondWindow` | jump61/AI.java:61-64 | a loop that breaks ends with a score above beta when maximising, and below alpha (or with alpha already past beta) when minimising |
| `AI.WinningChildValue` | jump61/AI.java:82 | a legal move that wins the game at once is worth -MAX_VALUE to RED and MAX_VALUE to BLUE, whatever the window |
| `AI.LoopFindsWin` | jump61/AI.java:76-96 | a root-window loop with an immediately winning legal move still ahead ends with the mover's winning value |
| `AI.ForcedWin` | jump61/AI.java:43-58 | when some legal move wins at once, the root of searchForMove values the position at the mover's winning value (-MAX_VALUE for RED, MAX_VALUE for BLUE) |
| `AI.SearchForMove` | jump61/AI.java:43-58 | a won position returns -1; otherwise the returned square is legal for the side to move |

## Left out

- Cascade.Jump: Java's `jump` recurses without a bound. Here a fuel parameter bounds how deeply explosions may nest: an explosion set off by another runs on one unit less, while the neighbours of one explosion all share its fuel. `complete` reports whether the fuel sufficed. The properties hold for any fuel; the settling property is stated only for complete reactions. The model does not prove that the Java recursion terminates.
- AI.MinMax: the contract gives the value's range, the board restoration and the legality of the recorded move. It does not say the value is the minimax value of the tree. With the bound updates as written (alpha := max(beta, score), sense -1 at every child), the pruned search is not a minimax or alpha-beta search, so there is no such equivalence to state. The other half of the doc's promise, that a loop which breaks has a value above beta or below alpha, is stated by AI.CutBeyondWindow.
- AI.SearchForMove: the search is proved to return a legal move. That this is the best move under any evaluation is not stated, for the same reason. On a forced win one move ahead, AI.ForcedWin proves that the root reaches the mover's winning value. It does not prove that the returned move is the winning move: a tie replaces the best move with the later one (the `>=` at AI.java:83), so a later legal move whose search also reaches the winning value is returned instead.
- Boards.Valid: requires at most Integer.MAX_VALUE squares, the size of a Java array. Overflow of `N * N` in `Board(int)`, `clear` and `exists`, and of the `_moves` counter, is not modelled; the model's integers are unbounded.
- Boards.NewBoard: requires N >= 1, and so do Boards.Clear, Boards.Valid and Cascade.Shaped. Java's `Board(0)` and `clear(0)` build an empty board, on which `getWinner` reads `_board[0]` and throws; a negative N gives a board of N*N squares whose `size()` is negative. Neither board is modelled.
- Boards.Undo: requires a non-empty history. The Java code then calls `remove(0)` on an empty list, which throws.
- Boards.AddSpot: the Java code assumes `isLegal(player, n)`. The model requires only that `n` is a square. It does not model the array-index exception that an out-of-range `n` raises on an unfinished game.
- Boards.Set: requires `sqNum(r, c)` to index the board; Java would throw otherwise. Negative rows and columns are not modelled beyond that.
- The row-and-column overloads of `addSpot`, `internalSet`, `simpleAdd` and `get` only convert through `sqNum`. They are modelled through `sqNum` for `isLegal` and `set` only.
- `get` and `size` are field reads. The model reads `cells[n]` and `size` directly.
- The notifier (`setNotifier`, `announce`, `NOP`), `readonlyBoard` and `ConstantBoard`: callbacks to observers, and a class that is not part of this model.
- `toString`, `toDisplayString`, `moveString`: text formatting only.
- `copy(Board)`: never called. Its loop copies only `size()` squares, not N*N.
- `equals` and `hashCode`: they compare `Square` objects by identity, and the Square factory is not part of this model.
- The `_area` field: written by `Board(int)`, never read, and not updated by `clear`.
- `AI.getMove`, the AI constructor and its `Random`: they talk to `Game` and `Player`, which are not part of this model. The random seed is never used.
- The core uses no concurrency, I/O or floating point, so nothing of that kind is left out.
