/** A Jump61 board as an immutable record.

    A board is its side length, its squares in row-major order, the
    move counter and the undo history. Each Java mutator becomes a
    function from the old board to the new one. The history holds the
    square sequences of the snapshot boards that `markUndo` pushes. */
module Boards {
  import opened Squares
  import opened Geometry
  import opened Cascade

  datatype Board = Board(size: int, cells: seq<Square>, moves: int, history: seq<seq<Square>>)

  /** A well-formed board: at least one square per side, N*N squares, no
      more than a Java array holds, and every snapshot in the history the
      same shape. */
  predicate Valid(b: Board)
  {
    && Shaped(b.size, b.cells) && |b.cells| <= MAX_VALUE
    && forall k :: 0 <= k < |b.history| ==> |b.history[k]| == |b.cells|
  }

  /** The board of side N in initial configuration: every square INITIAL,
      no moves made, an empty undo history. */
  predicate Initial(b: Board, n: int)
  {
    && Valid(b) && b.size == n && b.moves == 0 && b.history == []
    && forall i :: 0 <= i < |b.cells| ==> b.cells[i] == INITIAL
  }

  /** Board(N): an N x N board in initial configuration. */
  function NewBoard(n: int): (b: Board)
    requires n >= 1 && n * n <= MAX_VALUE
    ensures Initial(b, n)
  {
    Board(n, seq(n * n, _ => INITIAL), 0, [])
  }

  /** clear(N): back to an N x N board in initial configuration, with the
      undo history and the move counter cleared. */
  function Clear(b: Board, n: int): (r: Board)
    requires n >= 1 && n * n <= MAX_VALUE
    ensures Initial(r, n)
  {
    b.(size := n, cells := seq(n * n, _ => INITIAL), moves := 0, history := [])
  }

  /** Board(Board): a board with the squares of B, a fresh move counter
      and an empty undo history. */
  function Copy(b: Board): (r: Board)
    requires Valid(b)
    ensures Valid(r) && r.size == b.size && r.cells == b.cells
    ensures r.moves == 0 && r.history == []
  {
    Board(b.size, b.cells, 0, [])
  }

  /** internalCopy: the squares and the move counter of SRC, my own history. */
  function InternalCopy(b: Board, src: Board): (r: Board)
    requires Valid(b) && src.size == b.size && |src.cells| == |b.cells|
    ensures Valid(r) && r.size == b.size && r.history == b.history
    ensures r.cells == src.cells && r.moves == src.moves
  {
    b.(cells := src.cells, moves := src.moves)
  }

  /** numPieces: the total number of spots. */
  function NumPieces(b: Board): (k: nat)
    ensures forall i :: 0 <= i < |b.cells| ==> b.cells[i].spots <= k
  {
    SpotSumBound(b.cells);
    SpotSum(b.cells)
  }

  /** numOfSide: the number of squares SIDE owns. */
  function NumOfSide(b: Board, side: Side): (k: nat)
    ensures k <= |b.cells|
    ensures k == |b.cells| <==> AllOwnedBy(b.cells, side)
  {
    CountAll(b.cells, side);
    Count(b.cells, side)
  }

  /** whoseMove: RED when the spot total plus the side length is even. */
  function WhoseMove(b: Board): (s: Side)
    ensures s != WHITE
  {
    if (NumPieces(b) + b.size) % 2 == 0 then RED else BLUE
  }

  /** getWinner: the side owning every square, if there is one. */
  function GetWinner(b: Board): (w: Option<Side>)
    requires Valid(b)
    ensures w.Some? <==> NumOfSide(b, RED) == |b.cells| || NumOfSide(b, BLUE) == |b.cells|
    ensures w.Some? ==> w.value != WHITE && NumOfSide(b, w.value) == |b.cells|
  {
    Winner(b.cells)
  }

  /** isLegal(PLAYER, N): nobody has won, N is a square, it is PLAYER's
      turn, and square N is PLAYER's or unowned. */
  function IsLegal(b: Board, player: Side, n: int): (legal: bool)
    requires Valid(b)
    ensures legal ==> player != WHITE
    ensures legal <==>
      GetWinner(b).None? && Exists(b.size, n) && player == WhoseMove(b) && b.cells[n].side != Opponent(player)
  {
    if GetWinner(b).None? && Exists(b.size, n) && WhoseMove(b) == player then
      player == b.cells[n].side || b.cells[n].side == WHITE
    else
      false
  }

  /** isLegal(PLAYER, R, C): legality of the square numbered sqNum(R, C),
      which is the square at row R, column C whenever there is one. */
  function IsLegalRC(b: Board, player: Side, r: int, c: int): (legal: bool)
    requires Valid(b)
    ensures forall n :: Exists(b.size, n) && Row(b.size, n) == r && Col(b.size, n) == c ==>
      (legal <==> IsLegal(b, player, n))
    ensures legal ==> player == WhoseMove(b) && Exists(b.size, SqNum(b.size, r, c))
  {
    SquareAt(b.size, r, c);
    IsLegal(b, player, SqNum(b.size, r, c))
  }

  /** isLegal(PLAYER): it is PLAYER's turn, which every legal square
      presupposes. */
  function IsLegalPlayer(b: Board, player: Side): (legal: bool)
    ensures legal ==> player != WHITE
    ensures Valid(b) ==> forall n :: IsLegal(b, player, n) ==> legal
  {
    WhoseMove(b) == player
  }

  /** set(R, C, NUM, PLAYER): square (R, C) becomes NUM spots of PLAYER,
      or the neutral square when NUM <= 0. */
  function Set(b: Board, r: int, c: int, num: int, player: Side): (res: Board)
    requires Valid(b) && 0 <= SqNum(b.size, r, c) < |b.cells|
    ensures Valid(res) && res.size == b.size && res.moves == b.moves && res.history == b.history
    ensures ExistsRC(b.size, r, c) ==>
      forall i :: 0 <= i < |b.cells| ==>
        res.cells[i] == (if Row(b.size, i) == r && Col(b.size, i) == c then Make(player, num) else b.cells[i])
    ensures NumPieces(res) == NumPieces(b) - b.cells[SqNum(b.size, r, c)].spots + Make(player, num).spots
  {
    SquareAt(b.size, r, c);
    b.(cells := InternalSet(b.cells, SqNum(b.size, r, c), num, player))
  }

  /** markUndo: push a snapshot of the current squares. */
  function MarkUndo(b: Board): (r: Board)
    requires Valid(b)
    ensures Valid(r) && r.cells == b.cells && r.size == b.size && r.moves == b.moves
    ensures |r.history| == |b.history| + 1 && r.history[..|b.history|] == b.history
    ensures r.history[|b.history|] == b.cells
  {
    b.(history := b.history + [b.cells])
  }

  /** The chain reaction a spot of PLAYER on square N sets off. */
  function Placement(b: Board, player: Side, n: int, fuel: nat): Reaction
    requires Valid(b) && Exists(b.size, n)
  {
    Jump(b.size, SimpleAdd(b.cells, player, n, 1), n, fuel)
  }

  /** addSpot(PLAYER, N): on an empty history first push a snapshot; then,
      unless the game is won, push another, add the spot, count the move
      and run the chain reaction from N. */
  function AddSpot(b: Board, player: Side, n: int, fuel: nat): (r: Board)
    requires Valid(b) && Exists(b.size, n)
    ensures Valid(r) && r.size == b.size
    ensures |r.history| >= 1
    ensures GetWinner(b).Some? ==> r.cells == b.cells && r.moves == b.moves
    ensures GetWinner(b).None? ==>
      && NumPieces(r) == NumPieces(b) + 1
      && WhoseMove(r) != WhoseMove(b)
      && r.moves == b.moves + 1
      && r.history[|r.history| - 1] == b.cells
    ensures GetWinner(b).None? ==> r.cells[n].side == player
    ensures GetWinner(b).None? && b.cells[n].spots < Neighbors(b.size, n) ==>
      r.cells == b.cells[n := Square(player, b.cells[n].spots + 1)]
    ensures Repainted(b.cells, r.cells, player)
  {
    var h := if |b.history| == 0 then [b.cells] else b.history;
    var b0 := b.(history := h);
    if GetWinner(b).Some? then b0
    else
      var marked := MarkUndo(b0);
      var c1 := SimpleAdd(b.cells, player, n, 1);
      var reaction := Jump(b.size, c1, n, fuel);
      RepaintedTrans(b.cells, c1, reaction.cells, player);
      var r := Board(b.size, reaction.cells, b.moves + 1, marked.history);
      OneMoreSpotPassesTurn(b, r);
      r
  }

  /** One more spot on the board hands the move to the other side. */
  lemma OneMoreSpotPassesTurn(b: Board, r: Board)
    requires r.size == b.size && NumPieces(r) == NumPieces(b) + 1
    ensures WhoseMove(r) != WhoseMove(b)
  {
    var k := NumPieces(b) + b.size;
    assert NumPieces(r) + r.size == k + 1;
    assert (k + 1) % 2 == 0 <==> k % 2 == 1;
  }

  /** undo: restore the squares of the last snapshot and drop it. The
      snapshot is a Board(Board) copy, so the move counter reads 0. */
  function Undo(b: Board): (r: Board)
    requires Valid(b) && |b.history| > 0
    ensures Valid(r) && r.size == b.size
    ensures r.cells == b.history[|b.history| - 1] && r.moves == 0
    ensures r.history == b.history[..|b.history| - 1]
  {
    var last := |b.history| - 1;
    var snapshot := Copy(b.(cells := b.history[last], history := []));
    InternalCopy(b.(history := b.history[..last]), snapshot)
  }

  /** The rules read only the squares and the side length. */
  lemma SameSquaresSameRules(b: Board, b': Board)
    requires Valid(b) && Valid(b') && b.size == b'.size && b.cells == b'.cells
    ensures WhoseMove(b) == WhoseMove(b') && GetWinner(b) == GetWinner(b')
    ensures forall p, m :: IsLegal(b, p, m) == IsLegal(b', p, m)
  {
  }

  /** A board in initial configuration: RED to move, nobody has won, one
      spot per square, and nothing over-full once N >= 2. */
  lemma InitialPosition(b: Board, n: int)
    requires Initial(b, n)
    ensures NumPieces(b) == n * n
    ensures WhoseMove(b) == RED
    ensures GetWinner(b).None?
    ensures n >= 2 ==> Stable(n, b.cells)
  {
    SpotSumAllInitial(b.cells);
    SquarePlusSideEven(n);
    assert b.cells[0].side == WHITE;
    if n >= 2 {
      forall i | 0 <= i < |b.cells| ensures b.cells[i].spots <= Neighbors(n, i) {
        NeighborsByPosition(n, i);
      }
    }
  }

  /** N*N + N is even. */
  lemma {:induction false} SquarePlusSideEven(n: int)
    requires n >= 0
    ensures (n * n + n) % 2 == 0
  {
    if n > 0 {
      SquarePlusSideEven(n - 1);
      assert n * n + n == (n - 1) * (n - 1) + (n - 1) + 2 * n;
    }
  }

  /** Board(Board) reads the same to the rules as the board it copies. */
  lemma CopyKeepsRules(b: Board)
    requires Valid(b)
    ensures WhoseMove(Copy(b)) == WhoseMove(b) && GetWinner(Copy(b)) == GetWinner(b)
    ensures forall p, m :: IsLegal(Copy(b), p, m) == IsLegal(b, p, m)
  {
    SameSquaresSameRules(b, Copy(b));
  }

  /** Outside a won game the side to move always has a legal square: every
      square the opponent does not own is the mover's or unowned. */
  lemma LegalMoveExists(b: Board)
    requires Valid(b) && GetWinner(b).None?
    ensures exists m :: IsLegal(b, WhoseMove(b), m)
  {
    var p := WhoseMove(b);
    var other := Opponent(p);
    assert !AllOwnedBy(b.cells, other);
    var m :| 0 <= m < |b.cells| && b.cells[m].side != other;
    assert IsLegal(b, p, m);
  }

  /** The first move after construction, clear or copy pushes two
      identical snapshots of the position before it. */
  lemma FirstMoveSnapshots(b: Board, player: Side, n: int, fuel: nat)
    requires Valid(b) && Exists(b.size, n) && b.history == [] && GetWinner(b).None?
    ensures AddSpot(b, player, n, fuel).history == [b.cells, b.cells]
  {
  }

  /** undo after a move on an unfinished game restores every square; the
      move counter reads 0 and one snapshot of the position stays behind
      when the history was empty. */
  lemma UndoAfterAddSpot(b: Board, player: Side, n: int, fuel: nat)
    requires Valid(b) && Exists(b.size, n) && GetWinner(b).None?
    ensures Undo(AddSpot(b, player, n, fuel)).cells == b.cells
    ensures Undo(AddSpot(b, player, n, fuel)).moves == 0
    ensures Undo(AddSpot(b, player, n, fuel)).history == (if b.history == [] then [b.cells] else b.history)
  {
    var r := AddSpot(b, player, n, fuel);
    var h := if |b.history| == 0 then [b.cells] else b.history;
    assert r.history == h + [b.cells];
    assert r.history[..|r.history| - 1] == h;
  }

  /** Between moves a board is quiet: the game is won, or no square is
      over-full, or it is the single square of a 1 x 1 board. */
  predicate Quiescent(b: Board)
    requires Valid(b)
  {
    b.size == 1 || GetWinner(b).Some? || Stable(b.size, b.cells)
  }

  /** A move whose chain reaction runs to the end leaves a quiet board quiet. */
  lemma AddSpotKeepsQuiescent(b: Board, player: Side, n: int, fuel: nat)
    requires Valid(b) && Exists(b.size, n) && player != WHITE && Quiescent(b)
    requires GetWinner(b).None? ==> Placement(b, player, n, fuel).complete
    ensures Quiescent(AddSpot(b, player, n, fuel))
  {
    if GetWinner(b).None? {
      if b.size == 1 {
        SingleSquareMoveWins(b, player, n, fuel);
      } else {
        StableMoveSettles(b, player, n, fuel);
      }
    }
  }

  /** On a 1 x 1 board the first spot a player adds wins the game. */
  lemma SingleSquareMoveWins(b: Board, player: Side, n: int, fuel: nat)
    requires Valid(b) && Exists(b.size, n) && player != WHITE && b.size == 1
    requires GetWinner(b).None?
    ensures GetWinner(AddSpot(b, player, n, fuel)).Some?
  {
    var c1 := SimpleAdd(b.cells, player, n, 1);
    assert AllOwnedBy(c1, player);
    assert Winner(c1).Some?;
    assert Placement(b, player, n, fuel).cells == c1;
    assert AddSpot(b, player, n, fuel).cells == c1;
  }

  /** On a stable board a completed chain reaction ends won or stable. */
  lemma StableMoveSettles(b: Board, player: Side, n: int, fuel: nat)
    requires Valid(b) && Exists(b.size, n) && player != WHITE
    requires GetWinner(b).None? && Stable(b.size, b.cells)
    requires Placement(b, player, n, fuel).complete
    ensures Quiescent(AddSpot(b, player, n, fuel))
  {
    var c1 := SimpleAdd(b.cells, player, n, 1);
    assert StableBut(b.size, c1, n) by {
      forall i | 0 <= i < |c1| && i != n ensures c1[i].spots <= Neighbors(b.size, i) {
        assert c1[i] == b.cells[i];
      }
    }
    assert Settled(b.size, Placement(b, player, n, fuel));
    assert AddSpot(b, player, n, fuel).cells == Placement(b, player, n, fuel).cells;
  }

  /** A legal move that ends the game is won by the player who made it,
      and the turn then passes to the loser. */
  lemma MoverWins(b: Board, player: Side, n: int, fuel: nat)
    requires Valid(b) && IsLegal(b, player, n)
    requires GetWinner(AddSpot(b, player, n, fuel)).Some?
    ensures GetWinner(AddSpot(b, player, n, fuel)) == Some(player)
    ensures WhoseMove(AddSpot(b, player, n, fuel)) != player
  {
    var r := AddSpot(b, player, n, fuel);
    var c1 := SimpleAdd(b.cells, player, n, 1);
    assert c1[n].side == player;
    assert r.cells == Placement(b, player, n, fuel).cells;
    assert r.cells[n].side == player;
  }

  /** The squares addSpot leaves depend only on the size and the squares
      it starts from, not on the move counter or the undo history. */
  lemma AddSpotReadsSquares(b: Board, b': Board, player: Side, n: int, fuel: nat)
    requires Valid(b) && Valid(b') && b.size == b'.size && b.cells == b'.cells && Exists(b.size, n)
    ensures AddSpot(b, player, n, fuel).cells == AddSpot(b', player, n, fuel).cells
    ensures GetWinner(AddSpot(b, player, n, fuel)) == GetWinner(AddSpot(b', player, n, fuel))
  {
    SameSquaresSameRules(b, b');
  }
}
