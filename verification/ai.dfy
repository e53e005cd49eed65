/** The automated player: a fixed-depth game-tree search over boards.

    `minMax` mutates one board in place: it adds a spot for each candidate
    move, searches the position that results, and undoes the move again.
    Here the board is threaded through the search instead: each call
    returns the board it leaves behind, together with its value and the
    last move recorded in `_foundMove`. The search is modelled literally,
    including the way it narrows its window: every child is searched
    with sense -1, and a maximising node sets alpha to max(beta, score). */
module AI {
  import opened Squares
  import opened Geometry
  import opened Cascade
  import opened Boards

  /** The depth searchForMove searches to. */
  const SEARCH_DEPTH: nat := 4

  /** Java's Math.max and Math.min on ints. */
  function Max(a: int, b: int): int { if a >= b then a else b }
  function Min(a: int, b: int): int { if a <= b then a else b }

  /** findMoves: the squares PLAYER may legally play, in increasing order. */
  function FindMoves(b: Board, player: Side): (moves: seq<int>)
    requires Valid(b)
    ensures forall m :: m in moves <==> IsLegal(b, player, m)
    ensures forall j, k :: 0 <= j < k < |moves| ==> moves[j] < moves[k]
  {
    FindMovesFrom(b, player, 0)
  }

  /** The loop of findMoves from square I on. */
  function FindMovesFrom(b: Board, player: Side, i: int): (moves: seq<int>)
    requires Valid(b) && i >= 0
    ensures forall m :: m in moves <==> i <= m && IsLegal(b, player, m)
    ensures forall j, k :: 0 <= j < k < |moves| ==> moves[j] < moves[k]
    ensures forall j :: 0 <= j < |moves| ==> i <= moves[j]
    decreases b.size * b.size - i
  {
    if i >= b.size * b.size then []
    else (if IsLegal(b, player, i) then [i] else []) + FindMovesFrom(b, player, i + 1)
  }

  /** staticEval(B, WINNINGVALUE): -WINNINGVALUE once RED has won,
      WINNINGVALUE once BLUE has, and otherwise RED's squares less BLUE's. */
  function StaticEval(b: Board, winningValue: int): (v: int)
    requires Valid(b)
    ensures GetWinner(b) == Some(RED) ==> v == -winningValue
    ensures GetWinner(b) == Some(BLUE) ==> v == winningValue
    ensures GetWinner(b).None? ==> -|b.cells| < v < |b.cells|
  {
    if GetWinner(b).Some? then
      if GetWinner(b) == Some(RED) then winningValue * -1 else winningValue
    else
      CountPartition(b.cells);
      NumOfSide(b, RED) - NumOfSide(b, BLUE)
  }

  /** The squares of C with RED and BLUE exchanged. */
  function SwapSides(c: seq<Square>): (r: seq<Square>)
    ensures |r| == |c|
    ensures forall i :: 0 <= i < |c| ==> r[i].spots == c[i].spots
  {
    seq(|c|, i requires 0 <= i < |c| =>
      Square(Opponent(c[i].side), c[i].spots))
  }

  /** Exchanging the players exchanges their square counts. */
  lemma {:induction false} CountSwapped(c: seq<Square>)
    ensures Count(SwapSides(c), RED) == Count(c, BLUE)
    ensures Count(SwapSides(c), BLUE) == Count(c, RED)
  {
    if |c| > 0 {
      assert SwapSides(c)[1..] == SwapSides(c[1..]);
      CountSwapped(c[1..]);
    }
  }

  /** The evaluation is antisymmetric: exchanging RED and BLUE on the
      board negates it. */
  lemma StaticEvalSwapped(b: Board, winningValue: int)
    requires Valid(b)
    ensures StaticEval(b.(cells := SwapSides(b.cells)), winningValue) == -StaticEval(b, winningValue)
  {
    var b' := b.(cells := SwapSides(b.cells));
    CountSwapped(b.cells);
    CountAll(b.cells, RED);
    CountAll(b.cells, BLUE);
    CountAll(b'.cells, RED);
    CountAll(b'.cells, BLUE);
    if GetWinner(b).Some? {
      assert b'.cells[0].side == (if b.cells[0].side == RED then BLUE else RED);
    }
  }

  /** The test a child's RESPONSE must pass to replace the best SCORE so far. */
  predicate Accepts(sense: int, response: int, score: int)
  {
    sense * response >= sense * score
  }

  /** A maximising node (sense 1) takes any response at least as high as
      its score, a minimising one (sense -1) any response at least as
      low, so among equal values the later move wins; and the first
      response always passes against the initial score -sense * MAX. */
  lemma AcceptsOrders(sense: int, response: int, score: int)
    requires sense == 1 || sense == -1
    ensures sense == 1 ==> (Accepts(sense, response, score) <==> response >= score)
    ensures sense == -1 ==> (Accepts(sense, response, score) <==> response <= score)
    ensures -MAX_VALUE <= response <= MAX_VALUE ==> Accepts(sense, response, -sense * MAX_VALUE)
  {
  }

  /** The search window of one node. */
  datatype Window = Window(alpha: int, beta: int)

  /** The window after a child: a maximising node sets alpha to
      max(beta, score), a minimising one sets beta to min(beta, score). */
  function Narrow(sense: int, w: Window, score: int): Window
  {
    if sense > 0 then Window(Max(w.beta, score), w.beta) else Window(w.alpha, Min(w.beta, score))
  }

  /** The loop stops once alpha exceeds beta. */
  predicate Cutoff(w: Window)
  {
    w.alpha > w.beta
  }

  /** The windows the root of searchForMove passes through: it opens with
      the full window, and a maximising root keeps beta at MAX_VALUE while
      a minimising one keeps alpha at MIN_VALUE. */
  predicate RootWindow(sense: int, w: Window)
  {
    if sense > 0 then w.beta == MAX_VALUE else w.alpha == MIN_VALUE && w.beta >= -MAX_VALUE
  }

  /** Narrowing a root window by any score in range gives a root window
      again, and one that does not cut off. */
  lemma RootNeverCutsOff(sense: int, w: Window, score: int)
    requires -MAX_VALUE <= score <= MAX_VALUE
    ensures RootWindow(sense, w) ==> RootWindow(sense, Narrow(sense, w, score)) && !Cutoff(Narrow(sense, w, score))
  {
  }

  /** B' holds the squares of B again; the history is B's, except that an
      empty history may have gained the one snapshot an addSpot on an
      empty history leaves after its undo. */
  predicate Restored(b: Board, b': Board)
  {
    && Valid(b') && b'.size == b.size && b'.cells == b.cells
    && (|b.history| > 0 ==> b'.history == b.history)
    && (|b.history| == 0 ==> b'.history == [] || b'.history == [b.cells])
  }

  /** What one minMax call returns: its value, the board it leaves, and
      the contents of _foundMove afterwards. */
  datatype Outcome = Outcome(score: int, board: Board, found: int)

  /** The state of minMax's loop when it ends, and whether it ended by a
      cutoff rather than by running out of squares. */
  datatype Sweep = Sweep(score: int, finalMove: int, board: Board, found: int, cut: bool)

  /** The player searchForMove plays for: RED minimises, BLUE maximises. */
  function Sense(side: Side): (sense: int)
    ensures sense == 1 || sense == -1
    ensures sense == -1 <==> side == RED
  {
    if side == RED then -1 else 1
  }

  /** minMax(B, DEPTH, SAVEMOVE, SENSE, ALPHA, BETA), with FOUND the
      contents of _foundMove on entry and FUEL the chain-reaction fuel of
      each addSpot. At depth 0 or on a won board it is the static value
      and records nothing; otherwise its value is within +-MAX_VALUE, the
      board's squares come back as they were, and the move it records is
      legal for the side to move. */
  function MinMax(b: Board, depth: nat, saveMove: bool, sense: int, alpha: int, beta: int, found: int, fuel: nat): (o: Outcome)
    requires Valid(b) && (sense == 1 || sense == -1)
    ensures -MAX_VALUE <= o.score <= MAX_VALUE
    ensures Restored(b, o.board)
    ensures depth == 0 || GetWinner(b).Some? ==>
      o.score == StaticEval(b, MAX_VALUE) && o.board == b && o.found == found
    ensures depth > 0 && GetWinner(b).None? && saveMove ==> IsLegal(b, WhoseMove(b), o.found)
    decreases depth, 3
  {
    if depth == 0 || GetWinner(b).Some? then
      Outcome(StaticEval(b, MAX_VALUE), b, found)
    else
      LegalMoveExists(b);
      var sweep := MinMaxLoop(b, depth, sense, 0, -sense * MAX_VALUE, 0, Window(alpha, beta), found, fuel);
      Outcome(sweep.score, sweep.board, if saveMove then sweep.finalMove else sweep.found)
  }

  /** The loop of minMax from candidate M on, over the board B it has
      restored so far, with the best SCORE and FINALMOVE yet, the window W
      and _foundMove FOUND. The score only improves for the node's sense;
      the final move is FINALMOVE or a legal move at or after M; a legal
      move at or after M, or a legal FINALMOVE, makes the final move
      legal; and a loop over a root window never cuts off, so it visits
      every legal move from M on. */
  function MinMaxLoop(b: Board, depth: nat, sense: int, m: int, score: int, finalMove: int,
                      w: Window, found: int, fuel: nat): (s: Sweep)
    requires Valid(b) && depth > 0 && GetWinner(b).None? && (sense == 1 || sense == -1)
    requires 0 <= m && -MAX_VALUE <= score <= MAX_VALUE
    ensures -MAX_VALUE <= s.score <= MAX_VALUE
    ensures Restored(b, s.board)
    ensures IsLegal(b, WhoseMove(b), finalMove) ==> IsLegal(b, WhoseMove(b), s.finalMove)
    ensures score == -sense * MAX_VALUE && (exists k :: m <= k && IsLegal(b, WhoseMove(b), k)) ==>
      IsLegal(b, WhoseMove(b), s.finalMove)
    ensures sense * s.score >= sense * score
    ensures s.finalMove == finalMove || (m <= s.finalMove < b.size * b.size && IsLegal(b, WhoseMove(b), s.finalMove))
    ensures RootWindow(sense, w) ==> !s.cut
    decreases depth, 2, b.size * b.size - m, 1
  {
    if m >= b.size * b.size then
      Sweep(score, finalMove, b, found, false)
    else if m !in FindMoves(b, WhoseMove(b)) then
      MinMaxLoop(b, depth, sense, m + 1, score, finalMove, w, found, fuel)
    else
      LoopTurn(b, depth, sense, m, score, finalMove, w, found, fuel)
  }

  /** The loop of minMax at a legal move M: visit M, then break when alpha
      exceeds beta or go on from M + 1. It keeps the loop's promises, and
      with M legal a loop from the initial score ends on a legal move. */
  function LoopTurn(b: Board, depth: nat, sense: int, m: int, score: int, finalMove: int,
                    w: Window, found: int, fuel: nat): (s: Sweep)
    requires Valid(b) && depth > 0 && GetWinner(b).None? && (sense == 1 || sense == -1)
    requires IsLegal(b, WhoseMove(b), m) && -MAX_VALUE <= score <= MAX_VALUE
    ensures -MAX_VALUE <= s.score <= MAX_VALUE
    ensures Restored(b, s.board)
    ensures IsLegal(b, WhoseMove(b), finalMove) ==> IsLegal(b, WhoseMove(b), s.finalMove)
    ensures score == -sense * MAX_VALUE ==> IsLegal(b, WhoseMove(b), s.finalMove)
    ensures sense * s.score >= sense * score
    ensures s.finalMove == finalMove || (m <= s.finalMove < b.size * b.size && IsLegal(b, WhoseMove(b), s.finalMove))
    ensures RootWindow(sense, w) ==> !s.cut
    decreases depth, 2, b.size * b.size - m, 0
  {
      var v := Visit(b, depth, sense, m, score, finalMove, w, found, fuel);
      SameSquaresSameRules(b, v.board);
      var w' := Narrow(sense, w, v.score);
      RootNeverCutsOff(sense, w, v.score);
      if Cutoff(w') then
        v.(cut := true)
      else
        var s := MinMaxLoop(v.board, depth, sense, m + 1, v.score, v.finalMove, w', v.found, fuel);
        RestoredTrans(b, v.board, s.board);
        s
  }

  /** The value of the legal move M on B: minMax to one level less, with
      sense -1 and the window W, of the position after M. */
  function ChildValue(b: Board, depth: nat, m: int, w: Window, found: int, fuel: nat): (v: int)
    requires Valid(b) && depth > 0 && Exists(b.size, m)
    ensures -MAX_VALUE <= v <= MAX_VALUE
    decreases depth, 0
  {
    MinMax(AddSpot(b, WhoseMove(b), m, fuel), depth - 1, true, -1, w.alpha, w.beta, found, fuel).score
  }

  /** One turn of minMax's loop on the legal move M: play it, search the
      position to one level less with sense -1, and undo the move. M and
      its value replace FINALMOVE and SCORE exactly when the value passes
      Accepts, so the score never worsens for the node's sense and a tie
      goes to the later move. */
  function Visit(b: Board, depth: nat, sense: int, m: int, score: int, finalMove: int,
                 w: Window, found: int, fuel: nat): (v: Sweep)
    requires Valid(b) && depth > 0 && (sense == 1 || sense == -1)
    requires IsLegal(b, WhoseMove(b), m) && -MAX_VALUE <= score <= MAX_VALUE
    ensures -MAX_VALUE <= v.score <= MAX_VALUE
    ensures Restored(b, v.board)
    ensures !v.cut
    ensures Accepts(sense, ChildValue(b, depth, m, w, found, fuel), score) ==>
      v.finalMove == m && v.score == ChildValue(b, depth, m, w, found, fuel)
    ensures !Accepts(sense, ChildValue(b, depth, m, w, found, fuel), score) ==>
      v.finalMove == finalMove && v.score == score
    ensures sense * v.score >= sense * score
    ensures ChildValue(b, depth, m, w, found, fuel) == score ==> v.finalMove == m
    ensures score == -sense * MAX_VALUE ==> v.finalMove == m
    decreases depth, 1
  {
    var child := AddSpot(b, WhoseMove(b), m, fuel);
    var o := MinMax(child, depth - 1, true, -1, w.alpha, w.beta, found, fuel);
    AcceptsOrders(sense, o.score, score);
    var back := Undo(o.board);
    UndoAfterAddSpot(b, WhoseMove(b), m, fuel);
    if Accepts(sense, o.score, score) then Sweep(o.score, m, back, o.found, false)
    else Sweep(score, finalMove, back, o.found, false)
  }

  /** Restoring twice is restoring. Dafny sees this unaided; the lemma
      names the step where MinMaxLoop chains two restorations. */
  lemma RestoredTrans(b: Board, b1: Board, b2: Board)
    requires Restored(b, b1) && Restored(b1, b2)
    ensures Restored(b, b2)
  {
  }

  /** searchForMove for the player SIDE: search a Board(Board) copy to
      depth 4, minimising when SIDE is RED and maximising when it is BLUE,
      and return the move the root records, -1 when the game is over. */
  function SearchForMove(b: Board, side: Side, fuel: nat): (move: int)
    requires Valid(b)
    ensures GetWinner(b).Some? ==> move == -1
    ensures GetWinner(b).None? ==> IsLegal(b, WhoseMove(b), move)
    ensures GetWinner(b).None? && side == WhoseMove(b) ==> IsLegal(b, side, move)
  {
    var work := Copy(b);
    CopyKeepsRules(b);
    MinMax(work, SEARCH_DEPTH, true, Sense(side), MIN_VALUE, MAX_VALUE, -1, fuel).found
  }

  /** The root loop of searchForMove, which opens with the full window. */
  function RootSweep(b: Board, side: Side, fuel: nat): (s: Sweep)
    requires Valid(b) && GetWinner(b).None?
    ensures Restored(Copy(b), s.board)
    ensures IsLegal(b, WhoseMove(b), s.finalMove)
  {
    CopyKeepsRules(b);
    LegalMoveExists(b);
    MinMaxLoop(Copy(b), SEARCH_DEPTH, Sense(side), 0, -Sense(side) * MAX_VALUE, 0,
               Window(MIN_VALUE, MAX_VALUE), -1, fuel)
  }

  /** On an unfinished game the root of searchForMove never cuts off: it
      visits every legal move, and the move it returns is the final move
      of that complete sweep. */
  lemma SearchVisitsEveryMove(b: Board, side: Side, fuel: nat)
    requires Valid(b) && GetWinner(b).None?
    ensures !RootSweep(b, side, fuel).cut
    ensures SearchForMove(b, side, fuel) == RootSweep(b, side, fuel).finalMove
  {
    CopyKeepsRules(b);
    assert RootWindow(Sense(side), Window(MIN_VALUE, MAX_VALUE));
  }

  /** One step of minMax's loop at a square M on the board: a square that
      is not a legal move is passed over; a legal one is visited, and the
      loop then breaks with the turn's result or goes on from M + 1 with
      the board the turn restored and the narrowed window. */
  lemma LoopStep(b: Board, depth: nat, sense: int, m: int, score: int, finalMove: int,
                 w: Window, found: int, fuel: nat)
    requires Valid(b) && depth > 0 && GetWinner(b).None? && (sense == 1 || sense == -1)
    requires 0 <= m < b.size * b.size && -MAX_VALUE <= score <= MAX_VALUE
    ensures !IsLegal(b, WhoseMove(b), m) ==>
      MinMaxLoop(b, depth, sense, m, score, finalMove, w, found, fuel)
      == MinMaxLoop(b, depth, sense, m + 1, score, finalMove, w, found, fuel)
    ensures IsLegal(b, WhoseMove(b), m) ==>
      var v := Visit(b, depth, sense, m, score, finalMove, w, found, fuel);
      && Valid(v.board) && v.board.size == b.size && v.board.cells == b.cells
      && GetWinner(v.board).None? && WhoseMove(v.board) == WhoseMove(b)
      && -MAX_VALUE <= v.score <= MAX_VALUE
      && (Cutoff(Narrow(sense, w, v.score)) ==>
            MinMaxLoop(b, depth, sense, m, score, finalMove, w, found, fuel) == v.(cut := true))
      && (!Cutoff(Narrow(sense, w, v.score)) ==>
            MinMaxLoop(b, depth, sense, m, score, finalMove, w, found, fuel)
            == MinMaxLoop(v.board, depth, sense, m + 1, v.score, v.finalMove, Narrow(sense, w, v.score), v.found, fuel))
  {
    if IsLegal(b, WhoseMove(b), m) {
      var v := Visit(b, depth, sense, m, score, finalMove, w, found, fuel);
      SameSquaresSameRules(b, v.board);
    }
  }

  /** A sweep that ended in a cutoff has a score outside the window W: a
      maximising one above beta, a minimising one below alpha, unless
      alpha was already past beta. */
  predicate CutOutside(sense: int, w: Window, s: Sweep)
  {
    s.cut ==> (sense == 1 ==> s.score > w.beta) && (sense == -1 ==> s.score < w.alpha || w.alpha > w.beta)
  }

  /** The break itself leaves the score outside the window; and when the
      loop goes on, a later break outside the narrowed window is outside
      the original one too. */
  lemma NarrowKeepsOutside(sense: int, w: Window, score: int, s: Sweep)
    requires sense == 1 || sense == -1
    ensures Cutoff(Narrow(sense, w, score)) && s.score == score ==> CutOutside(sense, w, s)
    ensures !Cutoff(Narrow(sense, w, score)) && CutOutside(sense, Narrow(sense, w, score), s) ==> CutOutside(sense, w, s)
  {
  }

  /** A loop that breaks does so because its score left the window: a
      maximising loop ends above beta, a minimising one below alpha (or
      with alpha already past beta), as the minMax doc promises. */
  lemma {:induction false} CutBeyondWindow(b: Board, depth: nat, sense: int, m: int, score: int, finalMove: int,
                                           w: Window, found: int, fuel: nat)
    requires Valid(b) && depth > 0 && GetWinner(b).None? && (sense == 1 || sense == -1)
    requires 0 <= m && -MAX_VALUE <= score <= MAX_VALUE
    ensures CutOutside(sense, w, MinMaxLoop(b, depth, sense, m, score, finalMove, w, found, fuel))
    decreases b.size * b.size - m
  {
    var s := MinMaxLoop(b, depth, sense, m, score, finalMove, w, found, fuel);
    if m >= b.size * b.size {
      assert !s.cut;
    } else {
      LoopStep(b, depth, sense, m, score, finalMove, w, found, fuel);
      if !IsLegal(b, WhoseMove(b), m) {
        CutBeyondWindow(b, depth, sense, m + 1, score, finalMove, w, found, fuel);
      } else {
        var v := Visit(b, depth, sense, m, score, finalMove, w, found, fuel);
        var w' := Narrow(sense, w, v.score);
        NarrowKeepsOutside(sense, w, v.score, s);
        if !Cutoff(w') {
          CutBeyondWindow(v.board, depth, sense, m + 1, v.score, v.finalMove, w', v.found, fuel);
        }
      }
    }
  }

  /** A legal move after which the mover has won is worth the mover's
      winning value, whatever the window. */
  lemma WinningChildValue(b: Board, depth: nat, k: int, w: Window, found: int, fuel: nat)
    requires Valid(b) && depth > 0 && IsLegal(b, WhoseMove(b), k)
    requires GetWinner(AddSpot(b, WhoseMove(b), k, fuel)).Some?
    ensures ChildValue(b, depth, k, w, found, fuel) == Sense(WhoseMove(b)) * MAX_VALUE
  {
    MoverWins(b, WhoseMove(b), k, fuel);
  }

  /** The mover's winning value passes Accepts against any score in range,
      and a score at that value cannot improve any further. */
  lemma ExtremeValue(sense: int, score: int, later: int)
    requires (sense == 1 || sense == -1) && -MAX_VALUE <= score <= MAX_VALUE
    requires -MAX_VALUE <= later <= MAX_VALUE
    ensures Accepts(sense, sense * MAX_VALUE, score)
    ensures score == sense * MAX_VALUE && sense * later >= sense * score ==> later == score
  {
    if sense == 1 {
      assert sense * MAX_VALUE == MAX_VALUE && sense * later == later;
    } else {
      assert sense * MAX_VALUE == -MAX_VALUE && sense * later == -later;
    }
  }

  /** A loop over a root window passes over a square that is not a legal
      move, and after a legal move M goes on from M + 1 with the board the
      turn restored, its score and move, and a root window again. */
  lemma RootLoopStep(b: Board, depth: nat, sense: int, m: int, score: int, finalMove: int,
                     w: Window, found: int, fuel: nat)
    requires Valid(b) && depth > 0 && GetWinner(b).None? && (sense == 1 || sense == -1)
    requires 0 <= m < b.size * b.size && -MAX_VALUE <= score <= MAX_VALUE
    requires RootWindow(sense, w)
    ensures !IsLegal(b, WhoseMove(b), m) ==>
      MinMaxLoop(b, depth, sense, m, score, finalMove, w, found, fuel)
      == MinMaxLoop(b, depth, sense, m + 1, score, finalMove, w, found, fuel)
    ensures IsLegal(b, WhoseMove(b), m) ==>
      var v := Visit(b, depth, sense, m, score, finalMove, w, found, fuel);
      && Valid(v.board) && v.board.size == b.size && v.board.cells == b.cells
      && RootWindow(sense, Narrow(sense, w, v.score))
      && MinMaxLoop(b, depth, sense, m, score, finalMove, w, found, fuel)
         == MinMaxLoop(v.board, depth, sense, m + 1, v.score, v.finalMove, Narrow(sense, w, v.score), v.found, fuel)
  {
    LoopStep(b, depth, sense, m, score, finalMove, w, found, fuel);
    if IsLegal(b, WhoseMove(b), m) {
      var v := Visit(b, depth, sense, m, score, finalMove, w, found, fuel);
      RootNeverCutsOff(sense, w, v.score);
    }
  }

  /** A loop over a root window whose next legal move M wins at once ends
      with the mover's winning value: Visit takes M's value, and no later
      move can improve on it. */
  lemma WinTaken(b: Board, depth: nat, sense: int, m: int, score: int, finalMove: int, w: Window, found: int, fuel: nat)
    requires Valid(b) && depth > 0 && GetWinner(b).None?
    requires 0 <= m && -MAX_VALUE <= score <= MAX_VALUE
    requires sense == Sense(WhoseMove(b)) && RootWindow(sense, w)
    requires IsLegal(b, WhoseMove(b), m) && GetWinner(AddSpot(b, WhoseMove(b), m, fuel)).Some?
    ensures MinMaxLoop(b, depth, sense, m, score, finalMove, w, found, fuel).score == sense * MAX_VALUE
  {
    RootLoopStep(b, depth, sense, m, score, finalMove, w, found, fuel);
    var v := Visit(b, depth, sense, m, score, finalMove, w, found, fuel);
    var s' := MinMaxLoop(v.board, depth, sense, m + 1, v.score, v.finalMove, Narrow(sense, w, v.score), v.found, fuel);
    WinningChildValue(b, depth, m, w, found, fuel);
    ExtremeValue(sense, score, s'.score);
    assert v.score == sense * MAX_VALUE;
    ExtremeValue(sense, v.score, s'.score);
  }

  /** The premises of LoopFindsWin: a root-window loop from M on for the
      side to move, with the legal move K at or after M winning at once. */
  predicate WinAhead(b: Board, depth: nat, sense: int, m: int, score: int, w: Window, fuel: nat, k: int)
  {
    && Valid(b) && depth > 0 && GetWinner(b).None?
    && 0 <= m <= k && -MAX_VALUE <= score <= MAX_VALUE
    && sense == Sense(WhoseMove(b)) && RootWindow(sense, w)
    && IsLegal(b, WhoseMove(b), k) && GetWinner(AddSpot(b, WhoseMove(b), k, fuel)).Some?
  }

  /** Passing a square M other than the winning move K keeps the premises
      of LoopFindsWin for the rest of the loop. */
  lemma WinStillAhead(b: Board, depth: nat, sense: int, m: int, score: int, finalMove: int, w: Window, found: int, fuel: nat, k: int)
    requires WinAhead(b, depth, sense, m, score, w, fuel, k) && m != k
    ensures !IsLegal(b, WhoseMove(b), m) ==>
      && WinAhead(b, depth, sense, m + 1, score, w, fuel, k)
      && MinMaxLoop(b, depth, sense, m, score, finalMove, w, found, fuel)
         == MinMaxLoop(b, depth, sense, m + 1, score, finalMove, w, found, fuel)
    ensures IsLegal(b, WhoseMove(b), m) ==>
      var v := Visit(b, depth, sense, m, score, finalMove, w, found, fuel);
      && WinAhead(v.board, depth, sense, m + 1, v.score, Narrow(sense, w, v.score), fuel, k)
      && MinMaxLoop(b, depth, sense, m, score, finalMove, w, found, fuel)
         == MinMaxLoop(v.board, depth, sense, m + 1, v.score, v.finalMove, Narrow(sense, w, v.score), v.found, fuel)
  {
    RootLoopStep(b, depth, sense, m, score, finalMove, w, found, fuel);
    if IsLegal(b, WhoseMove(b), m) {
      var v := Visit(b, depth, sense, m, score, finalMove, w, found, fuel);
      SameSquaresSameRules(b, v.board);
      AddSpotReadsSquares(b, v.board, WhoseMove(b), k, fuel);
    }
  }

  /** A loop over a root window that still has an immediately winning
      move K ahead ends with the mover's winning value. */
  lemma {:induction false} LoopFindsWin(b: Board, depth: nat, sense: int, m: int, score: int, finalMove: int,
                                        w: Window, found: int, fuel: nat, k: int)
    requires WinAhead(b, depth, sense, m, score, w, fuel, k)
    ensures MinMaxLoop(b, depth, sense, m, score, finalMove, w, found, fuel).score == sense * MAX_VALUE
    decreases b.size * b.size - m
  {
    var s := MinMaxLoop(b, depth, sense, m, score, finalMove, w, found, fuel);
    if m == k {
      WinTaken(b, depth, sense, m, score, finalMove, w, found, fuel);
    } else {
      WinStillAhead(b, depth, sense, m, score, finalMove, w, found, fuel, k);
      if !IsLegal(b, WhoseMove(b), m) {
        LoopFindsWin(b, depth, sense, m + 1, score, finalMove, w, found, fuel, k);
        assert s == MinMaxLoop(b, depth, sense, m + 1, score, finalMove, w, found, fuel);
      } else {
        var v := Visit(b, depth, sense, m, score, finalMove, w, found, fuel);
        var w' := Narrow(sense, w, v.score);
        LoopFindsWin(v.board, depth, sense, m + 1, v.score, v.finalMove, w', v.found, fuel, k);
        assert s == MinMaxLoop(v.board, depth, sense, m + 1, v.score, v.finalMove, w', v.found, fuel);
      }
    }
  }

  /** A forced win one move ahead: when some legal move captures the whole
      board, the root of searchForMove values the position at the mover's
      winning value, -MAX_VALUE for RED and MAX_VALUE for BLUE. */
  lemma ForcedWin(b: Board, k: int, fuel: nat)
    requires Valid(b) && GetWinner(b).None? && IsLegal(b, WhoseMove(b), k)
    requires GetWinner(AddSpot(b, WhoseMove(b), k, fuel)).Some?
    ensures RootSweep(b, WhoseMove(b), fuel).score == Sense(WhoseMove(b)) * MAX_VALUE
  {
    CopyKeepsRules(b);
    AddSpotReadsSquares(b, Copy(b), WhoseMove(b), k, fuel);
    assert WinAhead(Copy(b), SEARCH_DEPTH, Sense(WhoseMove(b)), 0, -Sense(WhoseMove(b)) * MAX_VALUE,
                    Window(MIN_VALUE, MAX_VALUE), fuel, k);
    LoopFindsWin(Copy(b), SEARCH_DEPTH, Sense(WhoseMove(b)), 0, -Sense(WhoseMove(b)) * MAX_VALUE, 0,
                 Window(MIN_VALUE, MAX_VALUE), -1, fuel, k);
  }
}
