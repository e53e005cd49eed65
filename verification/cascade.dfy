/** The square-level mutations of a Jump61 board and its chain reaction.

    Everything here works on the row-major square sequence of an
    N x N board: setting a square, adding spots to it, detecting a win,
    and the recursive `jump` that lets over-full squares explode into
    their neighbours. The Java cascade recurses without a bound; here it
    carries a fuel that bounds how deeply explosions may nest (an
    explosion set off by another one runs on one unit less), and reports
    whether the fuel sufficed. */
module Cascade {
  import opened Squares
  import opened Geometry

  /** The squares of a board of side SIZE. */
  predicate Shaped(size: int, c: seq<Square>)
  {
    size >= 1 && |c| == size * size
  }

  /** getWinner: the owner of square 0 once one player owns every square. */
  function Winner(c: seq<Square>): (w: Option<Side>)
    requires |c| >= 1
    ensures w.Some? <==> AllOwnedBy(c, RED) || AllOwnedBy(c, BLUE)
    ensures w.Some? ==> w.value != WHITE && AllOwnedBy(c, w.value)
  {
    CountAll(c, RED);
    CountAll(c, BLUE);
    if Count(c, BLUE) == |c| || Count(c, RED) == |c| then Some(c[0].side) else None
  }

  /** internalSet: square N becomes NUM spots of PLAYER, or neutral when NUM <= 0. */
  function InternalSet(c: seq<Square>, n: int, num: int, player: Side): (r: seq<Square>)
    requires 0 <= n < |c|
    ensures |r| == |c|
    ensures forall i :: 0 <= i < |c| && i != n ==> r[i] == c[i]
    ensures num > 0 ==> r[n] == Square(player, num) && SpotSum(r) == SpotSum(c) - c[n].spots + num
    ensures num <= 0 ==> r[n] == INITIAL && SpotSum(r) == SpotSum(c) - c[n].spots + 1
  {
    SpotSumUpdate(c, n, Make(player, num));
    c[n := Make(player, num)]
  }

  /** simpleAdd: DELTA spots more on square N, now owned by PLAYER. */
  function SimpleAdd(c: seq<Square>, player: Side, n: int, delta: int): (r: seq<Square>)
    requires 0 <= n < |c|
    ensures |r| == |c|
    ensures forall i :: 0 <= i < |c| && i != n ==> r[i] == c[i]
    ensures c[n].spots + delta >= 1 ==> r[n] == Square(player, c[n].spots + delta) && SpotSum(r) == SpotSum(c) + delta
    ensures c[n].spots + delta < 1 ==> r[n] == INITIAL
  {
    InternalSet(c, n, delta + c[n].spots, player)
  }

  /** R differs from C only in squares that PLAYER now owns with at least one spot. */
  predicate Repainted(c: seq<Square>, r: seq<Square>, player: Side)
  {
    |r| == |c| && forall i :: 0 <= i < |c| ==> r[i] == c[i] || (r[i].side == player && r[i].spots >= 1)
  }

  /** No square holds more spots than it has neighbours. */
  predicate Stable(size: int, c: seq<Square>)
    requires Shaped(size, c)
  {
    forall i :: 0 <= i < |c| ==> c[i].spots <= Neighbors(size, i)
  }

  /** Only square S may be over-full, and by one spot at most: the shape
      a board has right after a spot is added to a stable board. */
  predicate StableBut(size: int, c: seq<Square>, s: int)
    requires Shaped(size, c) && 0 <= s < |c|
  {
    && (forall i :: 0 <= i < |c| && i != s ==> c[i].spots <= Neighbors(size, i))
    && c[s].spots <= Neighbors(size, s) + 1
  }

  /** A finished chain reaction leaves a won or a stable board. */
  predicate Settled(size: int, r: Reaction)
    requires Shaped(size, r.cells)
  {
    r.complete ==> Winner(r.cells).Some? || Stable(size, r.cells)
  }

  /** The squares after a chain reaction, and whether the fuel sufficed. */
  datatype Reaction = Reaction(cells: seq<Square>, complete: bool)

  /** jump(S): unless the game is won, an over-full square S gives up one
      spot per neighbour and passes one spot of its colour to each
      neighbour in turn (right, left, up, down), each of which is then
      jumped in its turn. */
  function Jump(size: int, c: seq<Square>, s: int, fuel: nat): (r: Reaction)
    requires Shaped(size, c) && 0 <= s < |c|
    ensures |r.cells| == |c|
    ensures SpotSum(r.cells) == SpotSum(c)
    ensures Repainted(c, r.cells, c[s].side)
    ensures r.cells[s].side == c[s].side
    ensures Winner(c).Some? ==> r.cells == c
    ensures StableBut(size, c, s) && c[s].side != WHITE ==> Settled(size, r)
    decreases fuel, 0
  {
    if Winner(c).Some? then Reaction(c, true)
    else if c[s].spots <= Neighbors(size, s) then Reaction(c, true)
    else if fuel == 0 then Reaction(c, false)
    else
      var c1 := Explode(size, c, s);
      ExplosionSettlesSource(size, c, s);
      JumpAll(size, c1, s, NeighborList(size, s), fuel - 1)
  }

  /** The exploding square S gives up one spot per neighbour and keeps its owner. */
  function Explode(size: int, c: seq<Square>, s: int): (r: seq<Square>)
    requires Shaped(size, c) && 0 <= s < |c|
    ensures |r| == |c|
    ensures forall i :: 0 <= i < |c| && i != s ==> r[i] == c[i]
    ensures c[s].spots > Neighbors(size, s) ==>
      r[s] == Square(c[s].side, c[s].spots - Neighbors(size, s)) && SpotSum(r) == SpotSum(c) - Neighbors(size, s)
  {
    SimpleAdd(c, c[s].side, s, -(Neighbors(size, s) as int))
  }

  /** The loop body of jump(S) over the neighbours NBS still to be served:
      each gets one spot of the colour S holds at that moment and is then
      jumped. */
  function JumpAll(size: int, c: seq<Square>, s: int, nbs: seq<int>, fuel: nat): (r: Reaction)
    requires Shaped(size, c) && 0 <= s < |c|
    requires forall k :: 0 <= k < |nbs| ==> 0 <= nbs[k] < |c|
    ensures |r.cells| == |c|
    ensures SpotSum(r.cells) == SpotSum(c) + |nbs|
    ensures Repainted(c, r.cells, c[s].side)
    ensures Winner(c).Some? ==> Winner(r.cells) == Winner(c)
    ensures (Winner(c).Some? || Stable(size, c)) && c[s].side != WHITE ==> Settled(size, r)
    decreases fuel, |nbs| + 1
  {
    if |nbs| == 0 then Reaction(c, true)
    else
      var c1 := SimpleAdd(c, c[s].side, nbs[0], 1);
      PassSpot(size, c, s, nbs[0]);
      var r1 := Jump(size, c1, nbs[0], fuel);
      assert r1.cells[s].side == c[s].side;
      assert (Winner(c).Some? || Stable(size, c)) && c[s].side != WHITE && r1.complete ==>
        Winner(r1.cells).Some? || Stable(size, r1.cells);
      var r2 := JumpAll(size, r1.cells, s, nbs[1..], fuel);
      RepaintedTrans(c, c1, r1.cells, c[s].side);
      RepaintedTrans(c, r1.cells, r2.cells, c[s].side);
      Reaction(r2.cells, r1.complete && r2.complete)
  }

  /** Passing one spot of S's colour to square N adds one spot, keeps a
      won board won, and leaves a stable board stable except at N. */
  lemma PassSpot(size: int, c: seq<Square>, s: int, n: int)
    requires Shaped(size, c) && 0 <= s < |c| && 0 <= n < |c|
    ensures SpotSum(SimpleAdd(c, c[s].side, n, 1)) == SpotSum(c) + 1
    ensures Winner(c).Some? ==> Winner(SimpleAdd(c, c[s].side, n, 1)) == Winner(c)
    ensures Stable(size, c) ==> StableBut(size, SimpleAdd(c, c[s].side, n, 1), n)
    ensures Repainted(c, SimpleAdd(c, c[s].side, n, 1), c[s].side)
  {
    var c1 := SimpleAdd(c, c[s].side, n, 1);
    if Winner(c).Some? {
      assert AllOwnedBy(c1, c[s].side);
    }
    if Stable(size, c) {
      forall i | 0 <= i < |c1| && i != n ensures c1[i].spots <= Neighbors(size, i) {
        assert c1[i] == c[i];
      }
    }
  }

  /** Repainting twice in one colour is one repainting. */
  lemma RepaintedTrans(a: seq<Square>, b: seq<Square>, c: seq<Square>, player: Side)
    requires Repainted(a, b, player) && Repainted(b, c, player)
    ensures Repainted(a, c, player)
  {
    forall i | 0 <= i < |a| ensures c[i] == a[i] || (c[i].side == player && c[i].spots >= 1) {
      assert b[i] == a[i] || (b[i].side == player && b[i].spots >= 1);
    }
  }

  /** An over-full square that exploded out of a board that was stable
      elsewhere is left with a single spot, so the board is stable. */
  lemma ExplosionSettlesSource(size: int, c: seq<Square>, s: int)
    requires Shaped(size, c) && 0 <= s < |c|
    requires Winner(c).None? && c[s].spots > Neighbors(size, s)
    ensures Explode(size, c, s)[s] == Square(c[s].side, c[s].spots - Neighbors(size, s))
    ensures StableBut(size, c, s) && c[s].side != WHITE ==> Stable(size, Explode(size, c, s))
  {
    var c1 := Explode(size, c, s);
    if StableBut(size, c, s) && c[s].side != WHITE {
      OwnedSingleSquareIsWon(size, c, s);
      NeighborsByPosition(size, s);
      assert c1[s] == Square(c[s].side, 1);
      forall i | 0 <= i < |c1| ensures c1[i].spots <= Neighbors(size, i) {
        if i != s {
          assert c1[i] == c[i];
        }
      }
    }
  }

  /** On a 1 x 1 board an owned square has already won. */
  lemma OwnedSingleSquareIsWon(size: int, c: seq<Square>, s: int)
    requires Shaped(size, c) && 0 <= s < |c|
    requires c[s].side != WHITE && Winner(c).None?
    ensures size >= 2
  {
  }

}
