/** Sides, squares and the whole-board tallies of a Jump61 board.

    A board's contents are a row-major sequence of squares; this module
    holds the value types and the two tallies every other part of the
    model reads: the total number of spots and the number of squares a
    side owns. */
module Squares {

  /** Java's Integer.MAX_VALUE; Integer.MIN_VALUE is one below its negation. */
  const MAX_VALUE: int := 2147483647
  const MIN_VALUE: int := -2147483648

  datatype Option<T> = None | Some(value: T)

  /** The two players, and WHITE for an unowned square. */
  datatype Side = RED | BLUE | WHITE

  /** The other player; WHITE has none and maps to itself. */
  function Opponent(p: Side): (q: Side)
    ensures p != WHITE ==> q != WHITE && q != p
    ensures p == WHITE ==> q == WHITE
  {
    match p
    case RED => BLUE
    case BLUE => RED
    case WHITE => WHITE
  }

  /** A square: the side owning it and its number of spots. Squares are
      values, replaced wholesale whenever a board changes. */
  datatype Square = Square(side: Side, spots: nat)

  /** The square a fresh board is filled with: unowned, one spot. */
  const INITIAL: Square := Square(WHITE, 1)

  /** The square stored when a square is set to NUM spots of PLAYER:
      a non-positive count yields the neutral square instead. */
  function Make(player: Side, num: int): (sq: Square)
    ensures sq.spots >= 1
    ensures num > 0 ==> sq.side == player && sq.spots == num
    ensures num <= 0 ==> sq == INITIAL
  {
    if num > 0 then Square(player, num) else INITIAL
  }

  /** Total number of spots on the squares C. */
  function SpotSum(c: seq<Square>): nat
  {
    if |c| == 0 then 0 else c[0].spots + SpotSum(c[1..])
  }

  /** Number of squares of C owned by SIDE. */
  function Count(c: seq<Square>, side: Side): nat
  {
    if |c| == 0 then 0
    else (if c[0].side == side then 1 else 0) + Count(c[1..], side)
  }

  /** Every square of C is owned by SIDE. */
  predicate AllOwnedBy(c: seq<Square>, side: Side)
  {
    forall i :: 0 <= i < |c| ==> c[i].side == side
  }

  /** Replacing one square changes the spot total by the difference. */
  lemma {:induction false} SpotSumUpdate(c: seq<Square>, i: int, x: Square)
    requires 0 <= i < |c|
    ensures SpotSum(c[i := x]) == SpotSum(c) - c[i].spots + x.spots
  {
    if i == 0 {
      assert c[i := x][1..] == c[1..];
    } else {
      assert c[i := x][1..] == c[1..][i - 1 := x];
      SpotSumUpdate(c[1..], i - 1, x);
    }
  }

  /** A side owns as many squares as there are exactly when it owns them all. */
  lemma {:induction false} CountAll(c: seq<Square>, side: Side)
    ensures Count(c, side) <= |c|
    ensures Count(c, side) == |c| <==> AllOwnedBy(c, side)
  {
    if |c| > 0 {
      CountAll(c[1..], side);
      if AllOwnedBy(c, side) {
        assert AllOwnedBy(c[1..], side) by {
          forall i | 0 <= i < |c[1..]| ensures c[1..][i].side == side {
            assert c[1..][i] == c[i + 1];
          }
        }
      }
      if Count(c, side) == |c| {
        assert c[0].side == side;
        forall i | 0 <= i < |c| ensures c[i].side == side {
          if i > 0 {
            assert c[i] == c[1..][i - 1];
          }
        }
      }
    }
  }

  /** A sequence of initial squares holds one spot per square. */
  lemma {:induction false} SpotSumAllInitial(c: seq<Square>)
    requires forall i :: 0 <= i < |c| ==> c[i] == INITIAL
    ensures SpotSum(c) == |c|
  {
    if |c| > 0 {
      assert forall i :: 0 <= i < |c[1..]| ==> c[1..][i] == c[i + 1];
      SpotSumAllInitial(c[1..]);
    }
  }

  /** No square holds more spots than the whole board. */
  lemma {:induction false} SpotSumBound(c: seq<Square>)
    ensures forall i :: 0 <= i < |c| ==> c[i].spots <= SpotSum(c)
  {
    if |c| > 0 {
      SpotSumBound(c[1..]);
      forall i | 1 <= i < |c| ensures c[i].spots <= SpotSum(c) {
        assert c[i] == c[1..][i - 1];
      }
    }
  }

  /** Every square is counted for exactly one of the three sides. */
  lemma {:induction false} CountPartition(c: seq<Square>)
    ensures Count(c, RED) + Count(c, BLUE) + Count(c, WHITE) == |c|
  {
    if |c| > 0 {
      CountPartition(c[1..]);
    }
  }
}
