/** Square numbering on an N x N board.

    Rows and columns run from 1 to N; squares are numbered 0 .. N*N-1 in
    row-major order. Java's integer division truncates toward zero, so
    Row and Col are written with Quot and Rem rather than Dafny's
    Euclidean `/` and `%` (the two agree on non-negative numbers). */
module Geometry {

  /** Java's `a / b` for a positive divisor: truncation toward zero. */
  function Quot(a: int, b: int): int
    requires b > 0
  {
    if a >= 0 then a / b else -((-a) / b)
  }

  /** Java's `a % b` for a positive divisor: the sign follows A. */
  function Rem(a: int, b: int): int
    requires b > 0
  {
    a - b * Quot(a, b)
  }

  /** Row number of square N (row). Truncating division puts the squares
      just before 0 into row 1 as well. */
  function Row(size: int, n: int): (r: int)
    requires size > 0
    ensures 0 <= n ==> 1 <= r
    ensures -size < n < 0 ==> r == 1
    ensures n < 0 ==> r <= 1
  {
    Quot(n, size) + 1
  }

  /** Column number of square N (col). Java's remainder takes the sign of
      N, so a negative N yields a column of 1 or less. */
  function Col(size: int, n: int): (c: int)
    requires size > 0
    ensures 0 <= n ==> 1 <= c <= size
    ensures n < 0 ==> 2 - size <= c <= 1
  {
    Rem(n, size) + 1
  }

  /** Square number of row R, column C (sqNum). */
  function SqNum(size: int, r: int, c: int): int
  {
    (c - 1) + (r - 1) * size
  }

  /** Row R, column C denotes a square (exists(r, c)). */
  predicate ExistsRC(size: int, r: int, c: int)
  {
    1 <= r <= size && 1 <= c <= size
  }

  /** S is a square number (exists(s)). */
  predicate Exists(size: int, s: int)
  {
    0 <= s < size * size
  }

  /** Number of neighbours of row R, column C, counted side by side. */
  function NeighborsRC(size: int, r: int, c: int): (k: nat)
    ensures k <= 4
    ensures ExistsRC(size, r, c) && size >= 2 ==> 2 <= k
    ensures ExistsRC(size, r, c) && size == 1 ==> k == 0
  {
    (if r > 1 then 1 else 0) + (if c > 1 then 1 else 0)
    + (if r < size then 1 else 0) + (if c < size then 1 else 0)
  }

  /** Number of neighbours of square N. */
  function Neighbors(size: int, n: int): (k: nat)
    requires size > 0
    ensures k <= 4
    ensures Exists(size, n) && size >= 2 ==> 2 <= k
    ensures Exists(size, n) && size == 1 ==> k == 0
  {
    RowColInRange(size, n);
    NeighborsRC(size, Row(size, n), Col(size, n))
  }

  /** Squares M and S are orthogonally adjacent: same row and neighbouring
      columns, or same column and neighbouring rows. */
  predicate Adjacent(size: int, s: int, m: int)
    requires size > 0
  {
    || (Row(size, m) == Row(size, s) && (Col(size, m) == Col(size, s) + 1 || Col(size, m) == Col(size, s) - 1))
    || (Col(size, m) == Col(size, s) && (Row(size, m) == Row(size, s) + 1 || Row(size, m) == Row(size, s) - 1))
  }

  /** The neighbours of square S in the order the chain reaction visits
      them: right, left, up, down. */
  function NeighborList(size: int, s: int): (nbs: seq<int>)
    requires size > 0 && Exists(size, s)
    ensures |nbs| == Neighbors(size, s)
    ensures forall k :: 0 <= k < |nbs| ==> Exists(size, nbs[k])
  {
    var r := Row(size, s);
    var c := Col(size, s);
    NeighborSteps(size, s);
    (if c < size then [s + 1] else [])
    + (if c > 1 then [s - 1] else [])
    + (if r > 1 then [s - size] else [])
    + (if r < size then [s + size] else [])
  }

  /** Each step the neighbour list takes lands on the board, next to S. */
  lemma NeighborSteps(size: int, s: int)
    requires size > 0 && Exists(size, s)
    ensures Col(size, s) < size ==> Exists(size, s + 1) && Row(size, s + 1) == Row(size, s) && Col(size, s + 1) == Col(size, s) + 1
    ensures Col(size, s) > 1 ==> Exists(size, s - 1) && Row(size, s - 1) == Row(size, s) && Col(size, s - 1) == Col(size, s) - 1
    ensures Row(size, s) > 1 ==> Exists(size, s - size) && Row(size, s - size) == Row(size, s) - 1 && Col(size, s - size) == Col(size, s)
    ensures Row(size, s) < size ==> Exists(size, s + size) && Row(size, s + size) == Row(size, s) + 1 && Col(size, s + size) == Col(size, s)
  {
    if Col(size, s) < size { StepRight(size, s); }
    if Col(size, s) > 1 { StepLeft(size, s); }
    if Row(size, s) > 1 { StepUp(size, s); }
    if Row(size, s) < size { StepDown(size, s); }
  }

  /** Square S+1 is S's right-hand neighbour when S is not in the last column. */
  lemma StepRight(size: int, s: int)
    requires size > 0 && Exists(size, s) && Col(size, s) < size
    ensures Exists(size, s + 1) && Row(size, s + 1) == Row(size, s) && Col(size, s + 1) == Col(size, s) + 1
  {
    RowColRoundTrip(size, s);
    SqNumRoundTrip(size, Row(size, s), Col(size, s) + 1);
  }

  /** Square S-1 is S's left-hand neighbour when S is not in the first column. */
  lemma StepLeft(size: int, s: int)
    requires size > 0 && Exists(size, s) && Col(size, s) > 1
    ensures Exists(size, s - 1) && Row(size, s - 1) == Row(size, s) && Col(size, s - 1) == Col(size, s) - 1
  {
    RowColRoundTrip(size, s);
    SqNumRoundTrip(size, Row(size, s), Col(size, s) - 1);
  }

  /** Square S-SIZE lies above S when S is not in the first row. */
  lemma StepUp(size: int, s: int)
    requires size > 0 && Exists(size, s) && Row(size, s) > 1
    ensures Exists(size, s - size) && Row(size, s - size) == Row(size, s) - 1 && Col(size, s - size) == Col(size, s)
  {
    RowColRoundTrip(size, s);
    var r, c := Row(size, s), Col(size, s);
    SqNumRoundTrip(size, r - 1, c);
    assert SqNum(size, r - 1, c) == s - size by {
      assert (r - 2) * size == (r - 1) * size - size;
    }
  }

  /** Square S+SIZE lies below S when S is not in the last row. */
  lemma StepDown(size: int, s: int)
    requires size > 0 && Exists(size, s) && Row(size, s) < size
    ensures Exists(size, s + size) && Row(size, s + size) == Row(size, s) + 1 && Col(size, s + size) == Col(size, s)
  {
    RowColRoundTrip(size, s);
    var r, c := Row(size, s), Col(size, s);
    SqNumRoundTrip(size, r + 1, c);
    assert SqNum(size, r + 1, c) == s + size by {
      assert r * size == (r - 1) * size + size;
    }
  }

  /** Division with remainder has one answer. */
  lemma DivModUnique(a: int, size: int, q: int, m: int)
    requires size > 0 && 0 <= m < size && q >= 0 && a == q * size + m
    ensures a / size == q && a % size == m
  {
    var q', m' := a / size, a % size;
    assert (q - q') * size == m' - m;
    MulSmall(q - q', size);
  }

  /** The only multiple of SIZE strictly between -SIZE and SIZE is zero. */
  lemma MulSmall(k: int, size: int)
    requires size > 0 && -size < k * size < size
    ensures k == 0
  {
    if k >= 1 {
      MulMonotone(size, k, 1);
    } else if k <= -1 {
      MulMonotone(size, -k, 1);
    }
  }

  /** Every square number lies on the board and numbering it back gives it again. */
  lemma RowColRoundTrip(size: int, n: int)
    requires size > 0 && Exists(size, n)
    ensures ExistsRC(size, Row(size, n), Col(size, n))
    ensures SqNum(size, Row(size, n), Col(size, n)) == n
  {
    var q := n / size;
    var m := n % size;
    assert Quot(n, size) == q;
    assert Rem(n, size) == m by {
      assert n == size * q + m;
    }
    assert q < size by {
      if q >= size {
        MulMonotone(size, q, size);
      }
    }
  }

  /** An existing square has its row and column on the board. */
  lemma RowColInRange(size: int, n: int)
    requires size > 0
    ensures Exists(size, n) ==> ExistsRC(size, Row(size, n), Col(size, n))
  {
    if Exists(size, n) {
      RowColRoundTrip(size, n);
    }
  }

  /** The square at row R, column C: sqNum(R, C) is the only existing
      square there, and it exists when (R, C) does. */
  lemma SquareAt(size: int, r: int, c: int)
    requires size > 0
    ensures forall i :: Exists(size, i) && Row(size, i) == r && Col(size, i) == c ==> i == SqNum(size, r, c)
    ensures ExistsRC(size, r, c) ==>
      Exists(size, SqNum(size, r, c)) && Row(size, SqNum(size, r, c)) == r && Col(size, SqNum(size, r, c)) == c
  {
    forall i | Exists(size, i) && Row(size, i) == r && Col(size, i) == c
      ensures i == SqNum(size, r, c)
    {
      RowColRoundTrip(size, i);
    }
    if ExistsRC(size, r, c) {
      SqNumRoundTrip(size, r, c);
    }
  }

  /** Multiplying by a positive number keeps order. */
  lemma MulMonotone(a: int, x: int, y: int)
    requires a > 0 && x >= y
    ensures a * x >= a * y
  {
  }

  /** Every existing (row, column) has a square number that exists and maps back to it. */
  lemma SqNumRoundTrip(size: int, r: int, c: int)
    requires size > 0 && ExistsRC(size, r, c)
    ensures Exists(size, SqNum(size, r, c))
    ensures Row(size, SqNum(size, r, c)) == r && Col(size, SqNum(size, r, c)) == c
  {
    var s := SqNum(size, r, c);
    MulMonotone(size, size - 1, r - 1);
    assert (r - 1) * size <= size * size - size by {
      assert (r - 1) * size == size * (r - 1);
      assert size * (size - 1) == size * size - size;
    }
    DivModUnique(s, size, r - 1, c - 1);
  }

  /** The neighbour list holds exactly the adjacent squares of the board,
      each once, so neighbors(S) is the number of squares adjacent to S. */
  lemma NeighborListIsAdjacency(size: int, s: int)
    requires size > 0 && Exists(size, s)
    ensures forall m :: m in NeighborList(size, s) <==> Exists(size, m) && Adjacent(size, s, m)
    ensures forall i, j :: 0 <= i < j < |NeighborList(size, s)| ==> NeighborList(size, s)[i] != NeighborList(size, s)[j]
  {
    NeighborListSound(size, s);
    NeighborListComplete(size, s);
  }

  /** Every square in the neighbour list is adjacent to S. */
  lemma NeighborListSound(size: int, s: int)
    requires size > 0 && Exists(size, s)
    ensures forall m :: m in NeighborList(size, s) ==> Exists(size, m) && Adjacent(size, s, m)
  {
    NeighborSteps(size, s);
  }

  /** Every square adjacent to S is in the neighbour list. */
  lemma NeighborListComplete(size: int, s: int)
    requires size > 0 && Exists(size, s)
    ensures forall m :: Exists(size, m) && Adjacent(size, s, m) ==> m in NeighborList(size, s)
  {
    forall m | Exists(size, m) && Adjacent(size, s, m)
      ensures m in NeighborList(size, s)
    {
      AdjacentIsStep(size, s, m);
    }
  }

  /** An adjacent square is one step right, left, up or down. */
  lemma AdjacentIsStep(size: int, s: int, m: int)
    requires size > 0 && Exists(size, s) && Exists(size, m) && Adjacent(size, s, m)
    ensures || (Col(size, s) < size && m == s + 1)
            || (Col(size, s) > 1 && m == s - 1)
            || (Row(size, s) > 1 && m == s - size)
            || (Row(size, s) < size && m == s + size)
  {
    RowColRoundTrip(size, s);
    RowColRoundTrip(size, m);
    CoordinateStep(size, Row(size, s), Col(size, s), Row(size, m), Col(size, m));
  }

  /** Square numbers of orthogonally adjacent cells differ by 1 or by SIZE. */
  lemma CoordinateStep(size: int, r: int, c: int, rm: int, cm: int)
    requires size > 0 && ExistsRC(size, r, c) && ExistsRC(size, rm, cm)
    requires || (rm == r && (cm == c + 1 || cm == c - 1))
             || (cm == c && (rm == r + 1 || rm == r - 1))
    ensures var s, m := SqNum(size, r, c), SqNum(size, rm, cm);
            || (c < size && m == s + 1)
            || (c > 1 && m == s - 1)
            || (r > 1 && m == s - size)
            || (r < size && m == s + size)
  {
    if rm == r + 1 {
      assert (rm - 1) * size == (r - 1) * size + size;
    } else if rm == r - 1 {
      assert (rm - 1) * size == (r - 1) * size - size;
    }
  }

  /** A board of side at least 2 gives each square 2 neighbours at a
      corner, 3 on an edge and 4 inside. */
  lemma NeighborsByPosition(size: int, s: int)
    requires size >= 2 && Exists(size, s)
    ensures 2 <= Neighbors(size, s) <= 4
    ensures
      var r, c := Row(size, s), Col(size, s);
      Neighbors(size, s) == (if (r == 1 || r == size) && (c == 1 || c == size) then 2
                             else if r == 1 || r == size || c == 1 || c == size then 3
                             else 4)
  {
    RowColRoundTrip(size, s);
  }
}
