/** A sliding-puzzle board: an n-by-n grid of integers in which 0 is the blank.
    A board is never changed after it is built; every operation that "moves" a
    tile returns a new board. Each scan over the grid (hamming(), manhattan(),
    isGoal(), equals(), neighbors(), twin()) is a method proved equal to a
    closed-form specification function. */
module Boards {

  /** tiles[row][col] is the tile at (row, col); 0 is the blank. */
  type Board = seq<seq<int>>

  // ---------------------------------------------------------------------------
  // Well-formedness (never checked by the code; callers guarantee it)
  // ---------------------------------------------------------------------------

  predicate IsSquare(t: Board) {
    forall r :: 0 <= r < |t| ==> |t[r]| == |t|
  }

  /** dimension(): the board side length n, which the loops below scan up to:
      on a square board every one of the n rows holds n cells, and a valid
      board has at least two. */
  function Dimension(t: Board): (n: nat)
    ensures IsSquare(t) ==> forall r :: 0 <= r < |t| ==> |t[r]| == n
    ensures ValidBoard(t) ==> n >= 2
  {
    |t|
  }

  /** (br, bc) is the one and only blank cell of t. */
  ghost predicate IsBlankAt(t: Board, br: int, bc: int)
    requires IsSquare(t)
  {
    && 0 <= br < |t| && 0 <= bc < |t| && t[br][bc] == 0
    && forall r, c :: 0 <= r < |t| && 0 <= c < |t| && t[r][c] == 0 ==> r == br && c == bc
  }

  ghost predicate HasSingleBlank(t: Board)
    requires IsSquare(t)
  {
    exists br, bc :: IsBlankAt(t, br, bc)
  }

  ghost predicate InRange(t: Board)
    requires IsSquare(t)
  {
    forall r, c :: 0 <= r < |t| && 0 <= c < |t| ==> 0 <= t[r][c] < |t| * |t|
  }

  ghost predicate Distinct(t: Board)
    requires IsSquare(t)
  {
    forall r1, c1, r2, c2 ::
      0 <= r1 < |t| && 0 <= c1 < |t| && 0 <= r2 < |t| && 0 <= c2 < |t| && (r1 != r2 || c1 != c2)
      ==> t[r1][c1] != t[r2][c2]
  }

  /** A valid board: n >= 2, square, exactly one blank, and n*n distinct values
      drawn from 0 .. n*n-1 (that is, a permutation of them). */
  ghost predicate ValidBoard(t: Board) {
    |t| >= 2 && IsSquare(t) && InRange(t) && Distinct(t) && HasSingleBlank(t)
  }

  /** The blank cell of a board with exactly one blank. */
  ghost function Blank(t: Board): (p: (int, int))
    requires IsSquare(t) && HasSingleBlank(t)
    ensures IsBlankAt(t, p.0, p.1)
  {
    var br, bc :| IsBlankAt(t, br, bc); (br, bc)
  }

  // ---------------------------------------------------------------------------
  // swap: the copy-and-exchange primitive behind neighbors and twin
  // ---------------------------------------------------------------------------

  /** A new board with cells (r1, c1) and (r2, c2) exchanged; t itself is a value
      and so is untouched. */
  function Swap(t: Board, r1: int, c1: int, r2: int, c2: int): (s: Board)
    requires IsSquare(t)
    requires 0 <= r1 < |t| && 0 <= c1 < |t| && 0 <= r2 < |t| && 0 <= c2 < |t|
    ensures IsSquare(s) && |s| == |t|
    ensures s[r1][c1] == t[r2][c2] && s[r2][c2] == t[r1][c1]
    ensures forall r, c :: 0 <= r < |t| && 0 <= c < |t| && (r != r1 || c != c1) && (r != r2 || c != c2)
              ==> s[r][c] == t[r][c]
  {
    var a, b := t[r1][c1], t[r2][c2];
    var t1 := t[r1 := t[r1][c1 := b]];
    t1[r2 := t1[r2][c2 := a]]
  }

  /** Exchanging the same two cells again gives back the original board. */
  lemma SwapTwice(t: Board, r1: int, c1: int, r2: int, c2: int)
    requires IsSquare(t)
    requires 0 <= r1 < |t| && 0 <= c1 < |t| && 0 <= r2 < |t| && 0 <= c2 < |t|
    ensures Swap(Swap(t, r1, c1, r2, c2), r2, c2, r1, c1) == t
  {
    var s := Swap(Swap(t, r1, c1, r2, c2), r2, c2, r1, c1);
    forall r | 0 <= r < |t|
      ensures s[r] == t[r]
    {
      assert forall c :: 0 <= c < |t| ==> s[r][c] == t[r][c];
    }
  }

  /** The cell whose value lands on (r, c) when (r1, c1) and (r2, c2) are exchanged. */
  function Partner(r: int, c: int, r1: int, c1: int, r2: int, c2: int): (int, int) {
    if r == r1 && c == c1 then (r2, c2)
    else if r == r2 && c == c2 then (r1, c1)
    else (r, c)
  }

  /** Each cell of a swapped board holds the value of its partner cell, and
      distinct cells have distinct partners. */
  lemma SwapCell(t: Board, r1: int, c1: int, r2: int, c2: int, r: int, c: int)
    requires IsSquare(t)
    requires 0 <= r1 < |t| && 0 <= c1 < |t| && 0 <= r2 < |t| && 0 <= c2 < |t|
    requires 0 <= r < |t| && 0 <= c < |t|
    ensures var p := Partner(r, c, r1, c1, r2, c2);
            0 <= p.0 < |t| && 0 <= p.1 < |t| && Swap(t, r1, c1, r2, c2)[r][c] == t[p.0][p.1]
    ensures Partner(Partner(r, c, r1, c1, r2, c2).0, Partner(r, c, r1, c1, r2, c2).1, r1, c1, r2, c2) == (r, c)
  {
  }

  /** Exchanging two cells of a valid board gives a valid board: the cells are
      only permuted, so the range, the distinctness and the single blank survive. */
  lemma SwapKeepsValid(t: Board, r1: int, c1: int, r2: int, c2: int)
    requires ValidBoard(t)
    requires 0 <= r1 < |t| && 0 <= c1 < |t| && 0 <= r2 < |t| && 0 <= c2 < |t|
    ensures ValidBoard(Swap(t, r1, c1, r2, c2))
  {
    SwapKeepsRange(t, r1, c1, r2, c2);
    SwapKeepsDistinct(t, r1, c1, r2, c2);
    SwapKeepsSingleBlank(t, r1, c1, r2, c2);
  }

  lemma SwapKeepsRange(t: Board, r1: int, c1: int, r2: int, c2: int)
    requires IsSquare(t) && InRange(t)
    requires 0 <= r1 < |t| && 0 <= c1 < |t| && 0 <= r2 < |t| && 0 <= c2 < |t|
    ensures InRange(Swap(t, r1, c1, r2, c2))
  {
    var s := Swap(t, r1, c1, r2, c2);
    forall r, c | 0 <= r < |t| && 0 <= c < |t|
      ensures 0 <= s[r][c] < |t| * |t|
    {
      SwapCell(t, r1, c1, r2, c2, r, c);
    }
  }

  lemma SwapKeepsDistinct(t: Board, r1: int, c1: int, r2: int, c2: int)
    requires IsSquare(t) && Distinct(t)
    requires 0 <= r1 < |t| && 0 <= c1 < |t| && 0 <= r2 < |t| && 0 <= c2 < |t|
    ensures Distinct(Swap(t, r1, c1, r2, c2))
  {
    var s := Swap(t, r1, c1, r2, c2);
    forall r, c, r', c' | 0 <= r < |t| && 0 <= c < |t| && 0 <= r' < |t| && 0 <= c' < |t| && (r != r' || c != c')
      ensures s[r][c] != s[r'][c']
    {
      SwapCell(t, r1, c1, r2, c2, r, c);
      SwapCell(t, r1, c1, r2, c2, r', c');
      var p, q := Partner(r, c, r1, c1, r2, c2), Partner(r', c', r1, c1, r2, c2);
      assert p.0 != q.0 || p.1 != q.1;
    }
  }

  lemma SwapKeepsSingleBlank(t: Board, r1: int, c1: int, r2: int, c2: int)
    requires IsSquare(t) && HasSingleBlank(t)
    requires 0 <= r1 < |t| && 0 <= c1 < |t| && 0 <= r2 < |t| && 0 <= c2 < |t|
    ensures HasSingleBlank(Swap(t, r1, c1, r2, c2))
  {
    var s := Swap(t, r1, c1, r2, c2);
    var b := Blank(t);
    var p := Partner(b.0, b.1, r1, c1, r2, c2);
    SwapCell(t, r1, c1, r2, c2, b.0, b.1);
    SwapCell(t, r1, c1, r2, c2, p.0, p.1);
    forall r, c | 0 <= r < |t| && 0 <= c < |t| && s[r][c] == 0
      ensures r == p.0 && c == p.1
    {
      SwapCell(t, r1, c1, r2, c2, r, c);
    }
    assert IsBlankAt(s, p.0, p.1);
  }

  // ---------------------------------------------------------------------------
  // hamming and manhattan: sums of a per-cell cost over the grid
  // ---------------------------------------------------------------------------

  datatype Measure = Misplacement | Distance

  /** Goal row of tile v: Math.floor((v - 1) / n). For n > 0 Dafny's division
      rounds down as well. */
  function GoalRow(v: int, n: int): int
    requires n > 0
  {
    (v - 1) / n
  }

  /** Goal column of tile v: (v - 1) % n with JavaScript's remainder, which takes
      the sign of the dividend (Dafny's % never returns a negative value). */
  function GoalCol(v: int, n: int): int
    requires n > 0
  {
    TruncRem(v - 1, n)
  }

  function TruncRem(a: int, n: int): int
    requires n > 0
  {
    if a >= 0 then a % n else -((-a) % n)
  }

  function Abs(x: int): nat {
    if x < 0 then -x else x
  }

  /** What a single cell adds to hamming (1 when it holds a tile other than the
      one that belongs there) or to manhattan (the tile's grid distance to its
      goal cell). The blank adds nothing to either. */
  function CellCost(m: Measure, t: Board, r: int, c: int): nat
    requires IsSquare(t) && 0 <= r < |t| && 0 <= c < |t|
  {
    var v, n := t[r][c], |t|;
    match m
    case Misplacement => if v != r * n + c + 1 && v != 0 then 1 else 0
    case Distance => if v != 0 then Abs(r - GoalRow(v, n)) + Abs(c - GoalCol(v, n)) else 0
  }

  /** Sum of the costs of cells (r, 0) .. (r, c-1). */
  function RowTotal(m: Measure, t: Board, r: int, c: int): nat
    requires IsSquare(t) && 0 <= r < |t| && 0 <= c <= |t|
  {
    if c == 0 then 0 else RowTotal(m, t, r, c - 1) + CellCost(m, t, r, c - 1)
  }

  /** Sum of the costs of all cells in rows 0 .. r-1. */
  function GridTotal(m: Measure, t: Board, r: int): nat
    requires IsSquare(t) && 0 <= r <= |t|
  {
    if r == 0 then 0 else GridTotal(m, t, r - 1) + RowTotal(m, t, r - 1, |t|)
  }

  /** Number of tiles out of place. */
  function Hamming(t: Board): nat
    requires IsSquare(t)
  {
    GridTotal(Misplacement, t, |t|)
  }

  /** Sum of the Manhattan distances between tiles and their goal cells. */
  function Manhattan(t: Board): nat
    requires IsSquare(t)
  {
    GridTotal(Distance, t, |t|)
  }

  method ComputeHamming(t: Board) returns (distance: nat)
    requires IsSquare(t)
    ensures distance == Hamming(t)
  {
    var n: int := Dimension(t);
    distance := 0;
    var row := 0;
    while row < n
      invariant 0 <= row <= n
      invariant distance == GridTotal(Misplacement, t, row)
    {
      var col := 0;
      while col < n
        invariant 0 <= col <= n
        invariant distance == GridTotal(Misplacement, t, row) + RowTotal(Misplacement, t, row, col)
      {
        if t[row][col] != row * n + col + 1 && t[row][col] != 0 {
          distance := distance + 1;
        }
        col := col + 1;
      }
      row := row + 1;
    }
  }

  method ComputeManhattan(t: Board) returns (distance: nat)
    requires IsSquare(t)
    ensures distance == Manhattan(t)
  {
    var n: int := Dimension(t);
    distance := 0;
    var row := 0;
    while row < n
      invariant 0 <= row <= n
      invariant distance == GridTotal(Distance, t, row)
    {
      var col := 0;
      while col < n
        invariant 0 <= col <= n
        invariant distance == GridTotal(Distance, t, row) + RowTotal(Distance, t, row, col)
      {
        if t[row][col] != 0 {
          var goalRow := (t[row][col] - 1) / n;
          var goalCol := TruncRem(t[row][col] - 1, n);
          distance := distance + Abs(row - goalRow) + Abs(col - goalCol);
        }
        col := col + 1;
      }
      row := row + 1;
    }
  }

  lemma {:induction false} RowTotalZeroIff(m: Measure, t: Board, r: int, c: int)
    requires IsSquare(t) && 0 <= r < |t| && 0 <= c <= |t|
    ensures RowTotal(m, t, r, c) == 0 <==> forall j :: 0 <= j < c ==> CellCost(m, t, r, j) == 0
  {
    if c > 0 {
      RowTotalZeroIff(m, t, r, c - 1);
    }
  }

  /** A total over the grid is zero exactly when every cell costs nothing. */
  lemma {:induction false} GridTotalZeroIff(m: Measure, t: Board, r: int)
    requires IsSquare(t) && 0 <= r <= |t|
    ensures GridTotal(m, t, r) == 0 <==>
              forall i, j :: 0 <= i < r && 0 <= j < |t| ==> CellCost(m, t, i, j) == 0
  {
    if r > 0 {
      GridTotalZeroIff(m, t, r - 1);
      RowTotalZeroIff(m, t, r - 1, |t|);
    }
  }

  /** Every cell holds the blank or its own tile row*n+col+1. */
  ghost predicate AllInPlace(t: Board)
    requires IsSquare(t)
  {
    forall r, c :: 0 <= r < |t| && 0 <= c < |t| ==> t[r][c] == 0 || t[r][c] == r * |t| + c + 1
  }

  /** hamming() is 0 exactly when every cell holds the blank or its own tile. */
  lemma HammingZeroIff(t: Board)
    requires IsSquare(t)
    ensures Hamming(t) == 0 <==> AllInPlace(t)
  {
    GridTotalZeroIff(Misplacement, t, |t|);
    forall r, c | 0 <= r < |t| && 0 <= c < |t|
      ensures CellCost(Misplacement, t, r, c) == 0 <==> t[r][c] == 0 || t[r][c] == r * |t| + c + 1
    {
    }
  }

  /** manhattan() is 0 exactly when every tile v sits at row (v-1)/n, column (v-1)%n. */
  lemma ManhattanZeroIff(t: Board)
    requires IsSquare(t)
    ensures Manhattan(t) == 0 <==>
              forall r, c :: 0 <= r < |t| && 0 <= c < |t| && t[r][c] != 0 ==>
                GoalRow(t[r][c], |t|) == r && GoalCol(t[r][c], |t|) == c
  {
    GridTotalZeroIff(Distance, t, |t|);
    forall r, c | 0 <= r < |t| && 0 <= c < |t|
      ensures CellCost(Distance, t, r, c) == 0 <==>
                (t[r][c] != 0 ==> GoalRow(t[r][c], |t|) == r && GoalCol(t[r][c], |t|) == c)
    {
    }
  }

  /** A misplaced tile is at least one step away from its goal cell. The proof
      uses no assumption about the tile's value. */
  lemma MisplacedTileHasDistance(t: Board, r: int, c: int)
    requires IsSquare(t) && 0 <= r < |t| && 0 <= c < |t|
    ensures CellCost(Misplacement, t, r, c) <= CellCost(Distance, t, r, c)
  {
    var v, n := t[r][c], |t|;
    if v != 0 && v != r * n + c + 1 && GoalRow(v, n) == r {
      // the goal row is r >= 0, so v - 1 >= 0 and the column is (v-1) % n, which is not c
      assert v - 1 == n * r + (v - 1) % n;
      assert GoalCol(v, n) == (v - 1) % n;
    }
  }

  lemma {:induction false} RowTotalDominated(t: Board, r: int, c: int)
    requires IsSquare(t) && 0 <= r < |t| && 0 <= c <= |t|
    ensures RowTotal(Misplacement, t, r, c) <= RowTotal(Distance, t, r, c)
  {
    if c > 0 {
      RowTotalDominated(t, r, c - 1);
      MisplacedTileHasDistance(t, r, c - 1);
    }
  }

  lemma {:induction false} GridTotalDominated(t: Board, r: int)
    requires IsSquare(t) && 0 <= r <= |t|
    ensures GridTotal(Misplacement, t, r) <= GridTotal(Distance, t, r)
  {
    if r > 0 {
      GridTotalDominated(t, r - 1);
      RowTotalDominated(t, r - 1, |t|);
    }
  }

  /** manhattan() >= hamming() on every square board. */
  lemma ManhattanAtLeastHamming(t: Board)
    requires IsSquare(t)
    ensures Hamming(t) <= Manhattan(t)
  {
    GridTotalDominated(t, |t|);
  }

  lemma {:induction false} RowMisplacedBound(t: Board, r: int, c: int, br: int, bc: int)
    requires IsSquare(t) && 0 <= r < |t| && 0 <= c <= |t|
    requires 0 <= br < |t| && 0 <= bc < |t| && t[br][bc] == 0
    ensures RowTotal(Misplacement, t, r, c) + (if r == br && bc < c then 1 else 0) <= c
  {
    if c > 0 {
      RowMisplacedBound(t, r, c - 1, br, bc);
    }
  }

  lemma {:induction false} GridMisplacedBound(t: Board, r: int, br: int, bc: int)
    requires IsSquare(t) && 0 <= r <= |t|
    requires 0 <= br < |t| && 0 <= bc < |t| && t[br][bc] == 0
    ensures GridTotal(Misplacement, t, r) + (if br < r then 1 else 0) <= r * |t|
  {
    if r > 0 {
      GridMisplacedBound(t, r - 1, br, bc);
      RowMisplacedBound(t, r - 1, |t|, br, bc);
      assert (r - 1) * |t| + |t| == r * |t|;
    }
  }

  /** The blank is never counted, so a board with a blank has hamming() <= n*n - 1. */
  lemma HammingBound(t: Board, br: int, bc: int)
    requires IsSquare(t) && 0 <= br < |t| && 0 <= bc < |t| && t[br][bc] == 0
    ensures Hamming(t) <= |t| * |t| - 1
  {
    GridMisplacedBound(t, |t|, br, bc);
  }

  // ---------------------------------------------------------------------------
  // isGoal and equals
  // ---------------------------------------------------------------------------

  /** Every cell other than the bottom-right one holds row*n+col+1. */
  predicate IsGoal(t: Board)
    requires IsSquare(t)
  {
    forall r, c :: 0 <= r < |t| && 0 <= c < |t| && (r != |t| - 1 || c != |t| - 1) ==>
      t[r][c] == r * |t| + c + 1
  }

  method CheckGoal(t: Board) returns (goal: bool)
    requires IsSquare(t)
    ensures goal <==> IsGoal(t)
  {
    var n: int := Dimension(t);
    var row := 0;
    while row < n
      invariant 0 <= row <= n
      invariant forall r, c :: 0 <= r < row && 0 <= c < n && (r != n - 1 || c != n - 1) ==> t[r][c] == r * n + c + 1
    {
      var col := 0;
      while col < n
        invariant 0 <= col <= n
        invariant forall r, c :: 0 <= r < row && 0 <= c < n && (r != n - 1 || c != n - 1) ==> t[r][c] == r * n + c + 1
        invariant forall c :: 0 <= c < col && (row != n - 1 || c != n - 1) ==> t[row][c] == row * n + c + 1
      {
        if t[row][col] != row * n + col + 1 && (row != n - 1 || col != n - 1) {
          return false;
        }
        col := col + 1;
      }
      row := row + 1;
    }
    return true;
  }

  /** On a board whose values lie in 0 .. n*n-1 and which has exactly one blank,
      isGoal() holds exactly when hamming() is 0. */
  lemma GoalIffHammingZero(t: Board)
    requires IsSquare(t) && InRange(t) && HasSingleBlank(t)
    ensures IsGoal(t) <==> Hamming(t) == 0
  {
    HammingZeroIff(t);
    if IsGoal(t) {
      GoalIsInPlace(t);
    }
    if AllInPlace(t) {
      InPlaceIsGoal(t);
    }
  }

  /** Tile row*n+col+1 has (row, col) as its goal cell. */
  lemma GoalCellOfOwnTile(n: int, r: int, c: int)
    requires n > 0 && 0 <= r && 0 <= c < n
    ensures GoalRow(r * n + c + 1, n) == r && GoalCol(r * n + c + 1, n) == c
  {
    var m := r * n + c;
    var q, s := m / n, m % n;
    assert m == q * n + s && 0 <= s < n;
    assert (r - q) * n == s - c;
    MultipleOfAtLeast(r - q, n);
  }

  /** A non-zero multiple of n is at least n away from 0. */
  lemma MultipleOfAtLeast(k: int, n: int)
    requires n > 0
    ensures k >= 1 ==> k * n >= n
    ensures k <= -1 ==> k * n <= -n
  {
    assert k * n - n == (k - 1) * n;
    assert k * n + n == (k + 1) * n;
  }

  /** On a board whose values lie in 0 .. n*n-1 and which has exactly one blank,
      isGoal() holds exactly when manhattan() is 0. */
  lemma GoalIffManhattanZero(t: Board)
    requires IsSquare(t) && InRange(t) && HasSingleBlank(t)
    ensures IsGoal(t) <==> Manhattan(t) == 0
  {
    GoalIffHammingZero(t);
    ManhattanAtLeastHamming(t);
    ManhattanZeroIff(t);
    if IsGoal(t) {
      GoalIsInPlace(t);
      var n := |t|;
      forall r, c | 0 <= r < n && 0 <= c < n && t[r][c] != 0
        ensures GoalRow(t[r][c], n) == r && GoalCol(t[r][c], n) == c
      {
        GoalCellOfOwnTile(n, r, c);
      }
    }
  }

  /** On a goal board the blank can only be the bottom-right cell. */
  lemma GoalIsInPlace(t: Board)
    requires IsSquare(t) && HasSingleBlank(t) && IsGoal(t)
    ensures AllInPlace(t)
  {
    var n, b := |t|, Blank(t);
    assert b.0 * n + b.1 + 1 > 0;
    assert b.0 == n - 1 && b.1 == n - 1;
  }

  /** If every cell is the blank or its own tile, the bottom-right cell cannot
      hold its own tile n*n (out of range), so it is the blank and every other
      cell holds its tile. */
  lemma InPlaceIsGoal(t: Board)
    requires IsSquare(t) && InRange(t) && HasSingleBlank(t) && AllInPlace(t)
    ensures IsGoal(t)
  {
    var n, b := |t|, Blank(t);
    assert (n - 1) * n + (n - 1) + 1 == n * n;
    assert t[n - 1][n - 1] == 0;
    assert b.0 == n - 1 && b.1 == n - 1;
  }

  method CheckEquals(a: Board, b: Board) returns (eq: bool)
    requires IsSquare(a) && IsSquare(b)
    ensures eq <==> a == b
  {
    if Dimension(a) != Dimension(b) {
      return false;
    }
    var n: int := Dimension(a);
    var row := 0;
    while row < n
      invariant 0 <= row <= n
      invariant forall r :: 0 <= r < row ==> a[r] == b[r]
    {
      var col := 0;
      while col < n
        invariant 0 <= col <= n
        invariant forall c :: 0 <= c < col ==> a[row][c] == b[row][c]
      {
        if a[row][col] != b[row][col] {
          return false;
        }
        col := col + 1;
      }
      assert a[row] == b[row];
      row := row + 1;
    }
    return true;
  }

  // ---------------------------------------------------------------------------
  // neighbors
  // ---------------------------------------------------------------------------

  /** The boards reached by sliding a tile into the blank at (br, bc): the cell
      above, below, left and right of it, in that order, when inside the grid. */
  function NeighborsAt(t: Board, br: int, bc: int): (nbs: seq<Board>)
    requires IsSquare(t) && 0 <= br < |t| && 0 <= bc < |t|
    ensures |nbs| <= 4
    ensures |t| >= 2 ==> 2 <= |nbs|
  {
    var n := |t|;
    (if br > 0 then [Swap(t, br, bc, br - 1, bc)] else [])
    + (if br < n - 1 then [Swap(t, br, bc, br + 1, bc)] else [])
    + (if bc > 0 then [Swap(t, br, bc, br, bc - 1)] else [])
    + (if bc < n - 1 then [Swap(t, br, bc, br, bc + 1)] else [])
  }

  ghost function Neighbors(t: Board): seq<Board>
    requires IsSquare(t) && HasSingleBlank(t)
  {
    NeighborsAt(t, Blank(t).0, Blank(t).1)
  }

  /** b is a with its blank exchanged with an orthogonally adjacent cell: the
      reference definition of a legal move. */
  ghost predicate IsMove(a: Board, b: Board) {
    && IsSquare(a)
    && exists br, bc, r, c ::
         && 0 <= br < |a| && 0 <= bc < |a| && 0 <= r < |a| && 0 <= c < |a|
         && a[br][bc] == 0 && Abs(br - r) + Abs(bc - c) == 1
         && b == Swap(a, br, bc, r, c)
  }

  /** The blank-finding scan at the start of neighbors(): row by row, leaving a
      row at its first blank. The break leaves only the column loop, so later
      rows are still scanned; with a single blank they find nothing. */
  method LocateBlank(t: Board) returns (blankRow: int, blankCol: int)
    requires IsSquare(t) && HasSingleBlank(t)
    ensures (blankRow, blankCol) == Blank(t)
  {
    var n: int := Dimension(t);
    blankRow, blankCol := -1, -1;
    var row := 0;
    while row < n
      invariant 0 <= row <= n
      invariant blankRow == -1 ==> forall r, c :: 0 <= r < row && 0 <= c < n ==> t[r][c] != 0
      invariant blankRow != -1 ==> 0 <= blankRow < row && 0 <= blankCol < n && t[blankRow][blankCol] == 0
    {
      var col := 0;
      while col < n
        invariant 0 <= col <= n
        invariant blankRow == -1 ==> forall r, c :: 0 <= r < row && 0 <= c < n ==> t[r][c] != 0
        invariant blankRow != -1 ==> 0 <= blankRow < row && 0 <= blankCol < n && t[blankRow][blankCol] == 0
        invariant forall c :: 0 <= c < col ==> t[row][c] != 0
      {
        if t[row][col] == 0 {
          blankRow, blankCol := row, col;
          break;
        }
        col := col + 1;
      }
      row := row + 1;
    }
    var p := Blank(t);
    assert t[p.0][p.1] == 0;
    assert blankRow == p.0 && blankCol == p.1;
  }

  /** neighbors(): the boards one slide away, built by exchanging the blank with
      the cell above, below, left and right of it in that order. */
  method ComputeNeighbors(t: Board) returns (nbs: seq<Board>)
    requires IsSquare(t) && HasSingleBlank(t)
    ensures nbs == Neighbors(t)
  {
    var n: int := Dimension(t);
    var blankRow, blankCol := LocateBlank(t);
    nbs := [];
    if blankRow > 0 {
      nbs := nbs + [Swap(t, blankRow, blankCol, blankRow - 1, blankCol)];
    }
    if blankRow < n - 1 {
      nbs := nbs + [Swap(t, blankRow, blankCol, blankRow + 1, blankCol)];
    }
    if blankCol > 0 {
      nbs := nbs + [Swap(t, blankRow, blankCol, blankRow, blankCol - 1)];
    }
    if blankCol < n - 1 {
      nbs := nbs + [Swap(t, blankRow, blankCol, blankRow, blankCol + 1)];
    }
  }

  /** neighbors() lists exactly the legal moves, and each of them is again a
      valid board (so it still has exactly one blank). */
  lemma NeighborsAreMoves(t: Board)
    requires ValidBoard(t)
    ensures forall b :: b in Neighbors(t) <==> IsMove(t, b)
    ensures forall b :: b in Neighbors(t) ==> ValidBoard(b)
  {
    forall b | b in Neighbors(t)
      ensures IsMove(t, b) && ValidBoard(b)
    {
      NeighborIsMove(t, b);
    }
    forall b | IsMove(t, b)
      ensures b in Neighbors(t)
    {
      MoveIsNeighbor(t, b);
    }
  }

  lemma NeighborIsMove(t: Board, b: Board)
    requires ValidBoard(t) && b in Neighbors(t)
    ensures IsMove(t, b) && ValidBoard(b)
  {
    var p := Blank(t);
    var r, c := NeighborAtIsSwap(t, p.0, p.1, b);
    SwapKeepsValid(t, p.0, p.1, r, c);
  }

  /** Every board NeighborsAt lists for (br, bc) exchanges that cell with an
      adjacent one. */
  lemma NeighborAtIsSwap(t: Board, br: int, bc: int, b: Board) returns (r: int, c: int)
    requires IsSquare(t) && 0 <= br < |t| && 0 <= bc < |t| && b in NeighborsAt(t, br, bc)
    ensures 0 <= r < |t| && 0 <= c < |t| && Abs(br - r) + Abs(bc - c) == 1
    ensures b == Swap(t, br, bc, r, c)
  {
    var n := |t|;
    if br > 0 && b == Swap(t, br, bc, br - 1, bc) {
      r, c := br - 1, bc;
    } else if br < n - 1 && b == Swap(t, br, bc, br + 1, bc) {
      r, c := br + 1, bc;
    } else if bc > 0 && b == Swap(t, br, bc, br, bc - 1) {
      r, c := br, bc - 1;
    } else {
      r, c := br, bc + 1;
    }
  }

  lemma MoveIsNeighbor(t: Board, b: Board)
    requires IsSquare(t) && HasSingleBlank(t) && IsMove(t, b)
    ensures b in Neighbors(t)
  {
    var n, p := |t|, Blank(t);
    var br, bc, r, c :| 0 <= br < n && 0 <= bc < n && 0 <= r < n && 0 <= c < n
      && t[br][bc] == 0 && Abs(br - r) + Abs(bc - c) == 1 && b == Swap(t, br, bc, r, c);
    assert br == p.0 && bc == p.1;
    SwapIsNeighborAt(t, br, bc, r, c);
  }

  /** Exchanging the cell (br, bc) with an adjacent cell gives one of the boards
      NeighborsAt lists for (br, bc). */
  lemma SwapIsNeighborAt(t: Board, br: int, bc: int, r: int, c: int)
    requires IsSquare(t) && 0 <= br < |t| && 0 <= bc < |t| && 0 <= r < |t| && 0 <= c < |t|
    requires Abs(br - r) + Abs(bc - c) == 1
    ensures Swap(t, br, bc, r, c) in NeighborsAt(t, br, bc)
  {
    var n := |t|;
    if r == br - 1 {
      assert c == bc;
    } else if r == br + 1 {
      assert c == bc;
    } else if c == bc - 1 {
      assert r == br;
    } else {
      assert r == br && c == bc + 1;
    }
  }

  /** A legal move can be undone by a legal move. */
  lemma MoveIsSymmetric(a: Board, b: Board)
    requires IsMove(a, b)
    ensures IsMove(b, a)
  {
    var br, bc, r, c :| 0 <= br < |a| && 0 <= bc < |a| && 0 <= r < |a| && 0 <= c < |a|
      && a[br][bc] == 0 && Abs(br - r) + Abs(bc - c) == 1 && b == Swap(a, br, bc, r, c);
    SwapTwice(a, br, bc, r, c);
    assert b[r][c] == 0 && Abs(r - br) + Abs(c - bc) == 1 && a == Swap(b, r, c, br, bc);
  }

  /** Neighbours are mutual: if b is a neighbour of a valid board a, then b is
      valid and a is a neighbour of b. */
  lemma NeighborsAreMutual(a: Board, b: Board)
    requires ValidBoard(a) && b in Neighbors(a)
    ensures ValidBoard(b) && a in Neighbors(b)
  {
    NeighborsAreMoves(a);
    MoveIsSymmetric(a, b);
    NeighborsAreMoves(b);
  }

  /** Sliding two different tiles into the blank gives two different boards:
      the first leaves the blank where the first tile was, the second does not. */
  lemma SlidesDiffer(t: Board, br: int, bc: int, r1: int, c1: int, r2: int, c2: int)
    requires IsSquare(t) && IsBlankAt(t, br, bc)
    requires 0 <= r1 < |t| && 0 <= c1 < |t| && 0 <= r2 < |t| && 0 <= c2 < |t|
    requires (r1 != br || c1 != bc) && (r1 != r2 || c1 != c2)
    ensures Swap(t, br, bc, r1, c1) != Swap(t, br, bc, r2, c2)
  {
    assert Swap(t, br, bc, r1, c1)[r1][c1] == 0;
    assert Swap(t, br, bc, r2, c2)[r1][c1] == t[r1][c1] != 0;
  }

  /** A valid board has at least two neighbours, and the first two differ. */
  lemma FirstNeighborsDiffer(t: Board)
    requires ValidBoard(t)
    ensures |Neighbors(t)| >= 2 && Neighbors(t)[0] != Neighbors(t)[1]
  {
    var n := |t|;
    var (br, bc) := Blank(t);
    var nbs := Neighbors(t);
    var side := if bc > 0 then bc - 1 else bc + 1;
    if 0 < br < n - 1 {
      assert nbs[0] == Swap(t, br, bc, br - 1, bc) && nbs[1] == Swap(t, br, bc, br + 1, bc);
      SlidesDiffer(t, br, bc, br - 1, bc, br + 1, bc);
    } else if br > 0 {
      assert nbs[0] == Swap(t, br, bc, br - 1, bc) && nbs[1] == Swap(t, br, bc, br, side);
      SlidesDiffer(t, br, bc, br - 1, bc, br, side);
    } else {
      assert nbs[0] == Swap(t, br, bc, br + 1, bc) && nbs[1] == Swap(t, br, bc, br, side);
      SlidesDiffer(t, br, bc, br + 1, bc, br, side);
    }
  }

  // ---------------------------------------------------------------------------
  // twin
  // ---------------------------------------------------------------------------

  predicate RowHasNonBlank(row: seq<int>) {
    exists j :: 0 <= j < |row| && row[j] != 0
  }

  /** Column of the first non-blank cell of a row. */
  function FirstNonBlank(row: seq<int>): (k: nat)
    requires RowHasNonBlank(row)
    ensures k < |row| && row[k] != 0
    ensures forall j :: 0 <= j < k ==> row[j] == 0
  {
    if row[0] != 0 then 0
    else
      var j :| 0 <= j < |row| && row[j] != 0;
      assert row[1..][j - 1] != 0;
      1 + FirstNonBlank(row[1..])
  }

  /** What twin() needs to find its two cells: at least two rows, and a
      non-blank cell in the first row and in the last row. */
  predicate HasTwinPair(t: Board) {
    |t| >= 2 && IsSquare(t) && RowHasNonBlank(t[0]) && RowHasNonBlank(t[|t| - 1])
  }

  /** What twin() returns. The `break` in its scan leaves only the column loop,
      so the second cell is overwritten once per later row: the first non-blank
      cell of row 0 is exchanged with the first non-blank cell of the LAST row. */
  function Twin(t: Board): Board
    requires HasTwinPair(t)
  {
    Swap(t, 0, FirstNonBlank(t[0]), |t| - 1, FirstNonBlank(t[|t| - 1]))
  }

  method ComputeTwin(t: Board) returns (tw: Board)
    requires HasTwinPair(t)
    ensures tw == Twin(t)
  {
    var n: int := Dimension(t);
    var firstRow, firstCol, secondRow, secondCol := -1, -1, -1, -1;
    var row := 0;
    while row < n
      invariant 0 <= row <= n
      invariant row == 0 ==> firstRow == -1
      invariant row >= 1 ==> firstRow == 0 && firstCol == FirstNonBlank(t[0])
      invariant row >= 2 && RowHasNonBlank(t[row - 1]) ==>
                  secondRow == row - 1 && secondCol == FirstNonBlank(t[row - 1])
    {
      var col := 0;
      while col < n
        invariant 0 <= col <= n
        invariant row == 0 && firstRow == -1 ==> forall j :: 0 <= j < col ==> t[0][j] == 0
        invariant row == 0 && firstRow != -1 ==> firstRow == 0 && firstCol == FirstNonBlank(t[0]) && firstCol < col
        invariant row >= 1 ==> firstRow == 0 && firstCol == FirstNonBlank(t[0])
        invariant row >= 1 ==> forall j :: 0 <= j < col ==> t[row][j] == 0
      {
        if t[row][col] != 0 && firstRow == -1 {
          firstRow, firstCol := row, col;
        } else if t[row][col] != 0 && firstRow != -1 {
          secondRow, secondCol := row, col;
          break;
        }
        col := col + 1;
      }
      row := row + 1;
    }
    tw := Swap(t, firstRow, firstCol, secondRow, secondCol);
  }

  /** A valid board always has the two cells twin() looks for. */
  lemma ValidBoardHasTwinPair(t: Board)
    requires ValidBoard(t)
    ensures HasTwinPair(t)
  {
    var n := |t|;
    var br, bc := Blank(t).0, Blank(t).1;
    if t[0][0] == 0 {
      assert t[0][1] != 0;
    } else {
      assert t[0][0] != 0;
    }
    if t[n - 1][0] == 0 {
      assert t[n - 1][1] != 0;
    } else {
      assert t[n - 1][0] != 0;
    }
  }

  /** twin() of a valid board exchanges two non-blank tiles, the first non-blank
      cell of row 0 and the first non-blank cell of row n-1, and changes no other
      cell; the blank does not move and the result is again a valid board. */
  lemma TwinExchangesTwoTiles(t: Board)
    requires ValidBoard(t)
    ensures HasTwinPair(t)
    ensures var n, c0, c1 := |t|, FirstNonBlank(t[0]), FirstNonBlank(t[|t| - 1]);
            var tw := Twin(t);
            && t[0][c0] != 0 && t[n - 1][c1] != 0
            && tw[0][c0] == t[n - 1][c1] && tw[n - 1][c1] == t[0][c0]
            && forall r, c :: 0 <= r < n && 0 <= c < n ==>
                 (tw[r][c] != t[r][c] <==> (r == 0 && c == c0) || (r == n - 1 && c == c1))
    ensures ValidBoard(Twin(t)) && Blank(Twin(t)) == Blank(t)
  {
    ValidBoardHasTwinPair(t);
    var n := |t|;
    var c0, c1 := FirstNonBlank(t[0]), FirstNonBlank(t[n - 1]);
    assert t[0][c0] != t[n - 1][c1];
    SwapKeepsValid(t, 0, c0, n - 1, c1);
    var tw := Twin(t);
    var p := Blank(t);
    assert tw[p.0][p.1] == 0;
    assert IsBlankAt(tw, p.0, p.1);
  }
}
