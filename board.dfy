/** The 8-puzzle board as values: a 3x3 grid stored row-major in a sequence of
    nine cells, 0 standing for the empty cell.  Everything a PuzzleState
    computes about its board is specified here: the Manhattan-distance
    heuristic, the goal configuration, the tile swap and the successors of a
    configuration in the order up, down, left, right. */
module Board {

  /** Side length of the grid and number of cells. */
  const N: int := 3
  const Cells: int := 9

  /** A board together with the recorded position of its empty cell. */
  datatype Config = Config(board: seq<int>, emptyRow: int, emptyCol: int)

  predicate InBounds(r: int, c: int) {
    0 <= r < N && 0 <= c < N
  }

  /** Index of cell (r, c) in the row-major sequence. */
  function Cell(r: int, c: int): int {
    r * N + c
  }

  /** With the side length fixed, a cell index is linear in row and column. */
  lemma CellIsLinear()
    ensures forall r, c :: Cell(r, c) == 3 * r + c
  {
  }

  /** A configuration whose shape lets every operation index the board. */
  predicate WellFormed(c: Config) {
    |c.board| == Cells && InBounds(c.emptyRow, c.emptyCol)
  }

  /** The nine cells hold 0..8, each exactly once. */
  predicate IsPermBoard(b: seq<int>) {
    |b| == Cells &&
    (forall p :: 0 <= p < |b| ==> 0 <= b[p] < Cells) &&
    (forall p, q :: 0 <= p < q < |b| ==> b[p] != b[q])
  }

  /** A permutation board whose 0 sits where the configuration says. */
  predicate ValidConfig(c: Config) {
    WellFormed(c) && IsPermBoard(c.board) && c.board[Cell(c.emptyRow, c.emptyCol)] == 0
  }

  /** Tiles 1..8 in row-major order, the empty cell last. */
  const GoalBoard: seq<int> := [1, 2, 3, 4, 5, 6, 7, 8, 0]

  // ---------------------------------------------------------------------
  // Heuristic

  function Abs(x: int): int {
    if x < 0 then -x else x
  }

  /** Integer division rounding toward zero, as C++ `/` does (d > 0). */
  function TruncDiv(a: int, d: int): int
    requires d > 0
  {
    if a >= 0 then a / d else -((-a) / d)
  }

  /** The remainder that goes with TruncDiv, as C++ `%` does (d > 0). */
  function TruncRem(a: int, d: int): int
    requires d > 0
  {
    if a >= 0 then a % d else -((-a) % d)
  }

  /** The C++ identity between quotient and remainder: the remainder takes
      the sign of the dividend and is smaller than the divisor. */
  lemma TruncDivRem(a: int, d: int)
    requires d > 0
    ensures a == d * TruncDiv(a, d) + TruncRem(a, d)
    ensures -d < TruncRem(a, d) < d && (a >= 0 ==> TruncRem(a, d) >= 0) && (a <= 0 ==> TruncRem(a, d) <= 0)
  {
  }

  /** Distance contributed by value v standing in cell (i, j): none for the
      empty cell, otherwise the Manhattan distance to row (v-1)/N, column
      (v-1)%N, with C++ division. */
  function TileDistance(i: int, j: int, v: int): (d: int)
    ensures d >= 0
  {
    if v == 0 then 0
    else Abs(i - TruncDiv(v - 1, N)) + Abs(j - TruncRem(v - 1, N))
  }

  /** A tile's distance is its row offset plus its column offset. */
  lemma TileDistanceOfTile(i: int, j: int, v: int)
    requires v != 0
    ensures TileDistance(i, j, v) == Abs(i - TruncDiv(v - 1, N)) + Abs(j - TruncRem(v - 1, N))
  {
  }

  /** Distance accumulated over the first m cells of row i. */
  function RowDistance(b: seq<int>, i: int, m: int): (d: int)
    requires 0 <= i < N && 0 <= m <= N && |b| == Cells
    ensures d >= 0
  {
    if m == 0 then 0 else RowDistance(b, i, m - 1) + TileDistance(i, m - 1, b[Cell(i, m - 1)])
  }

  /** Distance accumulated over the first n rows. */
  function RowsDistance(b: seq<int>, n: int): (d: int)
    requires 0 <= n <= N && |b| == Cells
    ensures d >= 0
  {
    if n == 0 then 0 else RowsDistance(b, n - 1) + RowDistance(b, n - 1, N)
  }

  /** The heuristic of a board: the sum of the distances of all its tiles. */
  function Manhattan(b: seq<int>): (h: int)
    requires |b| == Cells
    ensures h >= 0
  {
    RowsDistance(b, N)
  }

  /** Cell (i, j) adds its tile's distance to the row's running sum. */
  lemma RowDistanceStep(b: seq<int>, i: int, j: int)
    requires 0 <= i < N && 0 <= j < N && |b| == Cells
    ensures RowDistance(b, i, j + 1) == RowDistance(b, i, j) + TileDistance(i, j, b[Cell(i, j)])
  {
  }

  lemma {:induction false} RowDistanceZero(b: seq<int>, i: int, m: int)
    requires 0 <= i < N && 0 <= m <= N && |b| == Cells
    ensures RowDistance(b, i, m) == 0 <==>
            forall j :: 0 <= j < m ==> TileDistance(i, j, b[Cell(i, j)]) == 0
  {
    if m > 0 {
      RowDistanceZero(b, i, m - 1);
    }
  }

  lemma {:induction false} RowsDistanceZero(b: seq<int>, n: int)
    requires 0 <= n <= N && |b| == Cells
    ensures RowsDistance(b, n) == 0 <==>
            forall i, j :: 0 <= i < n && 0 <= j < N ==> TileDistance(i, j, b[Cell(i, j)]) == 0
  {
    if n > 0 {
      RowsDistanceZero(b, n - 1);
      RowDistanceZero(b, n - 1, N);
    }
  }

  /** The heuristic vanishes exactly when no tile is away from its goal cell. */
  lemma HeuristicZeroIff(b: seq<int>)
    requires |b| == Cells
    ensures Manhattan(b) == 0 <==>
            forall i, j :: InBounds(i, j) ==> TileDistance(i, j, b[Cell(i, j)]) == 0
  {
    RowsDistanceZero(b, N);
  }

  /** A tile of value 1..8 is at distance 0 exactly in cell v-1. */
  lemma TileDistanceZeroIff(i: int, j: int, v: int)
    requires InBounds(i, j) && 0 < v < Cells
    ensures TileDistance(i, j, v) == 0 <==> v == Cell(i, j) + 1
  {
    assert TruncDiv(v - 1, N) == (v - 1) / 3;
    assert TruncRem(v - 1, N) == (v - 1) % 3;
  }

  /** The heuristic of the goal board is 0. */
  lemma GoalHeuristicZero()
    ensures Manhattan(GoalBoard) == 0
  {
    forall i, j | InBounds(i, j)
      ensures TileDistance(i, j, GoalBoard[Cell(i, j)]) == 0
    {
      var p := Cell(i, j);
      assert p == 8 || GoalBoard[p] == p + 1;
      if p < 8 {
        TileDistanceZeroIff(i, j, p + 1);
      }
    }
    HeuristicZeroIff(GoalBoard);
  }

  /** With a zero heuristic, every tile stands in its own goal cell. */
  lemma ZeroHeuristicTilesHome(b: seq<int>)
    requires |b| == Cells && forall p :: 0 <= p < Cells ==> 0 <= b[p] < Cells
    requires Manhattan(b) == 0
    ensures forall p :: 0 <= p < Cells && b[p] != 0 ==> b[p] == p + 1
  {
    HeuristicZeroIff(b);
    forall p | 0 <= p < Cells && b[p] != 0
      ensures b[p] == p + 1
    {
      var i, j := p / 3, p % 3;
      assert Cell(i, j) == p;
      TileDistanceZeroIff(i, j, b[p]);
    }
  }

  /** A permutation board whose tiles all stand in their goal cells is the
      goal board. */
  lemma TilesHomeIsGoal(b: seq<int>)
    requires IsPermBoard(b)
    requires forall p :: 0 <= p < Cells && b[p] != 0 ==> b[p] == p + 1
    ensures b == GoalBoard
  {
    // the last cell cannot hold a tile (it would have to be 9), and no
    // other cell can then hold the one 0
    assert b[Cells - 1] == 0;
    forall p | 0 <= p < Cells
      ensures b[p] == GoalBoard[p]
    {
      if p < Cells - 1 {
        assert b[p] != b[Cells - 1];
      }
    }
  }

  /** On a permutation board the positional goal test and a zero heuristic
      agree. */
  lemma GoalIffZeroHeuristic(b: seq<int>)
    requires IsPermBoard(b)
    ensures b == GoalBoard <==> Manhattan(b) == 0
  {
    if b == GoalBoard {
      GoalHeuristicZero();
    }
    if Manhattan(b) == 0 {
      ZeroHeuristicTilesHome(b);
      TilesHomeIsGoal(b);
    }
  }

  // ---------------------------------------------------------------------
  // Swapping two cells

  /** The board with the contents of cells p and q exchanged. */
  function Swapped(b: seq<int>, p: int, q: int): seq<int>
    requires 0 <= p < |b| && 0 <= q < |b|
  {
    b[p := b[q]][q := b[p]]
  }

  /** Swapping exchanges exactly the two cells and keeps the multiset of
      values, so a permutation board stays one. */
  lemma SwapPreservesPermutation(b: seq<int>, p: int, q: int)
    requires 0 <= p < |b| && 0 <= q < |b|
    ensures |Swapped(b, p, q)| == |b|
    ensures Swapped(b, p, q)[p] == b[q] && Swapped(b, p, q)[q] == b[p]
    ensures forall k :: 0 <= k < |b| && k != p && k != q ==> Swapped(b, p, q)[k] == b[k]
    ensures multiset(Swapped(b, p, q)) == multiset(b)
    ensures IsPermBoard(b) ==> IsPermBoard(Swapped(b, p, q))
  {
    var s := Swapped(b, p, q);
    if IsPermBoard(b) {
      forall x, y | 0 <= x < y < |s|
        ensures s[x] != s[y]
      {
        var x', y' := if x == p then q else if x == q then p else x,
                      if y == p then q else if y == q then p else y;
        assert s[x] == b[x'] && s[y] == b[y'];
        assert x' != y';
      }
    }
  }

  // ---------------------------------------------------------------------
  // Successors

  /** Row and column offsets of the moves, in the order they are tried:
      up, down, left, right. */
  const Directions: seq<(int, int)> := [(-1, 0), (1, 0), (0, -1), (0, 1)]

  /** The configuration reached by moving the empty cell to (r, c). */
  function Slide(c: Config, r: int, col: int): Config
    requires WellFormed(c) && InBounds(r, col)
  {
    Config(Swapped(c.board, Cell(c.emptyRow, c.emptyCol), Cell(r, col)), r, col)
  }

  /** The successors obtained from the first n directions. */
  function SuccessorsUpTo(c: Config, n: int): (r: seq<Config>)
    requires WellFormed(c) && 0 <= n <= |Directions|
    ensures |r| <= n
    ensures forall k :: 0 <= k < |r| ==> WellFormed(r[k])
  {
    if n == 0 then []
    else
      var r, col := c.emptyRow + Directions[n - 1].0, c.emptyCol + Directions[n - 1].1;
      SuccessorsUpTo(c, n - 1) + (if InBounds(r, col) then [Slide(c, r, col)] else [])
  }

  /** Trying direction d adds its slide when it stays on the grid. */
  lemma SuccessorsUpToNext(c: Config, d: int)
    requires WellFormed(c) && 0 <= d < |Directions|
    ensures SuccessorsUpTo(c, d + 1) == SuccessorsUpTo(c, d) +
      (if InBounds(c.emptyRow + Directions[d].0, c.emptyCol + Directions[d].1)
       then [Slide(c, c.emptyRow + Directions[d].0, c.emptyCol + Directions[d].1)] else [])
  {
  }

  /** All successors of a configuration, in direction order. */
  function Successors(c: Config): (r: seq<Config>)
    requires WellFormed(c)
    ensures forall k :: 0 <= k < |r| ==> WellFormed(r[k])
  {
    SuccessorsUpTo(c, |Directions|)
  }

  predicate IsCorner(r: int, c: int) {
    (r == 0 || r == N - 1) && (c == 0 || c == N - 1)
  }

  predicate IsCentre(r: int, c: int) {
    r == 1 && c == 1
  }

  /** Two successors in a corner, four in the centre, three on an edge. */
  lemma SuccessorCount(c: Config)
    requires WellFormed(c)
    ensures |Successors(c)| ==
            if IsCorner(c.emptyRow, c.emptyCol) then 2
            else if IsCentre(c.emptyRow, c.emptyCol) then 4
            else 3
  {
    var r, col := c.emptyRow, c.emptyCol;
    assert |SuccessorsUpTo(c, 1)| == if r > 0 then 1 else 0;
    assert |SuccessorsUpTo(c, 2)| == |SuccessorsUpTo(c, 1)| + if r < N - 1 then 1 else 0;
    assert |SuccessorsUpTo(c, 3)| == |SuccessorsUpTo(c, 2)| + if col > 0 then 1 else 0;
    assert |SuccessorsUpTo(c, 4)| == |SuccessorsUpTo(c, 3)| + if col < N - 1 then 1 else 0;
  }

  /** Which of the four directions leads from c to the empty position of s. */
  function DirectionOf(c: Config, s: Config): int {
    var d := (s.emptyRow - c.emptyRow, s.emptyCol - c.emptyCol);
    if d == Directions[0] then 0
    else if d == Directions[1] then 1
    else if d == Directions[2] then 2
    else 3
  }

  /** s is what c becomes when its empty cell moves in direction d. */
  predicate SlidesIn(c: Config, s: Config, d: int)
    requires WellFormed(c)
  {
    0 <= d < |Directions| &&
    var r, col := c.emptyRow + Directions[d].0, c.emptyCol + Directions[d].1;
    InBounds(r, col) && s == Slide(c, r, col)
  }

  lemma DirectionOfSlide(c: Config, s: Config, d: int)
    requires WellFormed(c) && SlidesIn(c, s, d)
    ensures DirectionOf(c, s) == d
  {
  }

  /** Every configuration of rs slides the empty cell of c in one of the
      first n directions, and they appear in direction order. */
  ghost predicate SlidesInOrder(c: Config, rs: seq<Config>, n: int)
    requires WellFormed(c)
  {
    (forall k :: 0 <= k < |rs| ==> DirectionOf(c, rs[k]) < n && SlidesIn(c, rs[k], DirectionOf(c, rs[k]))) &&
    (forall k, l :: 0 <= k < l < |rs| ==> DirectionOf(c, rs[k]) < DirectionOf(c, rs[l]))
  }

  /** Appending the slide in direction n - 1 to slides in the first n - 1
      directions keeps them in order. */
  lemma SlidesInOrderSnoc(c: Config, prev: seq<Config>, s: Config, n: int)
    requires WellFormed(c) && 0 < n <= |Directions|
    requires SlidesInOrder(c, prev, n - 1) && SlidesIn(c, s, n - 1)
    ensures SlidesInOrder(c, prev + [s], n)
  {
    var rs := prev + [s];
    DirectionOfSlide(c, s, n - 1);
    forall k | 0 <= k < |rs|
      ensures DirectionOf(c, rs[k]) < n && SlidesIn(c, rs[k], DirectionOf(c, rs[k]))
    {
      if k < |prev| {
        assert rs[k] == prev[k];
      }
    }
    forall k, l | 0 <= k < l < |rs|
      ensures DirectionOf(c, rs[k]) < DirectionOf(c, rs[l])
    {
      assert rs[k] == prev[k];
      if l < |prev| {
        assert rs[l] == prev[l];
      }
    }
  }

  /** Slides in order among the first n - 1 directions are in order among
      the first n. */
  lemma SlidesInOrderWiden(c: Config, rs: seq<Config>, n: int)
    requires WellFormed(c) && SlidesInOrder(c, rs, n - 1)
    ensures SlidesInOrder(c, rs, n)
  {
  }

  /** Trying direction n - 1 after the first n - 1 keeps the successors in
      order. */
  lemma SuccessorsUpToStep(c: Config, n: int)
    requires WellFormed(c) && 0 < n <= |Directions|
    requires SlidesInOrder(c, SuccessorsUpTo(c, n - 1), n - 1)
    ensures SlidesInOrder(c, SuccessorsUpTo(c, n), n)
  {
    var prev := SuccessorsUpTo(c, n - 1);
    var r, col := c.emptyRow + Directions[n - 1].0, c.emptyCol + Directions[n - 1].1;
    if InBounds(r, col) {
      var s := Slide(c, r, col);
      assert SuccessorsUpTo(c, n) == prev + [s];
      SlidesInOrderSnoc(c, prev, s, n);
    } else {
      assert SuccessorsUpTo(c, n) == prev;
      SlidesInOrderWiden(c, prev, n);
    }
  }

  /** Every successor from the first n directions slides the empty cell in
      one of those directions, and they appear in direction order. */
  lemma {:induction false} SuccessorsUpToShape(c: Config, n: int)
    requires WellFormed(c) && 0 <= n <= |Directions|
    ensures SlidesInOrder(c, SuccessorsUpTo(c, n), n)
  {
    if n > 0 {
      SuccessorsUpToShape(c, n - 1);
      SuccessorsUpToStep(c, n);
    }
  }

  /** Each successor swaps the empty cell with an orthogonal neighbour and
      records the neighbour as the new empty position. */
  lemma SuccessorIsSlide(c: Config, k: int)
    requires WellFormed(c) && 0 <= k < |Successors(c)|
    ensures var s := Successors(c)[k];
            InBounds(s.emptyRow, s.emptyCol) &&
            Abs(s.emptyRow - c.emptyRow) + Abs(s.emptyCol - c.emptyCol) == 1 &&
            s == Slide(c, s.emptyRow, s.emptyCol)
  {
    SuccessorsUpToShape(c, |Directions|);
    var s := Successors(c)[k];
    assert SlidesIn(c, s, DirectionOf(c, s));
  }

  /** Successors come in the order up, down, left, right: each one slides
      the empty cell in the direction DirectionOf names, and those directions
      strictly increase. */
  lemma SuccessorsInOrder(c: Config)
    requires WellFormed(c)
    ensures forall k :: 0 <= k < |Successors(c)| ==>
              SlidesIn(c, Successors(c)[k], DirectionOf(c, Successors(c)[k]))
    ensures forall k, l :: 0 <= k < l < |Successors(c)| ==>
              DirectionOf(c, Successors(c)[k]) < DirectionOf(c, Successors(c)[l])
  {
    SuccessorsUpToShape(c, |Directions|);
  }

  lemma {:induction false} SuccessorsUpToComplete(c: Config, n: int, d: int)
    requires WellFormed(c) && 0 <= d < n <= |Directions|
    requires InBounds(c.emptyRow + Directions[d].0, c.emptyCol + Directions[d].1)
    ensures Slide(c, c.emptyRow + Directions[d].0, c.emptyCol + Directions[d].1) in SuccessorsUpTo(c, n)
  {
    if d < n - 1 {
      SuccessorsUpToComplete(c, n - 1, d);
    }
  }

  /** Every direction that stays on the grid contributes its successor. */
  lemma SuccessorsComplete(c: Config, d: int)
    requires WellFormed(c) && 0 <= d < |Directions|
    requires InBounds(c.emptyRow + Directions[d].0, c.emptyCol + Directions[d].1)
    ensures Slide(c, c.emptyRow + Directions[d].0, c.emptyCol + Directions[d].1) in Successors(c)
  {
    SuccessorsUpToComplete(c, |Directions|, d);
  }

  /** A slide of the empty cell keeps a valid configuration valid: the board
      stays a permutation and the 0 moves to the recorded position. */
  lemma SlideValid(c: Config, r: int, col: int)
    requires ValidConfig(c) && InBounds(r, col)
    ensures ValidConfig(Slide(c, r, col))
    ensures Slide(c, r, col).board[Cell(c.emptyRow, c.emptyCol)] == c.board[Cell(r, col)]
  {
    SwapPreservesPermutation(c.board, Cell(c.emptyRow, c.emptyCol), Cell(r, col));
  }

  /** All successors of a valid configuration are valid. */
  lemma SuccessorsValid(c: Config)
    requires ValidConfig(c)
    ensures forall s :: s in Successors(c) ==> ValidConfig(s)
  {
    forall s | s in Successors(c)
      ensures ValidConfig(s)
    {
      var k :| 0 <= k < |Successors(c)| && Successors(c)[k] == s;
      SuccessorIsSlide(c, k);
      SlideValid(c, s.emptyRow, s.emptyCol);
    }
  }

  /** A successor of a valid configuration has a different board: the 0
      now stands where a tile stood. */
  lemma SuccessorBoardDiffers(c: Config, k: int)
    requires ValidConfig(c) && 0 <= k < |Successors(c)|
    ensures Successors(c)[k].board != c.board
  {
    var n := Successors(c)[k];
    SuccessorIsSlide(c, k);
    SlideValid(c, n.emptyRow, n.emptyCol);
    CellIsLinear();
    assert c.board[Cell(n.emptyRow, n.emptyCol)] != c.board[Cell(c.emptyRow, c.emptyCol)];
  }
}
