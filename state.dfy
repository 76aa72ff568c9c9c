/** PuzzleState: one configuration of the puzzle, with its board, the
    recorded empty cell and the cached heuristic.  The source copies the
    struct by value and mutates its copies in place (swapping tiles and
    refreshing the heuristic); here it is a class whose methods change its
    fields, with every result tied to the value functions of module Board
    and module CanonicalKey. */
module State {
  import opened Board
  import opened CanonicalKey

  /** The states ps hold the configurations cs, in order, each with its
      heuristic up to date. */
  ghost predicate Represents(ps: seq<PuzzleState>, cs: seq<Config>)
    reads ps
  {
    |ps| == |cs| &&
    (forall k :: 0 <= k < |ps| ==> ps[k].Position() == cs[k]) &&
    (forall k :: 0 <= k < |ps| ==> |ps[k].board| == Cells && ps[k].heuristic == Manhattan(ps[k].board))
  }

  /** Appending a state that holds c to states that hold cs gives states
      that hold cs + [c]. */
  lemma RepresentsSnoc(ps: seq<PuzzleState>, cs: seq<Config>, p: PuzzleState, c: Config)
    requires Represents(ps, cs)
    requires p.Position() == c && |p.board| == Cells && p.heuristic == Manhattan(p.board)
    ensures Represents(ps + [p], cs + [c])
  {
    var ps', cs' := ps + [p], cs + [c];
    assert forall k :: 0 <= k < |ps| ==> ps'[k] == ps[k] && cs'[k] == cs[k];
  }

  class PuzzleState {
    var board: seq<int>
    var emptyRow: int
    var emptyCol: int
    var heuristic: int

    /** The configuration this state holds. */
    function Position(): Config
      reads this
    {
      Config(board, emptyRow, emptyCol)
    }

    /** What the program keeps true of every state it builds: a permutation
        board, the 0 at the recorded cell and an up-to-date heuristic. */
    ghost predicate Valid()
      reads this
    {
      ValidConfig(Position()) && heuristic == Manhattan(board)
    }

    /** Builds a state and computes its heuristic. */
    constructor (b: seq<int>, r: int, c: int)
      requires |b| == Cells
      ensures Position() == Config(b, r, c)
      ensures heuristic == Manhattan(b)
    {
      board, emptyRow, emptyCol, heuristic := b, r, c, 0;
      new;
      CalculateAndSetHeuristic();
    }

    /** The member-wise copy made by `*this`. */
    constructor Copy(other: PuzzleState)
      ensures Position() == other.Position()
      ensures heuristic == other.heuristic
    {
      board, emptyRow, emptyCol, heuristic := other.board, other.emptyRow, other.emptyCol, other.heuristic;
    }

    /** Sums the Manhattan distances of all tiles into `heuristic`. */
    method CalculateAndSetHeuristic()
      requires |board| == Cells
      modifies this`heuristic
      ensures heuristic == Manhattan(board)
    {
      var b := board;
      var distance := 0;
      var i := 0;
      while i < N
        invariant 0 <= i <= N
        invariant distance == RowsDistance(b, i)
      {
        var j := 0;
        while j < N
          invariant 0 <= j <= N
          invariant distance == RowsDistance(b, i) + RowDistance(b, i, j)
        {
          var tile := b[Cell(i, j)];
          RowDistanceStep(b, i, j);
          if tile != 0 {
            var targetRow := TruncDiv(tile - 1, N);
            var targetCol := TruncRem(tile - 1, N);
            TileDistanceOfTile(i, j, tile);
            distance := distance + Abs(i - targetRow) + Abs(j - targetCol);
          }
          j := j + 1;
        }
        i := i + 1;
      }
      heuristic := distance;
    }

    /** The canonical key: every value in row-major order, each followed by
        a `,`. */
    method ToString() returns (state: string)
      requires |board| == Cells
      ensures state == Key(board)
    {
      CellIsLinear();
      state := "";
      var i := 0;
      while i < N
        invariant 0 <= i <= N
        invariant state == Key(board[..Cell(i, 0)])
      {
        var j := 0;
        while j < N
          invariant 0 <= j <= N
          invariant state == Key(board[..Cell(i, j)])
        {
          var p := Cell(i, j);
          KeyPrefixStep(board, p);
          state := state + IntToString(board[p]) + ",";
          j := j + 1;
        }
        i := i + 1;
      }
      assert board[..Cells] == board;
    }

    /** The positional goal test: tiles 1..8 in row-major order, then the
        empty cell in the bottom-right corner. */
    method IsGoal() returns (goal: bool)
      requires |board| == Cells
      ensures goal <==> board == GoalBoard
    {
      CellIsLinear();
      var k := 1;
      var i := 0;
      while i < N
        invariant 0 <= i <= N - 1
        invariant k == Cell(i, 0) + 1
        invariant forall p :: 0 <= p < Cell(i, 0) ==> board[p] == p + 1
      {
        var j := 0;
        while j < N
          invariant 0 <= j <= if i == N - 1 then N - 1 else N
          invariant k == Cell(i, j) + 1
          invariant forall p :: 0 <= p < Cell(i, j) ==> board[p] == p + 1
        {
          if i == N - 1 && j == N - 1 {
            // the last cell must be empty
            assert board == GoalBoard <==> board[..Cells - 1] == GoalBoard[..Cells - 1] && board[Cells - 1] == 0;
            return board[Cell(i, j)] == 0;
          }
          if board[Cell(i, j)] != k {
            assert board[Cell(i, j)] != GoalBoard[Cell(i, j)];
            return false;
          }
          k := k + 1;
          j := j + 1;
        }
        i := i + 1;
      }
      // the cell (N-1, N-1) always returns above
      assert false;
      return true;
    }

    /** Exchanges the contents of cells (r1, c1) and (r2, c2) and records
        (r2, c2) as the empty cell; the heuristic is left as it was. */
    method SwapTiles(r1: int, c1: int, r2: int, c2: int)
      requires |board| == Cells && InBounds(r1, c1) && InBounds(r2, c2)
      modifies this`board, this`emptyRow, this`emptyCol
      ensures board == Swapped(old(board), Cell(r1, c1), Cell(r2, c2))
      ensures emptyRow == r2 && emptyCol == c2
    {
      var p, q := Cell(r1, c1), Cell(r2, c2);
      board := board[p := board[q]][q := board[p]];
      emptyRow := r2;
      emptyCol := c2;
    }

    /** A fresh copy of this state with the empty cell slid to (r, c) and the
        heuristic recomputed. */
    method MoveEmptyTo(r: int, c: int) returns (newState: PuzzleState)
      requires WellFormed(Position()) && InBounds(r, c)
      ensures fresh(newState)
      ensures newState.Position() == Slide(Position(), r, c)
      ensures |newState.board| == Cells && newState.heuristic == Manhattan(newState.board)
    {
      newState := new PuzzleState.Copy(this);
      newState.SwapTiles(emptyRow, emptyCol, r, c);
      newState.CalculateAndSetHeuristic();
    }

    /** The body of the loop over directions: when moving the empty cell in
        direction d stays on the grid, appends the resulting state. */
    method AddMoveInDirection(d: int, moves: seq<PuzzleState>) returns (moves': seq<PuzzleState>)
      requires WellFormed(Position()) && 0 <= d < |Directions|
      requires Represents(moves, SuccessorsUpTo(Position(), d))
      ensures Represents(moves', SuccessorsUpTo(Position(), d + 1))
      ensures forall k :: 0 <= k < |moves'| ==> moves'[k] in moves || fresh(moves'[k])
    {
      moves' := moves;
      var (dr, dc) := Directions[d];
      var newRow, newCol := emptyRow + dr, emptyCol + dc;
      SuccessorsUpToNext(Position(), d);
      if newRow >= 0 && newRow < N && newCol >= 0 && newCol < N {
        var newState := MoveEmptyTo(newRow, newCol);
        RepresentsSnoc(moves, SuccessorsUpTo(Position(), d), newState, Slide(Position(), newRow, newCol));
        moves' := moves + [newState];
      }
    }

    /** One fresh state per direction (up, down, left, right) in which the
        empty cell can move without leaving the grid, each with its
        heuristic recomputed.  This state itself is not changed. */
    method GenerateMoves() returns (moves: seq<PuzzleState>)
      requires WellFormed(Position())
      ensures forall k :: 0 <= k < |moves| ==> fresh(moves[k])
      ensures Represents(moves, Successors(Position()))
    {
      moves := [];
      var d := 0;
      while d < |Directions|
        invariant 0 <= d <= |Directions|
        invariant forall k :: 0 <= k < |moves| ==> fresh(moves[k])
        invariant Represents(moves, SuccessorsUpTo(Position(), d))
      {
        moves := AddMoveInDirection(d, moves);
        d := d + 1;
      }
    }
  }
}
