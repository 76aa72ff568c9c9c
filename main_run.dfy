/** The search from the program's own input, the board
        1 2 3
        4 _ 6
        7 5 8
    with the empty cell in the centre.  Every run from it is the same: two
    improving moves, down and then right, reach the goal, and no random
    choice is ever made.  The board is described cell by cell (predicate
    InputBoard) and the boards of the run are named by the slides that
    produce them. */
module MainRun {
  import opened Board
  import opened CanonicalKey
  import opened State
  import opened HillClimbing

  const B0: seq<int> := [1, 2, 3, 4, 0, 6, 7, 5, 8]

  /** b holds, cell by cell, the board of the program's input. */
  predicate InputBoard(b: seq<int>) {
    |b| == Cells &&
    b[0] == 1 && b[1] == 2 && b[2] == 3 &&
    b[3] == 4 && b[4] == 0 && b[5] == 6 &&
    b[6] == 7 && b[7] == 5 && b[8] == 8
  }

  /** InputBoard describes B0 and nothing else. */
  lemma InputBoardIsB0(b: seq<int>)
    ensures InputBoard(b) <==> b == B0
  {
    if InputBoard(b) {
      assert forall p :: 0 <= p < Cells ==> b[p] == B0[p];
    }
  }

  /** The boards of the run: after moving the empty cell down (1, 1) -> (2, 1),
      then right (2, 1) -> (2, 2). */
  function Down(b: seq<int>): seq<int>
    requires |b| == Cells
  {
    Swapped(b, 4, 7)
  }

  function DownRight(b: seq<int>): seq<int>
    requires |b| == Cells
  {
    Swapped(Down(b), 7, 8)
  }

  /** The snapshots of the run. */
  function S0(b: seq<int>): Search {
    Start(Config(b, 1, 1))
  }

  function S1(b: seq<int>): Search
    requires |b| == Cells
  {
    Search(Config(Down(b), 2, 1), {Key(b), Key(Down(b))}, 0)
  }

  function S2(b: seq<int>): Search
    requires |b| == Cells
  {
    Search(Config(DownRight(b), 2, 2), {Key(b), Key(Down(b)), Key(DownRight(b))}, 0)
  }

  /** A row's distance is the sum of its three cells' distances. */
  lemma RowDistanceCells(b: seq<int>, i: int)
    requires 0 <= i < N && |b| == Cells
    ensures RowDistance(b, i, N) ==
      TileDistance(i, 0, b[3 * i]) + TileDistance(i, 1, b[3 * i + 1]) + TileDistance(i, 2, b[3 * i + 2])
  {
    CellIsLinear();
    assert RowDistance(b, i, 1) == TileDistance(i, 0, b[Cell(i, 0)]);
    assert RowDistance(b, i, 2) == RowDistance(b, i, 1) + TileDistance(i, 1, b[Cell(i, 1)]);
  }

  /** The heuristic is the sum of the nine cells' distances. */
  lemma ManhattanCells(b: seq<int>)
    requires |b| == Cells
    ensures Manhattan(b) ==
      TileDistance(0, 0, b[0]) + TileDistance(0, 1, b[1]) + TileDistance(0, 2, b[2]) +
      TileDistance(1, 0, b[3]) + TileDistance(1, 1, b[4]) + TileDistance(1, 2, b[5]) +
      TileDistance(2, 0, b[6]) + TileDistance(2, 1, b[7]) + TileDistance(2, 2, b[8])
  {
    RowDistanceCells(b, 0);
    RowDistanceCells(b, 1);
    RowDistanceCells(b, 2);
    assert RowsDistance(b, 1) == RowDistance(b, 0, N);
    assert RowsDistance(b, 2) == RowsDistance(b, 1) + RowDistance(b, 1, N);
  }

  // ---------------------------------------------------------------------
  // The first iteration

  /** The input is a valid configuration and not the goal. */
  lemma InputValid(b: seq<int>)
    requires InputBoard(b)
    ensures ValidConfig(Config(b, 1, 1)) && b != GoalBoard
  {
    assert b[8] != GoalBoard[8];
  }

  /** The four successors of the input, up, down, left and right. */
  lemma InputSuccessors(b: seq<int>)
    requires InputBoard(b)
    ensures Successors(Config(b, 1, 1)) ==
      [Config(Swapped(b, 4, 1), 0, 1), Config(Down(b), 2, 1),
       Config(Swapped(b, 4, 3), 1, 0), Config(Swapped(b, 4, 5), 1, 2)]
  {
    var c := Config(b, 1, 1);
    SuccessorsUpToNext(c, 0);
    SuccessorsUpToNext(c, 1);
    SuccessorsUpToNext(c, 2);
    SuccessorsUpToNext(c, 3);
  }

  /** The heuristics of the input and of its four successors. */
  lemma InputHeuristics(b: seq<int>)
    requires InputBoard(b)
    ensures Manhattan(b) == 2 && Manhattan(Down(b)) == 1
    ensures Manhattan(Swapped(b, 4, 1)) == 3 && Manhattan(Swapped(b, 4, 3)) == 3
    ensures Manhattan(Swapped(b, 4, 5)) == 3
  {
    ManhattanCells(b);
    ManhattanCells(Down(b));
    ManhattanCells(Swapped(b, 4, 1));
    ManhattanCells(Swapped(b, 4, 3));
    ManhattanCells(Swapped(b, 4, 5));
  }

  /** The first iteration has exactly one outcome: the improving move down,
      from heuristic 2 to heuristic 1. */
  lemma FirstMove(b: seq<int>)
    requires InputBoard(b)
    ensures forall t :: Step(S0(b), t) <==> t == S1(b)
  {
    var c := Config(b, 1, 1);
    InputValid(b);
    StartCandidates(c);
    InputSuccessors(b);
    InputHeuristics(b);
    UniqueBestMove(S0(b), Successors(c), 1);
  }

  // ---------------------------------------------------------------------
  // The second iteration

  /** Sliding back up undoes the move down. */
  lemma DownUndone(b: seq<int>)
    requires |b| == Cells
    ensures Swapped(Down(b), 7, 4) == b
  {
    assert forall p :: 0 <= p < Cells ==> Swapped(Down(b), 7, 4)[p] == b[p];
  }

  /** The three successors after the move down: back up, left and right. */
  lemma AfterDownSuccessors(b: seq<int>)
    requires InputBoard(b)
    ensures Successors(Config(Down(b), 2, 1)) ==
      [Config(b, 1, 1), Config(Swapped(Down(b), 7, 6), 2, 0), Config(DownRight(b), 2, 2)]
  {
    var c := Config(Down(b), 2, 1);
    SuccessorsUpToNext(c, 0);
    SuccessorsUpToNext(c, 1);
    SuccessorsUpToNext(c, 2);
    SuccessorsUpToNext(c, 3);
    DownUndone(b);
  }

  /** A board that differs from x and from y has neither key. */
  lemma KeyNotInPair(z: seq<int>, x: seq<int>, y: seq<int>)
    requires z != x && z != y
    ensures Key(z) !in {Key(x), Key(y)}
  {
    KeyInjective(z, x);
    KeyInjective(z, y);
  }

  /** After the move down, the way back up has been visited and the other
      two successors have not. */
  lemma AfterDownCandidates(b: seq<int>)
    requires InputBoard(b)
    ensures Candidates(S1(b)) == [Config(Swapped(Down(b), 7, 6), 2, 0), Config(DownRight(b), 2, 2)]
  {
    var left := Swapped(Down(b), 7, 6);
    assert left[6] != b[6] && left[6] != Down(b)[6];
    KeyNotInPair(left, b, Down(b));
    assert DownRight(b)[8] != b[8] && DownRight(b)[8] != Down(b)[8];
    KeyNotInPair(DownRight(b), b, Down(b));
    AfterDownSuccessors(b);
    CandidatesDropFirst(S1(b), Config(b, 1, 1), Config(left, 2, 0), Config(DownRight(b), 2, 2));
  }

  /** From a snapshot whose three successors are x, y and z, of which only
      x has been visited, the candidates are y and z. */
  lemma CandidatesDropFirst(s: Search, x: Config, y: Config, z: Config)
    requires WellFormed(s.cur) && Successors(s.cur) == [x, y, z]
    requires Key(x.board) in s.visited && Key(y.board) !in s.visited && Key(z.board) !in s.visited
    ensures Candidates(s) == [y, z]
  {
    var v := s.visited;
    assert [x, y, z][..2] == [x, y] && [x, y][..1] == [x] && [x][..0] == [];
    assert Unvisited([x], v) == [];
    assert Unvisited([x, y], v) == [y];
  }

  /** The heuristics of the second iteration's boards. */
  lemma AfterDownHeuristics(b: seq<int>)
    requires InputBoard(b)
    ensures Manhattan(Swapped(Down(b), 7, 6)) == 2 && Manhattan(DownRight(b)) == 0
  {
    ManhattanCells(Swapped(Down(b), 7, 6));
    ManhattanCells(DownRight(b));
  }

  /** The second iteration has exactly one outcome: the improving move
      right, from heuristic 1 to heuristic 0. */
  lemma SecondMove(b: seq<int>)
    requires InputBoard(b)
    ensures forall t :: Step(S1(b), t) <==> t == S2(b)
  {
    assert Down(b)[7] != GoalBoard[7];
    InputHeuristics(b);
    AfterDownHeuristics(b);
    AfterDownCandidates(b);
    UniqueBestMove(S1(b), Candidates(S1(b)), 1);
  }

  /** After the second move the board is the goal. */
  lemma DownRightIsGoal(b: seq<int>)
    requires InputBoard(b)
    ensures DownRight(b) == GoalBoard
  {
    assert forall p :: 0 <= p < Cells ==> DownRight(b)[p] == GoalBoard[p];
  }

  // ---------------------------------------------------------------------
  // The whole run

  /** Neither snapshot before the goal ends the loop. */
  lemma NotStoppedBeforeGoal(b: seq<int>)
    requires InputBoard(b)
    ensures !Stops(S0(b)) && !Stops(S1(b))
  {
    FirstMove(b);
    SecondMove(b);
    StepMeansNotStopped(S0(b), S1(b));
    StepMeansNotStopped(S1(b), S2(b));
  }

  /** A snapshot at the goal ends the loop and has no successor snapshot. */
  lemma GoalEndsRun(s: Search)
    requires WellFormed(s.cur) && s.cur.board == GoalBoard
    ensures Stops(s) && forall t :: !Step(s, t)
  {
  }

  /** The last snapshot is at the goal, where the loop stops. */
  lemma FinalSnapshotAtGoal(b: seq<int>)
    requires InputBoard(b)
    ensures S2(b).cur.board == GoalBoard && Stops(S2(b)) && forall t :: !Step(S2(b), t)
  {
    DownRightIsGoal(b);
    GoalEndsRun(S2(b));
  }

  /** The two moves form a run that stops at the goal. */
  lemma InputRunExists(b: seq<int>)
    requires InputBoard(b)
    ensures IsRun([S0(b), S1(b), S2(b)]) && Stops(S2(b))
  {
    FirstMove(b);
    SecondMove(b);
    FinalSnapshotAtGoal(b);
    RunOfThree(S0(b), S1(b), S2(b));
  }

  /** Three snapshots, each reached from the one before, form a run. */
  lemma RunOfThree(x: Search, y: Search, z: Search)
    requires WellFormed(x.cur) && WellFormed(y.cur) && WellFormed(z.cur)
    requires Step(x, y) && Step(y, z)
    ensures IsRun([x, y, z])
  {
    var tr := [x, y, z];
    assert tr[0] == x && tr[1] == y && tr[2] == z;
  }

  /** Every complete run from the input consists of exactly these two
      improving moves and ends at the goal: no side step is taken, so
      `rand()` is never called. */
  lemma InputRunIsUnique(b: seq<int>, tr: seq<Search>)
    requires InputBoard(b)
    requires IsRun(tr) && tr[0] == S0(b) && Stops(tr[|tr| - 1])
    ensures |tr| == 3 && tr[1] == S1(b) && tr[2] == S2(b)
    ensures tr[2].cur.board == GoalBoard
    ensures tr[0].sideSteps == 0 && tr[1].sideSteps == 0 && tr[2].sideSteps == 0
  {
    NotStoppedBeforeGoal(b);
    FinalSnapshotAtGoal(b);
    FirstMove(b);
    SecondMove(b);
    StopsOnlyAtLast(tr, 0);
    RunStep(tr, 0);
    StopsOnlyAtLast(tr, 1);
    RunStep(tr, 1);
    GoalIsLast(tr, 2);
  }

  /** A snapshot of a complete run that does not stop is not the last one. */
  lemma StopsOnlyAtLast(tr: seq<Search>, i: int)
    requires IsRun(tr) && Stops(tr[|tr| - 1]) && 0 <= i < |tr| && !Stops(tr[i])
    ensures i < |tr| - 1
  {
  }

  /** A snapshot at the goal is the last of a run. */
  lemma GoalIsLast(tr: seq<Search>, i: int)
    requires IsRun(tr) && 0 <= i < |tr| && tr[i].cur.board == GoalBoard
    ensures i == |tr| - 1
  {
    if i < |tr| - 1 {
      RunStep(tr, i);
    }
  }

  /** The program's own input, as the configuration main builds. */
  const MainInput: Config := Config(B0, 1, 1)

  /** Every complete run from the program's input is the two-move run to
      the goal. */
  lemma MainInputRun(tr: seq<Search>)
    requires IsRun(tr) && tr[0] == Start(MainInput) && Stops(tr[|tr| - 1])
    ensures |tr| == 3 && tr[2].cur.board == GoalBoard
    ensures forall i :: 0 <= i < |tr| ==> tr[i].sideSteps == 0
  {
    InputBoardIsB0(B0);
    InputRunIsUnique(B0, tr);
  }

  /** No run from the program's input contains a side step. */
  lemma MainInputNoSideStep(tr: seq<Search>)
    requires IsRun(tr) && tr[0] == Start(MainInput) && Stops(tr[|tr| - 1])
    ensures SideStepCount(tr) == 0
  {
    MainInputRun(tr);
    SideStepCountZero(tr);
  }

  /** main: builds the input state, runs the search and reports whether the
      result is the goal; for every sequence of `rand()` values it is, and
      `rand()` is never called. */
  method SolveMainInput(rand: nat -> nat) returns (solved: bool, ghost randCalls: nat)
    ensures solved && randCalls == 0
  {
    var initialState := new PuzzleState(B0, 1, 1);
    InputBoardIsB0(B0);
    InputValid(B0);
    var result, run, calls := HillClimbWithSideStepping(initialState, rand);
    MainInputNoSideStep(run);
    randCalls := calls;
    MainInputRun(run);
    solved := result.IsGoal();
  }
}
