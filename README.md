# 8-puzzle hill climbing with side stepping, in Dafny

This project models `main.cpp`, an 8-puzzle solver that does hill climbing
with a bounded number of random side steps.

A `PuzzleState` holds:
- a 3×3 board;
- the coordinates of the empty cell;
- a cached Manhattan-distance heuristic.

The solver repeats one iteration until it stops. Each iteration:
1. generates the up to four successors of the current state;
2. drops those whose canonical string key is already in the visited set;
3. sorts the rest by heuristic;
4. takes the best one if it is strictly better than the current state;
5. otherwise takes a random one, if it has made fewer than
   `MAX_SIDE_STEPS = 5` side steps since the last improvement;
6. otherwise stops.

The solver also stops at the goal or when no unvisited successor is left.

The project has five modules.
- `Board` holds the value view of a position: `Config(board, emptyRow,
  emptyCol)`, a board flattened row-major into a 9-cell `seq<int>`. It also
  holds C++'s truncating `/` and `%`, the heuristic as a sum over rows, the
  goal board, tile swapping, and the successor list in direction order (up,
  down, left, right).
- `CanonicalKey` is the `toString` key: each value's decimal text followed
  by `,`. The module proves the key injective.
- `State` is the class `PuzzleState`, whose methods update its fields in
  place. Each method is proved against the functions of `Board` and
  `CanonicalKey`.
- `HillClimbing` has two parts.
  - The relational specification of the driver. A `Search` snapshot is the
    current configuration, the visited key set and the side-step counter.
    `Step` is one loop iteration that does not end it, `Stops` is the loop's
    exit condition, and `IsRun` is a sequence of snapshots linked by `Step`.
    There are lemmas about runs: the invariant, never revisiting a board,
    the side-step budget, and a bound on the run's length.
  - The imperative driver `HillClimbWithSideStepping`. It is proved to
    produce a run that ends in a stopping snapshot.
- `MainRun` covers the program's own input and `main`. The input board is
  described cell by cell (`InputBoard`). For it, every run makes exactly two
  improving moves, down and then right, and ends at the goal. `rand()` is
  never called.

## Model

| member | source | states |
|---|---|---|
| Board.TruncDivRem | main.cpp:35-36 | C++ `/` and `%` truncate toward zero: `a == d*q + r` with `abs(r) < d`, and `r` has the sign of `a` |
| Board.TileDistance | main.cpp:33-37 | a cell's share of the heuristic: 0 for the empty cell; for a tile `v`, its row and column offsets from its home cell `v - 1`, with C++ division; never negative |
| Board.RowDistance | main.cpp:31-38 | the inner loop's sum over the first `m` cells of row `i`; never negative, and each cell adds its `TileDistance` (RowDistanceZero, HeuristicZeroIff) |
| Board.RowsDistance | main.cpp:29-40 | the outer loop's sum over the first `n` rows; never negative, and 0 exactly when every cell in those rows contributes 0 (RowsDistanceZero) |
| Board.Manhattan | main.cpp:26-42 | the heuristic is never negative |
| Board.RowDistanceZero | main.cpp:31-38 | a row's partial sum is 0 exactly when each of its cells so far contributes 0 |
| Board.RowsDistanceZero | main.cpp:29-40 | the sum over the first `n` rows is 0 exactly when each of their cells contributes 0 |
| Board.HeuristicZeroIff | main.cpp:26-42 | the heuristic is 0 exactly when every cell contributes 0 |
| Board.TileDistanceZeroIff | main.cpp:33-37 | tile `v` at `(i, j)` contributes 0 exactly when it sits in cell `v - 1`, its home |
| Board.GoalHeuristicZero | main.cpp:26-42 | the goal board has heuristic 0 |
| Board.ZeroHeuristicTilesHome | main.cpp:26-42 | on a board of values 0..8 with heuristic 0, every tile is at its home |
| Board.TilesHomeIsGoal | main.cpp:70-82 | a permutation board with every tile at home is the goal board |
| Board.GoalIffZeroHeuristic | main.cpp:70-82 | on a permutation board, being the goal is equivalent to heuristic 0 |
| Board.Swapped | main.cpp:87 | `std::swap` of two cells: the board with the contents of cells `p` and `q` exchanged (SwapPreservesPermutation states what that means) |
| Board.SwapPreservesPermutation | main.cpp:85-90 | swapping exchanges exactly the two cells, keeps every other cell and the multiset of values, and keeps a permutation board one |
| Board.Slide | main.cpp:103-104 | a copy of the configuration with the empty cell and cell `(r, c)` swapped and `(r, c)` recorded as the new empty cell (SlideValid) |
| Board.SuccessorsUpTo | main.cpp:97-107 | the moves gathered by the first `n` directions: at most `n` of them, each well formed; their shape and order are proved in SuccessorIsSlide, SuccessorsInOrder and SuccessorsComplete |
| Board.Successors | main.cpp:93-110 | every move (all four directions tried), each well formed; the count, shape, order and completeness lemmas below are about it |
| Board.SuccessorCount | main.cpp:93-110 | 2 successors from a corner, 4 from the centre, 3 from an edge |
| Board.SuccessorIsSlide | main.cpp:99-105 | every successor slides the empty cell to an orthogonal neighbour on the grid |
| Board.SuccessorsInOrder | main.cpp:96-97 | successors come in the direction order up, down, left, right |
| Board.SuccessorsComplete | main.cpp:99-106 | every direction that stays on the grid yields a successor |
| Board.SlideValid | main.cpp:103-105 | a slide from a valid configuration is valid: it is a permutation, the 0 sits at the new recorded cell, and the moved tile takes the old empty cell |
| Board.SuccessorsValid | main.cpp:93-110 | every successor of a valid configuration is valid |
| Board.SuccessorBoardDiffers | main.cpp:103-104 | every successor's board differs from its parent's |
| CanonicalKey.NatToString | main.cpp:52 | `std::to_string` of a non-negative value: a non-empty string of decimal digits, whose inverse is ParseNat (ParseNatToString) |
| CanonicalKey.IntToString | main.cpp:52 | `std::to_string` of an `int`: a `-` for negative values, then the decimal digits of the absolute value (IntToStringRoundTrip, IntToStringHasNoComma) |
| CanonicalKey.Token | main.cpp:52 | one value's contribution to the key: its `to_string` text followed by `,` (TokenPrefix) |
| CanonicalKey.Key | main.cpp:45-56 | what `toString` returns: each value's `to_string` text followed by `,`, in row-major order (KeyInjective, KeySnoc) |
| CanonicalKey.ParseNatToString | main.cpp:52 | the decimal text of `n` reads back as `n` |
| CanonicalKey.IntToStringRoundTrip | main.cpp:52 | the text of any integer, with a `-` when negative, reads back as that integer |
| CanonicalKey.IntToStringHasNoComma | main.cpp:52 | a value's text never contains `,` |
| CanonicalKey.TokenPrefix | main.cpp:52 | two "value then `,`" prefixes of equal strings have equal values and equal remainders |
| CanonicalKey.KeyInjective | main.cpp:45-56 | two boards have equal keys exactly when they are equal |
| CanonicalKey.KeySnoc | main.cpp:48-54 | appending a value to the board appends its token to the key |
| CanonicalKey.KeyPrefixStep | main.cpp:50-53 | the key of the first `p + 1` cells is the key of the first `p` cells plus cell `p`'s token |
| State.RepresentsSnoc | main.cpp:106 | pushing a state that holds `c` onto states that hold `cs` gives states that hold `cs + [c]` |
| State.PuzzleState.constructor | main.cpp:16-23 | the new state holds the given board and empty cell, and its heuristic is the board's Manhattan distance |
| State.PuzzleState.Copy | main.cpp:103 | the copy holds the same configuration and heuristic |
| State.PuzzleState.CalculateAndSetHeuristic | main.cpp:26-42 | the nested loops leave `heuristic` equal to the Manhattan distance of the board, and nothing else changes |
| State.PuzzleState.ToString | main.cpp:45-56 | the loops build exactly `Key(board)` |
| State.PuzzleState.IsGoal | main.cpp:70-82 | the result is true exactly when the board is `1..8` in row-major order, then 0 |
| State.PuzzleState.SwapTiles | main.cpp:85-90 | the board becomes the old board with the two cells exchanged, and `(r2, c2)` becomes the recorded empty cell |
| State.PuzzleState.MoveEmptyTo | main.cpp:103-105 | a fresh state holding the slide of this one to `(r, c)`, with its heuristic recomputed |
| State.PuzzleState.AddMoveInDirection | main.cpp:99-107 | after direction `d` the moves hold exactly the successors of the first `d + 1` directions |
| State.PuzzleState.GenerateMoves | main.cpp:93-110 | fresh states holding exactly `Successors(Position())`, in order, each with an up-to-date heuristic |
| HillClimbing.Start | main.cpp:116-119 | the driver's variables before the first iteration: the initial configuration, a visited set holding only its key, and the counter at 0 |
| HillClimbing.Unvisited | main.cpp:127-130 | the `remove_if`/`erase` filter: the moves whose key is not visited, in their order (UnvisitedMembers, UnvisitedKeepsAll) |
| HillClimbing.UnvisitedMembers | main.cpp:127-130 | a configuration is kept exactly when it is among the moves and its key is not visited |
| HillClimbing.UnvisitedKeepsAll | main.cpp:127-130 | when no key is visited, every move is kept |
| HillClimbing.Candidates | main.cpp:124-130 | the moves the iteration chooses among: the generated successors whose key is not visited, in generation order |
| HillClimbing.CanImprove | main.cpp:140 | the test on `moves[0]`: some candidate has a heuristic strictly below the current one (NoImprovement, SortedFirstIsLeast tie it to the sorted first move) |
| HillClimbing.Improves | main.cpp:140-145 | an improving move goes to an unvisited successor whose heuristic is least among the candidates and strictly below the current one, adds its key, and resets the counter to 0 |
| HillClimbing.SideSteps | main.cpp:146-153 | a side step happens only when no candidate improves and the counter is below 5; it goes to any unvisited successor, adds its key, and adds one to the counter |
| HillClimbing.Step | main.cpp:121-153 | an iteration that does not end the loop: from a non-goal snapshot, an improving move or a side step |
| HillClimbing.Stops | main.cpp:136-158 | the loop ends at the goal (line 121), with no unvisited move (136-137), or with no improvement and the budget spent (154-158); StopsIffNoStep shows this is exactly "no Step" |
| HillClimbing.MinIndex | main.cpp:140-145 | a ghost witness for NotStopsHasStep: an in-range index whose heuristic is at most every candidate's, so a snapshot that can improve has an improving move |
| HillClimbing.NotStopsHasStep | main.cpp:136-153 | when the loop does not stop, an improving move or a side step exists |
| HillClimbing.StepMeansNotStopped | main.cpp:136-158 | a snapshot that has a transition does not stop |
| HillClimbing.StopsIffNoStep | main.cpp:136-158 | the loop stops exactly when no transition exists |
| HillClimbing.StartCandidates | main.cpp:116-130 | in the first iteration every successor is a candidate |
| HillClimbing.StartMoves | main.cpp:121-153 | from a valid configuration that is not the goal, the first iteration always moves |
| HillClimbing.UniqueBestMove | main.cpp:133-145 | when one candidate is strictly best and improves, the only transition is the improving move to it, which resets the counter |
| HillClimbing.StepFacts | main.cpp:140-153 | a transition moves to an unvisited successor, adds exactly its key, and either resets the counter or adds one to it |
| HillClimbing.IsRun | main.cpp:121-159 | the loop's iterations as a non-empty sequence of snapshots, each well formed and each reached from the one before by one `Step` |
| HillClimbing.SeenKeysNext | main.cpp:143 | each snapshot adds its own board's key to the keys seen so far |
| HillClimbing.RunInvariantAt | main.cpp:116-153 | at every snapshot: the configuration is valid, the counter is in `0..5`, and the visited set is exactly the keys seen, one per snapshot, including the current board's |
| HillClimbing.RunInvariant | main.cpp:116-159 | the snapshot invariant holds all along a run |
| HillClimbing.VisitedMeansSeen | main.cpp:118-151 | a key is visited exactly when its board was current at some earlier snapshot |
| HillClimbing.RunNeverRevisits | main.cpp:127-130 | no board is current twice in a run |
| HillClimbing.InBoardsOfLength | main.cpp:121-159 | a board of values `0..8` is one of the finitely many boards of its length |
| HillClimbing.KeyInUniverse | main.cpp:121-159 | every permutation board's key lies in one finite set of keys |
| HillClimbing.RunLengthBounded | main.cpp:121-159 | a run is no longer than the number of possible keys, so the loop terminates |
| HillClimbing.SideStepChain | main.cpp:146-153 | `k` consecutive side steps raise the counter by exactly `k` |
| HillClimbing.CounterInBudget | main.cpp:144-152 | the side-step counter stays in `0..5` |
| HillClimbing.SideStepBudget | main.cpp:146-153 | at most 5 side steps follow one another |
| HillClimbing.InsertKeepsOrder | main.cpp:133-134 | inserting at the first larger position keeps the moves sorted |
| HillClimbing.InsertByHeuristic | main.cpp:133-134 | the result is sorted and is the input plus the new state, as a multiset |
| HillClimbing.SortByHeuristic | main.cpp:133-134 | the result is a permutation of the moves, sorted by heuristic |
| HillClimbing.RemoveVisited | main.cpp:127-130 | the kept states hold exactly the successors whose key is not visited, in order |
| HillClimbing.SortedFirstIsLeast | main.cpp:133-140 | `moves[0]` after sorting is one of the kept moves and has the least heuristic |
| HillClimbing.KeptMoveIsCandidate | main.cpp:127-130 | every kept move holds a candidate and is valid |
| HillClimbing.NoImprovement | main.cpp:140-146 | when `moves[0]` does not beat the current heuristic, no candidate does |
| HillClimbing.ImprovingMove | main.cpp:140-145 | when `moves[0]` beats the current heuristic, taking it is an improving transition |
| HillClimbing.SideStepMove | main.cpp:146-153 | with no improvement and budget left, taking any kept move is a side-step transition |
| HillClimbing.ImprovesExcludesSideStep | main.cpp:140-153 | the two branches exclude each other: a snapshot with an improving move has no side step |
| HillClimbing.NoMoveStops | main.cpp:136-158 | with no move left, or no improvement and the budget spent, the loop stops |
| HillClimbing.SideStepCount | main.cpp:149 | the number of side steps along a run, which is the number of `rand()` calls |
| HillClimbing.SideStepCountSnoc | main.cpp:146-153 | one more transition adds one to the count exactly when it is a side step |
| HillClimbing.SideStepCountZero | main.cpp:144-152 | a run whose counter is 0 at every snapshot contains no side step |
| HillClimbing.RunExtend | main.cpp:121-159 | appending a transition to a run gives a run from the same start |
| HillClimbing.Advance | main.cpp:121-159 | a transition keeps the run reachable and strictly shrinks the set of unvisited keys |
| HillClimbing.ClimbStep | main.cpp:121-159 | one iteration either stops, as `Stops` says, or makes a transition that `Step` allows; when it moves, it records the new key and re-tests the goal; it calls `rand()` exactly when the transition is a side step, and then the counter goes up by one |
| HillClimbing.HillClimbWithSideStepping | main.cpp:114-161 | for every sequence of `rand()` values, the driver's snapshots form a run from the initial state that ends where the loop must stop; the result is the last snapshot's valid state; the number of `rand()` calls is the number of side steps in the run |
| MainRun.InputBoardIsB0 | main.cpp:165-168 | the cell-by-cell description is exactly the program's input board |
| MainRun.ManhattanCells | main.cpp:29-40 | the heuristic is the sum of the nine cells' distances |
| MainRun.InputValid | main.cpp:165-170 | the input is a valid configuration and not the goal |
| MainRun.InputSuccessors | main.cpp:96-107 | from the input, the moves are up, down, left and right |
| MainRun.InputHeuristics | main.cpp:26-42 | the input has heuristic 2, the move down has 1, and the other three moves have 3 |
| MainRun.FirstMove | main.cpp:133-145 | the first iteration's only outcome is the improving move down |
| MainRun.AfterDownSuccessors | main.cpp:96-107 | after the move down, the moves are back up, left and right |
| MainRun.KeyNotInPair | main.cpp:127-130 | a board different from two others has neither of their keys |
| MainRun.AfterDownCandidates | main.cpp:127-130 | after the move down, the way back is visited, so the candidates are left and right |
| MainRun.CandidatesDropFirst | main.cpp:127-130 | of three successors of which only the first is visited, the other two remain |
| MainRun.AfterDownHeuristics | main.cpp:26-42 | after the move down, the move left has heuristic 2 and the move right has 0 |
| MainRun.SecondMove | main.cpp:133-145 | the second iteration's only outcome is the improving move right |
| MainRun.DownRightIsGoal | main.cpp:70-82 | the board after both moves is the goal |
| MainRun.NotStoppedBeforeGoal | main.cpp:136-158 | neither the input nor the board after the move down ends the loop |
| MainRun.GoalEndsRun | main.cpp:121 | at the goal the loop stops and makes no transition |
| MainRun.FinalSnapshotAtGoal | main.cpp:121 | the run's last snapshot is at the goal, where the loop stops |
| MainRun.StopsOnlyAtLast | main.cpp:121-159 | in a complete run, a snapshot that does not stop is not the last one |
| MainRun.GoalIsLast | main.cpp:121 | a snapshot at the goal is the last of its run |
| MainRun.RunOfThree | main.cpp:121-159 | three snapshots, each reached from the one before, form a run |
| MainRun.InputRunExists | main.cpp:170-171 | the two improving moves form a complete run |
| MainRun.InputRunIsUnique | main.cpp:170-171 | every complete run from the input is exactly those two improving moves, ending at the goal, with the counter at 0 at every snapshot |
| MainRun.MainInputRun | main.cpp:165-171 | every complete run from the program's input has three snapshots, ends at the goal, and keeps the counter at 0 throughout |
| MainRun.MainInputNoSideStep | main.cpp:146-153 | no complete run from the program's input contains a side step |
| MainRun.SolveMainInput | main.cpp:163-186 | `main` finds the goal for every sequence of `rand()` values, so it reports "Solved", and it makes no `rand()` call |

## Left out

- `printBoard` and all console output (main.cpp:58-68, 123, 174-183) are left out. Output is not part of the algorithm. `SolveMainInput` returns the result of the `isGoal()` test that chooses which message `main` prints.
- `rand()` is a foreign call and is not modelled. The driver takes a function `rand`, where `rand(n)` is the value of the `n`-th call. It uses `rand(n) % |moves|` as the source does. Every property of the driver holds for every such function.
- `std::sort` is unstable, and the model does not reproduce its order among equal heuristics. The model sorts with an insertion sort proved to give a sorted permutation, and the driver uses nothing else about the sort. The transition specification allows every order `std::sort` could produce: `Improves` accepts any candidate of least heuristic, and `SideSteps` accepts any candidate.
- `std::unordered_set<std::string>` and its hashing are not modelled. The visited set is a `set<string>`.
- `std::to_string` is modelled as decimal digits, with a leading `-` for negative values. Only values 0..8 occur.
- `int` overflow is not modelled. The values are 0..8 and the heuristic is at most 9 × 4, so nothing approaches the 32-bit range.
- The board is flattened to one row-major `seq<int>` of 9 cells. The model does not keep the source's vector of vectors.
- C++ copies `PuzzleState` by value; the model instead binds `currentState` to the kept state itself. No state is changed after `generateMoves` builds it, so the sharing cannot be observed.
- The loop shape differs from the source, with the same iterations. The goal test at the top of the loop appears once before the loop and then at the end of each moving iteration (`ClimbStep`). A flag replaces `break`.
- The source gives no termination argument. The model's `decreases` counts the keys of the finitely many boards of values 0..8 that have not been visited.
