/** Hill climbing with bounded random side-stepping.

    The search is specified as a transition system over snapshots of the
    driver's variables (current configuration, visited keys, side-step
    counter).  A run is a sequence of snapshots in which every pair is one
    legal transition; the driver method returns the run it performed, and
    the lemmas below state what every run satisfies. */
module HillClimbing {
  import opened Board
  import opened CanonicalKey
  import opened State

  /** How many non-improving moves may follow one another. */
  const MaxSideSteps: int := 5

  /** The driver's variables at the top of an iteration. */
  datatype Search = Search(cur: Config, visited: set<string>, sideSteps: int)

  /** Before the first iteration: only the initial board has been seen. */
  function Start(c: Config): Search {
    Search(c, {Key(c.board)}, 0)
  }

  /** The configurations of cs whose key has not been visited, in order. */
  function Unvisited(cs: seq<Config>, visited: set<string>): seq<Config>
  {
    if cs == [] then []
    else
      var last := cs[|cs| - 1];
      Unvisited(cs[..|cs| - 1], visited) + (if Key(last.board) in visited then [] else [last])
  }

  /** Unvisited keeps exactly the configurations whose key is not visited. */
  lemma {:induction false} UnvisitedMembers(cs: seq<Config>, visited: set<string>)
    ensures forall c :: c in Unvisited(cs, visited) <==> c in cs && Key(c.board) !in visited
  {
    if cs != [] {
      var init := cs[..|cs| - 1];
      UnvisitedMembers(init, visited);
      assert cs == init + [cs[|cs| - 1]];
    }
  }

  /** Filtering a prefix one element longer decides that element alone. */
  lemma UnvisitedPrefixStep(cs: seq<Config>, visited: set<string>, i: int)
    requires 0 <= i < |cs|
    ensures Unvisited(cs[..i + 1], visited) ==
      Unvisited(cs[..i], visited) + (if Key(cs[i].board) in visited then [] else [cs[i]])
  {
    assert cs[..i + 1][..i] == cs[..i];
  }

  /** Filtering keeps every configuration whose key is not visited. */
  lemma {:induction false} UnvisitedKeepsAll(cs: seq<Config>, visited: set<string>)
    requires forall k :: 0 <= k < |cs| ==> Key(cs[k].board) !in visited
    ensures Unvisited(cs, visited) == cs
  {
    if cs != [] {
      UnvisitedKeepsAll(cs[..|cs| - 1], visited);
    }
  }

  /** The successors the driver may move to from snapshot s. */
  function Candidates(s: Search): seq<Config>
    requires WellFormed(s.cur)
  {
    Unvisited(Successors(s.cur), s.visited)
  }

  /** Some unvisited successor is strictly better than the current board. */
  ghost predicate CanImprove(s: Search)
    requires WellFormed(s.cur)
  {
    exists c :: c in Candidates(s) && |c.board| == Cells && Manhattan(c.board) < Manhattan(s.cur.board)
  }

  /** An improving move: to an unvisited successor of least heuristic,
      which beats the current one; the side-step counter is reset. */
  ghost predicate Improves(s: Search, t: Search)
    requires WellFormed(s.cur)
  {
    t.cur in Candidates(s) && |t.cur.board| == Cells &&
    Manhattan(t.cur.board) < Manhattan(s.cur.board) &&
    (forall c :: c in Candidates(s) && |c.board| == Cells ==> Manhattan(t.cur.board) <= Manhattan(c.board)) &&
    t.visited == s.visited + {Key(t.cur.board)} &&
    t.sideSteps == 0
  }

  /** A side step: no unvisited successor improves, the budget is not
      exhausted, and the driver moves to any unvisited successor. */
  ghost predicate SideSteps(s: Search, t: Search)
    requires WellFormed(s.cur)
  {
    !CanImprove(s) && s.sideSteps < MaxSideSteps &&
    t.cur in Candidates(s) &&
    t.visited == s.visited + {Key(t.cur.board)} &&
    t.sideSteps == s.sideSteps + 1
  }

  /** One iteration of the loop that does not end it. */
  ghost predicate Step(s: Search, t: Search)
    requires WellFormed(s.cur)
  {
    s.cur.board != GoalBoard && (Improves(s, t) || SideSteps(s, t))
  }

  /** The loop ends: at the goal, with no unvisited successor, or with no
      improvement and the side-step budget spent. */
  ghost predicate Stops(s: Search)
    requires WellFormed(s.cur)
  {
    s.cur.board == GoalBoard || Candidates(s) == [] ||
    (!CanImprove(s) && s.sideSteps >= MaxSideSteps)
  }

  /** Snapshot i + 1 of tr is reached from snapshot i by a side step. */
  ghost predicate SideStepAt(tr: seq<Search>, i: int)
    requires 0 <= i < |tr| - 1
  {
    WellFormed(tr[i].cur) && SideSteps(tr[i], tr[i + 1])
  }

  /** A non-empty sequence of snapshots each reached from the previous by
      one Step. */
  ghost predicate IsRun(tr: seq<Search>) {
    |tr| > 0 &&
    (forall i :: 0 <= i < |tr| ==> WellFormed(tr[i].cur)) &&
    (forall i :: 0 <= i < |tr| - 1 ==> WellFormed(tr[i].cur) && Step(tr[i], tr[i + 1]))
  }

  /** Keys of the boards of the first i + 1 snapshots. */
  ghost function SeenKeys(tr: seq<Search>, i: int): set<string>
    requires 0 <= i < |tr|
  {
    set j | 0 <= j <= i :: Key(tr[j].cur.board)
  }

  // ---------------------------------------------------------------------
  // A finite universe of keys, for termination

  /** All sequences of length n over the values 0..8. */
  ghost function BoardsOfLength(n: nat): set<seq<int>> {
    if n == 0 then {[]} else set b, v | b in BoardsOfLength(n - 1) && 0 <= v < Cells :: b + [v]
  }

  /** Every key a run can ever put into its visited set. */
  ghost function KeyUniverse(): set<string> {
    set b | b in BoardsOfLength(Cells) :: Key(b)
  }

  lemma {:induction false} InBoardsOfLength(b: seq<int>)
    requires forall p :: 0 <= p < |b| ==> 0 <= b[p] < Cells
    ensures b in BoardsOfLength(|b|)
  {
    if b != [] {
      var n := |b| - 1;
      InBoardsOfLength(b[..n]);
      assert b == b[..n] + [b[n]];
    }
  }

  /** The key of a permutation board belongs to the universe. */
  lemma KeyInUniverse(b: seq<int>)
    requires IsPermBoard(b)
    ensures Key(b) in KeyUniverse()
  {
    InBoardsOfLength(b);
  }

  // ---------------------------------------------------------------------
  // Properties of the transition system

  /** The position of a configuration of least heuristic: the witness
      that a snapshot able to improve has an improving transition. */
  ghost function MinIndex(cs: seq<Config>): (k: int)
    requires cs != [] && forall c :: c in cs ==> |c.board| == Cells
    ensures 0 <= k < |cs|
    ensures forall j :: 0 <= j < |cs| ==> Manhattan(cs[k].board) <= Manhattan(cs[j].board)
  {
    if |cs| == 1 then 0
    else
      var k := MinIndex(cs[..|cs| - 1]);
      if Manhattan(cs[|cs| - 1].board) < Manhattan(cs[k].board) then |cs| - 1 else k
  }

  /** Every candidate is a well-formed configuration. */
  lemma CandidatesWellFormed(s: Search)
    requires WellFormed(s.cur)
    ensures forall c :: c in Candidates(s) ==> WellFormed(c)
  {
    UnvisitedMembers(Successors(s.cur), s.visited);
  }

  /** Where the loop does not stop, some transition is possible. */
  lemma NotStopsHasStep(s: Search)
    requires WellFormed(s.cur) && !Stops(s)
    ensures exists t :: Step(s, t)
  {
    var cands := Candidates(s);
    CandidatesWellFormed(s);
    if CanImprove(s) {
      var k := MinIndex(cands);
      var t := Search(cands[k], s.visited + {Key(cands[k].board)}, 0);
      var c :| c in cands && |c.board| == Cells && Manhattan(c.board) < Manhattan(s.cur.board);
      assert Improves(s, t);
      assert Step(s, t);
    } else {
      var t := Search(cands[0], s.visited + {Key(cands[0].board)}, s.sideSteps + 1);
      assert SideSteps(s, t);
      assert Step(s, t);
    }
  }

  /** Where a transition is possible, the loop does not stop. */
  lemma StepMeansNotStopped(s: Search, t: Search)
    requires WellFormed(s.cur)
    ensures Step(s, t) ==> !Stops(s)
  {
    if Step(s, t) {
      assert t.cur in Candidates(s);
      if Improves(s, t) {
        assert CanImprove(s);
      }
    }
  }

  /** The loop stops exactly when no transition is possible. */
  lemma StopsIffNoStep(s: Search)
    requires WellFormed(s.cur)
    ensures Stops(s) <==> !exists t :: Step(s, t)
  {
    if Stops(s) {
      forall t
        ensures !Step(s, t)
      {
        StepMeansNotStopped(s, t);
      }
    } else {
      NotStopsHasStep(s);
    }
  }

  /** At the start every successor is a candidate: none has the initial
      board. */
  lemma StartCandidates(c: Config)
    requires ValidConfig(c)
    ensures Candidates(Start(c)) == Successors(c)
  {
    var cs := Successors(c);
    forall k | 0 <= k < |cs|
      ensures Key(cs[k].board) !in Start(c).visited
    {
      SuccessorBoardDiffers(c, k);
      KeyInjective(cs[k].board, c.board);
    }
    UnvisitedKeepsAll(cs, Start(c).visited);
  }

  /** From a valid board that is not the goal, the first iteration always
      moves: the start has an unvisited successor and a full side-step
      budget. */
  lemma StartMoves(c: Config)
    requires ValidConfig(c) && c.board != GoalBoard
    ensures exists t :: Step(Start(c), t)
  {
    var s := Start(c);
    SuccessorCount(c);
    var n := Successors(c)[0];
    SuccessorBoardDiffers(c, 0);
    KeyInjective(n.board, c.board);
    UnvisitedMembers(Successors(c), s.visited);
    assert n in Candidates(s);
    NotStopsHasStep(s);
  }

  /** When one candidate beats the current board and every other candidate,
      the iteration has exactly one outcome: the improving move to it. */
  lemma UniqueBestMove(s: Search, cs: seq<Config>, m: int)
    requires WellFormed(s.cur) && s.cur.board != GoalBoard && Candidates(s) == cs
    requires 0 <= m < |cs| && forall k :: 0 <= k < |cs| ==> |cs[k].board| == Cells
    requires Manhattan(cs[m].board) < Manhattan(s.cur.board)
    requires forall k :: 0 <= k < |cs| && k != m ==> Manhattan(cs[m].board) < Manhattan(cs[k].board)
    ensures forall t :: Step(s, t) <==> t == Search(cs[m], s.visited + {Key(cs[m].board)}, 0)
  {
    var best := cs[m];
    CandidatesWellFormed(s);
    assert CanImprove(s) by {
      assert best in cs;
    }
    forall t
      ensures Step(s, t) <==> t == Search(best, s.visited + {Key(best.board)}, 0)
    {
      if Step(s, t) {
        assert Improves(s, t);
        var k :| 0 <= k < |cs| && cs[k] == t.cur;
        assert Manhattan(t.cur.board) <= Manhattan(best.board) by {
          assert best in cs;
        }
        assert k == m;
      }
      if t == Search(best, s.visited + {Key(best.board)}, 0) {
        forall c | c in cs && |c.board| == Cells
          ensures Manhattan(best.board) <= Manhattan(c.board)
        {
          var k :| 0 <= k < |cs| && cs[k] == c;
        }
        assert Improves(s, t);
      }
    }
  }

  /** What holds at every snapshot of a run from a valid configuration: the
      configuration is valid, the counter is within its budget, the visited
      set holds exactly the keys of the boards seen so far, one per
      snapshot, and so contains the current board's key. */
  ghost predicate SnapshotInvariant(tr: seq<Search>, i: int)
    requires 0 <= i < |tr|
  {
    ValidConfig(tr[i].cur) &&
    0 <= tr[i].sideSteps <= MaxSideSteps &&
    tr[i].visited == SeenKeys(tr, i) &&
    |tr[i].visited| == i + 1 &&
    Key(tr[i].cur.board) in tr[i].visited
  }

  /** One transition from a valid snapshot moves to a valid, unvisited
      successor and keeps the counter within budget. */
  lemma StepFacts(s: Search, t: Search)
    requires ValidConfig(s.cur) && 0 <= s.sideSteps <= MaxSideSteps && Step(s, t)
    ensures t.cur in Successors(s.cur) && Key(t.cur.board) !in s.visited
    ensures ValidConfig(t.cur)
    ensures 0 <= t.sideSteps <= MaxSideSteps
    ensures t.visited == s.visited + {Key(t.cur.board)}
    ensures SideSteps(s, t) ==> t.sideSteps == s.sideSteps + 1
    ensures Improves(s, t) ==> t.sideSteps == 0
  {
    UnvisitedMembers(Successors(s.cur), s.visited);
    SuccessorsValid(s.cur);
  }

  lemma SeenKeysNext(tr: seq<Search>, i: int)
    requires 0 < i < |tr|
    ensures SeenKeys(tr, i) == SeenKeys(tr, i - 1) + {Key(tr[i].cur.board)}
  {
  }

  /** Consecutive snapshots of a run are one Step apart. */
  lemma RunStep(tr: seq<Search>, i: int)
    requires IsRun(tr) && 0 <= i < |tr| - 1
    ensures WellFormed(tr[i].cur) && Step(tr[i], tr[i + 1])
  {
  }

  lemma {:induction false} RunInvariantAt(tr: seq<Search>, c0: Config, i: int)
    requires IsRun(tr) && tr[0] == Start(c0) && ValidConfig(c0)
    requires 0 <= i < |tr|
    ensures SnapshotInvariant(tr, i)
  {
    if i == 0 {
      assert SeenKeys(tr, 0) == {Key(c0.board)};
    } else {
      RunInvariantAt(tr, c0, i - 1);
      RunStep(tr, i - 1);
      StepFacts(tr[i - 1], tr[i]);
      SeenKeysNext(tr, i);
    }
  }

  /** Every snapshot of a run from a valid configuration satisfies the
      invariant; in particular the visited set grows by exactly one key per
      transition and the counter never leaves 0..MaxSideSteps. */
  lemma RunInvariant(tr: seq<Search>, c0: Config)
    requires IsRun(tr) && tr[0] == Start(c0) && ValidConfig(c0)
    ensures forall i :: 0 <= i < |tr| ==> SnapshotInvariant(tr, i)
  {
    forall i | 0 <= i < |tr|
      ensures SnapshotInvariant(tr, i)
    {
      RunInvariantAt(tr, c0, i);
    }
  }

  /** A board is in the visited set exactly when the run has stood on it. */
  lemma VisitedMeansSeen(tr: seq<Search>, c0: Config, i: int, b: seq<int>)
    requires IsRun(tr) && tr[0] == Start(c0) && ValidConfig(c0) && 0 <= i < |tr|
    ensures Key(b) in tr[i].visited <==> exists j :: 0 <= j <= i && tr[j].cur.board == b
  {
    RunInvariantAt(tr, c0, i);
    if Key(b) in tr[i].visited {
      var j :| 0 <= j <= i && Key(tr[j].cur.board) == Key(b);
      KeyInjective(tr[j].cur.board, b);
    }
  }

  /** A run never moves to a board it has already stood on. */
  lemma RunNeverRevisits(tr: seq<Search>, c0: Config)
    requires IsRun(tr) && tr[0] == Start(c0) && ValidConfig(c0)
    ensures forall i, j :: 0 <= i < j < |tr| ==> tr[i].cur.board != tr[j].cur.board
  {
    forall i, j | 0 <= i < j < |tr|
      ensures tr[i].cur.board != tr[j].cur.board
    {
      RunInvariantAt(tr, c0, j - 1);
      RunStep(tr, j - 1);
      StepFacts(tr[j - 1], tr[j]);
      assert Key(tr[i].cur.board) in SeenKeys(tr, j - 1);
    }
  }

  lemma {:induction false} SubsetCardinality<T>(a: set<T>, b: set<T>)
    requires a <= b
    ensures |a| <= |b|
  {
    if a != {} {
      var x :| x in a;
      SubsetCardinality(a - {x}, b - {x});
    }
  }

  /** A run is no longer than the number of keys there are: the search
      terminates on every input and for every choice it makes. */
  lemma RunLengthBounded(tr: seq<Search>, c0: Config)
    requires IsRun(tr) && tr[0] == Start(c0) && ValidConfig(c0)
    ensures |tr| <= |KeyUniverse()|
  {
    var last := |tr| - 1;
    RunInvariantAt(tr, c0, last);
    forall k | k in tr[last].visited
      ensures k in KeyUniverse()
    {
      var j :| 0 <= j <= last && k == Key(tr[j].cur.board);
      RunInvariantAt(tr, c0, j);
      KeyInUniverse(tr[j].cur.board);
    }
    SubsetCardinality(tr[last].visited, KeyUniverse());
  }

  /** Along k consecutive side steps the counter grows by exactly k. */
  lemma {:induction false} SideStepChain(tr: seq<Search>, i: int, k: int)
    requires 0 <= i && 0 <= k && i + k < |tr|
    requires forall j :: i <= j < i + k ==> SideStepAt(tr, j)
    ensures tr[i + k].sideSteps == tr[i].sideSteps + k
  {
    if k > 0 {
      SideStepChain(tr, i, k - 1);
      assert SideStepAt(tr, i + k - 1);
    }
  }

  /** The side-step counter of every snapshot lies in 0..MaxSideSteps. */
  lemma CounterInBudget(tr: seq<Search>, c0: Config, i: int)
    requires IsRun(tr) && tr[0] == Start(c0) && ValidConfig(c0)
    requires 0 <= i < |tr|
    ensures 0 <= tr[i].sideSteps <= MaxSideSteps
  {
    RunInvariantAt(tr, c0, i);
  }

  /** No run makes more than MaxSideSteps non-improving moves in a row. */
  lemma SideStepBudget(tr: seq<Search>, c0: Config, i: int, k: int)
    requires IsRun(tr) && tr[0] == Start(c0) && ValidConfig(c0)
    requires 0 <= i && 0 <= k && i + k < |tr|
    requires forall j :: i <= j < i + k ==> SideStepAt(tr, j)
    ensures k <= MaxSideSteps
  {
    SideStepChain(tr, i, k);
    CounterInBudget(tr, c0, i);
    CounterInBudget(tr, c0, i + k);
  }

  // ---------------------------------------------------------------------
  // The driver

  /** States in non-decreasing order of heuristic. */
  ghost predicate SortedByHeuristic(ps: seq<PuzzleState>)
    reads ps
  {
    forall i, j :: 0 <= i < j < |ps| ==> ps[i].heuristic <= ps[j].heuristic
  }

  /** Putting m between the states not worse than it and the states worse
      than it keeps the order. */
  lemma InsertKeepsOrder(sorted: seq<PuzzleState>, m: PuzzleState, p: int)
    requires 0 <= p <= |sorted| && SortedByHeuristic(sorted)
    requires forall i :: 0 <= i < p ==> sorted[i].heuristic <= m.heuristic
    requires p < |sorted| ==> m.heuristic < sorted[p].heuristic
    ensures SortedByHeuristic(sorted[..p] + [m] + sorted[p..])
  {
    var r := sorted[..p] + [m] + sorted[p..];
    assert forall i :: 0 <= i < p ==> r[i] == sorted[i];
    assert forall i :: p < i < |r| ==> r[i] == sorted[i - 1];
    forall i, j | 0 <= i < j < |r|
      ensures r[i].heuristic <= r[j].heuristic
    {
      if j < p {
        assert r[i] == sorted[i] && r[j] == sorted[j];
      } else if j == p {
        assert r[i] == sorted[i];
      } else if i < p {
        assert r[i] == sorted[i] && r[j] == sorted[j - 1];
      } else if i == p {
        assert r[j] == sorted[j - 1];
      } else {
        assert r[i] == sorted[i - 1] && r[j] == sorted[j - 1];
      }
    }
  }

  /** Inserts m into an ordered sequence after every state that is not
      worse than it. */
  method InsertByHeuristic(sorted: seq<PuzzleState>, m: PuzzleState) returns (r: seq<PuzzleState>)
    requires SortedByHeuristic(sorted)
    ensures multiset(r) == multiset(sorted) + multiset{m}
    ensures SortedByHeuristic(r)
  {
    var p := 0;
    while p < |sorted| && sorted[p].heuristic <= m.heuristic
      invariant 0 <= p <= |sorted|
      invariant forall i :: 0 <= i < p ==> sorted[i].heuristic <= m.heuristic
    {
      p := p + 1;
    }
    InsertKeepsOrder(sorted, m, p);
    r := sorted[..p] + [m] + sorted[p..];
    assert sorted == sorted[..p] + sorted[p..];
  }

  /** The ordering `std::sort` establishes: a permutation of the moves with
      non-decreasing heuristic. */
  method SortByHeuristic(moves: seq<PuzzleState>) returns (sorted: seq<PuzzleState>)
    ensures multiset(sorted) == multiset(moves)
    ensures forall i, j :: 0 <= i < j < |sorted| ==> sorted[i].heuristic <= sorted[j].heuristic
  {
    sorted := [];
    for n := 0 to |moves|
      invariant multiset(sorted) == multiset(moves[..n])
      invariant SortedByHeuristic(sorted)
    {
      assert moves[..n + 1] == moves[..n] + [moves[n]];
      sorted := InsertByHeuristic(sorted, moves[n]);
    }
    assert moves[..|moves|] == moves;
  }

  /** The `remove_if`/`erase` step: keeps, in order, the moves whose key is
      not in the visited set. */
  method RemoveVisited(moves: seq<PuzzleState>, visited: set<string>, ghost spec: seq<Config>)
    returns (kept: seq<PuzzleState>)
    requires forall k :: 0 <= k < |spec| ==> WellFormed(spec[k])
    requires Represents(moves, spec)
    ensures Represents(kept, Unvisited(spec, visited))
  {
    kept := [];
    var i := 0;
    while i < |moves|
      invariant 0 <= i <= |moves|
      invariant Represents(kept, Unvisited(spec[..i], visited))
    {
      var key := moves[i].ToString();
      UnvisitedPrefixStep(spec, visited, i);
      if key !in visited {
        RepresentsSnoc(kept, Unvisited(spec[..i], visited), moves[i], spec[i]);
        kept := kept + [moves[i]];
      }
      i := i + 1;
    }
    assert spec[..|moves|] == spec;
  }

  /** The first of the sorted moves is one of the kept moves and is not
      worse than any of them. */
  lemma SortedFirstIsLeast(kept: seq<PuzzleState>, sorted: seq<PuzzleState>)
    requires multiset(sorted) == multiset(kept) && SortedByHeuristic(sorted) && |sorted| > 0
    ensures forall x :: x in sorted ==> x in kept
    ensures forall k :: 0 <= k < |kept| ==> sorted[0].heuristic <= kept[k].heuristic
  {
    forall x | x in sorted
      ensures x in kept
    {
      assert x in multiset(sorted);
    }
    forall k | 0 <= k < |kept|
      ensures sorted[0].heuristic <= kept[k].heuristic
    {
      assert kept[k] in multiset(sorted);
    }
  }

  /** A kept move, being a candidate, is a valid configuration. */
  lemma KeptMoveIsCandidate(s: Search, kept: seq<PuzzleState>, x: PuzzleState)
    requires ValidConfig(s.cur) && Represents(kept, Candidates(s)) && x in kept
    ensures x.Position() in Candidates(s) && x.Valid()
  {
    UnvisitedMembers(Successors(s.cur), s.visited);
    var k :| 0 <= k < |kept| && kept[k] == x;
    SuccessorsValid(s.cur);
  }

  /** If the least sorted move is not better than the current board, no
      candidate is. */
  lemma NoImprovement(s: Search, kept: seq<PuzzleState>, sorted: seq<PuzzleState>)
    requires WellFormed(s.cur) && Represents(kept, Candidates(s))
    requires multiset(sorted) == multiset(kept) && SortedByHeuristic(sorted) && |sorted| > 0
    requires sorted[0].heuristic >= Manhattan(s.cur.board)
    ensures !CanImprove(s)
  {
    SortedFirstIsLeast(kept, sorted);
    forall c | c in Candidates(s) && |c.board| == Cells
      ensures Manhattan(c.board) >= Manhattan(s.cur.board)
    {
      var k :| 0 <= k < |Candidates(s)| && Candidates(s)[k] == c;
      assert kept[k].Position() == c;
    }
  }

  /** Taking the first sorted move when it beats the current board is an
      improving transition, to a valid state. */
  lemma ImprovingMove(s: Search, kept: seq<PuzzleState>, sorted: seq<PuzzleState>)
    requires ValidConfig(s.cur) && s.cur.board != GoalBoard
    requires Represents(kept, Candidates(s))
    requires multiset(sorted) == multiset(kept) && SortedByHeuristic(sorted) && |sorted| > 0
    requires sorted[0].heuristic < Manhattan(s.cur.board)
    ensures Improves(s, Search(sorted[0].Position(), s.visited + {Key(sorted[0].board)}, 0))
    ensures sorted[0].Valid()
  {
    var next := sorted[0];
    SortedFirstIsLeast(kept, sorted);
    KeptMoveIsCandidate(s, kept, next);
    var t := Search(next.Position(), s.visited + {Key(next.board)}, 0);
    forall c | c in Candidates(s) && |c.board| == Cells
      ensures Manhattan(next.board) <= Manhattan(c.board)
    {
      var k :| 0 <= k < |Candidates(s)| && Candidates(s)[k] == c;
      assert kept[k].Position() == c;
    }
    assert Improves(s, t);
  }

  /** Taking any sorted move when none beats the current board and the
      budget allows is a side step, to a valid state. */
  lemma SideStepMove(s: Search, kept: seq<PuzzleState>, sorted: seq<PuzzleState>, idx: int)
    requires ValidConfig(s.cur) && s.cur.board != GoalBoard
    requires Represents(kept, Candidates(s))
    requires multiset(sorted) == multiset(kept) && SortedByHeuristic(sorted) && 0 <= idx < |sorted|
    requires sorted[0].heuristic >= Manhattan(s.cur.board) && s.sideSteps < MaxSideSteps
    ensures SideSteps(s, Search(sorted[idx].Position(), s.visited + {Key(sorted[idx].board)}, s.sideSteps + 1))
    ensures sorted[idx].Valid()
  {
    NoImprovement(s, kept, sorted);
    SortedFirstIsLeast(kept, sorted);
    KeptMoveIsCandidate(s, kept, sorted[idx]);
    var t := Search(sorted[idx].Position(), s.visited + {Key(sorted[idx].board)}, s.sideSteps + 1);
    assert SideSteps(s, t);
  }

  /** An improving transition and a side step never start from the same
      snapshot. */
  lemma ImprovesExcludesSideStep(s: Search, t: Search, u: Search)
    requires WellFormed(s.cur) && Improves(s, t)
    ensures !SideSteps(s, u)
  {
    assert t.cur in Candidates(s);
  }

  /** With no move left, or no improving move and the budget spent, the
      loop stops. */
  lemma NoMoveStops(s: Search, kept: seq<PuzzleState>, sorted: seq<PuzzleState>)
    requires WellFormed(s.cur) && Represents(kept, Candidates(s))
    requires multiset(sorted) == multiset(kept) && SortedByHeuristic(sorted)
    requires |sorted| == 0 || (sorted[0].heuristic >= Manhattan(s.cur.board) && s.sideSteps >= MaxSideSteps)
    ensures Stops(s)
  {
    if |sorted| > 0 {
      NoImprovement(s, kept, sorted);
    } else {
      assert |kept| == 0;
    }
  }

  /** A run followed by one more transition is a run. */
  lemma RunExtend(run: seq<Search>, t: Search)
    requires IsRun(run) && Step(run[|run| - 1], t) && WellFormed(t.cur)
    ensures IsRun(run + [t]) && (run + [t])[0] == run[0]
  {
    var r := run + [t];
    forall i | 0 <= i < |r| - 1
      ensures WellFormed(r[i].cur) && Step(r[i], r[i + 1])
    {
      if i < |run| - 1 {
        assert r[i] == run[i] && r[i + 1] == run[i + 1];
      } else {
        assert r[i] == run[|run| - 1] && r[i + 1] == t;
      }
    }
    assert forall i :: 0 <= i < |r| ==> WellFormed(r[i].cur);
  }

  /** The number of side steps along a run. */
  ghost function SideStepCount(tr: seq<Search>): nat
  {
    if |tr| < 2 then 0
    else SideStepCount(tr[..|tr| - 1]) + (if SideStepAt(tr, |tr| - 2) then 1 else 0)
  }

  /** One more transition adds one to the count exactly when it is a side
      step. */
  lemma SideStepCountSnoc(run: seq<Search>, t: Search)
    requires |run| > 0
    ensures SideStepCount(run + [t]) ==
      SideStepCount(run) + (if WellFormed(run[|run| - 1].cur) && SideSteps(run[|run| - 1], t) then 1 else 0)
  {
    assert (run + [t])[..|run|] == run;
  }

  /** A run whose counter is 0 throughout contains no side step. */
  lemma {:induction false} SideStepCountZero(tr: seq<Search>)
    requires forall i :: 0 <= i < |tr| ==> tr[i].sideSteps == 0
    ensures SideStepCount(tr) == 0
  {
    if |tr| >= 2 {
      var pre := tr[..|tr| - 1];
      assert forall i :: 0 <= i < |pre| ==> pre[i] == tr[i];
      SideStepCountZero(pre);
      assert tr[|tr| - 1].sideSteps != tr[|tr| - 2].sideSteps + 1;
    }
  }

  /** What the driver knows of the run it has performed so far. */
  ghost predicate Reached(run: seq<Search>, c0: Config) {
    IsRun(run) && run[0] == Start(c0) &&
    ValidConfig(run[|run| - 1].cur) &&
    0 <= run[|run| - 1].sideSteps <= MaxSideSteps &&
    run[|run| - 1].visited <= KeyUniverse()
  }

  /** One more transition extends the run and visits one more key of the
      finite universe. */
  lemma Advance(run: seq<Search>, c0: Config, t: Search)
    requires Reached(run, c0) && Step(run[|run| - 1], t)
    ensures Reached(run + [t], c0)
    ensures |KeyUniverse() - t.visited| < |KeyUniverse() - run[|run| - 1].visited|
  {
    var s := run[|run| - 1];
    StepFacts(s, t);
    KeyInUniverse(t.cur.board);
    RunExtend(run, t);
    assert KeyUniverse() - t.visited == (KeyUniverse() - s.visited) - {Key(t.cur.board)};
  }

  /** One iteration of the loop body from a non-goal state: generate the
      moves, drop the visited ones, sort the rest by heuristic, then take
      the best one if it improves, a random one if the side-step budget
      allows, or stop.  A move is recorded in the visited set, and the goal
      test of the next iteration is made on the new state.  rand(randCalls)
      is the value of the next `rand()` call. */
  method ClimbStep(currentState: PuzzleState, visitedStates: set<string>, sideSteps: int,
                   rand: nat -> nat, randCalls: nat, ghost s: Search)
    returns (moved: bool, next: PuzzleState, nextVisited: set<string>, nextSideSteps: int,
             nextRandCalls: nat, solved: bool)
    requires currentState.Valid() && currentState.board != GoalBoard
    requires s == Search(currentState.Position(), visitedStates, sideSteps)
    ensures !moved ==> Stops(s)
    ensures moved ==> (next.Valid() &&
      nextVisited == visitedStates + {Key(next.board)} &&
      Step(s, Search(next.Position(), nextVisited, nextSideSteps)) &&
      (solved <==> next.board == GoalBoard))
    ensures moved ==>
      (nextRandCalls == randCalls + 1 <==> SideSteps(s, Search(next.Position(), nextVisited, nextSideSteps)))
    ensures !moved ==> nextRandCalls == randCalls
    ensures nextRandCalls == randCalls || nextRandCalls == randCalls + 1
    ensures nextRandCalls == randCalls + 1 ==> moved && nextSideSteps == sideSteps + 1
  {
    next, nextVisited, nextSideSteps, nextRandCalls, solved := currentState, visitedStates, sideSteps, randCalls, false;
    var moves := currentState.GenerateMoves();
    var kept := RemoveVisited(moves, visitedStates, Successors(s.cur));
    var sorted := SortByHeuristic(kept);

    if |sorted| == 0 {
      NoMoveStops(s, kept, sorted);
      return false, next, nextVisited, nextSideSteps, nextRandCalls, solved;
    }
    if sorted[0].heuristic < currentState.heuristic {
      // a better move: take it and reset the side-step counter
      next, nextSideSteps := sorted[0], 0;
      ImprovingMove(s, kept, sorted);
      ImprovesExcludesSideStep(s, Search(next.Position(), visitedStates + {Key(next.board)}, 0),
        Search(next.Position(), visitedStates + {Key(next.board)}, 0));
    } else if sideSteps < MaxSideSteps {
      // no better move: step to a random remaining one
      var randomIndex := rand(randCalls) % |sorted|;
      nextRandCalls := randCalls + 1;
      next, nextSideSteps := sorted[randomIndex], sideSteps + 1;
      SideStepMove(s, kept, sorted, randomIndex);
    } else {
      // no better move and the side-step budget is spent
      NoMoveStops(s, kept, sorted);
      return false, next, nextVisited, nextSideSteps, nextRandCalls, solved;
    }
    var key := next.ToString();
    nextVisited := visitedStates + {key};
    solved := next.IsGoal();
    moved := true;
  }

  /** Runs the search from initialState.  rand(n) stands for the value of
      the n-th call of `rand()`; calls is the number of calls made, one per
      side step of the run. */
  method HillClimbWithSideStepping(initialState: PuzzleState, rand: nat -> nat)
    returns (result: PuzzleState, ghost run: seq<Search>, ghost calls: nat)
    requires initialState.Valid()
    ensures IsRun(run) && run[0] == Start(initialState.Position())
    ensures Stops(run[|run| - 1])
    ensures result.Position() == run[|run| - 1].cur
    ensures result.Valid()
    ensures calls == SideStepCount(run)
  {
    var currentState := initialState;
    var visitedStates: set<string> := {};
    var key := currentState.ToString();
    visitedStates := visitedStates + {key};
    var sideSteps := 0;
    var randCalls: nat := 0;
    run := [Start(currentState.Position())];
    KeyInUniverse(currentState.board);

    var solved := currentState.IsGoal();
    var stuck := false;
    while !solved && !stuck
      invariant currentState.Valid()
      invariant Reached(run, initialState.Position())
      invariant run[|run| - 1] == Search(currentState.Position(), visitedStates, sideSteps)
      invariant solved <==> currentState.board == GoalBoard
      invariant stuck ==> Stops(run[|run| - 1])
      invariant randCalls == SideStepCount(run)
      decreases |KeyUniverse() - visitedStates|, !stuck
    {
      ghost var s := run[|run| - 1];
      var moved, next, nextVisited, nextSideSteps, nextRandCalls, nextSolved :=
        ClimbStep(currentState, visitedStates, sideSteps, rand, randCalls, s);
      if moved {
        ghost var t := Search(next.Position(), nextVisited, nextSideSteps);
        Advance(run, initialState.Position(), t);
        SideStepCountSnoc(run, t);
        currentState, visitedStates, sideSteps, randCalls, solved :=
          next, nextVisited, nextSideSteps, nextRandCalls, nextSolved;
        run := run + [t];
      } else {
        stuck := true;
      }
    }
    result, calls := currentState, randCalls;
  }
}
