/** The invariant of the breadth-first search, and what each of its steps keeps. */
module BreadthFirst {
  import opened Maze
  import opened Counting

  /** Distances of the cells found so far, the letters, the queue and the distance of its front. */
  datatype Search = Search(dist: map<Pos, nat>, grid: Grid, pending: seq<Pos>, level: nat)

  /** The recorded distances are exact, and nothing within `level` moves has been missed. */
  ghost predicate Exact(pr: Problem, dist: map<Pos, nat>, level: nat) {
    && (forall q :: q in dist ==> Distance(pr.free, pr.start, q, dist[q]))
    && Within(pr.free, pr.start, level) <= dist.Keys
  }

  /** The queue holds distinct found cells in order of distance, at most one level apart. */
  ghost predicate Queued(dist: map<Pos, nat>, pending: seq<Pos>, level: nat) {
    && (forall i :: 0 <= i < |pending| ==>
          pending[i] in dist && level <= dist[pending[i]] <= level + 1)
    && (forall i, j :: 0 <= i < j < |pending| ==>
          pending[i] != pending[j] && dist[pending[i]] <= dist[pending[j]])
  }

  /** Every found cell is still queued, is being expanded, or is done. */
  ghost predicate Covered(pr: Problem, dist: map<Pos, nat>, pending: seq<Pos>, expanding: set<Pos>) {
    forall p :: p in dist ==> p in pending || p in expanding || Done(pr, dist, p)
  }

  ghost predicate Inv(pr: Problem, s: Search, expanding: set<Pos>) {
    && pr.Valid() && Lettered(pr, s.dist, s.grid) && Exact(pr, s.dist, s.level)
    && Queued(s.dist, s.pending, s.level) && Covered(pr, s.dist, s.pending, expanding)
    && forall p :: p in expanding ==> p in s.dist && s.dist[p] == s.level && p !in s.pending
  }

  lemma InvParts(pr: Problem, s: Search, expanding: set<Pos>)
    requires Inv(pr, s, expanding)
    ensures pr.Valid() && Lettered(pr, s.dist, s.grid)
  {
  }

  lemma FoundIsInterior(pr: Problem, s: Search, p: Pos)
    requires Inv(pr, s, {p})
    ensures Interior(p)
  {
    hide Exact, Queued, Covered, Lettered;
    FoundInside(pr, s.dist, s.grid, p);
  }

  /** The search with the start alone in its queue. */
  lemma StartInv(pr: Problem, grid: Grid)
    requires pr.Valid() && Lettered(pr, map[pr.start := 0], grid)
    ensures Inv(pr, Start(pr, grid), {})
  {
    hide Lettered;
  }

  lemma FrontFound(pr: Problem, s: Search)
    requires Inv(pr, s, {}) && s.pending != []
    ensures s.pending[0] in s.dist
  {
  }

  /** The cell at the front of the queue is reached by letters in its exact distance. */
  lemma FoundRobot(pr: Problem, s: Search, robot: Pos)
    requires Inv(pr, s, {}) && robot in s.dist
    ensures Reachable(pr.free, pr.start, robot)
    ensures Distance(pr.free, pr.start, robot, s.dist[robot])
    ensures LeadsHome(s.grid, robot, s.dist[robot]) && Walk(s.grid, robot, s.dist[robot]) == pr.start
  {
    hide Queued, Covered;
    LettersLeadHome(pr, s.dist, s.grid, robot);
  }

  /** An empty queue means that every reachable cell has been found. */
  lemma NothingLeft(pr: Problem, s: Search, robot: Pos)
    requires Inv(pr, s, {}) && s.pending == [] && robot !in s.dist
    ensures !Reachable(pr.free, pr.start, robot)
  {
    hide Queued, Exact, Reachable;
    if Reachable(pr.free, pr.start, robot) {
      AllDone(pr, s.dist, robot);
    }
  }

  // ---------------------------------------------------------------------------
  // Taking a cell off the queue
  // ---------------------------------------------------------------------------

  lemma NextLevelFound(pr: Problem, s: Search, q: Pos)
    requires Exact(pr, s.dist, s.level) && Covered(pr, s.dist, s.pending, {})
    requires Queued(s.dist, s.pending, s.level)
    requires forall i :: 0 <= i < |s.pending| ==> s.dist[s.pending[i]] == s.level + 1
    requires q in Within(pr.free, pr.start, s.level + 1)
    ensures q in s.dist
  {
    hide Distance;
    if q !in Within(pr.free, pr.start, s.level) {
      var p :| p in Within(pr.free, pr.start, s.level) && Adjacent(p, q);
      DistanceUnique(pr.free, pr.start, p, s.dist[p], s.level);
      assert p !in s.pending;
      assert Done(pr, s.dist, p);
    }
  }

  lemma OneLevelUp(dist: map<Pos, nat>, pending: seq<Pos>, level: nat)
    requires Queued(dist, pending, level) && pending != [] && dist[pending[0]] == level + 1
    ensures forall i :: 0 <= i < |pending| ==> dist[pending[i]] == level + 1
  {
  }

  lemma QueuedHigher(dist: map<Pos, nat>, pending: seq<Pos>, level: nat)
    requires Queued(dist, pending, level) && pending != []
    ensures dist[pending[0]] in {level, level + 1} && Queued(dist, pending, dist[pending[0]])
  {
  }

  /** The front of the queue is at the search's level or one above, and then the level can be raised. */
  lemma RaiseLevel(pr: Problem, s: Search)
    requires Inv(pr, s, {}) && s.pending != []
    ensures s.pending[0] in s.dist && Inv(pr, s.(level := s.dist[s.pending[0]]), {})
  {
    hide Distance, Within, Lettered, Covered, Queued;
    QueuedHigher(s.dist, s.pending, s.level);
    var n := s.dist[s.pending[0]];
    if n == s.level + 1 {
      OneLevelUp(s.dist, s.pending, s.level);
      forall q | q in Within(pr.free, pr.start, n)
        ensures q in s.dist
      {
        NextLevelFound(pr, s, q);
      }
    }
  }

  lemma DequeueQueued(dist: map<Pos, nat>, p: Pos, rest: seq<Pos>, level: nat)
    requires Queued(dist, [p] + rest, level)
    ensures Queued(dist, rest, level) && p !in rest
  {
    var all := [p] + rest;
    forall i | 0 <= i < |rest|
      ensures rest[i] == all[i + 1] && rest[i] != p
    {
      assert all[0] != all[i + 1];
    }
  }

  /** Taking the first cell off the queue to expand it. */
  lemma Dequeue(pr: Problem, s: Search)
    requires Inv(pr, s, {}) && s.pending != [] && s.pending[0] in s.dist && s.dist[s.pending[0]] == s.level
    ensures Inv(pr, s.(pending := s.pending[1..]), {s.pending[0]})
  {
    hide Lettered, Exact, Done, Queued;
    assert s.pending == [s.pending[0]] + s.pending[1..];
    DequeueQueued(s.dist, s.pending[0], s.pending[1..], s.level);
  }

  /** The search state after the first cell has been taken off the queue. */
  ghost function Taken(s: Search): Search
    requires s.pending != [] && s.pending[0] in s.dist
  {
    Search(s.dist, s.grid, s.pending[1..], s.dist[s.pending[0]])
  }

  lemma TakeFirst(pr: Problem, s: Search)
    requires Inv(pr, s, {}) && s.pending != []
    ensures s.pending[0] in s.dist && Inv(pr, Taken(s), {s.pending[0]})
  {
    hide Inv;
    RaiseLevel(pr, s);
    Dequeue(pr, s.(level := s.dist[s.pending[0]]));
  }

  // ---------------------------------------------------------------------------
  // Finding a neighbour
  // ---------------------------------------------------------------------------

  /** The search state after a neighbour has been marked with a letter and queued. */
  function Found(s: Search, q: Pos, letter: char): Search {
    Search(s.dist[q := s.level + 1], s.grid[q := letter], s.pending + [q], s.level)
  }

  lemma FoundDistance(pr: Problem, dist: map<Pos, nat>, level: nat, p: Pos, q: Pos)
    requires Exact(pr, dist, level) && p in dist && dist[p] == level
    requires q in pr.free && q !in dist && Adjacent(p, q)
    ensures Distance(pr.free, pr.start, q, level + 1)
  {
  }

  lemma FoundExact(pr: Problem, dist: map<Pos, nat>, level: nat, q: Pos)
    requires Exact(pr, dist, level) && q !in dist && Distance(pr.free, pr.start, q, level + 1)
    ensures Exact(pr, dist[q := level + 1], level)
  {
    hide Distance, Within;
  }

  lemma FoundQueued(dist: map<Pos, nat>, pending: seq<Pos>, level: nat, q: Pos)
    requires Queued(dist, pending, level) && q !in dist
    ensures Queued(dist[q := level + 1], pending + [q], level)
  {
  }

  lemma FoundCovered(pr: Problem, dist: map<Pos, nat>, pending: seq<Pos>, p: Pos, q: Pos, n: nat)
    requires Covered(pr, dist, pending, {p}) && q !in dist
    ensures Covered(pr, dist[q := n], pending + [q], {p})
  {
    var dist' := dist[q := n];
    forall r | r in dist' && r != p && r !in pending + [q]
      ensures Done(pr, dist', r)
    {
      assert Done(pr, dist, r);
    }
  }

  /** Marking and queueing a new neighbour keeps the invariant. */
  lemma FindNeighbour(pr: Problem, s: Search, p: Pos, q: Pos, letter: char)
    requires Inv(pr, s, {p}) && Adjacent(p, q) && q in s.grid && s.grid[q] == '0'
    requires letter in {'l', 'r', 'u', 'd'} && Follow(q, letter) == p
    ensures Inv(pr, Found(s, q, letter), {p}) && q in pr.free && q !in s.dist
  {
    hide Lettered, Exact, Queued, Covered, Adjacent;
    NeighbourIsNew(pr, s.dist, s.grid, p, q);
    FoundLettered(pr, s.dist, s.grid, p, q, letter);
    FoundDistance(pr, s.dist, s.level, p, q);
    FoundExact(pr, s.dist, s.level, q);
    FoundQueued(s.dist, s.pending, s.level, q);
    FoundCovered(pr, s.dist, s.pending, p, q, s.level + 1);
  }

  /** Once all its neighbours are found, the cell is no longer being expanded. */
  lemma Expanded(pr: Problem, s: Search, p: Pos)
    requires Inv(pr, s, {p}) && Done(pr, s.dist, p)
    ensures Inv(pr, s, {})
  {
    hide Lettered, Exact, Queued, Done;
  }

  // ---------------------------------------------------------------------------
  // Expanding a cell
  // ---------------------------------------------------------------------------

  /** One of the four tests: a neighbour marked '0' is marked with a letter and queued. */
  function Visited(s: Search, q: Pos, letter: char): Search {
    if q in s.grid && s.grid[q] == '0' then Found(s, q, letter) else s
  }

  /** The four tests for the cell taken off the queue, in order. */
  function ExpandAll(s: Search, p: Pos): Search {
    var s1 := Visited(s, Pos(p.y + 1, p.x), 'd');
    var s2 := Visited(s1, Pos(p.y, p.x - 1), 'r');
    var s3 := Visited(s2, Pos(p.y - 1, p.x), 'u');
    Visited(s3, Pos(p.y, p.x + 1), 'l')
  }

  /** What one test does to the queue and to the marks. */
  lemma VisitedMarks(s: Search, q: Pos, letter: char)
    ensures Visited(s, q, letter).pending == s.pending + (if Open(s.grid, q) then [q] else [])
    ensures Visited(s, q, letter).grid == if Open(s.grid, q) then s.grid[q := letter] else s.grid
  {
  }

  /** The four neighbours of a cell in the order of the tests, with the letters that lead back from them. */
  lemma ExpandedInOrder(s: Search, p: Pos)
    ensures var up, left, down, right := Pos(p.y + 1, p.x), Pos(p.y, p.x - 1), Pos(p.y - 1, p.x), Pos(p.y, p.x + 1);
            var s' := ExpandAll(s, p);
            && s'.pending ==
                 s.pending
                 + (if Open(s.grid, up) then [up] else []) + (if Open(s.grid, left) then [left] else [])
                 + (if Open(s.grid, down) then [down] else []) + (if Open(s.grid, right) then [right] else [])
            && s'.grid.Keys == s.grid.Keys
            && (forall q :: q in s.grid ==>
                  s'.grid[q] ==
                    if !Open(s.grid, q) then s.grid[q] else if q == up then 'd' else if q == left then 'r'
                    else if q == down then 'u' else if q == right then 'l' else '0')
  {
    hide Visited;
    var s1 := Visited(s, Pos(p.y + 1, p.x), 'd');
    var s2 := Visited(s1, Pos(p.y, p.x - 1), 'r');
    var s3 := Visited(s2, Pos(p.y - 1, p.x), 'u');
    VisitedMarks(s, Pos(p.y + 1, p.x), 'd');
    VisitedMarks(s1, Pos(p.y, p.x - 1), 'r');
    VisitedMarks(s2, Pos(p.y - 1, p.x), 'u');
    VisitedMarks(s3, Pos(p.y, p.x + 1), 'l');
  }

  lemma VisitedGrows(s: Search, q: Pos, letter: char)
    ensures |s.pending| <= |Visited(s, q, letter).pending|
  {
  }

  /**
   From one search state to a later one: more cells are found, the queue grows by as many as are
   found, and a cell that has not been taken off the queue before still has not.
   */
  ghost predicate Onwards(pr: Problem, s: Search, s': Search, robot: Pos) {
    && s.dist.Keys <= s'.dist.Keys
    && |s.pending| <= |s'.pending|
    && |s'.pending| + |pr.free - s'.dist.Keys| == |s.pending| + |pr.free - s.dist.Keys|
    && ((robot in s.dist ==> robot in s.pending) ==> robot in s'.dist ==> robot in s'.pending)
  }

  lemma VisitedStep(pr: Problem, s: Search, p: Pos, q: Pos, letter: char, robot: Pos)
    requires Inv(pr, s, {p}) && Adjacent(p, q) && InGrid(q)
    requires letter in {'l', 'r', 'u', 'd'} && Follow(q, letter) == p
    ensures Inv(pr, Visited(s, q, letter), {p}) && Onwards(pr, s, Visited(s, q, letter), robot)
    ensures q in pr.free ==> q in Visited(s, q, letter).dist
  {
    hide Inv, Adjacent, Lettered;
    InvParts(pr, s, {p});
    GridCovers(pr, s.dist, s.grid, q);
    if s.grid[q] == '0' {
      FindNeighbour(pr, s, p, q, letter);
      assert Found(s, q, letter).dist.Keys == s.dist.Keys + {q};
      OneFewerLeft(pr.free, s.dist.Keys, q);
    } else {
      NeighbourKnown(pr, s.dist, s.grid, p, q);
    }
  }

  /** Expanding a cell finds all its neighbours, and then it is no longer being expanded. */
  lemma ExpandKeeps(pr: Problem, s: Search, p: Pos, robot: Pos)
    requires Inv(pr, s, {p})
    ensures Inv(pr, ExpandAll(s, p), {}) && Onwards(pr, s, ExpandAll(s, p), robot)
  {
    hide Inv, Visited, Done;
    FoundIsInterior(pr, s, p);
    var s1 := Visited(s, Pos(p.y + 1, p.x), 'd');
    var s2 := Visited(s1, Pos(p.y, p.x - 1), 'r');
    var s3 := Visited(s2, Pos(p.y - 1, p.x), 'u');
    var s4 := Visited(s3, Pos(p.y, p.x + 1), 'l');
    VisitedStep(pr, s, p, Pos(p.y + 1, p.x), 'd', robot);
    VisitedStep(pr, s1, p, Pos(p.y, p.x - 1), 'r', robot);
    VisitedStep(pr, s2, p, Pos(p.y - 1, p.x), 'u', robot);
    VisitedStep(pr, s3, p, Pos(p.y, p.x + 1), 'l', robot);
    FourNeighbours(pr, s4.dist, p);
    Expanded(pr, s4, p);
  }

  // ---------------------------------------------------------------------------
  // The whole search
  // ---------------------------------------------------------------------------

  function Start(pr: Problem, grid: Grid): Search {
    Search(map[pr.start := 0], grid, [pr.start], 0)
  }

  /** The search state after `n` cells have been expanded, or when the search has ended before. */
  ghost function Steps(s: Search, robot: Pos, n: nat): Search {
    if n == 0 then s
    else
      var before := Steps(s, robot, n - 1);
      if before.pending == [] || before.pending[0] == robot || before.pending[0] !in before.dist then before
      else ExpandAll(Taken(before), before.pending[0])
  }

  lemma NoSteps(s: Search, robot: Pos)
    ensures Steps(s, robot, 0) == s
  {
  }

  /** The search never queues more than `most` cells at once. */
  ghost predicate NeverMoreThan(s: Search, robot: Pos, most: nat) {
    forall n: nat :: |Steps(s, robot, n).pending| <= most
  }

  lemma {:induction false} StepsKeep(pr: Problem, grid: Grid, robot: Pos, n: nat)
    requires pr.Valid() && Lettered(pr, map[pr.start := 0], grid)
    ensures Inv(pr, Steps(Start(pr, grid), robot, n), {})
  {
    hide Inv, ExpandAll, Lettered, Onwards;
    if n == 0 {
      StartInv(pr, grid);
    } else {
      StepsKeep(pr, grid, robot, n - 1);
      var before := Steps(Start(pr, grid), robot, n - 1);
      if before.pending != [] && before.pending[0] != robot {
        TakeFirst(pr, before);
        ExpandKeeps(pr, Taken(before), before.pending[0], robot);
      }
    }
  }

  /** What one more step brings when the front of the queue is not the robot's cell. */
  lemma NextStep(pr: Problem, s0: Search, robot: Pos, n: nat, s: Search, most: nat)
    requires s == Steps(s0, robot, n) && Inv(pr, s, {}) && s.pending != [] && s.pending[0] != robot
    requires robot in s.dist ==> robot in s.pending
    requires NeverMoreThan(s0, robot, most)
    ensures s.pending[0] in s.dist && Interior(s.pending[0])
    ensures var s' := Steps(s0, robot, n + 1);
            && s' == ExpandAll(Taken(s), s.pending[0]) && |s'.pending| <= most
            && Inv(pr, s', {}) && (robot in s'.dist ==> robot in s'.pending)
            && |s'.pending| + |pr.free - s'.dist.Keys| + 1 == |s.pending| + |pr.free - s.dist.Keys|
  {
    hide Inv, ExpandAll;
    TakeFirst(pr, s);
    FoundIsInterior(pr, Taken(s), s.pending[0]);
    ExpandKeeps(pr, Taken(s), s.pending[0], robot);
    assert s.pending == [s.pending[0]] + s.pending[1..];
  }

  // ---------------------------------------------------------------------------
  // How long the queue gets
  // ---------------------------------------------------------------------------

  /** The cells exactly `n` moves from the start. */
  ghost function Layer(pr: Problem, n: nat): (cells: set<Pos>)
    ensures forall q :: q in cells <==> Distance(pr.free, pr.start, q, n)
  {
    if n == 0 then Within(pr.free, pr.start, 0)
    else Within(pr.free, pr.start, n) - Within(pr.free, pr.start, n - 1)
  }

  /** No two successive layers of the maze hold more than `most` cells together. */
  ghost predicate LayersFit(pr: Problem, most: nat) {
    forall n: nat :: |Layer(pr, n)| + |Layer(pr, n + 1)| <= most
  }

  lemma UnionCount(a: set<Pos>, b: set<Pos>)
    ensures |a + b| <= |a| + |b|
  {
  }

  /** The queue lies in two successive layers. */
  lemma QueueInLayers(pr: Problem, s: Search, most: nat)
    requires Inv(pr, s, {}) && LayersFit(pr, most)
    ensures |s.pending| <= most
  {
    hide Lettered, Covered, Within, Distance;
    var near, far := Layer(pr, s.level), Layer(pr, s.level + 1);
    forall i | 0 <= i < |s.pending|
      ensures s.pending[i] in near + far
    {
      assert s.pending[i] in s.dist;
    }
    DistinctFit(s.pending, near + far);
    UnionCount(near, far);
  }

  /** What a look at the maze alone can guarantee about the length of the queue. */
  lemma LayersBoundQueue(pr: Problem, grid: Grid, robot: Pos, most: nat)
    requires pr.Valid() && Lettered(pr, map[pr.start := 0], grid) && LayersFit(pr, most)
    ensures NeverMoreThan(Start(pr, grid), robot, most)
  {
    hide Inv, Lettered, LayersFit, Steps;
    forall n: nat
      ensures |Steps(Start(pr, grid), robot, n).pending| <= most
    {
      StepsKeep(pr, grid, robot, n);
      QueueInLayers(pr, Steps(Start(pr, grid), robot, n), most);
    }
  }
}
