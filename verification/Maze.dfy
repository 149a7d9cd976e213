/**
Mazes, reachability and direction letters for the searches of
real_world_simulators/robot_simulator/path_search/all_threads.c.
*/
module Maze {

  const HEIGHT := 11
  const WIDTH := 15

  datatype Pos = Pos(y: int, x: int)

  predicate InGrid(p: Pos) {
    0 <= p.y < HEIGHT && 0 <= p.x < WIDTH
  }

  /** Off the border, so that all four neighbours are in the grid. */
  predicate Interior(p: Pos) {
    0 < p.y < HEIGHT - 1 && 0 < p.x < WIDTH - 1
  }

  predicate Adjacent(p: Pos, q: Pos) {
    || (q == Pos(p.y + 1, p.x)) || (q == Pos(p.y, p.x - 1))
    || (q == Pos(p.y - 1, p.x)) || (q == Pos(p.y, p.x + 1))
  }

  /** Where a direction letter leads, as in printpath and in the robot's turn. */
  function Follow(p: Pos, letter: char): Pos {
    match letter
    case 'l' => Pos(p.y, p.x - 1)
    case 'r' => Pos(p.y, p.x + 1)
    case 'd' => Pos(p.y - 1, p.x)
    case 'u' => Pos(p.y + 1, p.x)
    case _ => p
  }

  // ---------------------------------------------------------------------------
  // Reachability
  // ---------------------------------------------------------------------------

  /** The cells within `n` moves of `start` over free cells. */
  ghost function Within(free: set<Pos>, start: Pos, n: nat): set<Pos> {
    if n == 0 then {start}
    else
      var near := Within(free, start, n - 1);
      near + set q | q in free && exists p :: p in near && Adjacent(p, q)
  }

  ghost predicate Reachable(free: set<Pos>, start: Pos, q: Pos) {
    exists n: nat :: q in Within(free, start, n)
  }

  /** The least number of moves from `start` to `q` is `n`. */
  ghost predicate Distance(free: set<Pos>, start: Pos, q: Pos, n: nat) {
    q in Within(free, start, n) && (n > 0 ==> q !in Within(free, start, n - 1))
  }

  lemma {:induction false} WithinGrows(free: set<Pos>, start: Pos, m: nat, n: nat)
    requires m <= n
    ensures Within(free, start, m) <= Within(free, start, n)
    decreases n - m
  {
    if m < n {
      WithinGrows(free, start, m, n - 1);
    }
  }

  lemma DistanceUnique(free: set<Pos>, start: Pos, q: Pos, m: nat, n: nat)
    requires Distance(free, start, q, m) && q in Within(free, start, n)
    ensures m <= n
  {
    hide Within;
    if n < m {
      WithinGrows(free, start, n, m - 1);
    }
  }

  /** A set that holds the start and is closed under moves holds every reachable cell. */
  lemma {:induction false} ClosedSet(free: set<Pos>, start: Pos, cells: set<Pos>, n: nat)
    requires start in cells
    requires forall p, q :: p in cells && q in free && Adjacent(p, q) ==> q in cells
    ensures Within(free, start, n) <= cells
  {
    if n > 0 {
      ClosedSet(free, start, cells, n - 1);
    }
  }

  // ---------------------------------------------------------------------------
  // Letters
  // ---------------------------------------------------------------------------

  /** The visited grid as a value. */
  type Grid = map<Pos, char>

  /** Following the letters of the grid from `p`, at most `n` times, stopping at '^'. */
  function Walk(g: Grid, p: Pos, n: nat): Pos
    decreases n
  {
    if n == 0 || p !in g || g[p] == '^' then p else Walk(g, Follow(p, g[p]), n - 1)
  }

  /** Exactly `n` letters lead from `p` to the cell marked '^', through adjacent cells. */
  ghost predicate LeadsHome(g: Grid, p: Pos, n: nat)
    decreases n
  {
    && p in g
    && if n == 0 then g[p] == '^'
       else g[p] != '^' && Adjacent(Follow(p, g[p]), p) && LeadsHome(g, Follow(p, g[p]), n - 1)
  }

  // ---------------------------------------------------------------------------
  // Problems and lettered searches
  // ---------------------------------------------------------------------------

  /** The free cells and the cell where the search starts. */
  datatype Problem = Problem(free: set<Pos>, start: Pos) {
    /** The border is all wall and the search starts inside it. */
    ghost predicate Valid() {
      Interior(start) && forall p :: p in free ==> Interior(p)
    }
  }

  predicate Marked(g: Grid, q: Pos, letter: char) {
    q in g && g[q] == letter
  }

  /** The cell is neither a wall nor visited. */
  predicate Open(g: Grid, q: Pos) {
    Marked(g, q, '0')
  }

  /**
   Every found cell but the start carries a letter that leads one move nearer, and the
   cells not found yet are marked '0' exactly when they are free.
   */
  ghost predicate Lettered(pr: Problem, dist: map<Pos, nat>, grid: Grid)
    requires pr.Valid()
  {
    && pr.start in dist && dist[pr.start] == 0
    && (forall q :: InGrid(q) ==> q in grid)
    && grid[pr.start] == '^'
    && (forall q :: q in dist && q != pr.start ==>
          && q in pr.free && dist[q] > 0 && grid[q] != '^' && grid[q] != '0'
          && var p := Follow(q, grid[q]);
             Adjacent(p, q) && p in dist && dist[p] + 1 == dist[q])
    && (forall q :: InGrid(q) && q !in dist ==> (grid[q] == '0' <==> q in pr.free))
  }

  lemma FoundInside(pr: Problem, dist: map<Pos, nat>, grid: Grid, p: Pos)
    requires pr.Valid() && Lettered(pr, dist, grid) && p in dist
    ensures Interior(p)
  {
  }

  lemma GridCovers(pr: Problem, dist: map<Pos, nat>, grid: Grid, p: Pos)
    requires pr.Valid() && Lettered(pr, dist, grid) && InGrid(p)
    ensures p in grid
  {
  }

  /** All free neighbours of the cell have been found. */
  ghost predicate Done(pr: Problem, dist: map<Pos, nat>, p: Pos) {
    forall q :: q in pr.free && Adjacent(p, q) ==> q in dist
  }

  /** The letters of a found cell lead to '^' in as many moves as were recorded for it. */
  lemma {:induction false} LettersLeadHome(pr: Problem, dist: map<Pos, nat>, grid: Grid, q: Pos)
    requires pr.Valid() && Lettered(pr, dist, grid) && q in dist
    ensures LeadsHome(grid, q, dist[q]) && Walk(grid, q, dist[q]) == pr.start
    decreases dist[q]
  {
    if q != pr.start {
      LettersLeadHome(pr, dist, grid, Follow(q, grid[q]));
    }
  }

  lemma StartIsWithin(free: set<Pos>, start: Pos)
    ensures start in Within(free, start, 0)
  {
  }

  lemma OneMoreMove(free: set<Pos>, start: Pos, p: Pos, q: Pos, n: nat)
    requires p in Within(free, start, n) && q in free && Adjacent(p, q)
    ensures q in Within(free, start, n + 1)
  {
  }

  /** A found cell is reachable in as many moves as were recorded for it. */
  lemma {:induction false} FoundIsWithin(pr: Problem, dist: map<Pos, nat>, grid: Grid, q: Pos)
    requires pr.Valid() && Lettered(pr, dist, grid) && q in dist
    ensures q in Within(pr.free, pr.start, dist[q])
    decreases dist[q]
  {
    hide Within, Adjacent;
    if q == pr.start {
      StartIsWithin(pr.free, pr.start);
    } else {
      var p := Follow(q, grid[q]);
      FoundIsWithin(pr, dist, grid, p);
      OneMoreMove(pr.free, pr.start, p, q, dist[p]);
    }
  }

  lemma FoundIsReachable(pr: Problem, dist: map<Pos, nat>, grid: Grid, q: Pos)
    requires pr.Valid() && Lettered(pr, dist, grid) && q in dist
    ensures Reachable(pr.free, pr.start, q)
  {
    hide Lettered, Within;
    FoundIsWithin(pr, dist, grid, q);
  }

  /** When every found cell is done, every reachable cell has been found. */
  lemma AllDone(pr: Problem, dist: map<Pos, nat>, q: Pos)
    requires pr.start in dist && forall p :: p in dist ==> Done(pr, dist, p)
    requires Reachable(pr.free, pr.start, q)
    ensures q in dist
  {
    var n: nat :| q in Within(pr.free, pr.start, n);
    ClosedSet(pr.free, pr.start, dist.Keys, n);
  }

  /** A cell marked '0' next to a found cell is free, new and inside the border. */
  lemma NeighbourIsNew(pr: Problem, dist: map<Pos, nat>, grid: Grid, p: Pos, q: Pos)
    requires pr.Valid() && Lettered(pr, dist, grid)
    requires p in dist && Adjacent(p, q) && q in grid && grid[q] == '0'
    ensures q in pr.free && q !in dist && Interior(q)
  {
    assert InGrid(q);
  }

  /** A neighbour that is not marked '0' is a wall or already found. */
  lemma NeighbourKnown(pr: Problem, dist: map<Pos, nat>, grid: Grid, p: Pos, q: Pos)
    requires pr.Valid() && Lettered(pr, dist, grid)
    requires Adjacent(p, q) && q in grid && grid[q] != '0'
    ensures q in pr.free ==> q in dist
  {
  }

  lemma FoundLettered(pr: Problem, dist: map<Pos, nat>, grid: Grid, p: Pos, q: Pos, letter: char)
    requires pr.Valid() && Lettered(pr, dist, grid) && p in dist
    requires q in pr.free && q !in dist && Adjacent(p, q)
    requires letter in {'l', 'r', 'u', 'd'} && Follow(q, letter) == p
    ensures Lettered(pr, dist[q := dist[p] + 1], grid[q := letter])
  {
  }

  /** The four neighbours are all there are. */
  lemma FourNeighbours(pr: Problem, dist: map<Pos, nat>, p: Pos)
    requires Pos(p.y + 1, p.x) in pr.free ==> Pos(p.y + 1, p.x) in dist
    requires Pos(p.y, p.x - 1) in pr.free ==> Pos(p.y, p.x - 1) in dist
    requires Pos(p.y - 1, p.x) in pr.free ==> Pos(p.y - 1, p.x) in dist
    requires Pos(p.y, p.x + 1) in pr.free ==> Pos(p.y, p.x + 1) in dist
    ensures Done(pr, dist, p)
  {
  }

  /** From one set of found cells to a larger one, every newly found cell being done. */
  ghost predicate Explored(pr: Problem, dist: map<Pos, nat>, dist': map<Pos, nat>) {
    dist.Keys <= dist'.Keys && forall p :: p in dist' && p !in dist ==> Done(pr, dist', p)
  }

  lemma ExploredThenExplored(pr: Problem, a: map<Pos, nat>, b: map<Pos, nat>, c: map<Pos, nat>)
    requires Explored(pr, a, b) && Explored(pr, b, c)
    ensures Explored(pr, a, c)
  {
    forall p | p in c && p !in a
      ensures Done(pr, c, p)
    {
      if p in b {
        assert Done(pr, b, p);
      }
    }
  }

  /** Exploring from a newly found cell, which ends up done itself. */
  lemma FoundThenExplored(pr: Problem, dist: map<Pos, nat>, q: Pos, n: nat, dist': map<Pos, nat>)
    requires Explored(pr, dist[q := n], dist') && Done(pr, dist', q)
    ensures Explored(pr, dist, dist')
  {
  }

  /** Exploring everything from the start finds every reachable cell. */
  lemma ExploredAll(pr: Problem, dist': map<Pos, nat>, q: Pos)
    requires Explored(pr, map[pr.start := 0], dist') && Done(pr, dist', pr.start)
    requires q !in dist'
    ensures !Reachable(pr.free, pr.start, q)
  {
    hide Done;
    if Reachable(pr.free, pr.start, q) {
      AllDone(pr, dist', q);
    }
  }
}
