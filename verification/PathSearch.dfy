/** The searches of path_search/all_threads.c on their own arrays. */
module PathSearch {
  import opened Maze
  import opened BreadthFirst
  import opened Counting
  import opened Modular

  const MAXQUEUESIZE := 80

  // ---------------------------------------------------------------------------
  // The ring of coordinate pairs
  // ---------------------------------------------------------------------------

  /** Where the i-th queued pair starts. */
  function Slot(tail: nat, i: nat): (k: nat) {
    (tail + 2 * i) % MAXQUEUESIZE
  }

  /** The ring holds the given cells, oldest at the tail; one pair of places stays unused. */
  ghost predicate Holds(queue: seq<int>, head: nat, tail: nat, cells: seq<Pos>) {
    && |queue| == MAXQUEUESIZE && tail < MAXQUEUESIZE && tail % 2 == 0
    && |cells| <= MAXQUEUESIZE / 2 - 1 && head == Slot(tail, |cells|)
    && forall i :: 0 <= i < |cells| ==>
         queue[Slot(tail, i)] == cells[i].y && Slot(tail, i) + 1 < |queue|
         && queue[Slot(tail, i) + 1] == cells[i].x
  }

  lemma SlotsDiffer(tail: nat, i: nat, j: nat)
    requires tail % 2 == 0 && i < j < MAXQUEUESIZE / 2
    ensures Slot(tail, i) != Slot(tail, j) && Slot(tail, i) % 2 == Slot(tail, j) % 2 == 0
    ensures Slot(tail, i) + 1 < MAXQUEUESIZE
  {
    var a, b := tail + 2 * i, tail + 2 * j;
    assert a == MAXQUEUESIZE * (a / MAXQUEUESIZE) + a % MAXQUEUESIZE;
    assert b == MAXQUEUESIZE * (b / MAXQUEUESIZE) + b % MAXQUEUESIZE;
  }

  lemma SlotNext(tail: nat, i: nat)
    ensures (Slot(tail, i) + 2) % MAXQUEUESIZE == Slot(tail, i + 1)
    ensures tail < MAXQUEUESIZE ==> Slot(tail, 0) == tail
  {
    var a := tail + 2 * i;
    assert a + 2 == a % MAXQUEUESIZE + 2 + MAXQUEUESIZE * (a / MAXQUEUESIZE);
    AddMultiple(a % MAXQUEUESIZE + 2, MAXQUEUESIZE, a / MAXQUEUESIZE);
  }

  lemma SlotShifts(tail: nat, i: nat)
    requires tail < MAXQUEUESIZE
    ensures Slot((tail + 2) % MAXQUEUESIZE, i) == Slot(tail, i + 1)
  {
    var a := tail + 2;
    AddMultiple(a % MAXQUEUESIZE + 2 * i, MAXQUEUESIZE, a / MAXQUEUESIZE);
    assert a % MAXQUEUESIZE + 2 * i + MAXQUEUESIZE * (a / MAXQUEUESIZE) == tail + 2 * (i + 1);
  }

  /**
   What the ring holds after one more pair: a fortieth pair makes it look empty, and with that
   everything in it is lost.
   */
  function Pushed(cells: seq<Pos>, p: Pos): (r: seq<Pos>) {
    if |cells| + 1 == MAXQUEUESIZE / 2 then [] else cells + [p]
  }

  lemma EnqueueHolds(queue: seq<int>, head: nat, tail: nat, cells: seq<Pos>, p: Pos)
    requires Holds(queue, head, tail, cells)
    ensures head + 1 < MAXQUEUESIZE
    ensures Holds(queue[head := p.y][head + 1 := p.x], (head + 2) % MAXQUEUESIZE, tail, Pushed(cells, p))
  {
    hide Slot;
    SlotFits(tail, |cells|);
    SlotNext(tail, |cells|);
    if |cells| + 1 == MAXQUEUESIZE / 2 {
      FortyLookEmpty(tail);
    } else {
      forall i | 0 <= i < |cells|
        ensures Slot(tail, i) != head && Slot(tail, i) % 2 == head % 2
      {
        SlotsDiffer(tail, i, |cells|);
      }
    }
  }

  lemma SlotFits(tail: nat, i: nat)
    requires tail % 2 == 0
    ensures Slot(tail, i) % 2 == 0 && Slot(tail, i) + 1 < MAXQUEUESIZE
  {
    var a := tail + 2 * i;
    assert a == MAXQUEUESIZE * (a / MAXQUEUESIZE) + a % MAXQUEUESIZE;
  }

  lemma DequeueHolds(queue: seq<int>, head: nat, tail: nat, cells: seq<Pos>)
    requires Holds(queue, head, tail, cells) && cells != []
    ensures tail + 1 < MAXQUEUESIZE && cells[0] == Pos(queue[tail], queue[tail + 1])
    ensures Holds(queue, head, (tail + 2) % MAXQUEUESIZE, cells[1..])
  {
    hide Slot;
    SlotNext(tail, 0);
    SlotNext(tail, |cells| - 1);
    var tail' := (tail + 2) % MAXQUEUESIZE;
    forall i | 0 <= i < |cells|
      ensures Slot(tail', i) == Slot(tail, i + 1)
    {
      SlotShifts(tail, i);
    }
  }

  /** Comparing the two indices tells whether anything is queued. */
  lemma EmptyWhenEqual(queue: seq<int>, head: nat, tail: nat, cells: seq<Pos>)
    requires Holds(queue, head, tail, cells)
    ensures head == tail <==> cells == []
  {
    assert Slot(tail, 0) == tail;
    if cells != [] {
      SlotsDiffer(tail, 0, |cells|);
    }
  }

  /** One pair more than the ring holds would make it look empty. */
  lemma FortyLookEmpty(tail: nat)
    requires tail < MAXQUEUESIZE
    ensures Slot(tail, 0) == tail == Slot(tail, MAXQUEUESIZE / 2)
    ensures forall n: nat :: 0 < n <= MAXQUEUESIZE / 2 ==> (Slot(tail, n) == tail <==> n == MAXQUEUESIZE / 2)
  {
    AddMultiple(tail, MAXQUEUESIZE, 1);
    forall n: nat | 0 < n < MAXQUEUESIZE / 2
      ensures Slot(tail, n) != tail
    {
      if Slot(tail, n) == tail {
        CloseCongruent(tail + 2 * n, tail, MAXQUEUESIZE);
      }
    }
  }

  lemma HoldsLength(queue: seq<int>, head: nat, tail: nat, cells: seq<Pos>)
    requires Holds(queue, head, tail, cells)
    ensures |queue| == MAXQUEUESIZE
  {
  }

  // ---------------------------------------------------------------------------
  // The grids
  // ---------------------------------------------------------------------------

  predicate Sized(a: array2<char>) {
    a.Length0 == HEIGHT && a.Length1 == WIDTH
  }

  ghost function GridOf(a: array2<char>): Grid
    reads a
    requires Sized(a)
  {
    map y, x | 0 <= y < HEIGHT && 0 <= x < WIDTH :: Pos(y, x) := a[y, x]
  }

  lemma GridAt(a: array2<char>, y: int, x: int)
    requires Sized(a) && InGrid(Pos(y, x))
    ensures Pos(y, x) in GridOf(a) && GridOf(a)[Pos(y, x)] == a[y, x]
  {
  }

  /** No cell that has been marked, and no wall, is written again. */
  ghost predicate KeepsMarks(before: Grid, after: Grid) {
    forall q :: q in before && before[q] != '0' ==> Marked(after, q, before[q])
  }

  /** The first of the first `k` neighbours, in the order up, left, down, right, that is open gets its letter. */
  ghost predicate EntersFirst(before: Grid, after: Grid, p: Pos, k: nat) {
    && KeepsMarks(before, after)
    && if k >= 1 && Open(before, Pos(p.y + 1, p.x)) then Marked(after, Pos(p.y + 1, p.x), 'd')
       else if k >= 2 && Open(before, Pos(p.y, p.x - 1)) then Marked(after, Pos(p.y, p.x - 1), 'r')
       else if k >= 3 && Open(before, Pos(p.y - 1, p.x)) then Marked(after, Pos(p.y - 1, p.x), 'u')
       else if k >= 4 && Open(before, Pos(p.y, p.x + 1)) then Marked(after, Pos(p.y, p.x + 1), 'l')
       else before == after
  }

  /** What one test does to the marks: an open cell is entered, and for any other nothing changes. */
  ghost predicate Tries(before: Grid, after: Grid, q: Pos, letter: char) {
    && KeepsMarks(before, after)
    && if Open(before, q) then Marked(after, q, letter) else before == after
  }

  predicate IsTest(p: Pos, k: nat, q: Pos, letter: char) {
    || (k == 0 && q == Pos(p.y + 1, p.x) && letter == 'd') || (k == 1 && q == Pos(p.y, p.x - 1) && letter == 'r')
    || (k == 2 && q == Pos(p.y - 1, p.x) && letter == 'u') || (k == 3 && q == Pos(p.y, p.x + 1) && letter == 'l')
  }

  lemma KeptTwice(g0: Grid, g1: Grid, g2: Grid)
    requires KeepsMarks(g0, g1) && KeepsMarks(g1, g2)
    ensures KeepsMarks(g0, g2)
  {
    forall q | q in g0 && g0[q] != '0'
      ensures Marked(g2, q, g0[q])
    {
      assert Marked(g1, q, g0[q]);
    }
  }

  lemma KeptMark(g0: Grid, g1: Grid, q: Pos, letter: char)
    requires KeepsMarks(g0, g1) && letter != '0' && Marked(g0, q, letter)
    ensures Marked(g1, q, letter)
  {
  }

  /** Nothing is entered before the test that finds an open cell, which may end the search. */
  lemma NextTest(g0: Grid, g1: Grid, g2: Grid, p: Pos, k: nat, q: Pos, letter: char)
    requires EntersFirst(g0, g1, p, k) && Tries(g1, g2, q, letter) && IsTest(p, k, q, letter)
    ensures EntersFirst(g0, g2, p, k + 1)
    ensures Open(g1, q) ==> EntersFirst(g0, g2, p, 4)
  {
    KeptTwice(g0, g1, g2);
    hide KeepsMarks, Marked;
    if g0 != g1 {
      if k >= 1 && Open(g0, Pos(p.y + 1, p.x)) {
        KeptMark(g1, g2, Pos(p.y + 1, p.x), 'd');
      } else if k >= 2 && Open(g0, Pos(p.y, p.x - 1)) {
        KeptMark(g1, g2, Pos(p.y, p.x - 1), 'r');
      } else if k >= 3 && Open(g0, Pos(p.y - 1, p.x)) {
        KeptMark(g1, g2, Pos(p.y - 1, p.x), 'u');
      }
    }
  }

  /** Marking an open cell and then searching from it is one test. */
  lemma MarkedThenKept(before: Grid, after: Grid, q: Pos, letter: char)
    requires Open(before, q) && letter != '0' && KeepsMarks(before[q := letter], after)
    ensures Tries(before, after, q, letter)
  {
    assert KeepsMarks(before, before[q := letter]);
    KeptTwice(before, before[q := letter], after);
    assert Marked(before[q := letter], q, letter);
  }

  lemma EntersKeeps(before: Grid, after: Grid, p: Pos, k: nat)
    requires EntersFirst(before, after, p, k)
    ensures KeepsMarks(before, after)
  {
  }

  /** Each of the four neighbours of a cell off the border is in the grid, and its letter leads back. */
  lemma LettersOfTests(p: Pos, k: nat, q: Pos, letter: char)
    requires Interior(p) && IsTest(p, k, q, letter)
    ensures InGrid(q) && Adjacent(p, q) && letter in {'l', 'r', 'u', 'd'} && Follow(q, letter) == p
  {
  }

  lemma NoneEntered(g: Grid, p: Pos)
    ensures EntersFirst(g, g, p, 0)
  {
  }

  lemma NoTest(g: Grid, q: Pos, letter: char)
    requires !Open(g, q)
    ensures Tries(g, g, q, letter)
  {
  }

  /** The cells of the maze that are not walls. */
  ghost function FreeCells(maze: array2<char>): (cells: set<Pos>)
    reads maze
    requires Sized(maze)
    ensures forall p :: p in cells <==> InGrid(p) && maze[p.y, p.x] != 'w'
  {
    set y, x | 0 <= y < HEIGHT && 0 <= x < WIDTH && maze[y, x] != 'w' :: Pos(y, x)
  }

  /** A grid of walls and '0' with '^' at the start is lettered for the start alone. */
  lemma FreshlyLettered(maze: array2<char>, visited: array2<char>, pr: Problem)
    requires Sized(maze) && Sized(visited) && pr.Valid() && pr.free == FreeCells(maze)
    requires forall y, x :: 0 <= y < HEIGHT && 0 <= x < WIDTH && Pos(y, x) != pr.start ==>
               visited[y, x] == if maze[y, x] == 'w' then 'w' else '0'
    requires visited[pr.start.y, pr.start.x] == '^'
    ensures Lettered(pr, map[pr.start := 0], GridOf(visited))
  {
    hide GridOf, FreeCells;
    forall q | InGrid(q)
      ensures q in GridOf(visited) && GridOf(visited)[q] == visited[q.y, q.x]
    {
      GridAt(visited, q.y, q.x);
    }
  }

  method Mark(visited: array2<char>, y: int, x: int, letter: char)
    requires Sized(visited) && InGrid(Pos(y, x))
    modifies visited
    ensures GridOf(visited) == old(GridOf(visited))[Pos(y, x) := letter]
  {
    visited[y, x] := letter;
  }

  /** The places visited by following `n` letters from `p`. */
  function Path(g: Grid, p: Pos, n: nat): (places: seq<Pos>)
    ensures |places| <= n + 1 && places != [] && places[0] == p
    decreases n
  {
    if n == 0 || p !in g then [p] else [p] + Path(g, Follow(p, g[p]), n - 1)
  }

  /** A path that leads home has one place per move and ends where the walk ends. */
  lemma {:induction false} PathLeadsHome(g: Grid, p: Pos, n: nat)
    requires LeadsHome(g, p, n)
    ensures |Path(g, p, n)| == n + 1 && Path(g, p, n)[n] == Walk(g, p, n)
    ensures Walk(g, p, n) in g && g[Walk(g, p, n)] == '^'
    decreases n
  {
    if n > 0 {
      PathLeadsHome(g, Follow(p, g[p]), n - 1);
    }
  }

  /** A cell from which letters lead home in `n` moves: it is home, or its letter leads nearer. */
  lemma NextPlace(g: Grid, p: Pos, n: nat)
    requires LeadsHome(g, p, n)
    ensures p in g && (p == Walk(g, p, n) <==> n == 0)
    ensures n > 0 ==> g[p] in {'l', 'r', 'u', 'd'}
    ensures n > 0 ==> LeadsHome(g, Follow(p, g[p]), n - 1) && Walk(g, Follow(p, g[p]), n - 1) == Walk(g, p, n)
    ensures n > 0 ==> Path(g, p, n) == [p] + Path(g, Follow(p, g[p]), n - 1)
    ensures n == 0 ==> Path(g, p, n) == [p]
  {
    PathLeadsHome(g, p, n);
    if n > 0 {
      assert Follow(p, g[p]) != p;
    }
  }

  /** printpath: from a cell whose letters lead home it ends, having printed each place on the way. */
  method PrintPath(y0: int, x0: int, visited: array2<char>, othery: int, otherx: int, ghost n: nat)
    returns (printed: seq<Pos>)
    requires Sized(visited) && LeadsHome(GridOf(visited), Pos(y0, x0), n)
    requires Walk(GridOf(visited), Pos(y0, x0), n) == Pos(othery, otherx)
    ensures printed == Path(GridOf(visited), Pos(y0, x0), n)
    ensures |printed| == n + 1 && printed[n] == Pos(othery, otherx)
  {
    hide LeadsHome, Walk, GridOf, Path;
    var y, x := y0, x0;
    ghost var left, g := n, GridOf(visited);
    PathLeadsHome(g, Pos(y0, x0), n);
    ghost var before: seq<Pos> := [];
    printed := [Pos(y, x)];
    while !(y == othery && x == otherx)
      invariant LeadsHome(g, Pos(y, x), left) && Walk(g, Pos(y, x), left) == Pos(othery, otherx)
      invariant printed == before + [Pos(y, x)] && before + Path(g, Pos(y, x), left) == Path(g, Pos(y0, x0), n)
      decreases left
    {
      NextPlace(g, Pos(y, x), left);
      InGridWhenMapped(visited, Pos(y, x));
      before := printed;
      var letter := visited[y, x];
      if letter == 'l' {
        x := x - 1;
      } else if letter == 'r' {
        x := x + 1;
      } else if letter == 'd' {
        y := y - 1;
      } else if letter == 'u' {
        y := y + 1;
      }
      printed := printed + [Pos(y, x)];
      left := left - 1;
    }
    NextPlace(g, Pos(y, x), left);
  }

  lemma InGridWhenMapped(a: array2<char>, p: Pos)
    requires Sized(a) && p in GridOf(a)
    ensures InGrid(p) && GridOf(a)[p] == a[p.y, p.x]
  {
  }

  // ---------------------------------------------------------------------------
  // The two searches
  // ---------------------------------------------------------------------------

  class Searcher {
    const maze: array2<char>
    const bfsvisited: array2<char>
    const dfsvisited: array2<char>
    const queue: array<int>
    var qhead: nat
    var qtail: nat
    /** What the ring holds. */
    ghost var pending: seq<Pos>

    ghost predicate Shaped() {
      && Sized(maze) && Sized(bfsvisited) && Sized(dfsvisited) && queue.Length == MAXQUEUESIZE
      && maze != bfsvisited && maze != dfsvisited && bfsvisited != dfsvisited
    }

    ghost predicate RingValid()
      reads this, queue
    {
      Holds(queue[..], qhead, qtail, pending)
    }

    method Enqueue(y: int, x: int)
      requires RingValid()
      modifies this, queue
      ensures RingValid() && pending == Pushed(old(pending), Pos(y, x))
    {
      hide Slot, Holds;
      EnqueueHolds(queue[..], qhead, qtail, pending, Pos(y, x));
      HoldsLength(queue[..], qhead, qtail, pending);
      queue[qhead] := y;
      queue[qhead + 1] := x;
      assert queue[..] == old(queue[..])[qhead := y][qhead + 1 := x];
      qhead := (qhead + 2) % MAXQUEUESIZE;
      pending := Pushed(pending, Pos(y, x));
    }

    method Dequeue() returns (y: int, x: int)
      requires RingValid() && pending != []
      modifies this
      ensures RingValid() && Pos(y, x) == old(pending[0]) && pending == old(pending[1..])
    {
      hide Slot;
      DequeueHolds(queue[..], qhead, qtail, pending);
      y := queue[qtail];
      x := queue[qtail + 1];
      qtail := (qtail + 2) % MAXQUEUESIZE;
      pending := pending[1..];
    }

    /** The arrays hold the letters and the queue of the search. */
    ghost predicate Linked(s: Search)
      reads this, queue, bfsvisited
      requires Shaped()
    {
      RingValid() && s.pending == pending && s.grid == GridOf(bfsvisited)
    }

    /** The letters are sound and the ring holds found cells, whatever has been lost from it. */
    ghost predicate Sound(pr: Problem, dist: map<Pos, nat>)
      reads this, queue, bfsvisited
      requires Shaped()
    {
      && RingValid() && pr.Valid() && Lettered(pr, dist, GridOf(bfsvisited))
      && forall i :: 0 <= i < |pending| ==> pending[i] in dist
    }

    /** Goes down with every cell taken off the ring and never up. */
    ghost function Left(pr: Problem, dist: map<Pos, nat>): nat
      reads this
    {
      MAXQUEUESIZE * |pr.free - dist.Keys| + |pending|
    }

    /** One of the four tests of bfs: an unvisited cell is marked and queued. */
    method Visit(y: int, x: int, letter: char, ghost pr: Problem, ghost dist: map<Pos, nat>, ghost p: Pos,
                 ghost s: Search)
      returns (ghost dist': map<Pos, nat>)
      requires Shaped() && Sound(pr, dist) && p in dist && InGrid(Pos(y, x)) && Adjacent(p, Pos(y, x))
      requires letter in {'l', 'r', 'u', 'd'} && Follow(Pos(y, x), letter) == p
      modifies this, queue, bfsvisited
      ensures Sound(pr, dist') && dist.Keys <= dist'.Keys && Left(pr, dist') <= old(Left(pr, dist))
      ensures old(Linked(s)) && |Visited(s, Pos(y, x), letter).pending| <= MAXQUEUESIZE / 2 - 1 ==>
                Linked(Visited(s, Pos(y, x), letter))
    {
      hide Holds, GridOf, Lettered, Adjacent;
      ghost var q := Pos(y, x);
      GridAt(bfsvisited, y, x);
      dist' := dist;
      if bfsvisited[y, x] == '0' {
        NeighbourIsNew(pr, dist, GridOf(bfsvisited), p, q);
        FoundLettered(pr, dist, GridOf(bfsvisited), p, q, letter);
        dist' := dist[q := dist[p] + 1];
        assert dist'.Keys == dist.Keys + {q};
        OneFewerLeft(pr.free, dist.Keys, q);
        Mark(bfsvisited, y, x, letter);
        Enqueue(y, x);
      }
    }

    /** The four tests of bfs for the cell just taken off the queue. */
    method Expand(y: int, x: int, ghost pr: Problem, ghost dist: map<Pos, nat>, ghost s: Search)
      returns (ghost dist': map<Pos, nat>)
      requires Shaped() && Sound(pr, dist) && Pos(y, x) in dist
      modifies this, queue, bfsvisited
      ensures Sound(pr, dist') && Left(pr, dist') <= old(Left(pr, dist))
      ensures old(Linked(s)) && |ExpandAll(s, Pos(y, x)).pending| <= MAXQUEUESIZE / 2 - 1 ==>
                Linked(ExpandAll(s, Pos(y, x)))
    {
      hide Linked, GridOf, Lettered, RingValid, Left, Pushed, Visited;
      ghost var p := Pos(y, x);
      FoundInside(pr, dist, GridOf(bfsvisited), p);
      ghost var s1 := Visited(s, Pos(y + 1, x), 'd');
      ghost var s2 := Visited(s1, Pos(y, x - 1), 'r');
      ghost var s3 := Visited(s2, Pos(y - 1, x), 'u');
      VisitedGrows(s1, Pos(y, x - 1), 'r');
      VisitedGrows(s2, Pos(y - 1, x), 'u');
      VisitedGrows(s3, Pos(y, x + 1), 'l');
      dist' := Visit(y + 1, x, 'd', pr, dist, p, s);
      dist' := Visit(y, x - 1, 'r', pr, dist', p, s1);
      dist' := Visit(y - 1, x, 'u', pr, dist', p, s2);
      dist' := Visit(y, x + 1, 'l', pr, dist', p, s3);
    }

    /**
     With walls on the border and fixed sensor readings the search ends, and when it succeeds the
     robot's cell is reachable and the letters lead from it to '^'. While at most 39 pairs are ever
     queued it succeeds exactly when the cell is reachable, and the letters then lead to '^' in
     exactly the least number of moves.
     */
    method Bfs(y0: int, x0: int, myy: int, myx: int, ghost pr: Problem) returns (found: bool, ghost n: nat)
      requires Shaped() && pr.Valid() && pr.start == Pos(y0, x0)
      requires RingValid() && pending == []
      requires Lettered(pr, map[pr.start := 0], GridOf(bfsvisited))
      modifies this, queue, bfsvisited
      ensures found ==> Reachable(pr.free, pr.start, Pos(myy, myx))
      ensures found ==> LeadsHome(GridOf(bfsvisited), Pos(myy, myx), n)
      ensures found ==> Walk(GridOf(bfsvisited), Pos(myy, myx), n) == pr.start
      ensures NeverMoreThan(Start(pr, old(GridOf(bfsvisited))), Pos(myy, myx), MAXQUEUESIZE / 2 - 1) ==>
                && (found <==> Reachable(pr.free, pr.start, Pos(myy, myx)))
                && (found ==> Distance(pr.free, pr.start, Pos(myy, myx), n))
    {
      hide Inv, Holds, Lettered, LeadsHome, Reachable, GridOf, Slot, ExpandAll, FreeCells, Distance, Within,
           NeverMoreThan, Steps, Interior, Walk;
      ghost var s0, dist := Start(pr, GridOf(bfsvisited)), map[pr.start := 0];
      ghost var s, steps := s0, 0;
      ghost var robot := Pos(myy, myx);
      ghost var fits := NeverMoreThan(s0, robot, MAXQUEUESIZE / 2 - 1);
      StartInv(pr, s.grid);
      NoSteps(s0, robot);
      Enqueue(y0, x0);
      while qtail != qhead
        invariant Sound(pr, dist)
        invariant fits ==> s == Steps(s0, robot, steps) && Linked(s) && Inv(pr, s, {})
        invariant fits ==> robot in s.dist ==> robot in s.pending
        decreases Left(pr, dist)
      {
        EmptyWhenEqual(queue[..], qhead, qtail, pending);
        label taking:
        var y, x := Dequeue();
        if y == myy && x == myx {
          LettersLeadHome(pr, dist, GridOf(bfsvisited), robot);
          FoundIsReachable(pr, dist, GridOf(bfsvisited), robot);
          n := dist[robot];
          if fits {
            FrontFound(pr, s);
            FoundRobot(pr, s, robot);
            n := s.dist[robot];
          }
          return true, n;
        }
        if fits {
          NextStep(pr, s0, robot, steps, s, MAXQUEUESIZE / 2 - 1);
          s := Taken(s);
        }
        dist := Expand(y, x, pr, dist, s);
        steps := steps + 1;
        if fits {
          s := Steps(s0, robot, steps);
        }
      }
      EmptyWhenEqual(queue[..], qhead, qtail, pending);
      if fits {
        NothingLeft(pr, s, robot);
      }
      found, n := false, 0;
    }

    /**
     The k-th of the four tests of dfs for the cell `p`: an unvisited neighbour is marked and searched
     from. `g` are the marks before the first test.
     */
    method TryNeighbour(y: int, x: int, letter: char, myy: int, myx: int,
                        ghost pr: Problem, ghost dist: map<Pos, nat>, ghost p: Pos, ghost k: nat, ghost g: Grid)
      returns (found: bool, ghost dist': map<Pos, nat>)
      requires Shaped() && pr.Valid() && Lettered(pr, dist, GridOf(dfsvisited))
      requires p in dist && Interior(p) && IsTest(p, k, Pos(y, x), letter)
      requires EntersFirst(g, GridOf(dfsvisited), p, k)
      modifies dfsvisited
      ensures Lettered(pr, dist', GridOf(dfsvisited)) && dist.Keys <= dist'.Keys
      ensures found ==> Pos(myy, myx) in dist'
      ensures !found ==> Explored(pr, dist, dist') && (Pos(myy, myx) in dist' ==> Pos(myy, myx) in dist)
      ensures !found && Pos(y, x) in pr.free ==> Pos(y, x) in dist'
      ensures EntersFirst(g, GridOf(dfsvisited), p, if found then 4 else k + 1)
      ensures |pr.free - dist'.Keys| <= |pr.free - dist.Keys|
      decreases |pr.free - dist.Keys|, 0
    {
      hide Lettered, GridOf, Adjacent, Done, KeepsMarks, Tries, EntersFirst, IsTest, Interior, Follow;
      ghost var q, before := Pos(y, x), GridOf(dfsvisited);
      LettersOfTests(p, k, q, letter);
      GridAt(dfsvisited, y, x);
      if dfsvisited[y, x] == '0' {
        NeighbourIsNew(pr, dist, before, p, q);
        FoundLettered(pr, dist, before, p, q, letter);
        ghost var dist1 := dist[q := dist[p] + 1];
        assert dist1.Keys == dist.Keys + {q};
        OneFewerLeft(pr.free, dist.Keys, q);
        Mark(dfsvisited, y, x, letter);
        found, dist' := Dfs(y, x, myy, myx, pr, dist1);
        EntersKeeps(before[q := letter], GridOf(dfsvisited), q, if q == Pos(myy, myx) then 0 else 4);
        MarkedThenKept(before, GridOf(dfsvisited), q, letter);
        if !found {
          FoundThenExplored(pr, dist, q, dist[p] + 1, dist');
        }
      } else {
        NeighbourKnown(pr, dist, before, p, q);
        NoTest(before, q, letter);
        found, dist' := false, dist;
      }
      NextTest(g, before, GridOf(dfsvisited), p, k, q, letter);
      FewerLeft(pr.free, dist.Keys, dist'.Keys);
    }

    /**
     The recursive search from a found cell: it ends; it keeps the letters; it succeeds only
     with the robot's cell found; and it fails only with this cell and every cell found
     meanwhile done, none of them the robot's. A mark once made is never changed, and of the four
     neighbours the first unvisited one in the order of the tests is entered from here.
     */
    method Dfs(y: int, x: int, myy: int, myx: int, ghost pr: Problem, ghost dist: map<Pos, nat>)
      returns (found: bool, ghost dist': map<Pos, nat>)
      requires Shaped() && pr.Valid() && Lettered(pr, dist, GridOf(dfsvisited)) && Pos(y, x) in dist
      modifies dfsvisited
      ensures Lettered(pr, dist', GridOf(dfsvisited)) && dist.Keys <= dist'.Keys
      ensures found ==> Pos(myy, myx) in dist'
      ensures !found ==> Explored(pr, dist, dist') && Done(pr, dist', Pos(y, x)) && Pos(myy, myx) != Pos(y, x)
      ensures !found ==> (Pos(myy, myx) in dist' ==> Pos(myy, myx) in dist)
      ensures EntersFirst(old(GridOf(dfsvisited)), GridOf(dfsvisited), Pos(y, x),
                          if Pos(y, x) == Pos(myy, myx) then 0 else 4)
      ensures Pos(y, x) == Pos(myy, myx) ==> found
      decreases |pr.free - dist.Keys|, 1
    {
      hide Lettered, GridOf, Done, Explored, EntersFirst, Interior, Problem.Valid;
      ghost var p, g := Pos(y, x), GridOf(dfsvisited);
      NoneEntered(g, p);
      if y == myy && x == myx {
        return true, dist;
      }
      FoundInside(pr, dist, g, p);
      ghost var d1, d2, d3;
      found, d1 := TryNeighbour(y + 1, x, 'd', myy, myx, pr, dist, p, 0, g);
      if found {
        return true, d1;
      }
      found, d2 := TryNeighbour(y, x - 1, 'r', myy, myx, pr, d1, p, 1, g);
      if found {
        return true, d2;
      }
      ExploredThenExplored(pr, dist, d1, d2);
      found, d3 := TryNeighbour(y - 1, x, 'u', myy, myx, pr, d2, p, 2, g);
      if found {
        return true, d3;
      }
      ExploredThenExplored(pr, dist, d2, d3);
      found, dist' := TryNeighbour(y, x + 1, 'l', myy, myx, pr, d3, p, 3, g);
      if !found {
        ExploredThenExplored(pr, dist, d3, dist');
        FourNeighbours(pr, dist', p);
      }
    }

    /** Both grids get walls where the maze has them and '0' elsewhere; the ring is emptied. */
    method Prefire()
      requires Shaped()
      modifies this, bfsvisited, dfsvisited
      ensures qhead == qtail == 0 && RingValid() && pending == []
      ensures forall y, x :: 0 <= y < HEIGHT && 0 <= x < WIDTH ==>
                bfsvisited[y, x] == dfsvisited[y, x] == if maze[y, x] == 'w' then 'w' else '0'
    {
      var i := 0;
      while i < HEIGHT
        invariant 0 <= i <= HEIGHT
        invariant forall y, x :: 0 <= y < i && 0 <= x < WIDTH ==>
                    bfsvisited[y, x] == dfsvisited[y, x] == if maze[y, x] == 'w' then 'w' else '0'
      {
        var j := 0;
        while j < WIDTH
          invariant 0 <= j <= WIDTH
          invariant forall y, x :: (0 <= y < i && 0 <= x < WIDTH) || (y == i && 0 <= x < j) ==>
                      bfsvisited[y, x] == dfsvisited[y, x] == if maze[y, x] == 'w' then 'w' else '0'
        {
          bfsvisited[i, j] := if maze[i, j] == 'w' then 'w' else '0';
          dfsvisited[i, j] := if maze[i, j] == 'w' then 'w' else '0';
          j := j + 1;
        }
        i := i + 1;
      }
      qhead, qtail, pending := 0, 0, [];
    }

    /** The problem posed by the maze with the other robot at the given cell. */
    ghost function Posed(goaly: int, goalx: int): Problem
      reads maze
      requires Shaped()
    {
      Problem(FreeCells(maze), Pos(goaly, goalx))
    }

    /** The grid with which a search begins. */
    ghost function Prepared(goaly: int, goalx: int): Grid
      reads maze
      requires Shaped()
    {
      map y, x | 0 <= y < HEIGHT && 0 <= x < WIDTH ::
        Pos(y, x) := if y == goaly && x == goalx then '^' else if maze[y, x] == 'w' then 'w' else '0'
    }

    lemma IsPrepared(goaly: int, goalx: int)
      requires Shaped() && InGrid(Pos(goaly, goalx)) && bfsvisited[goaly, goalx] == '^'
      requires forall y, x :: 0 <= y < HEIGHT && 0 <= x < WIDTH && Pos(y, x) != Pos(goaly, goalx) ==>
                 bfsvisited[y, x] == if maze[y, x] == 'w' then 'w' else '0'
      ensures GridOf(bfsvisited) == Prepared(goaly, goalx)
    {
    }

    /** One round of search_loop with bfs, up to the search's answer. */
    method BreadthFirstRound(goaly: int, goalx: int, myy: int, myx: int) returns (found: bool, ghost n: nat)
      requires Shaped() && Posed(goaly, goalx).Valid()
      modifies this, queue, bfsvisited, dfsvisited
      ensures found ==> Reachable(FreeCells(maze), Pos(goaly, goalx), Pos(myy, myx))
      ensures found ==> LeadsHome(GridOf(bfsvisited), Pos(myy, myx), n)
      ensures found ==> Walk(GridOf(bfsvisited), Pos(myy, myx), n) == Pos(goaly, goalx)
      ensures NeverMoreThan(Start(Posed(goaly, goalx), Prepared(goaly, goalx)), Pos(myy, myx), MAXQUEUESIZE / 2 - 1) ==>
                && (found <==> Reachable(FreeCells(maze), Pos(goaly, goalx), Pos(myy, myx)))
                && (found ==> Distance(FreeCells(maze), Pos(goaly, goalx), Pos(myy, myx), n))
    {
      hide NeverMoreThan, Lettered, GridOf, FreeCells, Reachable, Distance, LeadsHome, Holds, Walk;
      ghost var pr := Posed(goaly, goalx);
      Prefire();
      bfsvisited[goaly, goalx] := '^';
      FreshlyLettered(maze, bfsvisited, pr);
      IsPrepared(goaly, goalx);
      found, n := Bfs(goaly, goalx, myy, myx, pr);
    }

    /** One round of search_loop with dfs, up to the search's answer. */
    method DepthFirstRound(goaly: int, goalx: int, myy: int, myx: int) returns (found: bool, ghost n: nat)
      requires Shaped() && Posed(goaly, goalx).Valid()
      modifies this, bfsvisited, dfsvisited
      ensures found <==> Reachable(FreeCells(maze), Pos(goaly, goalx), Pos(myy, myx))
      ensures found ==> LeadsHome(GridOf(dfsvisited), Pos(myy, myx), n)
      ensures found ==> Walk(GridOf(dfsvisited), Pos(myy, myx), n) == Pos(goaly, goalx)
    {
      hide Lettered, GridOf, FreeCells, Within, LeadsHome, Holds, Done, Explored;
      ghost var pr := Posed(goaly, goalx);
      ghost var robot := Pos(myy, myx);
      Prefire();
      dfsvisited[goaly, goalx] := '^';
      FreshlyLettered(maze, dfsvisited, pr);
      ghost var dist;
      found, dist := Dfs(goaly, goalx, myy, myx, pr, map[pr.start := 0]);
      if found {
        n := dist[robot];
        LettersLeadHome(pr, dist, GridOf(dfsvisited), robot);
        FoundIsWithin(pr, dist, GridOf(dfsvisited), robot);
      } else {
        n := 0;
        ExploredAll(pr, dist, robot);
      }
    }
  }
}
