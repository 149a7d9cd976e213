/**
The synchronization table of src/core/hw_thread_controller.cpp: SYNC instructions poll
check_sync_table until every thread named in their mask has arrived. The table itself holds 16-bit
masks; the protocol is stated over the sets of threads that they name.
*/
module SyncBarrier {
  import opened SyncMask
  import opened BitCount
  import opened Counting

  const NUM_THREADS := 6

  type Mask = set<nat>

  /** One row of the table: the mask, the threads still awaited, and how many have passed. */
  datatype Entry = Entry(mask: Mask, waiting: Mask, passed: nat)

  type Table = t: seq<Entry> | |t| == 6 witness seq(6, _ => Entry({}, {}, 0))

  // ---------------------------------------------------------------------------
  // One poll
  // ---------------------------------------------------------------------------

  /** The first row with this mask, or -1. */
  function Find(t: seq<Entry>, mask: Mask): (i: int)
    ensures -1 <= i < |t|
    ensures i >= 0 ==> t[i].mask == mask && forall k :: 0 <= k < i ==> t[k].mask != mask
    ensures i < 0 ==> forall k :: 0 <= k < |t| ==> t[k].mask != mask
    decreases |t|
  {
    if t == [] then -1
    else
      var n := |t| - 1;
      var i := Find(t[..n], mask);
      if i >= 0 then i else if t[n].mask == mask then n else -1
  }

  /** The count of passed threads is an unsigned short. */
  function OneMore(passed: nat): nat {
    (passed + 1) % 0x1_0000
  }

  /** What a poll does to the row of its mask, and whether the thread may go on. */
  function Answer(e: Entry, id: nat): (Entry, bool) {
    if e.waiting == {} then
      var passed := OneMore(e.passed);
      (Entry(if passed == |e.mask| then {} else e.mask, {}, passed), true)
    else (e.(waiting := e.waiting - {id}), false)
  }

  /** The effect of check_sync_table, given a row with the mask or a free row. */
  function Poll(t: Table, mask: Mask, id: nat): (Table, bool)
    requires Find(t, mask) >= 0 || Find(t, {}) >= 0
  {
    var i := Find(t, mask);
    if i < 0 then (t[Find(t, {}) := Entry(mask, mask, 0)], false)
    else var (e, proceed) := Answer(t[i], id); (t[i := e], proceed)
  }

  ghost predicate FirstWith(t: Table, mask: Mask, i: int) {
    0 <= i < 6 && t[i].mask == mask && forall k :: 0 <= k < i ==> t[k].mask != mask
  }

  /** While threads are awaited a poll removes its own; afterwards it is counted, and the last frees the row. */
  lemma AnswerMeaning(e: Entry, id: nat)
    ensures var (after, proceed) := Answer(e, id);
            && (proceed <==> e.waiting == {})
            && (e.waiting != {} ==> after == Entry(e.mask, (set k | k in e.waiting && k != id), e.passed))
            && (e.waiting == {} ==>
                  && after.waiting == {}
                  && after.passed == (if e.passed % 0x1_0000 == 0xffff then 0 else e.passed % 0x1_0000 + 1)
                  && after.mask == if after.passed == |e.mask| then {} else e.mask)
  {
    assert (set k | k in e.waiting && k != id) == e.waiting - {id};
  }

  /**
   A mask not in the table takes the first free row, with all its threads awaited. Otherwise its
   first row, and no other, changes: while threads are awaited it awaits one less; afterwards it
   counts the caller as passed, lets it go, and is freed by the last.
   */
  lemma PollMeaning(t: Table, mask: Mask, id: nat, i: int)
    requires Find(t, mask) >= 0 || Find(t, {}) >= 0
    requires FirstWith(t, mask, i) || (FirstWith(t, {}, i) && forall k :: 0 <= k < 6 ==> t[k].mask != mask)
    ensures var (after, proceed) := Poll(t, mask, id);
            && (forall k :: 0 <= k < 6 && k != i ==> after[k] == t[k])
            && (t[i].mask != mask ==> after[i] == Entry(mask, mask, 0) && !proceed)
            && (t[i].mask == mask ==> proceed == (t[i].waiting == {}))
            && (t[i].mask == mask && t[i].waiting != {} ==>
                  after[i] == Entry(mask, (set k | k in t[i].waiting && k != id), t[i].passed))
            && (t[i].mask == mask && t[i].waiting == {} ==>
                  && after[i].waiting == {}
                  && after[i].passed == (if t[i].passed % 0x1_0000 == 0xffff then 0 else t[i].passed % 0x1_0000 + 1)
                  && after[i].mask == if after[i].passed == |mask| then {} else mask)
  {
    hide Answer, Find;
    AnswerMeaning(t[i], id);
    if t[i].mask == mask {
      FirstRow(t, mask, i);
    } else {
      NoRow(t, mask);
      FirstRow(t, {}, i);
    }
  }

  /** A row as the program stores it: three unsigned shorts. */
  datatype Row = Row(mask: Short, waiting: Short, passed: nat)

  function EntryOf(r: Row): Entry {
    Entry(Threads(r.mask), Threads(r.waiting), r.passed)
  }

  function Entries(rows: seq<Row>): (t: seq<Entry>)
    ensures |t| == |rows|
  {
    seq(|rows|, i requires 0 <= i < |rows| => EntryOf(rows[i]))
  }

  class HwThreadController {
    const syncTable: array<Row>

    constructor ()
      ensures fresh(syncTable) && syncTable.Length == 6
      ensures forall i :: 0 <= i < 6 ==> Entries(syncTable[..])[i] == Entry({}, {}, 0)
    {
      NoThreads(0);
      syncTable := new Row[6](_ => Row(0, 0, 0));
    }

    /** The branch for the row with the mask. */
    method AnswerAt(i: nat, id: nat) returns (proceed: bool)
      requires i < syncTable.Length && id < 6
      modifies syncTable
      ensures forall k :: 0 <= k < syncTable.Length && k != i ==> syncTable[k] == old(syncTable[k])
      ensures (EntryOf(syncTable[i]), proceed) == Answer(EntryOf(old(syncTable[i])), id)
    {
      hide EntryOf, Answer, Count, Without, OneMore;
      var row := syncTable[i];
      if row.waiting == 0 {
        PassingAnswer(row, id);
        syncTable[i] := row.(passed := OneMore(row.passed));
        if syncTable[i].passed == Count(row.mask) {
          syncTable[i] := syncTable[i].(mask := 0);
        }
        return true;
      } else {
        WaitingAnswer(row, id);
        syncTable[i] := row.(waiting := Without(row.waiting, id));
        return false;
      }
    }

    /** One pass over the table, remembering the first free row in case the mask is new. */
    method CheckSyncTable(mask: Short, id: nat) returns (proceed: bool)
      requires syncTable.Length == 6 && id < 6
      requires Find(Entries(syncTable[..]), Threads(mask)) >= 0 || Find(Entries(syncTable[..]), {}) >= 0
      modifies syncTable
      ensures (Entries(syncTable[..]), proceed) == Poll(old(Entries(syncTable[..])), Threads(mask), id)
    {
      hide Threads, Find, EntryOf, Answer;
      ghost var rows := syncTable[..];
      ghost var t := Entries(rows);
      var firstFree := -1;
      for i := 0 to 6
        invariant forall k :: 0 <= k < i ==> t[k].mask != Threads(mask)
        invariant -1 <= firstFree < i
        invariant firstFree >= 0 ==> t[firstFree].mask == {}
        invariant forall k :: 0 <= k < (if firstFree < 0 then i else firstFree) ==> t[k].mask != {}
        invariant syncTable[..] == rows
      {
        assert syncTable[i] == rows[i];
        EntryMask(syncTable[i], mask);
        if syncTable[i].mask == mask {
          FirstRow(t, Threads(mask), i);
          proceed := AnswerAt(i, id);
          assert syncTable[..] == rows[i := syncTable[i]];
          OneRow(rows, i, syncTable[i]);
          return proceed;
        } else if syncTable[i].mask == 0 && firstFree == -1 {
          firstFree := i;
        }
      }
      NoRow(t, Threads(mask));
      if firstFree < 0 {
        NoRow(t, {});
      }
      FirstRow(t, {}, firstFree);
      NewEntry(mask);
      syncTable[firstFree] := Row(mask, mask, 0);
      OneRow(rows, firstFree, Row(mask, mask, 0));
      return false;
    }
  }

  lemma PassingAnswer(row: Row, id: nat)
    requires row.waiting == 0
    ensures var passed := OneMore(row.passed);
            Answer(EntryOf(row), id) ==
              (EntryOf(Row(if passed == Count(row.mask) then 0 else row.mask, 0, passed)), true)
  {
    hide Threads, Count, OneMore;
    NoThreads(0);
    ThreadCount(row.mask);
  }

  lemma WaitingAnswer(row: Row, id: nat)
    requires row.waiting != 0 && id < 6
    ensures Answer(EntryOf(row), id) == (EntryOf(row.(waiting := Without(row.waiting, id))), false)
  {
    hide Threads, Without;
    NoThreads(row.waiting);
    ThreadRemoved(row.waiting, id);
  }

  lemma EntryMask(row: Row, mask: Short)
    ensures EntryOf(row).mask == Threads(mask) <==> row.mask == mask
    ensures EntryOf(row).mask == {} <==> row.mask == 0
  {
    SameThreads(row.mask, mask);
    NoThreads(row.mask);
  }

  lemma NewEntry(mask: Short)
    ensures EntryOf(Row(mask, mask, 0)) == Entry(Threads(mask), Threads(mask), 0)
  {
  }

  lemma FirstRow(t: seq<Entry>, mask: Mask, i: nat)
    requires i < |t| && t[i].mask == mask && forall k :: 0 <= k < i ==> t[k].mask != mask
    ensures Find(t, mask) == i
  {
  }

  lemma NoRow(t: seq<Entry>, mask: Mask)
    requires forall k :: 0 <= k < |t| ==> t[k].mask != mask
    ensures Find(t, mask) < 0
  {
  }

  lemma OneRow(rows: seq<Row>, i: nat, row: Row)
    requires i < |rows|
    ensures Entries(rows[i := row]) == Entries(rows)[i := EntryOf(row)]
  {
    hide EntryOf;
  }

  // ---------------------------------------------------------------------------
  // Threads that follow the program discipline
  // ---------------------------------------------------------------------------

  datatype Status = Running | Blocked(mask: Mask)

  /** The bookkeeping of one row: who has polled since it was created, and who has passed. */
  datatype Record = Record(called: Mask, gone: Mask)

  datatype World = World(table: seq<Entry>, status: seq<Status>, record: seq<Record>)

  datatype Call = Call(id: nat, mask: Mask)

  const THREADS := set n | 0 <= n < 6

  /**
   What programs may do: a SYNC names its own thread and only existing threads, a blocked thread
   polls again with the same mask, and a thread that has passed a barrier does not use the same
   mask again before the barrier's row is freed.
   */
  ghost predicate Allowed(w: World, c: Call)
    requires Shape(w)
  {
    && c.id < 6 && c.id in c.mask && c.mask <= THREADS
    && match w.status[c.id]
       case Blocked(m) => m == c.mask
       case Running => forall i :: 0 <= i < 6 && w.table[i].mask == c.mask ==> c.id !in w.record[i].gone
  }

  ghost predicate Shape(w: World) {
    |w.table| == 6 && |w.status| == 6 && |w.record| == 6
  }

  /** A row in use: the awaited threads are the ones whose poll has not been seen yet. */
  ghost predicate RowOk(e: Entry, r: Record, status: seq<Status>)
    requires |status| == 6
  {
    && e.mask <= THREADS && e.waiting <= e.mask
    && e.mask - e.waiting <= r.called <= e.mask
    && r.gone <= r.called && (e.waiting != {} ==> r.gone == {})
    && e.passed == |r.gone|
    && r.called - r.gone != {}
    && (forall n :: n in r.called - r.gone ==> status[n] == Blocked(e.mask))
    && (forall n :: n in r.gone ==> status[n] != Blocked(e.mask))
  }

  /** Thread `n` is blocked on row `i`. */
  ghost predicate OnRow(w: World, n: nat, i: nat)
    requires Shape(w) && n < 6
  {
    && i < 6 && w.table[i].mask != {} && w.status[n] == Blocked(w.table[i].mask)
    && n in w.record[i].called - w.record[i].gone
  }

  ghost predicate Rows(w: World)
    requires Shape(w)
  {
    && (forall i :: 0 <= i < 6 && w.table[i].mask != {} ==> RowOk(w.table[i], w.record[i], w.status))
    && (forall i, j :: 0 <= i < j < 6 && w.table[i].mask != {} ==> w.table[i].mask != w.table[j].mask)
  }

  ghost predicate Inv(w: World) {
    && Shape(w) && Rows(w)
    && (forall n :: 0 <= n < 6 && w.status[n].Blocked? ==> exists i :: OnRow(w, n, i))
  }

  /** While a thread runs there is a free row: every row in use has a blocked thread of its own. */
  lemma FreeRow(w: World, id: nat)
    requires Inv(w) && id < 6 && w.status[id] == Running
    ensures Find(w.table, {}) >= 0
  {
    if Find(w.table, {}) < 0 {
      var holders := seq(6, i requires 0 <= i < 6 => Holder(w, i));
      assert THREADS == {0, 1, 2, 3, 4, 5};
      DistinctFit(holders, THREADS - {id});
    }
  }

  /** Some thread blocked on row `i`. */
  ghost function Holder(w: World, i: nat): (n: nat)
    requires Inv(w) && i < 6 && w.table[i].mask != {}
    ensures n < 6 && w.status[n] == Blocked(w.table[i].mask)
  {
    assert RowOk(w.table[i], w.record[i], w.status);
    var n :| n in w.record[i].called - w.record[i].gone;
    n
  }

  lemma PassedFits(e: Entry, r: Record, status: seq<Status>)
    requires |status| == 6 && RowOk(e, r, status)
    ensures e.passed <= 6 && OneMore(e.passed) == e.passed + 1
  {
    assert THREADS == {0, 1, 2, 3, 4, 5};
    SubsetSize(r.gone, THREADS);
  }

  lemma PollDefined(w: World, c: Call)
    requires Inv(w) && Allowed(w, c)
    ensures Find(w.table, c.mask) >= 0 || Find(w.table, {}) >= 0
  {
    if w.status[c.id] == Running {
      FreeRow(w, c.id);
    } else {
      var i :| OnRow(w, c.id, i);
    }
  }

  /** One poll: the table changes as check_sync_table says, and the records follow. */
  ghost function Step(w: World, c: Call): (w': World)
    requires Inv(w) && Allowed(w, c)
  {
    PollDefined(w, c);
    var (table, proceed) := Poll(w.table, c.mask, c.id);
    var i := Find(w.table, c.mask);
    var row := if i >= 0 then i else Find(w.table, {});
    var record :=
      if i < 0 then Record({c.id}, {})
      else if proceed then w.record[i].(gone := w.record[i].gone + {c.id})
      else w.record[i].(called := w.record[i].called + {c.id});
    World(table, w.status[c.id := if proceed then Running else Blocked(c.mask)], w.record[row := record])
  }

  /** The poll was answered with true. */
  ghost predicate Proceeds(w: World, c: Call)
    requires Inv(w) && Allowed(w, c)
  {
    PollDefined(w, c);
    Poll(w.table, c.mask, c.id).1
  }

  /**
   Barrier safety: a thread proceeds only when every member of the mask has polled since the row
   was created and the thread itself has not passed before; the row is freed exactly when the
   last member passes.
   */
  lemma BarrierSafety(w: World, c: Call)
    requires Inv(w) && Allowed(w, c) && Proceeds(w, c)
    ensures var i := Find(w.table, c.mask);
            && i >= 0 && w.record[i].called == c.mask
            && c.id !in w.record[i].gone
            && (Step(w, c).table[i].mask == {} <==> w.record[i].gone + {c.id} == c.mask)
  {
    var i := Find(w.table, c.mask);
    assert RowOk(w.table[i], w.record[i], w.status);
    assert w.record[i].called == c.mask;
    var gone := w.record[i].gone + {c.id};
    PassedFits(w.table[i], w.record[i], w.status);
    assert |gone| == w.table[i].passed + 1;
    SubsetSize(gone, c.mask);
  }

  /** The rows that a poll does not concern stay in order. */
  lemma OtherRow(w: World, c: Call, j: nat, status: Status)
    requires Inv(w) && Allowed(w, c) && j < 6 && w.table[j].mask != {} && w.table[j].mask != c.mask
    requires status == Running || status == Blocked(c.mask)
    ensures RowOk(w.table[j], w.record[j], w.status[c.id := status])
    ensures c.id !in w.record[j].called - w.record[j].gone
  {
    assert RowOk(w.table[j], w.record[j], w.status);
  }

  /** The world after a poll that changes row `f` and the caller's status. */
  ghost function Replaced(w: World, c: Call, f: nat, e: Entry, r: Record, s: Status): World
    requires Shape(w) && f < 6 && c.id < 6
  {
    World(w.table[f := e], w.status[c.id := s], w.record[f := r])
  }

  /** Row `f` is the caller's, or free when it has none; it stays in order and keeps who is blocked on it. */
  ghost predicate GoodRow(w: World, c: Call, f: nat, e: Entry, r: Record, s: Status)
    requires Shape(w) && f < 6 && c.id < 6
  {
    && (w.table[f].mask == c.mask || (w.table[f].mask == {} && Find(w.table, c.mask) < 0))
    && (e.mask == {} || (e.mask == c.mask && RowOk(e, r, w.status[c.id := s])))
    && (s == Running || (s == Blocked(c.mask) && e.mask == c.mask && c.id in r.called - r.gone))
    && (w.table[f].mask == c.mask ==>
          forall n :: n in w.record[f].called - w.record[f].gone && n != c.id ==>
            e.mask == c.mask && n in r.called - r.gone)
  }

  lemma ReplacedRows(w: World, c: Call, f: nat, e: Entry, r: Record, s: Status)
    requires Inv(w) && Allowed(w, c) && f < 6 && GoodRow(w, c, f, e, r, s)
    ensures Rows(Replaced(w, c, f, e, r, s))
  {
    hide RowOk, OnRow, Allowed;
    InMask(w, c);
    var w' := Replaced(w, c, f, e, r, s);
    forall j | 0 <= j < 6 && j != f && w.table[j].mask != {}
      ensures w.table[j].mask != c.mask && RowOk(w.table[j], w.record[j], w'.status)
    {
      OtherRow(w, c, j, s);
    }
  }

  lemma ReplacedBlocked(w: World, c: Call, f: nat, e: Entry, r: Record, s: Status)
    requires Inv(w) && Allowed(w, c) && f < 6 && GoodRow(w, c, f, e, r, s)
    ensures var w' := Replaced(w, c, f, e, r, s);
            forall n :: 0 <= n < 6 && w'.status[n].Blocked? ==> exists i :: OnRow(w', n, i)
  {
    hide RowOk, Rows, Allowed, Find;
    InMask(w, c);
    var w' := Replaced(w, c, f, e, r, s);
    forall n | 0 <= n < 6 && w'.status[n].Blocked?
      ensures exists i :: OnRow(w', n, i)
    {
      if n == c.id {
        assert OnRow(w', n, f);
      } else {
        var i :| OnRow(w, n, i);
        assert OnRow(w', n, i);
      }
    }
  }

  lemma InMask(w: World, c: Call)
    requires Shape(w) && Allowed(w, c)
    ensures c.id < 6 && c.id in c.mask && c.mask != {} && c.mask <= THREADS
  {
  }

  lemma ReplacedKeeps(w: World, c: Call, f: nat, e: Entry, r: Record, s: Status)
    requires Inv(w) && Allowed(w, c) && f < 6 && GoodRow(w, c, f, e, r, s)
    ensures Inv(Replaced(w, c, f, e, r, s))
  {
    ReplacedRows(w, c, f, e, r, s);
    ReplacedBlocked(w, c, f, e, r, s);
    hide Rows, OnRow, GoodRow, Allowed;
  }

  lemma NewRow(w: World, c: Call)
    requires Inv(w) && Allowed(w, c) && Find(w.table, c.mask) < 0
    ensures Inv(Step(w, c))
  {
    hide Inv, Rows, OnRow, Answer;
    InvShape(w);
    PollDefined(w, c);
    InMask(w, c);
    var f := Find(w.table, {});
    var e, r := Entry(c.mask, c.mask, 0), Record({c.id}, {});
    assert Step(w, c) == Replaced(w, c, f, e, r, Blocked(c.mask));
    assert c.id in r.called - r.gone;
    ReplacedKeeps(w, c, f, e, r, Blocked(c.mask));
  }

  /** A poll of a row changes it as its answer says. */
  lemma KnownStep(w: World, c: Call)
    requires Inv(w) && Allowed(w, c) && Find(w.table, c.mask) >= 0
    ensures var f := Find(w.table, c.mask);
            var (e, go) := Answer(w.table[f], c.id);
            var r := if go then w.record[f].(gone := w.record[f].gone + {c.id})
                     else w.record[f].(called := w.record[f].called + {c.id});
            && Proceeds(w, c) == go
            && Step(w, c) == Replaced(w, c, f, e, r, if go then Running else Blocked(c.mask))
  {
    hide Rows, OnRow, Answer;
    PollDefined(w, c);
  }

  /** The answer that the thread must wait keeps the row in order. */
  lemma WaitingRow(e: Entry, r: Record, status: seq<Status>, id: nat)
    requires |status| == 6 && id < 6 && RowOk(e, r, status) && e.waiting != {} && id in e.mask
    ensures RowOk(e.(waiting := e.waiting - {id}), r.(called := r.called + {id}), status[id := Blocked(e.mask)])
  {
  }

  lemma StillWaiting(w: World, c: Call)
    requires Inv(w) && Allowed(w, c) && Find(w.table, c.mask) >= 0 && !Proceeds(w, c)
    ensures Inv(Step(w, c))
  {
    KnownStep(w, c);
    var f := Find(w.table, c.mask);
    InMask(w, c);
    RowOfMask(w, c.mask);
    var e, r := w.table[f], w.record[f];
    WaitingRow(e, r, w.status, c.id);
    assert r.gone == {} by {
      NobodyGone(e, r, w.status);
    }
    hide Inv, Rows, OnRow, RowOk, Step, Proceeds, Find;
    ReplacedKeeps(w, c, f, e.(waiting := e.waiting - {c.id}), r.(called := r.called + {c.id}), Blocked(c.mask));
  }

  lemma NobodyGone(e: Entry, r: Record, status: seq<Status>)
    requires |status| == 6 && RowOk(e, r, status) && e.waiting != {}
    ensures r.gone == {}
  {
  }

  lemma AllCalled(e: Entry, r: Record, status: seq<Status>)
    requires |status| == 6 && RowOk(e, r, status) && e.waiting == {}
    ensures r.called == e.mask && r.gone <= e.mask && e.passed == |r.gone|
  {
  }

  /** A complete row from which one more thread has passed, if another has still to pass. */
  lemma OneMoreGone(e: Entry, r: Record, status: seq<Status>, id: nat)
    requires |status| == 6 && id < 6 && RowOk(e, r, status) && e.waiting == {} && id in e.mask && id !in r.gone
    requires e.mask - (r.gone + {id}) != {}
    ensures RowOk(Entry(e.mask, {}, e.passed + 1), r.(gone := r.gone + {id}), status[id := Running])
  {
  }

  /** The answer that the thread may go on keeps the row in order or frees it. */
  lemma PassingRow(e: Entry, r: Record, status: seq<Status>, id: nat)
    requires |status| == 6 && id < 6 && RowOk(e, r, status) && e.waiting == {} && id in e.mask && id !in r.gone
    ensures var e' := Answer(e, id).0;
            var r' := r.(gone := r.gone + {id});
            if e'.mask == {} then r.called - r.gone <= {id}
            else e'.mask == e.mask && RowOk(e', r', status[id := Running])
  {
    PassedFits(e, r, status);
    AllCalled(e, r, status);
    hide OneMore;
    var gone := r.gone + {id};
    SubsetSize(gone, e.mask);
    if |gone| != |e.mask| {
      SomeMissing(gone, e.mask);
      OneMoreGone(e, r, status, id);
    }
    hide RowOk;
  }

  lemma Passing(w: World, c: Call)
    requires Inv(w) && Allowed(w, c) && Proceeds(w, c)
    ensures Inv(Step(w, c))
  {
    BarrierSafety(w, c);
    KnownStep(w, c);
    var f := Find(w.table, c.mask);
    InMask(w, c);
    RowOfMask(w, c.mask);
    var e, r := w.table[f], w.record[f];
    PassingRow(e, r, w.status, c.id);
    hide Inv, Rows, OnRow, RowOk, Step, Proceeds, Find;
    ReplacedKeeps(w, c, f, Answer(e, c.id).0, r.(gone := r.gone + {c.id}), Running);
  }

  /** Every poll under the discipline keeps the invariant. */
  lemma StepKeeps(w: World, c: Call)
    requires Inv(w) && Allowed(w, c)
    ensures Inv(Step(w, c))
  {
    hide Inv;
    if Find(w.table, c.mask) < 0 {
      NewRow(w, c);
    } else if Proceeds(w, c) {
      Passing(w, c);
    } else {
      StillWaiting(w, c);
    }
  }

  // ---------------------------------------------------------------------------
  // Every run
  // ---------------------------------------------------------------------------

  ghost predicate Initial(w: World) {
    && Shape(w)
    && (forall i :: 0 <= i < 6 ==> w.table[i] == Entry({}, {}, 0))
    && (forall n :: 0 <= n < 6 ==> w.status[n] == Running)
  }

  /** Every call of the run respects the discipline at its time. */
  ghost predicate Disciplined(w: World, calls: seq<Call>)
    requires Inv(w)
    decreases |calls|
  {
    calls != [] ==> Allowed(w, calls[0]) && (StepKeeps(w, calls[0]); Disciplined(Step(w, calls[0]), calls[1..]))
  }

  ghost function Run(w: World, calls: seq<Call>): (w': World)
    requires Inv(w) && Disciplined(w, calls)
    ensures Inv(w')
    decreases |calls|
  {
    if calls == [] then w else StepKeeps(w, calls[0]); Run(Step(w, calls[0]), calls[1..])
  }

  /**
   In every disciplined run, whatever the order of the polls: the table always has the row that a
   poll needs, no mask has two rows, and nobody proceeds before all members have polled.
   */
  lemma EveryPoll(w0: World, calls: seq<Call>, c: Call)
    requires Initial(w0) && Disciplined(w0, calls) && Allowed(Run(w0, calls), c)
    ensures var w := Run(w0, calls);
            && (Find(w.table, c.mask) >= 0 || Find(w.table, {}) >= 0)
            && (forall i, j :: 0 <= i < j < 6 && w.table[i].mask != {} ==> w.table[i].mask != w.table[j].mask)
            && (Proceeds(w, c) ==>
                  var i := Find(w.table, c.mask);
                  i >= 0 && w.record[i].called == c.mask && c.id !in w.record[i].gone)
  {
    var w := Run(w0, calls);
    PollDefined(w, c);
    if Proceeds(w, c) {
      BarrierSafety(w, c);
    }
  }

  // ---------------------------------------------------------------------------
  // Progress
  // ---------------------------------------------------------------------------

  /** The row of the mask is there at every point of the run. */
  ghost predicate Live(w: World, calls: seq<Call>, m: Mask)
    requires Inv(w) && Disciplined(w, calls)
    decreases |calls|
  {
    && Find(w.table, m) >= 0
    && (calls != [] ==> (StepKeeps(w, calls[0]); Live(Step(w, calls[0]), calls[1..], m)))
  }

  /** What a poll does to the row of a mask that stays in the table. */
  ghost predicate RowMoves(e: Entry, r: Record, e': Entry, r': Record, c: Call, m: Mask) {
    && e'.waiting <= e.waiting && r.gone <= r'.gone
    && (c.mask == m && e.waiting != {} ==> c.id !in e'.waiting)
    && (c.mask == m && e.waiting == {} ==> c.id in r'.gone)
  }

  lemma OwnRowStays(w: World, c: Call, w': World)
    requires Inv(w) && Allowed(w, c) && Find(w.table, c.mask) >= 0
    requires w' == Step(w, c) && Inv(w') && Find(w'.table, c.mask) >= 0
    ensures var f := Find(w.table, c.mask);
            Find(w'.table, c.mask) == f && RowMoves(w.table[f], w.record[f], w'.table[f], w'.record[f], c, c.mask)
  {
  }

  lemma OtherRowStays(w: World, c: Call, m: Mask, w': World)
    requires Inv(w) && Allowed(w, c) && m != {} && c.mask != m && Find(w.table, m) >= 0
    requires w' == Step(w, c) && Inv(w')
    ensures var f := Find(w.table, m);
            Find(w'.table, m) == f && w'.table[f] == w.table[f] && w'.record[f] == w.record[f]
  {
    hide RowOk, OnRow, Allowed;
    PollDefined(w, c);
    var f := Find(w.table, m);
    assert w'.table[f] == w.table[f] && w'.record[f] == w.record[f];
  }

  lemma RowStays(w: World, c: Call, m: Mask, w': World)
    requires Inv(w) && Allowed(w, c) && m != {} && Find(w.table, m) >= 0
    requires w' == Step(w, c) && Inv(w') && Find(w'.table, m) >= 0
    ensures var f := Find(w.table, m);
            Find(w'.table, m) == f && RowMoves(w.table[f], w.record[f], w'.table[f], w'.record[f], c, m)
  {
    hide Step, Inv;
    if c.mask == m {
      OwnRowStays(w, c, w');
    } else {
      OtherRowStays(w, c, m, w');
    }
  }

  /** A member that polls is no longer awaited afterwards. */
  lemma {:induction false} PollClears(w: World, calls: seq<Call>, m: Mask, n: nat)
    requires Inv(w) && Disciplined(w, calls) && m != {} && Live(w, calls, m)
    requires n !in w.table[Find(w.table, m)].waiting || Call(n, m) in calls
    ensures var w' := Run(w, calls);
            Find(w'.table, m) >= 0 && n !in w'.table[Find(w'.table, m)].waiting
    decreases |calls|
  {
    hide Inv, Step;
    if calls != [] {
      StepKeeps(w, calls[0]);
      var next := Step(w, calls[0]);
      RowStays(w, calls[0], m, next);
      PollClears(next, calls[1..], m, n);
    }
  }

  /** Once nobody is awaited, a member that polls passes. */
  lemma {:induction false} PollPasses(w: World, calls: seq<Call>, m: Mask, n: nat)
    requires Inv(w) && Disciplined(w, calls) && m != {} && Live(w, calls, m)
    requires w.table[Find(w.table, m)].waiting == {}
    requires n in w.record[Find(w.table, m)].gone || Call(n, m) in calls
    ensures var w' := Run(w, calls);
            Find(w'.table, m) >= 0 && n in w'.record[Find(w'.table, m)].gone
    decreases |calls|
  {
    hide Inv, Step;
    if calls != [] {
      StepKeeps(w, calls[0]);
      var next := Step(w, calls[0]);
      RowStays(w, calls[0], m, next);
      PollPasses(next, calls[1..], m, n);
    }
  }

  /**
   Two rounds of polls release a barrier: if every member that has not passed polls in the first
   round, and every member that has not passed by then polls in the second, the row was freed.
   */
  lemma TwoRoundsRelease(w: World, first: seq<Call>, w1: World, second: seq<Call>, m: Mask)
    requires Inv(w) && m != {} && Find(w.table, m) >= 0
    requires Disciplined(w, first) && w1 == Run(w, first) && Disciplined(w1, second)
    requires forall n :: n in m ==> n in w.record[Find(w.table, m)].gone || Call(n, m) in first
    requires forall n :: n in m ==>
      (Find(w1.table, m) >= 0 && n in w1.record[Find(w1.table, m)].gone) || Call(n, m) in second
    ensures !(Live(w, first, m) && Live(w1, second, m))
  {
    if Live(w, first, m) && Live(w1, second, m) {
      var f := Find(w.table, m);
      assert RowOk(w.table[f], w.record[f], w.status);
      forall n | n in m
        ensures Find(w1.table, m) >= 0 && n !in w1.table[Find(w1.table, m)].waiting
      {
        PollClears(w, first, m, n);
      }
      var f1 := Find(w1.table, m);
      assert RowOk(w1.table[f1], w1.record[f1], w1.status);
      assert w1.table[f1].waiting == {};
      var w2 := Run(w1, second);
      forall n | n in m
        ensures Find(w2.table, m) >= 0 && n in w2.record[Find(w2.table, m)].gone
      {
        PollPasses(w1, second, m, n);
      }
    }
  }

  // ---------------------------------------------------------------------------
  // Exactly when a thread passes twice
  // ---------------------------------------------------------------------------

  /** A call that the hardware can make: a blocked thread can only poll again with its mask. */
  ghost predicate Possible(w: World, c: Call)
    requires Shape(w)
  {
    && c.id < 6 && c.id in c.mask && c.mask <= THREADS
    && (w.status[c.id].Blocked? ==> w.status[c.id].mask == c.mask)
  }

  lemma RowOfMask(w: World, mask: Mask)
    requires Inv(w) && mask != {} && Find(w.table, mask) >= 0
    ensures RowOk(w.table[Find(w.table, mask)], w.record[Find(w.table, mask)], w.status)
    ensures forall i :: 0 <= i < 6 && w.table[i].mask == mask ==> i == Find(w.table, mask)
  {
    hide RowOk;
  }

  lemma BlockedRow(w: World, c: Call)
    requires Inv(w) && Possible(w, c) && w.status[c.id].Blocked?
    ensures var i := Find(w.table, c.mask); i >= 0 && c.id !in w.record[i].gone
  {
    var j :| OnRow(w, c.id, j);
    RowOfMask(w, c.mask);
    hide Inv, RowOk;
  }

  lemma OwnRow(w: World, c: Call)
    requires Inv(w) && Possible(w, c)
    ensures Find(w.table, c.mask) >= 0 || Find(w.table, {}) >= 0
    ensures var i := Find(w.table, c.mask);
            && (i >= 0 ==> RowOk(w.table[i], w.record[i], w.status))
            && (!Allowed(w, c) <==> i >= 0 && c.id in w.record[i].gone)
  {
    hide Inv, RowOk;
    InvShape(w);
    if w.status[c.id] == Running {
      FreeRow(w, c.id);
    } else {
      BlockedRow(w, c);
    }
    if Find(w.table, c.mask) >= 0 {
      RowOfMask(w, c.mask);
    }
  }

  lemma InvShape(w: World)
    requires Inv(w)
    ensures Shape(w)
  {
    hide Rows, OnRow;
  }

  /**
   A poll lets a thread pass a barrier that it has passed already exactly when it breaks the
   discipline, that is, when a thread that has passed uses the mask again before the row is freed.
   */
  lemma PassesTwiceExactly(w: World, c: Call)
    requires Inv(w) && Possible(w, c)
    ensures Find(w.table, c.mask) >= 0 || Find(w.table, {}) >= 0
    ensures var i := Find(w.table, c.mask);
            !Allowed(w, c) <==> i >= 0 && c.id in w.record[i].gone && Poll(w.table, c.mask, c.id).1
  {
    OwnRow(w, c);
  }

  /** A running thread's poll is answered at once in no other case. */
  lemma AnsweredAtOnceExactly(w: World, c: Call)
    requires Inv(w) && Possible(w, c) && w.status[c.id] == Running
    ensures Find(w.table, c.mask) >= 0 || Find(w.table, {}) >= 0
    ensures Poll(w.table, c.mask, c.id).1 <==> !Allowed(w, c)
  {
    OwnRow(w, c);
  }

  /** Such a poll is counted, and the row can be freed while a member has still not passed. */
  lemma CountedTwice(w: World, c: Call)
    requires Inv(w) && Possible(w, c) && !Allowed(w, c)
    ensures var i := Find(w.table, c.mask);
            && i >= 0 && w.record[i].gone < c.mask
            && (Poll(w.table, c.mask, c.id).0[i].mask == {} <==> |w.record[i].gone| + 1 == |c.mask|)
  {
    OwnRow(w, c);
    var i := Find(w.table, c.mask);
    PassedFits(w.table[i], w.record[i], w.status);
  }

  const PAIR: Mask := {0, 1}

  /** Two threads meet: thread 0 opens the row, both polls are seen, and thread 1 passes. */
  const MEETING := [Call(0, PAIR), Call(0, PAIR), Call(1, PAIR), Call(1, PAIR)]

  /** A state of the meeting: one row, the two threads' status and the row's record. */
  ghost function Meeting(w0: World, e: Entry, s0: Status, s1: Status, r: Record): World
    requires Initial(w0)
  {
    World(w0.table[0 := e], w0.status[0 := s0][1 := s1], w0.record[0 := r])
  }

  lemma MeetingOpens(w0: World)
    requires Initial(w0)
    ensures Inv(w0) && Allowed(w0, Call(0, PAIR))
    ensures Step(w0, Call(0, PAIR)) ==
            Meeting(w0, Entry(PAIR, PAIR, 0), Blocked(PAIR), Running, Record({0}, {}))
  {
    FirstRow(w0.table, {}, 0);
    NoRow(w0.table, PAIR);
    assert w0.status == w0.status[1 := Running];
  }

  lemma MeetingAllowed(w0: World, e: Entry, s0: Status, s1: Status, r: Record, id: nat)
    requires Initial(w0) && e.mask == PAIR && id < 2
    requires var s := if id == 0 then s0 else s1; s == Blocked(PAIR) || (s == Running && id !in r.gone)
    ensures Allowed(Meeting(w0, e, s0, s1, r), Call(id, PAIR))
  {
    assert PAIR <= THREADS;
    assert PAIR != {} by {
      assert 0 in PAIR;
    }
  }

  lemma MeetingRow(w0: World, e: Entry, s0: Status, s1: Status, r: Record)
    requires Initial(w0) && e.mask == PAIR
    ensures var w := Meeting(w0, e, s0, s1, r);
            Find(w.table, PAIR) == 0 && w.table[0] == e && w.record[0] == r
  {
    FirstRow(Meeting(w0, e, s0, s1, r).table, PAIR, 0);
  }

  lemma MeetingReplaced(w0: World, e: Entry, s0: Status, s1: Status, r: Record, id: nat,
                        e': Entry, s: Status, r': Record)
    requires Initial(w0) && id < 2
    ensures Shape(Meeting(w0, e, s0, s1, r))
    ensures Replaced(Meeting(w0, e, s0, s1, r), Call(id, PAIR), 0, e', r', s) ==
            Meeting(w0, e', if id == 0 then s else s0, if id == 1 then s else s1, r')
  {
    var w := Meeting(w0, e, s0, s1, r);
    assert w.table[0 := e'] == w0.table[0 := e'] && w.record[0 := r'] == w0.record[0 := r'];
    if id == 0 {
      assert w.status[0 := s] == w0.status[0 := s][1 := s1];
    } else {
      assert w.status[1 := s] == w0.status[0 := s0][1 := s];
    }
  }

  lemma MeetingStep(w0: World, e: Entry, s0: Status, s1: Status, r: Record, id: nat)
    requires Initial(w0) && e.mask == PAIR && id < 2
    requires var s := if id == 0 then s0 else s1; s == Blocked(PAIR) || (s == Running && id !in r.gone)
    requires Inv(Meeting(w0, e, s0, s1, r)) && Answer(e, id).0.mask == PAIR
    ensures Allowed(Meeting(w0, e, s0, s1, r), Call(id, PAIR))
    ensures var (e', go) := Answer(e, id);
            var r' := if go then r.(gone := r.gone + {id}) else r.(called := r.called + {id});
            var s := if go then Running else Blocked(PAIR);
            Step(Meeting(w0, e, s0, s1, r), Call(id, PAIR)) ==
              Meeting(w0, e', if id == 0 then s else s0, if id == 1 then s else s1, r')
  {
    var w := Meeting(w0, e, s0, s1, r);
    hide Find, Answer, Inv, Allowed, Step, Proceeds;
    MeetingAllowed(w0, e, s0, s1, r, id);
    MeetingRow(w0, e, s0, s1, r);
    KnownStep(w, Call(id, PAIR));
    var (e', go) := Answer(e, id);
    var r' := if go then r.(gone := r.gone + {id}) else r.(called := r.called + {id});
    MeetingReplaced(w0, e, s0, s1, r, id, e', if go then Running else Blocked(PAIR), r');
    hide Meeting, Replaced;
  }

  lemma RunOne(w: World, c: Call, rest: seq<Call>, w': World)
    requires Inv(w) && Allowed(w, c) && Step(w, c) == w'
    ensures Inv(w')
    ensures Disciplined(w', rest) ==> Disciplined(w, [c] + rest) && Run(w, [c] + rest) == Run(w', rest)
  {
    hide Inv, Allowed, Step;
    StepKeeps(w, c);
    assert ([c] + rest)[1..] == rest;
  }

  /** Where the meeting leads: thread 1 has passed, thread 0 is still blocked. */
  ghost function Met(w0: World): World
    requires Initial(w0)
  {
    Meeting(w0, Entry(PAIR, {}, 1), Blocked(PAIR), Running, Record(PAIR, {1}))
  }

  lemma MeetingEnds(w0: World)
    requires Initial(w0)
    requires Inv(Meeting(w0, Entry(PAIR, {1}, 0), Blocked(PAIR), Running, Record({0}, {})))
    ensures var w := Meeting(w0, Entry(PAIR, {1}, 0), Blocked(PAIR), Running, Record({0}, {}));
            var rest := [Call(1, PAIR), Call(1, PAIR)];
            Disciplined(w, rest) && Run(w, rest) == Met(w0)
  {
    hide Find, Answer, Inv, Step, Meeting, Allowed;
    var b, c := Blocked(PAIR), Call(1, PAIR);
    AnswersOfMeeting();
    var w2 := Meeting(w0, Entry(PAIR, {1}, 0), b, Running, Record({0}, {}));
    var w3 := Meeting(w0, Entry(PAIR, {}, 0), b, b, Record(PAIR, {}));
    MeetingStep(w0, Entry(PAIR, {1}, 0), b, Running, Record({0}, {}), 1);
    RunOne(w2, c, [c], w3);
    MeetingStep(w0, Entry(PAIR, {}, 0), b, b, Record(PAIR, {}), 1);
    RunOne(w3, c, [], Met(w0));
  }

  lemma MeetingRuns(w0: World)
    requires Initial(w0)
    ensures Inv(w0) && Disciplined(w0, MEETING) && Run(w0, MEETING) == Met(w0)
  {
    hide Find, Answer, Inv, Step, Meeting, Allowed, Disciplined, Run;
    var b, c0, c1 := Blocked(PAIR), Call(0, PAIR), Call(1, PAIR);
    AnswersOfMeeting();
    var w1 := Meeting(w0, Entry(PAIR, PAIR, 0), b, Running, Record({0}, {}));
    var w2 := Meeting(w0, Entry(PAIR, {1}, 0), b, Running, Record({0}, {}));
    MeetingOpens(w0);
    RunOne(w0, c0, [c0, c1, c1], w1);
    MeetingStep(w0, Entry(PAIR, PAIR, 0), b, Running, Record({0}, {}), 0);
    RunOne(w1, c0, [c1, c1], w2);
    MeetingEnds(w0);
    assert [c0] + ([c0] + [c1, c1]) == MEETING;
    assert [c0] + [c1, c1] == [c0, c1, c1];
  }

  /**
   A run from the empty table to such a poll: thread 1 uses the mask again at once, passes a second
   time and frees the row, and thread 0 stays blocked on a row that is gone.
   */
  lemma ReuseReached(w0: World)
    requires Initial(w0)
    ensures Inv(w0) && Disciplined(w0, MEETING)
    ensures var w, c := Run(w0, MEETING), Call(1, PAIR);
            && Possible(w, c) && !Allowed(w, c)
            && (Find(w.table, PAIR) >= 0 || Find(w.table, {}) >= 0)
            && w.status[0] == Blocked(PAIR)
            && Poll(w.table, PAIR, 1).1 && Find(Poll(w.table, PAIR, 1).0, PAIR) < 0
  {
    MeetingRuns(w0);
    hide Disciplined, Run, Inv, Find, Answer;
    AnswersOfMeeting();
    var w := Met(w0);
    FirstRow(w.table, PAIR, 0);
    assert w.table[0].mask == PAIR && 1 in w.record[0].gone;
    NoRow(w.table[0 := Entry({}, {}, 2)], PAIR);
  }

  lemma AnswersOfMeeting()
    ensures Answer(Entry(PAIR, PAIR, 0), 0) == (Entry(PAIR, {1}, 0), false)
    ensures Answer(Entry(PAIR, {1}, 0), 1) == (Entry(PAIR, {}, 0), false)
    ensures Answer(Entry(PAIR, {}, 0), 1) == (Entry(PAIR, {}, 1), true)
    ensures Answer(Entry(PAIR, {}, 1), 1) == (Entry({}, {}, 2), true)
    ensures {0} + {1} == PAIR && {0} + {0} == {0} && {} + {1} == {1}
  {
    assert |PAIR| == 2;
    assert PAIR - {0} == {1};
    var one: Mask := {1};
    assert one - one == {};
  }

  /**
   At a complete barrier of two threads, a member that uses the mask
   again at once is let through a second time and frees the row, though the other member has not
   passed.
   */
  lemma DisciplineNeeded(t: Table, m: Mask, id: nat)
    requires |m| == 2 && id in m && Find(t, m) >= 0 && t[Find(t, m)] == Entry(m, {}, 0)
    ensures var again := Poll(t, m, id).0;
            && Poll(t, m, id).1 && Find(again, m) == Find(t, m) && Poll(again, m, id).1
            && Poll(again, m, id).0[Find(t, m)].mask == {}
  {
    var f := Find(t, m);
    var again := Poll(t, m, id).0;
    assert again[f].mask == m;
    assert forall k :: 0 <= k < f ==> again[k].mask == t[k].mask;
  }
}
