/** The 16-bit masks of the synchronization table as sets of thread numbers. */
module SyncMask {
  import opened Bits
  import opened BitCount

  /** An unsigned short, which arithmetic widens to a word. */
  type Short = m: bv32 | m < 0x1_0000

  predicate Names(m: Short, i: nat)
    requires i < 32
  {
    HasBit(m, i)
  }

  /** The threads named in a mask. */
  function Threads(m: Short): set<nat> {
    set i: nat | i < 32 && Names(m, i)
  }

  lemma ThreadsAreMembers(m: Short)
    ensures Threads(m) == Members(m, 32)
  {
    hide HasBit;
  }

  function Without(m: Short, id: nat): Short
    requires id < 32
  {
    ClearedIsShort(m, OnlyBit(id));
    Cleared(m, OnlyBit(id))
  }

  lemma BitByBit(a: Short, b: Short)
    requires (Names(a, 0) <==> Names(b, 0)) && (Names(a, 1) <==> Names(b, 1))
    requires (Names(a, 2) <==> Names(b, 2)) && (Names(a, 3) <==> Names(b, 3))
    requires (Names(a, 4) <==> Names(b, 4)) && (Names(a, 5) <==> Names(b, 5))
    requires (Names(a, 6) <==> Names(b, 6)) && (Names(a, 7) <==> Names(b, 7))
    requires (Names(a, 8) <==> Names(b, 8)) && (Names(a, 9) <==> Names(b, 9))
    requires (Names(a, 10) <==> Names(b, 10)) && (Names(a, 11) <==> Names(b, 11))
    requires (Names(a, 12) <==> Names(b, 12)) && (Names(a, 13) <==> Names(b, 13))
    requires (Names(a, 14) <==> Names(b, 14)) && (Names(a, 15) <==> Names(b, 15))
    ensures a == b
  {
  }

  /** A mask is determined by the threads it names. */
  lemma SameThreads(a: Short, b: Short)
    ensures Threads(a) == Threads(b) <==> a == b
  {
    hide Names;
    if Threads(a) == Threads(b) {
      assert forall i: nat :: i < 32 ==> (i in Threads(a) <==> Names(a, i)) && (i in Threads(b) <==> Names(b, i));
      hide Threads;
      BitByBit(a, b);
    }
  }

  lemma BitsWithout(m: Short, id: nat, i: nat)
    requires id < 6 && i < 32
    ensures Names(Without(m, id), i) <==> Names(m, i) && i != id
  {
    hide HasBit, OnlyBit, Cleared;
    BitCleared(m, OnlyBit(id), i);
    BitOfOnly(id, i);
  }

  /** Clearing a thread's bit removes the thread. */
  lemma ThreadRemoved(m: Short, id: nat)
    requires id < 6
    ensures Threads(Without(m, id)) == Threads(m) - {id}
  {
    hide Names, Without;
    forall i: nat | i < 32
      ensures Names(Without(m, id), i) <==> Names(m, i) && i != id
    {
      BitsWithout(m, id, i);
    }
  }

  /** A mask names no thread exactly when it is zero. */
  lemma NoThreads(m: Short)
    ensures Threads(m) == {} <==> m == 0
  {
    hide HasBit;
    forall i: nat | i < 32
      ensures !Names(0, i)
    {
      NoBits(i);
    }
    hide Names;
    assert Threads(0) == {};
    SameThreads(m, 0);
  }

  /** bitCount of a mask is the number of threads it names. */
  lemma ThreadCount(m: Short)
    ensures Count(m) == |Threads(m)|
  {
    hide Count, Members, Threads;
    ThreadsAreMembers(m);
    CountIsCardinality(m);
  }
}
