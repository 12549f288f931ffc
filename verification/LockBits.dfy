/** The lock bits of the need queue as a map, and what each method does to them. */
module LockBits {
  import opened StableSort
  import opened NeedPiece

  /** The bits 0x01 and 0x02 of an index. */
  datatype Bits = Bits(read: bool, write: bool)

  function BitsOf(e: Entry): Bits { Bits(e.read, e.write) }

  /** The queued indices with their bits. */
  function Locks(q: seq<Entry>): map<int, Bits> {
    if |q| == 0 then map[] else Locks(q[1..])[q[0].index := BitsOf(q[0])]
  }

  lemma {:induction false} LocksAt(q: seq<Entry>, i: int)
    ensures i in Locks(q) <==> exists e :: e in q && e.index == i
    ensures i in Locks(q) <==> Find(IndexOf, q, i) < |q|
    ensures i in Locks(q) ==> Locks(q)[i] == BitsOf(q[Find(IndexOf, q, i)])
  {
    if |q| == 0 {
    } else {
      LocksAt(q[1..], i);
      assert q == [q[0]] + q[1..];
    }
  }

  lemma LocksOf(q: seq<Entry>, e: Entry)
    requires Unique(q) && e in q
    ensures e.index in Locks(q) && Locks(q)[e.index] == BitsOf(e)
  {
    LocksAt(q, e.index);
    var k :| 0 <= k < |q| && q[k] == e;
    FindIs(IndexOf, q, k);
  }

  lemma LocksFrom(q: seq<Entry>, m: map<int, Bits>)
    requires Unique(q)
    requires forall e :: e in q ==> e.index in m && m[e.index] == BitsOf(e)
    requires forall i :: i in m ==> exists e :: e in q && e.index == i
    ensures Locks(q) == m
  {
    hide Locks, BitsOf;
    forall i
      ensures i in Locks(q) <==> i in m
      ensures i in Locks(q) ==> Locks(q)[i] == m[i]
    {
      LocksAt(q, i);
      if i in Locks(q) {
        var e :| e in q && e.index == i;
        LocksOf(q, e);
      }
    }
  }

  /** A queue with the entry of one index replaced. */
  lemma UpdateLocks(q: seq<Entry>, k: nat, e: Entry)
    requires Unique(q) && k < |q| && e.index == q[k].index
    ensures Unique(q[k := e]) && Locks(q[k := e]) == Locks(q)[e.index := BitsOf(e)]
  {
    UpdateDistinct(IndexOf, q, k, e);
    hide Locks, BitsOf;
    var q', m := q[k := e], Locks(q)[e.index := BitsOf(e)];
    forall f | f in q'
      ensures f.index in m && m[f.index] == BitsOf(f)
    {
      if f != e {
        LocksOf(q, f);
      }
    }
    forall i | i in m
      ensures exists f :: f in q' && f.index == i
    {
      LocksAt(q, i);
      if i == e.index {
        assert e in q';
      } else {
        var f :| f in q && f.index == i;
        assert f in q';
      }
    }
    LocksFrom(q', m);
  }

  /** SetIndexW succeeds exactly on a queued index without the write bit, and sets it. */
  lemma SetWLocks(q: seq<Entry>, index: int)
    requires Unique(q)
    ensures SetW(q, index).1 <==> index >= 0 && index in Locks(q) && !Locks(q)[index].write
    ensures Locks(SetW(q, index).0) ==
      if SetW(q, index).1 then Locks(q)[index := Bits(Locks(q)[index].read, true)] else Locks(q)
  {
    LocksAt(q, index);
    var i := Find(IndexOf, q, index);
    hide Locks, Find;
    if SetW(q, index).1 {
      UpdateLocks(q, i, q[i].(write := true));
    }
  }

  lemma UnLockLocks(q: seq<Entry>, index: int)
    requires Unique(q)
    ensures Locks(UnLock(q, index)) ==
      if index >= 0 && index in Locks(q) then Locks(q)[index := Bits(false, false)] else Locks(q)
  {
    LocksAt(q, index);
    var i := Find(IndexOf, q, index);
    hide Locks, Find;
    if index >= 0 && i < |q| {
      UpdateLocks(q, i, q[i].(read := false, write := false));
    }
  }

  lemma ClearLocks(q: seq<Entry>, index: int)
    requires Unique(q) && index >= 0
    ensures Locks(Clear(q, index)) == Locks(q) - {index}
  {
    ClearRemoves(q, index);
    hide Locks, Clear, BitsOf;
    var q', m := Clear(q, index), Locks(q) - {index};
    forall e | e in q'
      ensures e.index in m && m[e.index] == BitsOf(e)
    {
      LocksOf(q, e);
    }
    forall i | i in m
      ensures exists e :: e in q' && e.index == i
    {
      LocksAt(q, i);
      var e :| e in q && e.index == i;
      assert e in q';
    }
    LocksFrom(q', m);
  }

  /** PushNeed adds an index only when it was not queued, and then unlocked. */
  lemma PushLocks(q: seq<Entry>, index: int, source: Source)
    requires Unique(q)
    ensures Locks(Push(q, index, source)) ==
      if index < 0 || index in Locks(q) then Locks(q) else Locks(q)[index := Bits(false, false)]
  {
    LocksAt(q, index);
    PushKeepsUnique(q, index, source);
    var i := Find(IndexOf, q, index);
    hide Locks, Find;
    if index >= 0 && i < |q| {
      var e := q[i].(queue := q[i].queue + [source]);
      UpdateLocks(q, i, e);
      assert Locks(q)[index := BitsOf(e)] == Locks(q);
    } else if index >= 0 {
      PushNewLocks(q, Entry(index, false, false, 0, [source]));
    }
  }

  lemma PushNewLocks(q: seq<Entry>, e: Entry)
    requires Unique(q) && Unique(q + [e])
    ensures Locks(q + [e]) == Locks(q)[e.index := BitsOf(e)]
  {
    hide Locks, BitsOf;
    var q', m := q + [e], Locks(q)[e.index := BitsOf(e)];
    LocksOf(q', e);
    forall f | f in q'
      ensures f.index in m && m[f.index] == BitsOf(f)
    {
      LocksOf(q', f);
      if f in q {
        LocksOf(q, f);
      }
    }
    forall i | i in m
      ensures exists f :: f in q' && f.index == i
    {
      LocksAt(q, i);
      if i == e.index {
        assert e in q';
      } else {
        var f :| f in q && f.index == i;
        assert f in q';
      }
    }
    LocksFrom(q', m);
  }

  lemma SortLocks(q: seq<Entry>)
    requires Unique(q)
    ensures Unique(Sort(Rarer, q)) && Locks(Sort(Rarer, q)) == Locks(q)
  {
    SortDistinct(Rarer, IndexOf, q);
    var q', m := Sort(Rarer, q), Locks(q);
    hide Locks, BitsOf, Sort;
    forall e | e in q'
      ensures e.index in m && m[e.index] == BitsOf(e)
    {
      SameItem(Rarer, q, e);
      LocksOf(q, e);
    }
    forall i | i in m
      ensures exists e :: e in q' && e.index == i
    {
      LocksAt(q, i);
      var e :| e in q && e.index == i;
      SameItem(Rarer, q, e);
    }
    LocksFrom(q', m);
  }

  /** PopNeed changes the bits of the index it hands out and of no other: from unlocked, from
      read-locked, or from write-locked alone, to read-locked. */
  lemma PopLocks(n: Needs, gameEnd: bool, now: int)
    requires Unique(n.queue)
    ensures Unique(Pop(n, gameEnd, now).queue)
    ensures var r := Pop(n, gameEnd, now);
            if r.sockets == [] then Locks(r.queue) == Locks(n.queue)
            else r.index in Locks(n.queue) && Locks(n.queue)[r.index] != Bits(true, true) &&
                 Locks(r.queue) == Locks(n.queue)[r.index := Bits(true, false)]
  {
    SortLocks(n.queue);
    var q := Sort(Rarer, n.queue);
    var k := FirstReady(q, n.ids, gameEnd, now);
    hide Locks, Sort, FirstReady;
    if k < |q| {
      LocksOf(q, q[k]);
      UpdateLocks(q, k, Taken(q[k], now));
    }
  }
}
