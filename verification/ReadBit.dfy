/** The read bit is exactly what write-lock exclusion needs: a worker that takes an index without
    it can get company, because PopNeed overwrites a status of 0x02 alone. */
module ReadBit {
  import opened Bytes
  import opened Network
  import opened StableSort
  import opened NeedPiece
  import opened PeerTables
  import opened TableParts
  import opened TorrentFile
  import opened BitMemory
  import opened LockBits
  import opened Engine
  import opened WriteLock
  import EngineRuns

  /** A run from e0 to e that takes slices only for indices whose read bit is set. */
  ghost predicate Reaches(info: Info, e0: Engine, acts: seq<Act>, e: Engine) {
    EngineRuns.Follows(info, EngineRuns.WithReadBits, e0, acts) && EngineRuns.Run(info, e0, acts) == e
  }

  lemma Here(info: Info, e: Engine)
    ensures Reaches(info, e, [], e)
  {
  }

  lemma Then(info: Info, e0: Engine, acts: seq<Act>, e: Engine, act: Act) returns (acts': seq<Act>, e': Engine)
    requires Reaches(info, e0, acts, e) && Enabled(info, e, act) && ReadLocked(info, e, act)
    ensures e' == After(info, e, act) && Reaches(info, e0, acts', e')
  {
    hide After, Enabled, ReadLocked;
    acts', e' := acts + [act], After(info, e, act);
    assert acts'[..|acts|] == acts;
  }

  lemma EnvThen(info: Info, e0: Engine, acts: seq<Act>, e: Engine, part: Part) returns (acts': seq<Act>, e': Engine)
    requires Reaches(info, e0, acts, e) && EnvEnabled(e, part)
    ensures e' == e.(swarm := Do(e.swarm, part)) && Reaches(info, e0, acts', e')
  {
    hide Reaches, Do;
    acts', e' := Then(info, e0, acts, e, Env(part));
  }

  // A descriptor that nobody uses.

  lemma {:induction false} Above(s: set<int>) returns (b: nat)
    ensures forall x :: x in s ==> x < b
    decreases |s|
  {
    if x :| x in s {
      b := Above(s - {x});
      b := if x < b then b else x + 1;
      assert forall y :: y in s ==> y == x || y in s - {x};
    } else {
      b := 0;
    }
  }

  lemma FreshSocket(e: Engine) returns (s: nat)
    ensures EnvEnabled(e, AddPeer(s))
  {
    var used := set k | 0 <= k < |e.workers| :: SocketOf(e.workers[k]);
    s := Above(e.swarm.peers.Keys + used);
    forall k | 0 <= k < |e.workers|
      ensures !Uses(e.workers[k], s)
    {
      assert SocketOf(e.workers[k]) in used;
    }
  }

  function SocketOf(w: Worker): int { if w.Unlocking? || w.Done? then -1 else w.socket }

  // A peer that has the piece and does not choke us.

  /** Index i is queued with the write bit alone, and a source for it does not choke us. */
  ghost predicate Offered(n: Needs, i: int) {
    exists f :: f in n.queue && f.index == i && f.write && !f.read && Unchoked(f.queue, n.ids) != []
  }

  /** What the steps below leave as it was. */
  predicate SameWork(e: Engine, e': Engine) {
    e'.workers == e.workers && e'.present == e.present && e'.pool == e.pool && e'.disk == e.disk
  }

  lemma PushedUnchoked(q: seq<Entry>, i: int, x: Source, ids: map<int, PeerStatus>)
    requires Unique(q) && i >= 0 && i in Locks(q) && Locks(q)[i] == Bits(false, true)
    requires x.id in ids && !ids[x.id].peerChoke
    ensures Offered(Needs(Push(q, i, x), ids), i)
  {
    LocksAt(q, i);
    var k := Find(IndexOf, q, i);
    hide Locks, Find;
    var f := q[k].(queue := q[k].queue + [x]);
    assert f.queue[..|f.queue| - 1] == q[k].queue;
    assert Unchoked(f.queue, ids) == Unchoked(q[k].queue, ids) + [x.socket];
    var q' := Push(q, i, x);
    assert q'[k] == f;
    assert f in q';
  }

  lemma Offer(info: Info, e0: Engine, acts: seq<Act>, e: Engine, i: int) returns (acts': seq<Act>, e': Engine)
    requires Reaches(info, e0, acts, e) && Unique(Queue(e)) && i >= 0 && i !in e.present
    requires i in LocksNow(e) && LocksNow(e)[i] == Bits(false, true)
    ensures Reaches(info, e0, acts', e') && SameWork(e, e') && Unique(Queue(e')) && Offered(e'.swarm.needs, i)
  {
    hide Reaches, Locks, Unique, Push, Offered;
    var s := FreshSocket(e);
    var id := e.swarm.curId;
    acts', e' := EnvThen(info, e0, acts, e, AddPeer(s));
    acts', e' := EnvThen(info, e0, acts', e', AddId(id));
    acts', e' := EnvThen(info, e0, acts', e', ChangeId(id, PrUnChoke));
    var ids := e'.swarm.needs.ids;
    assert id in ids && !ids[id].peerChoke;
    acts', e' := EnvThen(info, e0, acts', e', PushPart(i, Source(s, id)));
    PushKeepsUnique(Queue(e), i, Source(s, id));
    PushedUnchoked(Queue(e), i, Source(s, id), ids);
  }

  // PopNeed until it hands the index out.

  function Waiting(q: seq<Entry>, now: int): set<int> { set f | f in q && Eligible(f, false, now) :: f.index }

  lemma SameEntry(q: seq<Entry>, a: Entry, b: Entry)
    requires Unique(q) && a in q && b in q && a.index == b.index
    ensures a == b
  {
    var j :| 0 <= j < |q| && q[j] == a;
    var k :| 0 <= k < |q| && q[k] == b;
    assert IndexOf(q[j]) == IndexOf(q[k]);
  }

  /** The entries after PopNeed: the one handed out is read-locked, and no other is new. */
  lemma PopEntries(n: Needs, now: int, f: Entry) returns (e: Entry)
    requires Unique(n.queue) && f in n.queue && Ready(f, n.ids, false, now)
    ensures var r := Pop(n, false, now);
            && r.sockets != [] && Unique(r.queue) && e in n.queue && Eligible(e, false, now) && r.index == e.index
            && (forall y :: y in r.queue && y != Taken(e, now) ==> y in n.queue && y.index != e.index)
            && (f.index != e.index ==> f in r.queue)
  {
    PopFindsIfAny(n, false, now);
    PopKeepsUnique(n, false, now);
    e := PopTakesRarest(n, false, now);
    var q, taken := Pop(n, false, now).queue, Taken(e, now);
    FromBag(n.queue, q, e, taken);
    hide Pop, Unique, Unchoked, Ready, Eligible;
    forall y | y in q && y != taken
      ensures y in n.queue && y.index != e.index
    {
      if y.index == e.index {
        SameEntry(q, y, taken);
      }
    }
  }

  lemma FromBag(q: seq<Entry>, q': seq<Entry>, e: Entry, t: Entry)
    requires e in q && multiset(q') == multiset(q) - multiset{e} + multiset{t}
    ensures t in q'
    ensures forall y :: y in q' && y != t ==> y in q
    ensures forall f :: f in q && f != e ==> f in q'
  {
    assert t in multiset(q');
    forall y
      ensures y in q' && y != t ==> y in q
      ensures y in q && y != e ==> y in q'
    {
      assert y in q' <==> y in multiset(q');
      assert y in q <==> y in multiset(q);
    }
  }

  /** What PopNeed hands out is not eligible again before its time; everything else stays. */
  lemma PopShrinks(n: Needs, now: int, i: int)
    requires Unique(n.queue) && Offered(n, i)
    ensures var r := Pop(n, false, now);
            && r.sockets != [] && Unique(r.queue)
            && (r.index != i ==>
                 |Waiting(r.queue, now)| < |Waiting(n.queue, now)| && Offered(Needs(r.queue, n.ids), i))
  {
    var f :| f in n.queue && f.index == i && f.write && !f.read && Unchoked(f.queue, n.ids) != [];
    var e := PopEntries(n, now, f);
    var q := Pop(n, false, now).queue;
    hide Pop, Unique, Unchoked;
    assert Waiting(q, now) <= Waiting(n.queue, now) - {e.index};
    assert e.index in Waiting(n.queue, now);
    Fewer(Waiting(q, now), Waiting(n.queue, now), e.index);
  }

  lemma Fewer(a: set<int>, b: set<int>, x: int)
    requires a <= b - {x} && x in b
    ensures |a| < |b|
  {
    assert |b - {x}| == |b| - 1;
    assert |(b - {x}) - a| == |b - {x}| - |a|;
  }

  lemma PopOnce(info: Info, e0: Engine, acts: seq<Act>, e: Engine, i: int, now: int)
    returns (acts': seq<Act>, e': Engine)
    requires Reaches(info, e0, acts, e) && Unique(Queue(e)) && Offered(e.swarm.needs, i)
    ensures Reaches(info, e0, acts', e') && SameWork(e, e') && Unique(Queue(e'))
    ensures || (i in LocksNow(e') && LocksNow(e')[i] == Bits(true, false))
            || (|Waiting(Queue(e'), now)| < |Waiting(Queue(e), now)| && Offered(e'.swarm.needs, i))
  {
    var n, r := e.swarm.needs, Pop(e.swarm.needs, false, now);
    PopShrinks(n, now, i);
    PopLocks(n, false, now);
    DoPop(e.swarm, now);
    hide Reaches, Waiting, Offered, Unique, Pop, Locks, Do;
    acts', e' := EnvThen(info, e0, acts, e, PopPart(false, now));
    assert e'.swarm.needs == Needs(r.queue, n.ids);
  }

  lemma DoPop(w: Swarm, now: int)
    ensures Do(w, PopPart(false, now)) == WithNeeds(w, Pop(w.needs, false, now).queue)
  {
    hide Pop;
  }

  lemma {:induction false} PopUntil(info: Info, e0: Engine, acts: seq<Act>, e: Engine, i: int, now: int)
    returns (acts': seq<Act>, e': Engine)
    requires Reaches(info, e0, acts, e) && Unique(Queue(e)) && Offered(e.swarm.needs, i)
    ensures Reaches(info, e0, acts', e') && SameWork(e, e') && Unique(Queue(e'))
    ensures i in LocksNow(e') && LocksNow(e')[i] == Bits(true, false)
    decreases |Waiting(Queue(e), now)|
  {
    hide Reaches, Waiting, Offered, Unique, LocksNow;
    acts', e' := PopOnce(info, e0, acts, e, i, now);
    if i in LocksNow(e') && LocksNow(e')[i] == Bits(true, false) {
    } else {
      acts', e' := PopUntil(info, e0, acts', e', i, now);
    }
  }

  // The same slice from another peer.

  lemma SliceArrives(info: Info, e0: Engine, acts: seq<Act>, e: Engine, i: int32, begin: int32, buf: seq<byte>)
    returns (acts': seq<Act>, e': Engine, s: nat)
    requires Reaches(info, e0, acts, e) && e.loop.Polling?
    ensures Reaches(info, e0, acts', e') && Queue(e') == Queue(e)
    ensures e'.workers == e.workers + [Queued(s, i, begin, buf)]
  {
    hide Reaches;
    s := FreshSocket(e);
    acts', e' := EnvThen(info, e0, acts, e, AddPeer(s));
    assert Pollable(e'.swarm, s) && Queue(e') == Queue(e);
    acts', e' := Then(info, e0, acts', e', Poll({s}));
    acts', e' := Then(info, e0, acts', e', Event(s));
    hide Do;
    acts', e' := Then(info, e0, acts', e', PieceMessage(i, begin, buf));
  }

  lemma SliceAgain(info: Info, e0: Engine, acts: seq<Act>, e: Engine, i: int32, begin: int32, buf: seq<byte>)
    returns (acts': seq<Act>, e': Engine)
    requires Reaches(info, e0, acts, e) && Accepted(info, i, begin, |buf|)
    requires Unique(Queue(e)) && i >= 0 && i in LocksNow(e) && LocksNow(e)[i] == Bits(true, false)
    ensures Reaches(info, e0, acts', e') && |e'.workers| == |e.workers| + 1 && e'.workers[..|e.workers|] == e.workers
    ensures Holds(e'.workers[|e.workers|], i)
  {
    SetWLocks(Queue(e), i);
    assert SetW(Queue(e), i).1;
    assert LocksNow(e) == Locks(Queue(e));
    hide Reaches, Locks, Unique, Accepted, SetW;
    acts', e' := acts, e;
    if e.loop.Reading? {
      acts', e' := Then(info, e0, acts, e, NoPiece);
    }
    ghost var s;
    acts', e', s := SliceArrives(info, e0, acts', e', i, begin, buf);
    acts', e' := Then(info, e0, acts', e', Go(|e.workers|));
  }

  /** A worker that holds an index with the write bit alone can get company. */
  lemma SecondHolder(info: Info, e: Engine, k: nat, begin: int32, buf: seq<byte>, now: int)
    returns (acts: seq<Act>, e': Engine)
    requires Unique(Queue(e)) && k < |e.workers| && e.workers[k].Writing?
    requires var i := e.workers[k].index;
             Accepted(info, i, begin, |buf|) && i >= 0 && i !in e.present &&
             i in LocksNow(e) && LocksNow(e)[i] == Bits(false, true)
    ensures Reaches(info, e, acts, e') && k < |e.workers| < |e'.workers|
    ensures Holds(e'.workers[k], e.workers[k].index) && Holds(e'.workers[|e.workers|], e.workers[k].index)
  {
    hide Reaches, Locks, Unique, Accepted, Offered;
    var i := e.workers[k].index;
    Here(info, e);
    acts, e' := Offer(info, e, [], e, i);
    acts, e' := PopUntil(info, e, acts, e', i, now);
    acts, e' := SliceAgain(info, e, acts, e', i, begin, buf);
    assert e'.workers[k] == e'.workers[..|e.workers|][k];
  }

  // The equivalence.

  /** The worker is about to take its index. */
  predicate Takes(info: Info, e: Engine, k: nat) {
    && k < |e.workers| && e.workers[k].Queued?
    && Accepted(info, e.workers[k].index, e.workers[k].begin, |e.workers[k].buf|)
    && SetW(Queue(e), e.workers[k].index).1
  }

  /** In no continuation that takes slices only with the read bit do two workers hold i. */
  ghost predicate OneHolderFrom(info: Info, e: Engine, i: int) {
    forall acts, e', j, k ::
      Reaches(info, e, acts, e') && 0 <= j < k < |e'.workers| && Holds(e'.workers[j], i) ==> !Holds(e'.workers[k], i)
  }

  lemma TakenIsLocked(info: Info, e: Engine, k: nat)
    requires Unique(Queue(e)) && Takes(info, e, k)
    ensures var i, e' := e.workers[k].index, After(info, e, Go(k));
            && i >= 0 && i in LocksNow(e) && e'.present == e.present
            && |e'.workers| == |e.workers| && e'.workers[k].Writing? && e'.workers[k].index == i
            && i in LocksNow(e') && LocksNow(e')[i] == Bits(LocksNow(e)[i].read, true)
            && (ReadLocked(info, e, Go(k)) <==> LocksNow(e)[i].read)
  {
    SetWLocks(Queue(e), e.workers[k].index);
    hide Unique, Accepted, SetW, Locks;
  }

  lemma TakeFollows(info: Info, start: Engine, acts: seq<Act>, k: nat)
    requires EngineRuns.Follows(info, EngineRuns.WithReadBits, start, acts)
    requires var e := EngineRuns.Run(info, start, acts); Takes(info, e, k) && ReadLocked(info, e, Go(k))
    ensures EngineRuns.Follows(info, EngineRuns.WithReadBits, start, acts + [Go(k)])
    ensures EngineRuns.Run(info, start, acts + [Go(k)]) == After(info, EngineRuns.Run(info, start, acts), Go(k))
  {
    var e := EngineRuns.Run(info, start, acts);
    EngineRuns.RunsJoin(info, EngineRuns.WithReadBits, start, acts, [Go(k)]);
    EngineRuns.RunOne(info, EngineRuns.WithReadBits, e, Go(k));
    hide EngineRuns.Run, EngineRuns.Follows, After, ReadLocked;
  }

  lemma OneHolderLater(info: Info, disk: seq<byte>, present: set<nat>, acts: seq<Act>, e: Engine, i: int)
    requires EngineRuns.Torrent(info, disk, present)
    requires EngineRuns.Follows(info, EngineRuns.WithReadBits, EngineRuns.Start(disk, present), acts)
    requires e == EngineRuns.Run(info, EngineRuns.Start(disk, present), acts)
    ensures OneHolderFrom(info, e, i)
  {
    hide EngineRuns.Run, EngineRuns.Follows, EngineRuns.Torrent, Holds;
    var start := EngineRuns.Start(disk, present);
    forall more, e', j, l | Reaches(info, e, more, e') && 0 <= j < l < |e'.workers| && Holds(e'.workers[j], i)
      ensures !Holds(e'.workers[l], i)
    {
      EngineRuns.RunsJoin(info, EngineRuns.WithReadBits, start, acts, more);
      EngineRuns.EveryRunIs(info, EngineRuns.WithReadBits, disk, present, acts + more);
      OneHolder(e', j, l, i);
    }
  }

  lemma CompanyComes(info: Info, e: Engine, k: nat)
    requires Unique(Queue(e)) && Late(e) && Exclusive(e) && Takes(info, e, k)
    requires e.workers[k].index in LocksNow(e) && !LocksNow(e)[e.workers[k].index].read
    ensures !OneHolderFrom(info, After(info, e, Go(k)), e.workers[k].index)
  {
    var w, e1 := e.workers[k], After(info, e, Go(k));
    TakenIsLocked(info, e, k);
    UniqueKept(info, e, Go(k));
    FinishedIsLocked(e, w.index);
    hide After, Accepted, SetW, Late, Exclusive, Locks, Unique;
    var more, e' := SecondHolder(info, e1, k, w.begin, w.buf, 0);
    assert Holds(e'.workers[k], w.index) && Holds(e'.workers[|e1.workers|], w.index);
  }

  /** A queued index that is finished is doubly locked. */
  lemma FinishedIsLocked(e: Engine, i: int)
    requires Late(e) && Exclusive(e) && i in LocksNow(e)
    ensures i in e.present ==> LocksNow(e)[i] == Bits(true, true)
  {
    hide LocksNow;
    if i in e.present {
      var k :| 0 <= k < |e.workers| && Clearing(e.workers[k], i);
      HeldIsGuarded(e, k, i);
    }
  }

  /** After any run that keeps to the read bit, a worker about to take an index finds its read
      bit set if and only if the index will have one holder in every such continuation. */
  lemma ReadBitIsExact(info: Info, disk: seq<byte>, present: set<nat>, acts: seq<Act>, k: nat)
    requires EngineRuns.Torrent(info, disk, present)
    requires EngineRuns.Follows(info, EngineRuns.WithReadBits, EngineRuns.Start(disk, present), acts)
    requires Takes(info, EngineRuns.Run(info, EngineRuns.Start(disk, present), acts), k)
    ensures var e := EngineRuns.Run(info, EngineRuns.Start(disk, present), acts);
            var i := e.workers[k].index;
            i in LocksNow(e) && (LocksNow(e)[i].read <==> OneHolderFrom(info, After(info, e, Go(k)), i))
  {
    var start := EngineRuns.Start(disk, present);
    var e := EngineRuns.Run(info, start, acts);
    EngineRuns.EveryRunIs(info, EngineRuns.WithReadBits, disk, present, acts);
    assert Unique(Queue(e)) && Late(e) && Exclusive(e);
    TakenIsLocked(info, e, k);
    hide EngineRuns.Run, EngineRuns.Follows, EngineRuns.Torrent, EngineRuns.Always, After, ReadLocked, Takes;
    hide Late, Exclusive, Locks, Unique, OneHolderFrom;
    if LocksNow(e)[e.workers[k].index].read {
      TakeFollows(info, start, acts, k);
      OneHolderLater(info, disk, present, acts + [Go(k)], After(info, e, Go(k)), e.workers[k].index);
    } else {
      CompanyComes(info, e, k);
    }
  }
}
