/** BitTorrent/CszNeedPiece.cpp: the queue of wanted pieces, its lock bits, and the peer
    status kept by peer id. */
module NeedPiece {
  import opened StableSort

  const NEEDEXPIRETIME: int := 120

  /** The four choke and interest bits of PeerStatus, and its two piece flags. */
  datatype PeerStatus = PeerStatus(amChoke: bool, amInterested: bool, peerChoke: bool, peerInterested: bool,
                                   requestPiece: bool, recvPiece: bool)

  const NEW_STATUS := PeerStatus(true, false, true, false, false, false)

  /** The eight status methods that PeerManager, NeedPiece and DownSpeed all have. */
  datatype Change = AmChoke | AmUnChoke | AmInterested | AmUnInterested
                  | PrChoke | PrUnChoke | PrInterested | PrUnInterested

  function Apply(st: PeerStatus, c: Change): PeerStatus {
    match c
    case AmChoke => st.(amChoke := true)
    case AmUnChoke => st.(amChoke := false)
    case AmInterested => st.(amInterested := true)
    case AmUnInterested => st.(amInterested := false)
    case PrChoke => st.(peerChoke := true)
    case PrUnChoke => st.(peerChoke := false)
    case PrInterested => st.(peerInterested := true)
    case PrUnInterested => st.(peerInterested := false)
  }

  datatype Source = Source(socket: int, id: int)

  /** index_status: `read` is the bit 0x01 and `write` the bit 0x02. */
  datatype Entry = Entry(index: int, read: bool, write: bool, expire: int, queue: seq<Source>)

  /** index_queue and id_queue. */
  datatype Needs = Needs(queue: seq<Entry>, ids: map<int, PeerStatus>)

  /** NPComp: fewer sources first. */
  predicate Rarer(a: Entry, b: Entry) { |a.queue| < |b.queue| }

  function IndexOf(e: Entry): int { e.index }

  predicate Unique(q: seq<Entry>) { Distinct(IndexOf, q) }

  function Push(q: seq<Entry>, index: int, source: Source): seq<Entry> {
    if index < 0 then q
    else
      var i := Find(IndexOf, q, index);
      if i < |q| then q[i := q[i].(queue := q[i].queue + [source])]
      else q + [Entry(index, false, false, 0, [source])]
  }

  function PushAll(q: seq<Entry>, indices: seq<int>, source: Source): seq<Entry>
    decreases |indices|
  {
    if |indices| == 0 then q else PushAll(Push(q, indices[0], source), indices[1..], source)
  }

  /** The sources whose id is known and which do not choke us, in order. */
  function Unchoked(sources: seq<Source>, ids: map<int, PeerStatus>): seq<int> {
    if |sources| == 0 then []
    else
      var n := |sources| - 1;
      Unchoked(sources[..n], ids) +
      if sources[n].id in ids && !ids[sources[n].id].peerChoke then [sources[n].socket] else []
  }

  lemma {:induction false} UnchokedMembers(sources: seq<Source>, ids: map<int, PeerStatus>, s: int)
    ensures s in Unchoked(sources, ids) <==>
      exists k :: 0 <= k < |sources| && sources[k].socket == s && sources[k].id in ids && !ids[sources[k].id].peerChoke
  {
    if |sources| == 0 {
    } else {
      var n := |sources| - 1;
      UnchokedMembers(sources[..n], ids, s);
      if s in Unchoked(sources[..n], ids) {
        var k :| 0 <= k < n && sources[..n][k].socket == s
              && sources[..n][k].id in ids && !ids[sources[..n][k].id].peerChoke;
        assert sources[k] == sources[..n][k];
      }
      if k :| 0 <= k < |sources| && sources[k].socket == s && sources[k].id in ids && !ids[sources[k].id].peerChoke {
        assert k == n || sources[..n][k] == sources[k];
      }
    }
  }

  /** The lock test of PopNeed: free, or only read-locked and expired or near the end. */
  predicate Eligible(e: Entry, gameEnd: bool, now: int) {
    !e.read || (!e.write && (now - e.expire >= NEEDEXPIRETIME || gameEnd))
  }

  predicate Ready(e: Entry, ids: map<int, PeerStatus>, gameEnd: bool, now: int) {
    Eligible(e, gameEnd, now) && Unchoked(e.queue, ids) != []
  }

  function FirstReady(q: seq<Entry>, ids: map<int, PeerStatus>, gameEnd: bool, now: int): (k: nat)
    ensures k <= |q|
    ensures k < |q| ==> Ready(q[k], ids, gameEnd, now)
    ensures forall j :: 0 <= j < k ==> !Ready(q[j], ids, gameEnd, now)
  {
    if |q| == 0 || Ready(q[0], ids, gameEnd, now) then 0 else 1 + FirstReady(q[1..], ids, gameEnd, now)
  }

  datatype Popped = Popped(queue: seq<Entry>, index: int, sockets: seq<int>)

  function Taken(e: Entry, now: int): Entry { e.(read := true, write := false, expire := now) }

  function Pop(n: Needs, gameEnd: bool, now: int): Popped {
    var q := Sort(Rarer, n.queue);
    var k := FirstReady(q, n.ids, gameEnd, now);
    if k == |q| then Popped(q, 0, [])
    else Popped(q[k := Taken(q[k], now)], q[k].index, Unchoked(q[k].queue, n.ids))
  }

  lemma FirstReadyRarest(q: seq<Entry>, ids: map<int, PeerStatus>, gameEnd: bool, now: int, f: Entry)
    requires Sorted(Rarer, q) && f in q && Ready(f, ids, gameEnd, now)
    ensures FirstReady(q, ids, gameEnd, now) < |q|
    ensures |q[FirstReady(q, ids, gameEnd, now)].queue| <= |f.queue|
  {
    hide Ready;
    var k := FirstReady(q, ids, gameEnd, now);
    var j :| 0 <= j < |q| && q[j] == f;
    assert k <= j;
    assert k == j || !Rarer(q[j], q[k]);
  }

  lemma UpdateBag(q: seq<Entry>, k: nat, x: Entry)
    requires k < |q|
    ensures multiset(q[k := x]) == multiset(q) - multiset{q[k]} + multiset{x}
  {
  }

  lemma ReadyHasSockets(e: Entry, ids: map<int, PeerStatus>, gameEnd: bool, now: int)
    requires Ready(e, ids, gameEnd, now)
    ensures Unchoked(e.queue, ids) != []
  {
  }

  /** PopNeed finds a piece exactly when some entry is eligible and has an unchoked source. */
  lemma PopFindsIfAny(n: Needs, gameEnd: bool, now: int)
    ensures Pop(n, gameEnd, now).sockets != [] <==> exists f :: f in n.queue && Ready(f, n.ids, gameEnd, now)
    ensures Pop(n, gameEnd, now).sockets == [] ==> multiset(Pop(n, gameEnd, now).queue) == multiset(n.queue)
  {
    var q := Sort(Rarer, n.queue);
    var k := FirstReady(q, n.ids, gameEnd, now);
    hide Ready, Sort, Taken, FirstReady, Eligible;
    if k < |q| {
      ReadyHasSockets(q[k], n.ids, gameEnd, now);
      assert q[k] in q;
      SameItem(Rarer, n.queue, q[k]);
    }
    forall f | f in n.queue && Ready(f, n.ids, gameEnd, now)
      ensures k < |q|
    {
      SameItem(Rarer, n.queue, f);
      var j :| 0 <= j < |q| && q[j] == f;
    }
  }

  /** PopNeed is rarest-first: of all entries that are eligible and have an unchoked source
      it takes one with the fewest sources, returns exactly those of its sources that are
      unchoked, and changes only that entry. */
  lemma PopTakesRarest(n: Needs, gameEnd: bool, now: int) returns (e: Entry)
    requires Pop(n, gameEnd, now).sockets != []
    ensures e in n.queue && Ready(e, n.ids, gameEnd, now)
    ensures Pop(n, gameEnd, now).index == e.index && Pop(n, gameEnd, now).sockets == Unchoked(e.queue, n.ids)
    ensures forall f :: f in n.queue && Ready(f, n.ids, gameEnd, now) ==> |e.queue| <= |f.queue|
    ensures multiset(Pop(n, gameEnd, now).queue) == multiset(n.queue) - multiset{e} + multiset{Taken(e, now)}
  {
    var q := Sort(Rarer, n.queue);
    SortSorts(Rarer, n.queue);
    var k := FirstReady(q, n.ids, gameEnd, now);
    hide Ready, Sort, Taken, FirstReady, Eligible, Sorted, Preorder;
    e := q[k];
    assert e in q;
    SameItem(Rarer, n.queue, e);
    UpdateBag(q, k, Taken(e, now));
    forall f | f in n.queue && Ready(f, n.ids, gameEnd, now)
      ensures |e.queue| <= |f.queue|
    {
      SameItem(Rarer, n.queue, f);
      FirstReadyRarest(q, n.ids, gameEnd, now, f);
    }
  }

  function SetW(q: seq<Entry>, index: int): (seq<Entry>, bool) {
    var i := Find(IndexOf, q, index);
    if index < 0 || i == |q| || q[i].write then (q, false) else (q[i := q[i].(write := true)], true)
  }

  function UnLock(q: seq<Entry>, index: int): seq<Entry> {
    var i := Find(IndexOf, q, index);
    if index < 0 || i == |q| then q else q[i := q[i].(read := false, write := false)]
  }

  function Clear(q: seq<Entry>, index: int): seq<Entry> {
    var i := Find(IndexOf, q, index);
    if index < 0 || i == |q| then q else q[..i] + q[i + 1..]
  }

  function SetId(ids: map<int, PeerStatus>, id: int, c: Change): map<int, PeerStatus> {
    if id in ids then ids[id := Apply(ids[id], c)] else ids
  }

  /** Every queue operation keeps one entry per index. */
  lemma PopKeepsUnique(n: Needs, gameEnd: bool, now: int)
    requires Unique(n.queue)
    ensures Unique(Pop(n, gameEnd, now).queue)
  {
    var q := Sort(Rarer, n.queue);
    SortDistinct(Rarer, IndexOf, n.queue);
    var k := FirstReady(q, n.ids, gameEnd, now);
    hide Sort, FirstReady;
    if k < |q| {
      UpdateDistinct(IndexOf, q, k, Taken(q[k], now));
    }
  }

  lemma PushKeepsUnique(q: seq<Entry>, index: int, source: Source)
    requires Unique(q)
    ensures Unique(Push(q, index, source))
  {
    var i := Find(IndexOf, q, index);
    hide Find;
    if i < |q| {
      UpdateDistinct(IndexOf, q, i, q[i].(queue := q[i].queue + [source]));
    }
  }

  lemma LocksKeepUnique(q: seq<Entry>, index: int)
    requires Unique(q)
    ensures Unique(SetW(q, index).0) && Unique(UnLock(q, index))
  {
    var i := Find(IndexOf, q, index);
    hide Find;
    if i < |q| {
      UpdateDistinct(IndexOf, q, i, q[i].(write := true));
      UpdateDistinct(IndexOf, q, i, q[i].(read := false, write := false));
    }
  }

  /** ClearIndex removes the index, and nothing else. */
  lemma ClearRemoves(q: seq<Entry>, index: int)
    requires Unique(q) && index >= 0
    ensures Unique(Clear(q, index))
    ensures forall e :: e in Clear(q, index) <==> e in q && e.index != index
  {
    var i := Find(IndexOf, q, index);
    if i < |q| {
      EraseDistinct(IndexOf, q, i);
    }
    hide Find;
  }

  // When an index is handed out again.

  /** With one piece queued: once handed out it is handed out again near the end of the game or after
      120 seconds, not at all while it is write-locked, and at once when it is unlocked. */
  lemma HandedOutAgain(n: Needs, gameEnd: bool, t: int, gameEnd': bool, t': int)
    requires |n.queue| == 1 && n.queue[0].index >= 0 && Pop(n, gameEnd, t).sockets != []
    ensures var r := Pop(n, gameEnd, t);
            var locked := SetW(r.queue, r.index).0;
            && (Pop(Needs(r.queue, n.ids), gameEnd', t').sockets != [] <==> gameEnd' || t' - t >= 120)
            && Pop(Needs(locked, n.ids), gameEnd', t').sockets == []
            && Pop(Needs(UnLock(locked, r.index), n.ids), gameEnd', t').sockets == r.sockets
  {
    var e := n.queue[0];
    var taken := Taken(e, t);
    var r := Pop(n, gameEnd, t);
    PopOfOne(n, gameEnd, t, e);
    assert r.queue == [taken] && r.index == e.index;
    var locked := taken.(write := true);
    assert Find(IndexOf, [taken], e.index) == 0 && Find(IndexOf, [locked], e.index) == 0;
    PopOfOne(Needs([taken], n.ids), gameEnd', t', taken);
    PopOfOne(Needs([locked], n.ids), gameEnd', t', locked);
    PopOfOne(Needs([taken.(read := false)], n.ids), gameEnd', t', taken.(read := false));
  }

  lemma PopOfOne(n: Needs, gameEnd: bool, now: int, e: Entry)
    requires n.queue == [e]
    ensures Pop(n, gameEnd, now) ==
            if Ready(e, n.ids, gameEnd, now) then Popped([Taken(e, now)], e.index, Unchoked(e.queue, n.ids))
            else Popped([e], 0, [])
  {
    SortOne(Rarer, e);
    hide Ready, Unchoked, Taken, Sort;
  }

  /** However many are queued, an index that was handed out at t is not handed out by a call at t'
      before the end of the game is near or 120 seconds have passed, whatever the peers are by then. */
  lemma NotHandedOutEarly(n: Needs, gameEnd: bool, t: int, ids: map<int, PeerStatus>, gameEnd': bool, t': int)
    requires Unique(n.queue) && Pop(n, gameEnd, t).sockets != []
    ensures var r := Pop(n, gameEnd, t);
            var r' := Pop(Needs(r.queue, ids), gameEnd', t');
            r'.sockets != [] && r'.index == r.index ==> gameEnd' || t' - t >= 120
  {
    PopKeepsUnique(n, gameEnd, t);
    var r := Pop(n, gameEnd, t);
    var e := PopTakesRarest(n, gameEnd, t);
    assert Taken(e, t) in multiset(r.queue);
    var r' := Pop(Needs(r.queue, ids), gameEnd', t');
    if r'.sockets != [] && r'.index == r.index {
      var f := PopTakesRarest(Needs(r.queue, ids), gameEnd', t');
      hide Pop;
      SameIndex(r.queue, f, Taken(e, t));
    }
  }

  lemma SameIndex(q: seq<Entry>, e: Entry, f: Entry)
    requires Unique(q) && e in q && f in q && e.index == f.index
    ensures e == f
  {
    var j :| 0 <= j < |q| && q[j] == e;
    var k :| 0 <= k < |q| && q[k] == f;
    assert IndexOf(q[j]) == IndexOf(q[k]);
  }

  // The object.

  class NeedPiece {
    var indexQueue: seq<Entry>
    var idQueue: map<int, PeerStatus>

    function State(): Needs
      reads this
    {
      Needs(indexQueue, idQueue)
    }

    constructor ()
      ensures State() == Needs([], map[])
    {
      indexQueue, idQueue := [], map[];
    }

    /** The search loop the queue methods share. */
    method Locate(index: int) returns (i: nat)
      ensures i == Find(IndexOf, indexQueue, index)
    {
      i := 0;
      while i < |indexQueue| && indexQueue[i].index != index
        invariant i <= |indexQueue| && forall j :: 0 <= j < i ==> indexQueue[j].index != index
      {
        i := i + 1;
      }
      FindStops(indexQueue, index, i);
    }

    method PushNeed(index: int, source: Source)
      modifies this`indexQueue
      ensures indexQueue == Push(old(indexQueue), index, source)
    {
      if index < 0 {
        return;
      }
      var i := Locate(index);
      if i < |indexQueue| {
        indexQueue := indexQueue[i := indexQueue[i].(queue := indexQueue[i].queue + [source])];
      } else {
        indexQueue := indexQueue + [Entry(index, false, false, 0, [source])];
      }
    }

    method PushNeeds(indices: seq<int>, source: Source)
      modifies this`indexQueue
      ensures indexQueue == PushAll(old(indexQueue), indices, source)
    {
      hide Push;
      for k := 0 to |indices|
        invariant PushAll(indexQueue, indices[k..], source) == PushAll(old(indexQueue), indices, source)
      {
        assert indices[k..][1..] == indices[k + 1..];
        PushNeed(indices[k], source);
      }
      assert indices[|indices|..] == [];
    }

    /** The inner loop of PopNeed. */
    method CollectUnchoked(sources: seq<Source>) returns (sockets: seq<int>)
      ensures sockets == Unchoked(sources, idQueue)
    {
      sockets := [];
      for k := 0 to |sources|
        invariant sockets == Unchoked(sources[..k], idQueue)
      {
        assert sources[..k + 1][..k] == sources[..k];
        if sources[k].id in idQueue && !idQueue[sources[k].id].peerChoke {
          sockets := sockets + [sources[k].socket];
        }
      }
      assert sources[..|sources|] == sources;
    }

    /** PopNeed, with GameEnd and the clock as arguments. */
    method PopNeed(gameEnd: bool, now: int) returns (index: int, sockets: seq<int>)
      modifies this`indexQueue
      ensures Popped(indexQueue, index, sockets) == Pop(old(State()), gameEnd, now)
    {
      hide Unchoked, Taken, Sort;
      index, sockets := 0, [];
      assert Sort(Rarer, []) == [] by {
        SortNothing();
      }
      if indexQueue == [] {
        return;
      }
      indexQueue := Sort(Rarer, indexQueue);
      ghost var q := indexQueue;
      var k := 0;
      while k < |indexQueue|
        invariant k <= |q| && indexQueue == q && sockets == [] && index == 0
        invariant forall j :: 0 <= j < k ==> !Ready(q[j], idQueue, gameEnd, now)
      {
        if Eligible(indexQueue[k], gameEnd, now) {
          sockets := CollectUnchoked(indexQueue[k].queue);
          if sockets != [] {
            FirstReadyIs(q, idQueue, gameEnd, now, k);
            index := indexQueue[k].index;
            indexQueue := indexQueue[k := Taken(indexQueue[k], now)];
            return;
          }
        }
        k := k + 1;
      }
      NoneReady(q, idQueue, gameEnd, now);
    }

    method SetIndexW(index: int) returns (ok: bool)
      modifies this`indexQueue
      ensures (indexQueue, ok) == SetW(old(indexQueue), index)
    {
      ok := false;
      if index < 0 {
        return;
      }
      var i := Locate(index);
      if i < |indexQueue| && !indexQueue[i].write {
        indexQueue := indexQueue[i := indexQueue[i].(write := true)];
        ok := true;
      }
    }

    method UnLockIndex(index: int)
      modifies this`indexQueue
      ensures indexQueue == UnLock(old(indexQueue), index)
    {
      if index < 0 {
        return;
      }
      var i := Locate(index);
      if i < |indexQueue| {
        indexQueue := indexQueue[i := indexQueue[i].(read := false, write := false)];
      }
    }

    method ClearIndex(index: int)
      modifies this`indexQueue
      ensures indexQueue == Clear(old(indexQueue), index)
    {
      if index < 0 {
        return;
      }
      var i := Locate(index);
      if i < |indexQueue| {
        indexQueue := indexQueue[..i] + indexQueue[i + 1..];
      }
    }

    /** unordered_map::emplace keeps a status that is already there. */
    method SocketMapId(id: int)
      modifies this`idQueue
      ensures idQueue == if id in old(idQueue) then old(idQueue) else old(idQueue)[id := NEW_STATUS]
    {
      if id !in idQueue {
        idQueue := idQueue[id := NEW_STATUS];
      }
    }

    method ClearSocket(id: int)
      modifies this`idQueue
      ensures idQueue == old(idQueue) - {id}
    {
      if id in idQueue {
        idQueue := idQueue - {id};
      }
    }

    /** AmChoke to PrUnInterested, but for the SendReq that PrUnChoke ends with. */
    method SetStatus(id: int, c: Change) returns (known: bool)
      modifies this`idQueue
      ensures idQueue == SetId(old(idQueue), id, c) && (known <==> id in old(idQueue))
    {
      known := id in idQueue;
      if known {
        idQueue := idQueue[id := Apply(idQueue[id], c)];
      }
    }
  }

  lemma FindStops(q: seq<Entry>, index: int, i: nat)
    requires i <= |q| && (i < |q| ==> q[i].index == index)
    requires forall j :: 0 <= j < i ==> q[j].index != index
    ensures Find(IndexOf, q, index) == i
  {
  }

  lemma SortNothing()
    ensures Sort(Rarer, []) == []
  {
  }

  lemma FirstReadyIs(q: seq<Entry>, ids: map<int, PeerStatus>, gameEnd: bool, now: int, k: nat)
    requires k < |q| && Ready(q[k], ids, gameEnd, now)
    requires forall j :: 0 <= j < k ==> !Ready(q[j], ids, gameEnd, now)
    ensures FirstReady(q, ids, gameEnd, now) == k
  {
  }

  lemma NoneReady(q: seq<Entry>, ids: map<int, PeerStatus>, gameEnd: bool, now: int)
    requires forall j :: 0 <= j < |q| ==> !Ready(q[j], ids, gameEnd, now)
    ensures FirstReady(q, ids, gameEnd, now) == |q|
  {
  }
}
