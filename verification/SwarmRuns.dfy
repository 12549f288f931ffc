/** What every run of the peer table methods keeps: the three tables agree, and the entries
    that a closed peer leaves in the need queue do no harm. */
module SwarmRuns {
  import opened StableSort
  import opened NeedPiece
  import opened PeerTables

  /** The four choke and interest bits. */
  function Four(st: PeerStatus): (bool, bool, bool, bool) {
    (st.amChoke, st.amInterested, st.peerChoke, st.peerInterested)
  }

  /** PeerManager and DownSpeed hold the same sockets with the same four bits. */
  ghost predicate SpeedsAgree(peers: map<int, Peer>, speeds: seq<Speed>) {
    && Distinct(SocketOf, speeds)
    && (forall x :: x in speeds ==> x.socket in peers && Four(x.status) == Four(peers[x.socket].status))
    && (forall s :: s in peers ==> exists x :: x in speeds && x.socket == s)
  }

  /** NeedPiece holds exactly the peers' ids, each once, with the same four bits. */
  ghost predicate IdsAgree(peers: map<int, Peer>, curId: nat, ids: map<int, PeerStatus>) {
    && (forall s :: s in peers ==>
        0 <= peers[s].id < curId && peers[s].id in ids && Four(ids[peers[s].id]) == Four(peers[s].status))
    && (forall s, t :: s in peers && t in peers && s != t ==> peers[s].id != peers[t].id)
    && (forall id :: id in ids ==> exists s :: s in peers && peers[s].id == id)
  }

  ghost predicate Agree(w: Swarm) { SpeedsAgree(w.peers, w.speeds) && IdsAgree(w.peers, w.curId, w.needs.ids) }

  /** A queued (socket, id) pair belongs to a peer open now, or its id is gone for good. */
  ghost predicate SourceSafe(w: Swarm, x: Source) {
    x.id < w.curId && forall s :: s in w.peers && w.peers[s].id == x.id ==> s == x.socket
  }

  ghost predicate QueueSafe(w: Swarm) {
    && Unique(w.needs.queue)
    && forall e, x :: e in w.needs.queue && x in e.queue ==> SourceSafe(w, x)
  }

  ghost predicate Inv(w: Swarm) { Agree(w) && QueueSafe(w) }

  /** AddSocket is only given a socket that is not in the table. */
  predicate Legal(w: Swarm, step: Step) { step.AddStep? ==> step.socket !in w.peers }

  // One step at a time: the speed list.

  lemma AddSpeeds(w: Swarm, socket: int)
    requires SpeedsAgree(w.peers, w.speeds) && socket !in w.peers && socket >= 0
    ensures SpeedsAgree(Add(w, socket).peers, Add(w, socket).speeds)
  {
    var w', x := Add(w, socket), Speed(socket, NEW_STATUS, 0);
    assert forall k :: 0 <= k < |w.speeds| ==> w.speeds[k] in w.speeds;
    forall s | s in w'.peers
      ensures exists y :: y in w'.speeds && y.socket == s
    {
      if s == socket {
        assert x in w'.speeds;
      } else {
        var y :| y in w.speeds && y.socket == s;
        assert y in w'.speeds;
      }
    }
  }

  lemma SpeedAt(speeds: seq<Speed>, socket: int)
    requires exists x :: x in speeds && x.socket == socket
    ensures Find(SocketOf, speeds, socket) < |speeds|
  {
    var x :| x in speeds && x.socket == socket;
    var j :| 0 <= j < |speeds| && speeds[j] == x;
  }

  lemma Dropped(speeds: seq<Speed>, socket: int)
    requires Distinct(SocketOf, speeds) && exists x :: x in speeds && x.socket == socket
    ensures Distinct(SocketOf, DropSpeed(speeds, socket))
    ensures forall x :: x in DropSpeed(speeds, socket) <==> x in speeds && x.socket != socket
  {
    SpeedAt(speeds, socket);
    EraseDistinct(SocketOf, speeds, Find(SocketOf, speeds, socket));
    hide Find, Distinct;
  }

  lemma CloseSpeeds(w: Swarm, socket: int)
    requires SpeedsAgree(w.peers, w.speeds) && socket in w.peers
    ensures SpeedsAgree(Close(w, socket).peers, Close(w, socket).speeds)
  {
    hide DropSpeed, Distinct, Four;
    Dropped(w.speeds, socket);
    var w' := Close(w, socket);
    forall s | s in w'.peers
      ensures exists y :: y in w'.speeds && y.socket == s
    {
      var y :| y in w.speeds && y.socket == s;
      assert y in w'.speeds;
    }
  }

  lemma Changed(speeds: seq<Speed>, socket: int, c: Change) returns (old': Speed, new': Speed)
    requires Distinct(SocketOf, speeds) && exists x :: x in speeds && x.socket == socket
    ensures old' in speeds && old'.socket == socket && new' == old'.(status := Apply(old'.status, c))
    ensures Distinct(SocketOf, SetSpeed(speeds, socket, c))
    ensures forall y :: y in SetSpeed(speeds, socket, c) <==> y == new' || (y in speeds && y.socket != socket)
  {
    SpeedAt(speeds, socket);
    var i := Find(SocketOf, speeds, socket);
    old' := speeds[i];
    new' := old'.(status := Apply(old'.status, c));
    assert speeds[i] in speeds;
    UpdateDistinct(SocketOf, speeds, i, new');
    hide Find, Distinct, Apply;
  }

  /** The speed list follows a peer's four bits. */
  lemma ChangeSpeeds(peers: map<int, Peer>, speeds: seq<Speed>, socket: int, p: Peer, c: Change)
    requires SpeedsAgree(peers, speeds) && socket in peers
    requires Four(p.status) == Four(Apply(peers[socket].status, c))
    ensures SpeedsAgree(peers[socket := p], SetSpeed(speeds, socket, c))
  {
    var x, x' := Changed(speeds, socket, c);
    SameFourAfter(x.status, peers[socket].status, c);
    hide SetSpeed, Distinct, Four, Apply;
    var speeds' := SetSpeed(speeds, socket, c);
    forall s | s in peers
      ensures exists y :: y in speeds' && y.socket == s
    {
      var y :| y in speeds && y.socket == s;
      assert if s == socket then x' in speeds' else y in speeds';
    }
  }

  lemma SameFourAfter(a: PeerStatus, b: PeerStatus, c: Change)
    requires Four(a) == Four(b)
    ensures Four(Apply(a, c)) == Four(Apply(b, c))
  {
  }

  lemma SortedSpeeds(peers: map<int, Peer>, speeds: seq<Speed>)
    requires SpeedsAgree(peers, speeds)
    ensures SpeedsAgree(peers, Sort(Faster, speeds))
  {
    var q := Sort(Faster, speeds);
    SortDistinct(Faster, SocketOf, speeds);
    hide Sort, Four, Distinct;
    forall x
      ensures x in q <==> x in speeds
    {
      SameItem(Faster, speeds, x);
    }
  }

  lemma ZeroedSpeeds(peers: map<int, Peer>, speeds: seq<Speed>)
    requires SpeedsAgree(peers, speeds)
    ensures SpeedsAgree(peers, Zeroed(speeds))
  {
    var r := Zeroed(speeds);
    hide Four;
    forall s | s in peers
      ensures exists y :: y in r && y.socket == s
    {
      var y :| y in speeds && y.socket == s;
      var k :| 0 <= k < |speeds| && speeds[k] == y;
      assert r[k] in r;
    }
  }

  lemma ResortSpeeds(w: Swarm)
    requires SpeedsAgree(w.peers, w.speeds)
    ensures SpeedsAgree(w.peers, Resorted(w).speeds)
  {
    SortedSpeeds(w.peers, w.speeds);
    ZeroedSpeeds(w.peers, Sort(Faster, w.speeds));
    hide SpeedsAgree, Sort;
  }

  /** Neither table looks at the piece flags or the expiry times. */
  lemma SameFourAgree(w: Swarm, peers: map<int, Peer>)
    requires Agree(w) && peers.Keys == w.peers.Keys
    requires forall s :: s in peers ==> peers[s].id == w.peers[s].id && Four(peers[s].status) == Four(w.peers[s].status)
    ensures SpeedsAgree(peers, w.speeds) && IdsAgree(peers, w.curId, w.needs.ids)
  {
    hide Four, Distinct;
    forall id | id in w.needs.ids
      ensures exists s :: s in peers && peers[s].id == id
    {
      var s :| s in w.peers && w.peers[s].id == id;
      assert s in peers;
    }
  }

  // The ids.

  lemma AddIds(w: Swarm, socket: int)
    requires IdsAgree(w.peers, w.curId, w.needs.ids) && socket !in w.peers && socket >= 0
    ensures IdsAgree(Add(w, socket).peers, Add(w, socket).curId, Add(w, socket).needs.ids)
  {
    hide Four;
    var w' := Add(w, socket);
    forall id | id in w'.needs.ids
      ensures exists s :: s in w'.peers && w'.peers[s].id == id
    {
      if id == w.curId {
        assert w'.peers[socket].id == id;
      } else {
        var s :| s in w.peers && w.peers[s].id == id;
        assert w'.peers[s].id == id;
      }
    }
  }

  lemma CloseIds(w: Swarm, socket: int)
    requires IdsAgree(w.peers, w.curId, w.needs.ids) && socket in w.peers
    ensures IdsAgree(Close(w, socket).peers, Close(w, socket).curId, Close(w, socket).needs.ids)
  {
    hide Four;
    var w' := Close(w, socket);
    forall id | id in w'.needs.ids
      ensures exists s :: s in w'.peers && w'.peers[s].id == id
    {
      var s :| s in w.peers && w.peers[s].id == id;
      assert w'.peers[s].id == id;
    }
  }

  lemma ChangeIds(peers: map<int, Peer>, curId: nat, ids: map<int, PeerStatus>, socket: int, p: Peer, c: Change)
    requires IdsAgree(peers, curId, ids) && socket in peers && p.id == peers[socket].id
    requires Four(p.status) == Four(Apply(peers[socket].status, c))
    ensures IdsAgree(peers[socket := p], curId, SetId(ids, p.id, c))
  {
    SameFourAfter(ids[p.id], peers[socket].status, c);
    hide Four, Apply;
    var peers', ids' := peers[socket := p], SetId(ids, p.id, c);
    forall id | id in ids'
      ensures exists s :: s in peers' && peers'[s].id == id
    {
      var s :| s in peers && peers[s].id == id;
      assert peers'[s].id == id;
    }
  }

  // The requests.

  /** ReqPiece leaves the ids and the four bits of every peer alone. */
  lemma {:induction false} ReqPiecesKeep(peers: map<int, Peer>, sockets: seq<int>, now: int)
    ensures var r := ReqPieces(peers, sockets, now);
            r.Keys == peers.Keys &&
            forall s :: s in peers ==> r[s].id == peers[s].id && Four(r[s].status) == Four(peers[s].status)
  {
    if |sockets| == 0 {
    } else {
      ReqPiecesKeep(peers, sockets[..|sockets| - 1], now);
    }
  }

  lemma SendReqKeeps(w: Swarm, gameEnd: bool, now: int)
    requires Inv(w)
    ensures Inv(SendReq(w, gameEnd, now))
    ensures var w' := SendReq(w, gameEnd, now);
            w'.peers.Keys == w.peers.Keys && w'.speeds == w.speeds && w'.curId == w.curId && w'.needs.ids == w.needs.ids
  {
    var r := Pop(w.needs, gameEnd, now);
    ReqPiecesKeep(w.peers, r.sockets, now);
    var w' := SendReq(w, gameEnd, now);
    SameFourAgree(w, w'.peers);
    PopKeepsUnique(w.needs, gameEnd, now);
    PopKeepsSources(w, gameEnd, now);
    hide ReqPieces, Pop, Agree, Unique;
    forall e, x | e in r.queue && x in e.queue
      ensures SourceSafe(w', x)
    {
      assert SourceSafe(w, x);
    }
  }

  lemma PopKeepsSources(w: Swarm, gameEnd: bool, now: int)
    requires QueueSafe(w)
    ensures forall e, x :: e in Pop(w.needs, gameEnd, now).queue && x in e.queue ==> SourceSafe(w, x)
  {
    var q := Sort(Rarer, w.needs.queue);
    var q' := Pop(w.needs, gameEnd, now).queue;
    hide SourceSafe, Sort, Unique;
    forall e, x | e in q' && x in e.queue
      ensures SourceSafe(w, x)
    {
      var k :| 0 <= k < |q'| && q'[k] == e;
      assert q[k].queue == e.queue;
      SameItem(Rarer, w.needs.queue, q[k]);
      assert q[k] in w.needs.queue;
    }
  }

  // Whole steps.

  lemma AddKeeps(w: Swarm, socket: int)
    requires Inv(w) && socket !in w.peers
    ensures Inv(Add(w, socket))
  {
    if socket >= 0 {
      AddSpeeds(w, socket);
      AddIds(w, socket);
      hide Agree, Unique, SpeedsAgree;
      var w' := Add(w, socket);
      forall e, x | e in w'.needs.queue && x in e.queue
        ensures SourceSafe(w', x)
      {
        assert SourceSafe(w, x);
      }
      assert Agree(w') by {
        AgreeFrom(w');
      }
    }
  }

  lemma AgreeFrom(w: Swarm)
    requires SpeedsAgree(w.peers, w.speeds) && IdsAgree(w.peers, w.curId, w.needs.ids)
    ensures Agree(w)
  {
  }

  /** The precondition on AddSocket is needed: with a socket already there the tables come
      apart. */
  lemma AddTwiceDisagrees(w: Swarm, socket: int)
    requires Inv(w) && socket >= 0
    ensures Agree(Add(w, socket)) <==> socket !in w.peers
  {
    if socket in w.peers {
      var x :| x in w.speeds && x.socket == socket;
      var j :| 0 <= j < |w.speeds| && w.speeds[j] == x;
      var q := Add(w, socket).speeds;
      assert SocketOf(q[j]) == SocketOf(q[|w.speeds|]);
    } else {
      AddKeeps(w, socket);
    }
  }

  lemma CloseKeeps(w: Swarm, socket: int)
    requires Inv(w)
    ensures Inv(Close(w, socket))
  {
    if socket in w.peers {
      CloseSpeeds(w, socket);
      CloseIds(w, socket);
      hide SpeedsAgree, IdsAgree, Unique;
      var w' := Close(w, socket);
      forall e, x | e in w'.needs.queue && x in e.queue
        ensures SourceSafe(w', x)
      {
        assert SourceSafe(w, x);
      }
    }
  }

  lemma ChangeKeeps(w: Swarm, socket: int, c: Change, gameEnd: bool, now: int)
    requires Inv(w)
    ensures Inv(SetPeer(w, socket, c, gameEnd, now))
    ensures SetPeer(w, socket, c, gameEnd, now).peers.Keys == w.peers.Keys
    ensures SetPeer(w, socket, c, gameEnd, now).curId == w.curId
  {
    if socket in w.peers && !(IsAm(c) && Apply(w.peers[socket].status, c) == w.peers[socket].status) {
      var p := w.peers[socket];
      var p1 := p.(status := Apply(p.status, c));
      ChangeIds(w.peers, w.curId, w.needs.ids, socket, p1, c);
      ChangeSpeeds(w.peers, w.speeds, socket, p1, c);
      // The three tables as they are once DownSpeed has followed as well.
      var done := w.(peers := w.peers[socket := p1], needs := w.needs.(ids := SetId(w.needs.ids, p.id, c)),
                     speeds := SetSpeed(w.speeds, socket, c));
      DoneIsSafe(w, done);
      if c == PrUnChoke && p.id in w.needs.ids {
        SendReqKeeps(done, gameEnd, now);
        assert SetPeer(w, socket, c, gameEnd, now) == SendReq(done, gameEnd, now);
      } else {
        assert SetPeer(w, socket, c, gameEnd, now) == done;
      }
    }
  }

  lemma DoneIsSafe(w: Swarm, done: Swarm)
    requires QueueSafe(w) && Agree(done)
    requires done.needs.queue == w.needs.queue && done.curId == w.curId && done.peers.Keys == w.peers.Keys
    requires forall s :: s in w.peers ==> done.peers[s].id == w.peers[s].id
    ensures Inv(done)
  {
    hide Agree, Unique;
    forall e, x | e in done.needs.queue && x in e.queue
      ensures SourceSafe(done, x)
    {
      assert SourceSafe(w, x);
    }
  }

  lemma PushSafe(w: Swarm, index: int, x: Source)
    requires Inv(w) && SourceSafe(w, x)
    ensures Inv(w.(needs := w.needs.(queue := Push(w.needs.queue, index, x))))
  {
    PushKeepsUnique(w.needs.queue, index, x);
    hide Agree, Unique;
    var w' := w.(needs := w.needs.(queue := Push(w.needs.queue, index, x)));
    forall e, y | e in w'.needs.queue && y in e.queue
      ensures SourceSafe(w', y)
    {
      assert e in w.needs.queue || y == x || exists f :: f in w.needs.queue && y in f.queue by {
        PushedSource(w.needs.queue, index, x, e, y);
      }
      assert SourceSafe(w, y);
    }
    assert Agree(w') by {
      AgreeIgnoresQueue(w, w'.needs.queue);
    }
  }

  lemma AgreeIgnoresQueue(w: Swarm, q: seq<Entry>)
    requires Agree(w)
    ensures Agree(w.(needs := w.needs.(queue := q)))
  {
  }

  lemma PushedSource(q: seq<Entry>, index: int, x: Source, e: Entry, y: Source)
    requires e in Push(q, index, x) && y in e.queue
    ensures y == x || exists f :: f in q && y in f.queue
  {
    var i := Find(IndexOf, q, index);
    if index >= 0 && i < |q| {
      assert q[i] in q;
    }
  }

  lemma {:induction false} PushAllSafe(w: Swarm, indices: seq<int>, x: Source)
    requires Inv(w) && SourceSafe(w, x)
    ensures Inv(w.(needs := w.needs.(queue := PushAll(w.needs.queue, indices, x))))
    decreases |indices|
  {
    hide Inv, Push;
    if |indices| > 0 {
      PushSafe(w, indices[0], x);
      var w1 := w.(needs := w.needs.(queue := Push(w.needs.queue, indices[0], x)));
      PushAllSafe(w1, indices[1..], x);
    } else {
      assert w.(needs := w.needs.(queue := w.needs.queue)) == w;
    }
  }

  lemma NeedKeeps(w: Swarm, socket: int, indices: seq<int>)
    requires Inv(w)
    ensures Inv(Need(w, socket, indices))
  {
    if socket in w.peers {
      ChangeKeeps(w, socket, AmInterested, false, 0);
      var w1 := SetPeer(w, socket, AmInterested, false, 0);
      assert w1.peers[socket].id == w.peers[socket].id;
      PushAllSafe(w1, indices, Source(socket, w.peers[socket].id));
    }
  }

  lemma LockKeeps(w: Swarm, index: int)
    requires Inv(w)
    ensures Inv(Next(w, WriteLockStep(index))) && Inv(Next(w, UnLockStep(index)))
  {
    hide SetW, UnLock, Unique, Agree, SourceSafe;
    assert Unique(w.needs.queue);
    hide QueueSafe, Inv;
    LocksKeepUnique(w.needs.queue, index);
    LocksKeepSources(w.needs.queue, index);
    NarrowedQueue(w, SetW(w.needs.queue, index).0);
    NarrowedQueue(w, UnLock(w.needs.queue, index));
  }

  lemma ClearKeeps(w: Swarm, index: int)
    requires Inv(w)
    ensures Inv(Next(w, ClearStep(index)))
  {
    hide Clear, Unique, Agree, SourceSafe;
    assert Unique(w.needs.queue);
    hide QueueSafe, Inv;
    ClearKeepsSources(w.needs.queue, index);
    NarrowedQueue(w, Clear(w.needs.queue, index));
  }

  lemma ClearKeepsSources(q: seq<Entry>, index: int)
    requires Unique(q)
    ensures Unique(Clear(q, index))
    ensures forall e :: e in Clear(q, index) ==> e in q
  {
    if index >= 0 {
      ClearRemoves(q, index);
    }
  }

  lemma LocksKeepSources(q: seq<Entry>, index: int)
    ensures forall e :: e in SetW(q, index).0 ==> exists f :: f in q && f.queue == e.queue
    ensures forall e :: e in UnLock(q, index) ==> exists f :: f in q && f.queue == e.queue
  {
    var i := Find(IndexOf, q, index);
    if i < |q| {
      assert q[i] in q;
    }
  }

  lemma NarrowedQueue(w: Swarm, q: seq<Entry>)
    requires Inv(w) && Unique(q)
    requires forall e :: e in q ==> exists f :: f in w.needs.queue && f.queue == e.queue
    ensures Inv(w.(needs := w.needs.(queue := q)))
  {
    hide Unique;
    var w' := w.(needs := w.needs.(queue := q));
    AgreeIgnoresQueue(w, q);
    hide Agree;
    forall e, x | e in q && x in e.queue
      ensures SourceSafe(w', x)
    {
      var f :| f in w.needs.queue && f.queue == e.queue;
      assert SourceSafe(w, x);
    }
  }

  lemma ResortKeeps(w: Swarm)
    requires Inv(w)
    ensures Inv(Resorted(w))
  {
    ResortSpeeds(w);
    hide SpeedsAgree, IdsAgree, Unique;
    forall e, x | e in w.needs.queue && x in e.queue
      ensures SourceSafe(Resorted(w), x)
    {
      assert SourceSafe(w, x);
    }
  }

  lemma TouchKeeps(w: Swarm, socket: int, request: bool, recv: bool, expire: int)
    requires Inv(w)
    ensures Inv(Touch(w, socket, request, recv, expire))
  {
    var w' := Touch(w, socket, request, recv, expire);
    SameFourAgree(w, w'.peers);
    hide SpeedsAgree, IdsAgree;
    DoneIsSafe(w, w');
  }

  lemma StepKeeps(w: Swarm, step: Step)
    requires Inv(w) && Legal(w, step)
    ensures Inv(Next(w, step))
  {
    hide Inv;
    match step
    case AddStep(socket) => AddKeeps(w, socket);
    case CloseStep(socket) => CloseKeeps(w, socket);
    case ChangeStep(socket, c, gameEnd, now) => ChangeKeeps(w, socket, c, gameEnd, now);
    case NeedStep(socket, indices) => NeedKeeps(w, socket, indices);
    case RequestStep(gameEnd, now) => SendReqKeeps(w, gameEnd, now);
    case WriteLockStep(index) => LockKeeps(w, index);
    case UnLockStep(index) => LockKeeps(w, index);
    case ClearStep(index) => ClearKeeps(w, index);
    case ResortStep => ResortKeeps(w);
    case TouchStep(socket, request, recv, expire) => TouchKeeps(w, socket, request, recv, expire);
  }

  const EMPTY := Swarm(map[], 0, 0, [], Needs([], map[]))

  ghost predicate LegalRun(steps: seq<Step>) {
    forall k :: 0 <= k < |steps| ==> Legal(Run(EMPTY, steps[..k]), steps[k])
  }

  lemma EmptyInv()
    ensures Inv(EMPTY)
  {
  }

  lemma LegalPrefix(steps: seq<Step>)
    requires LegalRun(steps) && |steps| > 0
    ensures LegalRun(steps[..|steps| - 1])
  {
    hide Legal, Run;
    var before := steps[..|steps| - 1];
    forall k | 0 <= k < |before|
      ensures Legal(Run(EMPTY, before[..k]), before[k])
    {
      assert before[..k] == steps[..k];
    }
  }

  /** After every legal run from the empty tables, all three agree and every queued pair is
      safe. Sockets may be closed and reused in it as often as it likes. */
  lemma {:induction false} EveryRunKeeps(steps: seq<Step>)
    requires LegalRun(steps)
    ensures Inv(Run(EMPTY, steps))
    decreases |steps|
  {
    EmptyInv();
    if |steps| == 0 {
    } else {
      var n := |steps| - 1;
      LegalPrefix(steps);
      hide Inv, Legal, Next;
      EveryRunKeeps(steps[..n]);
      StepKeeps(Run(EMPTY, steps[..n]), steps[n]);
    }
  }

  /** Stale entries are harmless: after any legal run, every socket PopNeed returns is open,
      has an entry queued for the index that is returned under the id it carries now, and does
      not choke us. */
  lemma PoppedSocketsAreLive(steps: seq<Step>, gameEnd: bool, now: int, s: int)
    requires LegalRun(steps)
    requires s in Pop(Run(EMPTY, steps).needs, gameEnd, now).sockets
    ensures var w := Run(EMPTY, steps);
            s in w.peers && !w.peers[s].status.peerChoke &&
            exists e :: e in w.needs.queue && e.index == Pop(w.needs, gameEnd, now).index &&
                        Source(s, w.peers[s].id) in e.queue
  {
    EveryRunKeeps(steps);
    hide Run;
    var w := Run(EMPTY, steps);
    var e := PopTakesRarest(w.needs, gameEnd, now);
    hide Pop;
    UnchokedMembers(e.queue, w.needs.ids, s);
    var k :| 0 <= k < |e.queue| && e.queue[k].socket == s
          && e.queue[k].id in w.needs.ids && !w.needs.ids[e.queue[k].id].peerChoke;
    LiveSource(w, e, e.queue[k]);
  }

  lemma LiveSource(w: Swarm, e: Entry, x: Source)
    requires Inv(w) && e in w.needs.queue && x in e.queue && x.id in w.needs.ids
    ensures x.socket in w.peers && w.peers[x.socket].id == x.id
    ensures w.needs.ids[x.id].peerChoke == w.peers[x.socket].status.peerChoke
  {
    hide Unique, SpeedsAgree;
    var s :| s in w.peers && w.peers[s].id == x.id;
    assert SourceSafe(w, x);
  }
}
