/** The methods of the three tables, taken apart at the points where they give up one lock
    before they take the next. */
module TableParts {
  import opened StableSort
  import opened NeedPiece
  import opened PeerTables
  import SwarmRuns

  /** What happens under one lock. */
  datatype Part =
    | AddPeer(socket: int)                  // AddSocket: the peer and its id
    | AddSpeed(socket: int)                 // its entry in the speed list
    | AddId(id: int)                        // and the id in NeedPiece
    | ClosePeer(socket: int)                // CloseSocket, in the same order
    | CloseSpeed(socket: int)
    | CloseId(id: int)
    | ChangePeer(socket: int, c: Change)    // a status method
    | ChangeId(id: int, c: Change)
    | ChangeSpeed(socket: int, c: Change)
    | PopPart(gameEnd: bool, now: int)      // SendReq: PopNeed
    | ReqPart(socket: int, now: int)        // and ReqPiece on one socket
    | PushPart(index: int, source: Source)
    | SetWPart(index: int)
    | UnLockPart(index: int)
    | ClearPart(index: int)
    | ResortPart
    | TouchPart(socket: int, request: bool, recv: bool, expire: int)

  function WithNeeds(w: Swarm, queue: seq<Entry>): Swarm { w.(needs := w.needs.(queue := queue)) }

  function WithIds(w: Swarm, ids: map<int, PeerStatus>): Swarm { w.(needs := w.needs.(ids := ids)) }

  function Do(w: Swarm, part: Part): Swarm {
    match part
    case AddPeer(s) =>
      if s < 0 then w
      else w.(peers := if s in w.peers then w.peers else w.peers[s := Peer(NEW_STATUS, w.curId, 0)],
              curId := w.curId + 1, socketNum := w.socketNum + 1)
    case AddSpeed(s) => w.(speeds := w.speeds + [Speed(s, NEW_STATUS, 0)])
    case AddId(id) => WithIds(w, if id in w.needs.ids then w.needs.ids else w.needs.ids[id := NEW_STATUS])
    case ClosePeer(s) => if s !in w.peers then w else w.(peers := w.peers - {s}, socketNum := w.socketNum - 1)
    case CloseSpeed(s) => w.(speeds := DropSpeed(w.speeds, s))
    case CloseId(id) => WithIds(w, w.needs.ids - {id})
    case ChangePeer(s, c) =>
      if s !in w.peers then w
      else w.(peers := w.peers[s := w.peers[s].(status := Apply(w.peers[s].status, c))])
    case ChangeId(id, c) => WithIds(w, SetId(w.needs.ids, id, c))
    case ChangeSpeed(s, c) => w.(speeds := SetSpeed(w.speeds, s, c))
    case PopPart(gameEnd, now) => WithNeeds(w, Pop(w.needs, gameEnd, now).queue)
    case ReqPart(s, now) => w.(peers := ReqPieces(w.peers, [s], now))
    case PushPart(index, source) => WithNeeds(w, Push(w.needs.queue, index, source))
    case SetWPart(index) => WithNeeds(w, SetW(w.needs.queue, index).0)
    case UnLockPart(index) => WithNeeds(w, UnLock(w.needs.queue, index))
    case ClearPart(index) => WithNeeds(w, Clear(w.needs.queue, index))
    case ResortPart => Resorted(w)
    case TouchPart(s, request, recv, expire) => Touch(w, s, request, recv, expire)
  }

  function DoAll(w: Swarm, parts: seq<Part>): Swarm {
    if |parts| == 0 then w else Do(DoAll(w, parts[..|parts| - 1]), parts[|parts| - 1])
  }

  lemma DoOne(w: Swarm, parts: seq<Part>, part: Part)
    ensures DoAll(w, parts + [part]) == Do(DoAll(w, parts), part)
  {
    assert (parts + [part])[..|parts|] == parts;
  }

  // A call that nothing overlaps is one step of the tables.

  lemma DoTwo(w: Swarm, a: Part, b: Part)
    ensures DoAll(w, [a] + [b]) == Do(Do(w, a), b)
  {
    hide Do;
    DoOne(w, [], a);
    DoOne(w, [a], b);
    assert [] + [a] == [a];
  }

  lemma DoThree(w: Swarm, a: Part, b: Part, c: Part)
    ensures DoAll(w, [a] + [b] + [c]) == Do(Do(Do(w, a), b), c)
  {
    hide Do;
    DoTwo(w, a, b);
    DoOne(w, [a] + [b], c);
  }

  lemma AddIsParts(w: Swarm, s: int) returns (parts: seq<Part>)
    ensures DoAll(w, parts) == Add(w, s)
  {
    parts := [];
    if s >= 0 {
      hide DoAll;
      DoThree(w, AddPeer(s), AddSpeed(s), AddId(w.curId));
      parts := [AddPeer(s)] + [AddSpeed(s)] + [AddId(w.curId)];
    }
  }

  lemma CloseIsParts(w: Swarm, s: int) returns (parts: seq<Part>)
    ensures DoAll(w, parts) == Close(w, s)
  {
    hide DropSpeed;
    parts := [];
    if s in w.peers {
      hide DoAll;
      var id := w.peers[s].id;
      DoThree(w, ClosePeer(s), CloseSpeed(s), CloseId(id));
      parts := [ClosePeer(s)] + [CloseSpeed(s)] + [CloseId(id)];
    }
  }

  lemma {:induction false} RequestsAreParts(w: Swarm, sockets: seq<int>, now: int, before: seq<Part>, w1: Swarm)
    returns (parts: seq<Part>)
    requires DoAll(w, before) == w1
    ensures DoAll(w, parts) == w1.(peers := ReqPieces(w1.peers, sockets, now))
    decreases |sockets|
  {
    if |sockets| == 0 {
      parts := before;
    } else {
      var n := |sockets| - 1;
      parts := RequestsAreParts(w, sockets[..n], now, before, w1);
      DoOne(w, parts, ReqPart(sockets[n], now));
      ReqPiecesStep(w1.peers, sockets, n, now);
      assert sockets[..n + 1] == sockets;
      hide ReqPieces;
      parts := parts + [ReqPart(sockets[n], now)];
    }
  }

  lemma SendReqIsParts(w: Swarm, gameEnd: bool, now: int, before: seq<Part>, w1: Swarm) returns (parts: seq<Part>)
    requires DoAll(w, before) == w1
    ensures DoAll(w, parts) == SendReq(w1, gameEnd, now)
  {
    hide Pop, ReqPieces;
    DoOne(w, before, PopPart(gameEnd, now));
    var r := Pop(w1.needs, gameEnd, now);
    parts := RequestsAreParts(w, r.sockets, now, before + [PopPart(gameEnd, now)], WithNeeds(w1, r.queue));
  }

  lemma ChangeIsParts(w: Swarm, s: int, c: Change, gameEnd: bool, now: int) returns (parts: seq<Part>)
    ensures DoAll(w, parts) == SetPeer(w, s, c, gameEnd, now)
  {
    hide Apply, SendReq, SetSpeed;
    parts := [];
    if s in w.peers && !(IsAm(c) && Apply(w.peers[s].status, c) == w.peers[s].status) {
      var id := w.peers[s].id;
      hide DoAll;
      DoTwo(w, ChangePeer(s, c), ChangeId(id, c));
      parts := [ChangePeer(s, c)] + [ChangeId(id, c)];
      if c == PrUnChoke && id in w.needs.ids {
        parts := SendReqIsParts(w, gameEnd, now, parts, DoAll(w, parts));
      }
      DoOne(w, parts, ChangeSpeed(s, c));
      parts := parts + [ChangeSpeed(s, c)];
    }
  }

  lemma {:induction false} PushesAreParts(w: Swarm, indices: seq<int>, x: Source, before: seq<Part>, w1: Swarm)
    returns (parts: seq<Part>)
    requires DoAll(w, before) == w1
    ensures DoAll(w, parts) == WithNeeds(w1, PushAll(w1.needs.queue, indices, x))
    decreases |indices|
  {
    if |indices| == 0 {
      parts := before;
    } else {
      hide Push;
      DoOne(w, before, PushPart(indices[0], x));
      var w2 := WithNeeds(w1, Push(w1.needs.queue, indices[0], x));
      parts := PushesAreParts(w, indices[1..], x, before + [PushPart(indices[0], x)], w2);
    }
  }

  lemma NeedIsParts(w: Swarm, s: int, indices: seq<int>) returns (parts: seq<Part>)
    ensures DoAll(w, parts) == Need(w, s, indices)
  {
    hide SetPeer, PushAll;
    parts := [];
    if s in w.peers {
      parts := ChangeIsParts(w, s, AmInterested, false, 0);
      parts := PushesAreParts(w, indices, Source(s, w.peers[s].id), parts, SetPeer(w, s, AmInterested, false, 0));
    }
  }

  /** Every method of the tables is its parts one after the other. */
  lemma StepIsParts(w: Swarm, step: Step) returns (parts: seq<Part>)
    ensures DoAll(w, parts) == Next(w, step)
  {
    hide DoAll, Add, Close, SetPeer, Need, SendReq, SetW, UnLock, Clear, Resorted, Touch, Pop, ReqPieces;
    DoNone(w);
    match step
    case AddStep(s) => parts := AddIsParts(w, s);
    case CloseStep(s) => parts := CloseIsParts(w, s);
    case ChangeStep(s, c, gameEnd, now) => parts := ChangeIsParts(w, s, c, gameEnd, now);
    case NeedStep(s, indices) => parts := NeedIsParts(w, s, indices);
    case RequestStep(gameEnd, now) => parts := SendReqIsParts(w, gameEnd, now, [], w);
    case WriteLockStep(i) => parts := OnePart(w, SetWPart(i));
    case UnLockStep(i) => parts := OnePart(w, UnLockPart(i));
    case ClearStep(i) => parts := OnePart(w, ClearPart(i));
    case ResortStep => parts := OnePart(w, ResortPart);
    case TouchStep(s, request, recv, expire) => parts := OnePart(w, TouchPart(s, request, recv, expire));
  }

  lemma DoNone(w: Swarm)
    ensures DoAll(w, []) == w
  {
  }

  lemma OnePart(w: Swarm, part: Part) returns (parts: seq<Part>)
    ensures DoAll(w, parts) == Do(w, part)
  {
    DoOne(w, [], part);
    parts := [] + [part];
  }

  // Calls that overlap.

  /** AddSocket and CloseSocket of one socket, the second between the parts of the first. */
  const OVERLAP := [AddPeer(1), ClosePeer(1), CloseSpeed(1), CloseId(0), AddSpeed(1), AddId(0)]

  /** Both calls have returned and the tables disagree: the socket's speed entry and its id
      stay behind. */
  lemma OverlapDisagrees()
    ensures var w := DoAll(SwarmRuns.EMPTY, OVERLAP);
            && w.peers == map[] && w.needs.ids == map[0 := NEW_STATUS]
            && |w.speeds| == 1 && w.speeds[0].socket == 1
            && !SwarmRuns.Agree(w)
  {
    var w := SwarmRuns.EMPTY;
    assert OVERLAP[..5][..4] == OVERLAP[..4];
    assert OVERLAP[..4][..3] == OVERLAP[..3];
    assert OVERLAP[..3][..2] == OVERLAP[..2];
    assert OVERLAP[..2][..1] == OVERLAP[..1];
    assert OVERLAP[..1][..0] == [];
    assert DoAll(w, OVERLAP[..1]) == Do(w, AddPeer(1));
    assert DoAll(w, OVERLAP[..3]).speeds == [];
    assert DoAll(w, OVERLAP).speeds == [Speed(1, NEW_STATUS, 0)];
    assert Speed(1, NEW_STATUS, 0) in DoAll(w, OVERLAP).speeds;
  }

  /** AddSocket(s) with a whole call of CloseSocket(t) after its first part. */
  function CloseWithinAdd(w: Swarm, s: int, t: int): Swarm {
    Do(Do(Close(Do(w, AddPeer(s)), t), AddSpeed(s)), AddId(w.curId))
  }

  /** When both have returned, the tables agree if and only if they were about different sockets. */
  lemma OverlapAgreesIff(w: Swarm, s: int, t: int)
    requires SwarmRuns.Inv(w) && s >= 0 && s !in w.peers
    ensures SwarmRuns.Agree(CloseWithinAdd(w, s, t)) <==> t != s
  {
    if t == s {
      SameSocketDisagrees(w, s);
    } else {
      SwarmRuns.AddKeeps(w, s);
      SwarmRuns.CloseKeeps(Add(w, s), t);
      if t in w.peers {
        IdIsOld(w, t);
      }
      CloseCommutes(w, s, t);
      hide Add, Close, CloseWithinAdd, SwarmRuns.QueueSafe, SwarmRuns.Agree;
    }
  }

  lemma SameSocketDisagrees(w: Swarm, s: int)
    requires s >= 0 && s !in w.peers
    ensures !SwarmRuns.Agree(CloseWithinAdd(w, s, s))
  {
    hide DropSpeed;
    var speeds := CloseWithinAdd(w, s, s).speeds;
    assert speeds[|speeds| - 1] in speeds;
  }

  lemma CloseCommutes(w: Swarm, s: int, t: int)
    requires s >= 0 && s !in w.peers && t != s && (t in w.peers ==> w.peers[t].id != w.curId)
    ensures CloseWithinAdd(w, s, t) == Close(Add(w, s), t)
  {
    DropBeforeLast(w.speeds, Speed(s, NEW_STATUS, 0), t);
    hide DropSpeed;
    if t in w.peers {
      assert (w.peers - {t})[s := Peer(NEW_STATUS, w.curId, 0)] == w.peers[s := Peer(NEW_STATUS, w.curId, 0)] - {t};
    }
  }

  lemma IdIsOld(w: Swarm, t: int)
    requires SwarmRuns.Inv(w) && t in w.peers
    ensures w.peers[t].id < w.curId
  {
  }

  lemma DropBeforeLast(speeds: seq<Speed>, x: Speed, t: int)
    requires x.socket != t
    ensures DropSpeed(speeds + [x], t) == DropSpeed(speeds, t) + [x]
  {
    var i := Find(SocketOf, speeds, t);
    if i < |speeds| {
      SpeedFindStops(speeds + [x], t, i);
    } else {
      SpeedFindStops(speeds + [x], t, |speeds| + 1);
    }
  }

  /** What every interleaving keeps: a peer's id is its own and was given out, a queued pair
      names no other open peer, and an index is queued once. */
  ghost predicate Fresh(w: Swarm) {
    && (forall s :: s in w.peers ==> 0 <= w.peers[s].id < w.curId)
    && (forall s, t :: s in w.peers && t in w.peers && s != t ==> w.peers[s].id != w.peers[t].id)
    && SwarmRuns.QueueSafe(w)
  }

  /** A pair got from GetSocketId is safe from then on, whatever happens in between. */
  lemma PairIsSafe(w: Swarm, s: int)
    requires Fresh(w) && s in w.peers
    ensures SwarmRuns.SourceSafe(w, Source(s, w.peers[s].id))
  {
  }

  lemma PairStaysSafe(w: Swarm, part: Part, x: Source)
    requires Fresh(w) && SwarmRuns.SourceSafe(w, x)
    requires part.AddPeer? ==> part.socket !in w.peers
    ensures SwarmRuns.SourceSafe(Do(w, part), x)
  {
    PeersAfter(w, part);
    hide Do, SwarmRuns.QueueSafe, Fresh;
  }

  /** No part but AddPeer brings a peer in, and none changes an id. */
  lemma PeersAfter(w: Swarm, part: Part)
    requires part.AddPeer? ==> part.socket !in w.peers
    ensures var w' := Do(w, part);
            && w.curId <= w'.curId
            && forall s :: s in w'.peers ==>
                 if s in w.peers then w'.peers[s].id == w.peers[s].id
                 else part == AddPeer(s) && w'.peers[s].id == w.curId && w'.curId == w.curId + 1
  {
    if part.ReqPart? {
      SwarmRuns.ReqPiecesKeep(w.peers, [part.socket], part.now);
    }
    hide ReqPieces, DropSpeed, SetSpeed, Pop, Push, SetW, UnLock, Clear, Apply;
  }

  lemma SourcesAfter(w: Swarm, part: Part, e: Entry, x: Source)
    requires SwarmRuns.QueueSafe(w) && (part.PushPart? ==> SwarmRuns.SourceSafe(w, part.source))
    requires e in Do(w, part).needs.queue && x in e.queue
    ensures SwarmRuns.SourceSafe(w, x)
  {
    match part
    case PopPart(gameEnd, now) => SwarmRuns.PopKeepsSources(w, gameEnd, now);
    case PushPart(index, source) => SwarmRuns.PushedSource(w.needs.queue, index, source, e, x);
    case SetWPart(index) => SwarmRuns.LocksKeepSources(w.needs.queue, index);
    case UnLockPart(index) => SwarmRuns.LocksKeepSources(w.needs.queue, index);
    case ClearPart(index) => SwarmRuns.ClearKeepsSources(w.needs.queue, index);
    case _ =>
  }

  lemma UniqueAfter(w: Swarm, part: Part)
    requires Unique(w.needs.queue)
    ensures Unique(Do(w, part).needs.queue)
  {
    hide Unique;
    match part
    case PopPart(gameEnd, now) => PopKeepsUnique(w.needs, gameEnd, now);
    case PushPart(index, source) => PushKeepsUnique(w.needs.queue, index, source);
    case SetWPart(index) => LocksKeepUnique(w.needs.queue, index);
    case UnLockPart(index) => LocksKeepUnique(w.needs.queue, index);
    case ClearPart(index) => SwarmRuns.ClearKeepsSources(w.needs.queue, index);
    case _ =>
  }

  lemma PartKeepsFresh(w: Swarm, part: Part)
    requires Fresh(w) && (part.AddPeer? ==> part.socket !in w.peers)
    requires part.PushPart? ==> SwarmRuns.SourceSafe(w, part.source)
    ensures Fresh(Do(w, part))
  {
    PeersAfter(w, part);
    UniqueAfter(w, part);
    hide Do, Unique;
    forall e, x | e in Do(w, part).needs.queue && x in e.queue
      ensures SwarmRuns.SourceSafe(Do(w, part), x)
    {
      SourcesAfter(w, part, e, x);
      PairStaysSafe(w, part, x);
    }
  }

  /** GetSocketId returns x.id for x.socket. */
  predicate Carries(w: Swarm, x: Source) { x.socket in w.peers && w.peers[x.socket].id == x.id }

  /** It did so before, between or after these parts. */
  ghost predicate Obtained(parts: seq<Part>, x: Source) {
    || Carries(DoAll(SwarmRuns.EMPTY, parts), x)
    || (|parts| > 0 && Obtained(parts[..|parts| - 1], x))
  }

  /** AddSocket is given a socket that is not in the table, and a pair is pushed only after it was
      got from GetSocketId, however much earlier. */
  ghost predicate Legal(parts: seq<Part>, part: Part) {
    && (part.AddPeer? ==> part.socket !in DoAll(SwarmRuns.EMPTY, parts).peers)
    && (part.PushPart? ==> Obtained(parts, part.source))
  }

  ghost predicate LegalParts(parts: seq<Part>) {
    |parts| > 0 ==> LegalParts(parts[..|parts| - 1]) && Legal(parts[..|parts| - 1], parts[|parts| - 1])
  }

  lemma {:induction false} EveryInterleavingKeeps(parts: seq<Part>)
    requires LegalParts(parts)
    ensures Fresh(DoAll(SwarmRuns.EMPTY, parts))
    ensures forall x :: Obtained(parts, x) ==> SwarmRuns.SourceSafe(DoAll(SwarmRuns.EMPTY, parts), x)
    decreases |parts|
  {
    hide Fresh, Do, SwarmRuns.SourceSafe;
    var w := DoAll(SwarmRuns.EMPTY, parts);
    if |parts| == 0 {
      assert Fresh(w) by {
        EmptyIsFresh();
      }
    } else {
      EveryInterleavingKeeps(parts[..|parts| - 1]);
      PartKeepsFresh(DoAll(SwarmRuns.EMPTY, parts[..|parts| - 1]), parts[|parts| - 1]);
    }
    forall x | Obtained(parts, x)
      ensures SwarmRuns.SourceSafe(w, x)
    {
      if Carries(w, x) {
        PairIsSafe(w, x.socket);
      } else {
        PairStaysSafe(DoAll(SwarmRuns.EMPTY, parts[..|parts| - 1]), parts[|parts| - 1], x);
      }
    }
  }

  lemma EmptyIsFresh()
    ensures Fresh(SwarmRuns.EMPTY)
  {
  }

  /** After any interleaving of the parts of any calls, a socket that PopNeed returns was queued
      for that index under a known id that does not choke us, and no other peer has that id. */
  lemma PoppedNamesNoOther(parts: seq<Part>, gameEnd: bool, now: int, s: int) returns (e: Entry, id: int)
    requires LegalParts(parts)
    requires s in Pop(DoAll(SwarmRuns.EMPTY, parts).needs, gameEnd, now).sockets
    ensures var w := DoAll(SwarmRuns.EMPTY, parts);
            && e in w.needs.queue && e.index == Pop(w.needs, gameEnd, now).index && Source(s, id) in e.queue
            && id in w.needs.ids && !w.needs.ids[id].peerChoke
            && forall t :: t in w.peers && w.peers[t].id == id ==> t == s
  {
    EveryInterleavingKeeps(parts);
    hide DoAll, LegalParts;
    var w := DoAll(SwarmRuns.EMPTY, parts);
    e := PopTakesRarest(w.needs, gameEnd, now);
    hide Pop;
    UnchokedMembers(e.queue, w.needs.ids, s);
    var k :| 0 <= k < |e.queue| && e.queue[k].socket == s
          && e.queue[k].id in w.needs.ids && !w.needs.ids[e.queue[k].id].peerChoke;
    id := e.queue[k].id;
    assert Source(s, id) == e.queue[k];
    assert SwarmRuns.SourceSafe(w, e.queue[k]);
  }
}
