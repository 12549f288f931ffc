/** BitTorrent/CszPeerManager.cpp and CszDownSpeed.cpp: the peers by socket, the speed list,
    and the status of every peer kept in three places. */
module PeerTables {
  import opened StableSort
  import opened NeedPiece

  const PEERPIECETIME: int := 30
  const PEERKEEPALIVETIME: int := 30

  datatype Peer = Peer(status: PeerStatus, id: int, expire: int)

  datatype Speed = Speed(socket: int, status: PeerStatus, total: nat)

  /** The three tables: peer_list with its counters, DownSpeed's queue, NeedPiece. */
  datatype Swarm = Swarm(peers: map<int, Peer>, curId: nat, socketNum: int, speeds: seq<Speed>, needs: Needs)

  function SocketOf(s: Speed): int { s.socket }

  /** DSComp: interested peers first, then by bytes received. */
  predicate Faster(a: Speed, b: Speed) {
    (a.status.peerInterested && !b.status.peerInterested) ||
    (a.status.peerInterested == b.status.peerInterested && a.total > b.total)
  }

  // What each method does to the tables.

  function SetSpeed(speeds: seq<Speed>, socket: int, c: Change): seq<Speed> {
    var i := Find(SocketOf, speeds, socket);
    if i == |speeds| then speeds else speeds[i := speeds[i].(status := Apply(speeds[i].status, c))]
  }

  function DropSpeed(speeds: seq<Speed>, socket: int): seq<Speed> {
    var i := Find(SocketOf, speeds, socket);
    if i == |speeds| then speeds else speeds[..i] + speeds[i + 1..]
  }

  function Add(w: Swarm, socket: int): Swarm {
    if socket < 0 then w
    else w.(
      peers := if socket in w.peers then w.peers else w.peers[socket := Peer(NEW_STATUS, w.curId, 0)],
      curId := w.curId + 1,
      socketNum := w.socketNum + 1,
      speeds := w.speeds + [Speed(socket, NEW_STATUS, 0)],
      needs := w.needs.(ids := if w.curId in w.needs.ids then w.needs.ids else w.needs.ids[w.curId := NEW_STATUS]))
  }

  function Close(w: Swarm, socket: int): Swarm {
    if socket !in w.peers then w
    else w.(
      peers := w.peers - {socket},
      socketNum := w.socketNum - 1,
      speeds := DropSpeed(w.speeds, socket),
      needs := w.needs.(ids := w.needs.ids - {w.peers[socket].id}))
  }

  /** ReqPiece: its answer, and the peer afterwards. */
  function ReqPiece(p: Peer, now: int): (Peer, bool) {
    if !p.status.requestPiece then (p.(status := p.status.(requestPiece := true), expire := now), true)
    else if !p.status.recvPiece && now - p.expire >= PEERPIECETIME then (p.(expire := now), true)
    else (p, false)
  }

  function ReqPieces(peers: map<int, Peer>, sockets: seq<int>, now: int): map<int, Peer> {
    if |sockets| == 0 then peers
    else
      var n := |sockets| - 1;
      var before := ReqPieces(peers, sockets[..n], now);
      var s := sockets[n];
      if s >= 0 && s in before then before[s := ReqPiece(before[s], now).0] else before
  }

  /** SendReq: one PopNeed, then a request to every socket it returns. */
  function SendReq(w: Swarm, gameEnd: bool, now: int): Swarm {
    var r := Pop(w.needs, gameEnd, now);
    w.(needs := w.needs.(queue := r.queue), peers := ReqPieces(w.peers, r.sockets, now))
  }

  predicate IsAm(c: Change) { c in {AmChoke, AmUnChoke, AmInterested, AmUnInterested} }

  /** PeerManager's eight status methods. The Am methods return early when the bit already
      has its value; PrUnChoke goes on to SendReq. */
  function SetPeer(w: Swarm, socket: int, c: Change, gameEnd: bool, now: int): Swarm {
    if socket !in w.peers then w
    else
      var p := w.peers[socket];
      if IsAm(c) && Apply(p.status, c) == p.status then w
      else
        var w1 := w.(peers := w.peers[socket := p.(status := Apply(p.status, c))],
                     needs := w.needs.(ids := SetId(w.needs.ids, p.id, c)));
        var w2 := if c == PrUnChoke && p.id in w.needs.ids then SendReq(w1, gameEnd, now) else w1;
        w2.(speeds := SetSpeed(w2.speeds, socket, c))
  }

  /** The four Am methods do nothing at all when the peer's bit has their value already. */
  lemma RepeatedAmIsIgnored(w: Swarm, s: int, gameEnd: bool, now: int)
    requires s in w.peers
    ensures var st := w.peers[s].status;
            && (st.amChoke ==> SetPeer(w, s, AmChoke, gameEnd, now) == w)
            && (!st.amChoke ==> SetPeer(w, s, AmUnChoke, gameEnd, now) == w)
            && (st.amInterested ==> SetPeer(w, s, AmInterested, gameEnd, now) == w)
            && (!st.amInterested ==> SetPeer(w, s, AmUnInterested, gameEnd, now) == w)
  {
  }

  /** Of the eight methods exactly PrUnChoke asks for a piece, and it does so every time. */
  lemma UnChokeAsks(w: Swarm, s: int, c: Change, gameEnd: bool, now: int)
    requires s in w.peers && w.peers[s].id in w.needs.ids
    ensures var w' := SetPeer(w, s, c, gameEnd, now);
            w'.needs.queue == if c == PrUnChoke then Pop(w'.needs.(queue := w.needs.queue), gameEnd, now).queue
                              else w.needs.queue
  {
    hide Pop, ReqPieces, SetSpeed, Apply;
    var p := w.peers[s];
    var w' := SetPeer(w, s, c, gameEnd, now);
    if c == PrUnChoke {
      assert w'.needs.ids == SetId(w.needs.ids, p.id, c);
      assert w'.needs.(queue := w.needs.queue) == Needs(w.needs.queue, SetId(w.needs.ids, p.id, c));
    }
  }

  /** DownSpeed's share of CalculateSpeed. */
  function Resorted(w: Swarm): Swarm { w.(speeds := Zeroed(Sort(Faster, w.speeds))) }

  /** LocalBitField::RecvHave and RecvBitField, once the missing indices are known. */
  function Need(w: Swarm, socket: int, indices: seq<int>): Swarm {
    if socket !in w.peers then w
    else
      var id := w.peers[socket].id;
      var w1 := SetPeer(w, socket, AmInterested, false, 0);
      w1.(needs := w1.needs.(queue := PushAll(w1.needs.queue, indices, Source(socket, id))))
  }

  /** What ReqPiece, RecvPiece, ClearPieceStatus and UpdateExpire may change. */
  function Touch(w: Swarm, socket: int, request: bool, recv: bool, expire: int): Swarm {
    if socket !in w.peers then w
    else
      var p := w.peers[socket];
      var status := p.status.(requestPiece := request, recvPiece := recv);
      w.(peers := w.peers[socket := p.(expire := expire, status := status)])
  }

  /** RetSocketList: the sockets that are polled, which are those RecvPiece would accept. */
  predicate Pollable(w: Swarm, socket: int) {
    socket >= 0 && socket in w.peers && !w.peers[socket].status.recvPiece
  }

  function Received(w: Swarm, socket: int): (Swarm, bool) {
    if !Pollable(w, socket) then (w, false)
    else
      var p := w.peers[socket];
      (Touch(w, socket, p.status.requestPiece, true, p.expire), true)
  }

  function ClearFlag(w: Swarm, socket: int): Swarm {
    if socket < 0 then w else Touch(w, socket, false, false, 0)
  }

  /** A request granted at t is granted again 30 seconds later and not before, not while a piece is
      received from the peer, and at once when that is done; the peer is polled except in between. */
  lemma AskedAgain(w: Swarm, s: int, t: int, t': int)
    requires s >= 0 && s in w.peers && !w.peers[s].status.recvPiece && ReqPiece(w.peers[s], t).1
    ensures var asked := w.(peers := ReqPieces(w.peers, [s], t));
            var received := Received(asked, s).0;
            var cleared := ClearFlag(received, s);
            && s in asked.peers && s in received.peers && s in cleared.peers && Received(asked, s).1
            && (ReqPiece(asked.peers[s], t').1 <==> t' - t >= 30) && Pollable(asked, s)
            && !ReqPiece(received.peers[s], t').1 && !Pollable(received, s)
            && ReqPiece(cleared.peers[s], t').1 && Pollable(cleared, s)
  {
    assert [s][..0] == [];
  }

  /** The first request to a new peer is granted, at any time. */
  lemma NewPeerIsAsked(w: Swarm, s: int, t: int)
    requires s >= 0 && s !in w.peers
    ensures s in Add(w, s).peers && ReqPiece(Add(w, s).peers[s], t).1 && Pollable(Add(w, s), s)
  {
  }

  datatype Step =
    | AddStep(socket: int)
    | CloseStep(socket: int)
    | ChangeStep(socket: int, c: Change, gameEnd: bool, now: int)
    | NeedStep(socket: int, indices: seq<int>)
    | RequestStep(gameEnd: bool, now: int)
    | WriteLockStep(index: int)
    | UnLockStep(index: int)
    | ClearStep(index: int)
    | ResortStep
    | TouchStep(socket: int, request: bool, recv: bool, expire: int)

  function Next(w: Swarm, step: Step): Swarm {
    match step
    case AddStep(socket) => Add(w, socket)
    case CloseStep(socket) => Close(w, socket)
    case ChangeStep(socket, c, gameEnd, now) => SetPeer(w, socket, c, gameEnd, now)
    case NeedStep(socket, indices) => Need(w, socket, indices)
    case RequestStep(gameEnd, now) => SendReq(w, gameEnd, now)
    case WriteLockStep(index) => w.(needs := w.needs.(queue := SetW(w.needs.queue, index).0))
    case UnLockStep(index) => w.(needs := w.needs.(queue := UnLock(w.needs.queue, index)))
    case ClearStep(index) => w.(needs := w.needs.(queue := Clear(w.needs.queue, index)))
    case ResortStep => Resorted(w)
    case TouchStep(socket, request, recv, expire) => Touch(w, socket, request, recv, expire)
  }

  function Run(w: Swarm, steps: seq<Step>): Swarm {
    if |steps| == 0 then w else Next(Run(w, steps[..|steps| - 1]), steps[|steps| - 1])
  }

  lemma RunOne(w: Swarm, steps: seq<Step>, step: Step)
    ensures Run(w, steps + [step]) == Next(Run(w, steps), step)
  {
    assert (steps + [step])[..|steps|] == steps;
  }

  // One pass of Optimistic.

  /** Which of the choked peers is unchoked, counted from 1. */
  function Turn(peers: nat, random: nat): (turn: nat)
    ensures turn >= 1
  {
    var n := random % if peers <= 4 then 1 else peers - 4;
    if n == 0 then 1 else n
  }

  /** With up to five peers turn 1 is the only one; with more, any from 1 to peers - 5 can come. */
  lemma TurnRange(peers: nat, turn: nat)
    requires turn >= 1
    ensures (exists random: nat :: Turn(peers, random) == turn) <==>
            turn == 1 || (peers > 5 && turn < peers - 4)
  {
    if turn == 1 {
      assert Turn(peers, 0) == 1;
    } else if peers > 5 && turn < peers - 4 {
      assert Turn(peers, turn) == turn;
    }
  }

  function Choked(peers: map<int, Peer>, order: seq<int>): seq<int> {
    if |order| == 0 then []
    else
      var s := order[|order| - 1];
      Choked(peers, order[..|order| - 1]) + if s in peers && peers[s].status.amChoke then [s] else []
  }

  /** The peers that have been silent, or that a keep-alive cannot be sent to. */
  function Stale(peers: map<int, Peer>, order: seq<int>, now: int, unsent: set<int>): seq<int> {
    if |order| == 0 then []
    else
      var s := order[|order| - 1];
      Stale(peers, order[..|order| - 1], now, unsent) +
      if s in peers && (now - peers[s].expire >= PEERKEEPALIVETIME || s in unsent) then [s] else []
  }

  /** They are those silent for 30 seconds and those a keep-alive did not reach. */
  lemma {:induction false} StaleAre(peers: map<int, Peer>, order: seq<int>, now: int, unsent: set<int>, s: int)
    ensures s in Stale(peers, order, now, unsent) <==>
            s in order && s in peers && (now - peers[s].expire >= 30 || s in unsent)
  {
    if |order| == 0 {
    } else {
      StaleAre(peers, order[..|order| - 1], now, unsent, s);
      assert order == order[..|order| - 1] + [order[|order| - 1]];
    }
  }

  lemma PassStep(peers: map<int, Peer>, order: seq<int>, k: nat, now: int, unsent: set<int>)
    requires k < |order| && order[k] in peers
    ensures Choked(peers, order[..k + 1]) ==
      Choked(peers, order[..k]) + if peers[order[k]].status.amChoke then [order[k]] else []
    ensures Stale(peers, order[..k + 1], now, unsent) ==
      Stale(peers, order[..k], now, unsent) +
      if now - peers[order[k]].expire >= PEERKEEPALIVETIME || order[k] in unsent then [order[k]] else []
  {
    assert order[..k + 1][..k] == order[..k];
  }

  function Unchoking(order: seq<int>, stop: nat, now: int): seq<Step> {
    if stop < |order| then [ChangeStep(order[stop], AmUnChoke, false, now)] else []
  }

  function Closings(sockets: seq<int>): seq<Step> {
    if |sockets| == 0 then []
    else Closings(sockets[..|sockets| - 1]) + [CloseStep(sockets[|sockets| - 1])]
  }

  // The objects.

  class DownSpeed {
    var queue: seq<Speed>

    constructor ()
      ensures queue == []
    {
      queue := [];
    }

    method AddSocket(socket: int)
      modifies this
      ensures queue == old(queue) + [Speed(socket, NEW_STATUS, 0)]
    {
      queue := queue + [Speed(socket, NEW_STATUS, 0)];
    }

    method Locate(socket: int) returns (i: nat)
      ensures i == Find(SocketOf, queue, socket)
    {
      i := 0;
      while i < |queue| && queue[i].socket != socket
        invariant i <= |queue| && forall j :: 0 <= j < i ==> queue[j].socket != socket
      {
        i := i + 1;
      }
      SpeedFindStops(queue, socket, i);
    }

    method ClearSocket(socket: int)
      modifies this
      ensures queue == DropSpeed(old(queue), socket)
    {
      var i := Locate(socket);
      if i < |queue| {
        queue := queue[..i] + queue[i + 1..];
      }
    }

    /** AmChoke to PrUnInterested. */
    method SetStatus(socket: int, c: Change)
      modifies this
      ensures queue == SetSpeed(old(queue), socket, c)
    {
      var i := Locate(socket);
      if i < |queue| {
        queue := queue[i := queue[i].(status := Apply(queue[i].status, c))];
      }
    }

    /** The part of CalculateSpeed under the lock: re-sort, list the sockets, zero the totals.
        Interested peers come first, and among equals those with more bytes. */
    method Resort() returns (result: seq<int>)
      modifies this
      ensures queue == Zeroed(Sort(Faster, old(queue)))
      ensures Sorted(Faster, Sort(Faster, old(queue))) && multiset(Sort(Faster, old(queue))) == multiset(old(queue))
      ensures result == Sockets(queue)
    {
      FasterIsPreorder();
      SortSorts(Faster, queue);
      hide Sort, Sorted, Preorder, Faster;
      queue := Sort(Faster, queue);
      ghost var q := queue;
      result := [];
      for k := 0 to |queue|
        invariant |queue| == |q|
        invariant forall j :: 0 <= j < k ==> queue[j] == q[j].(total := 0)
        invariant forall j :: k <= j < |q| ==> queue[j] == q[j]
        invariant |result| == k && forall j :: 0 <= j < k ==> result[j] == q[j].socket
      {
        result := result + [queue[k].socket];
        queue := queue[k := queue[k].(total := 0)];
      }
    }
  }

  function Zeroed(q: seq<Speed>): (r: seq<Speed>)
    ensures |r| == |q|
  {
    seq(|q|, (k: nat) requires k < |q| => q[k].(total := 0))
  }

  function Sockets(q: seq<Speed>): (r: seq<int>)
    ensures |r| == |q|
  {
    seq(|q|, (k: nat) requires k < |q| => q[k].socket)
  }

  lemma FasterIsPreorder()
    ensures Preorder(Faster)
  {
  }

  /** Interested peers come first, and of two that are alike in this the one with more bytes; where
      both are alike they stay in their order. */
  lemma FastestFirst(q: seq<Speed>, x: Speed)
    ensures var r := Sort(Faster, q);
            && (forall j, k :: 0 <= j < k < |r| && r[k].status.peerInterested ==> r[j].status.peerInterested)
            && (forall j, k :: 0 <= j < k < |r| && r[j].status.peerInterested == r[k].status.peerInterested ==>
                  r[j].total >= r[k].total)
            && Ties(Faster, x, r) == Ties(Faster, x, q)
  {
    FasterIsPreorder();
    SortSorts(Faster, q);
    SortIsStable(Faster, x, q);
    var r := Sort(Faster, q);
    hide Sort, Ties, Preorder;
    forall j, k | 0 <= j < k < |r|
      ensures !Faster(r[k], r[j])
    {
    }
  }

  /** What Tied means for two peers. */
  lemma AlikePeers(x: Speed, y: Speed)
    ensures Tied(Faster, x, y) <==> x.status.peerInterested == y.status.peerInterested && x.total == y.total
  {
  }

  lemma SpeedFindStops(q: seq<Speed>, socket: int, i: nat)
    requires i <= |q| && (i < |q| ==> q[i].socket == socket)
    requires forall j :: 0 <= j < i ==> q[j].socket != socket
    ensures Find(SocketOf, q, socket) == i
  {
  }

  class PeerManager {
    var peerList: map<int, Peer>
    var curId: nat
    var socketNum: int
    const needPiece: NeedPiece
    const downSpeed: DownSpeed

    function State(): Swarm
      reads this, needPiece, downSpeed
    {
      Swarm(peerList, curId, socketNum, downSpeed.queue, needPiece.State())
    }

    constructor ()
      ensures State() == Swarm(map[], 0, 0, [], Needs([], map[])) && fresh(needPiece) && fresh(downSpeed)
    {
      peerList, curId, socketNum := map[], 0, 0;
      needPiece := new NeedPiece();
      downSpeed := new DownSpeed();
    }

    method AddSocket(socket: int)
      modifies this, needPiece, downSpeed
      ensures State() == Add(old(State()), socket)
    {
      if socket >= 0 {
        socketNum := socketNum + 1;
        var tempId := curId;
        curId := curId + 1;
        if socket !in peerList {
          peerList := peerList[socket := Peer(NEW_STATUS, tempId, 0)];
        }
        downSpeed.AddSocket(socket);
        needPiece.SocketMapId(tempId);
      }
    }

    method CloseSocket(socket: int)
      modifies this, needPiece, downSpeed
      ensures State() == Close(old(State()), socket)
    {
      if socket in peerList {
        socketNum := socketNum - 1;
        var tempId := peerList[socket].id;
        peerList := peerList - {socket};
        downSpeed.ClearSocket(socket);
        needPiece.ClearSocket(tempId);
      }
    }

    method GetSocketId(socket: int) returns (id: int)
      ensures id == if socket in peerList then peerList[socket].id else -1
    {
      id := -1;
      if socket in peerList {
        id := peerList[socket].id;
      }
    }

    method RequestPiece(socket: int, now: int) returns (ok: bool)
      modifies this`peerList
      ensures peerList == ReqPieces(old(peerList), [socket], now)
      ensures ok <==> socket >= 0 && socket in old(peerList) && ReqPiece(old(peerList)[socket], now).1
    {
      ok := false;
      assert [socket][..0] == [];
      if socket >= 0 && socket in peerList {
        var p := peerList[socket];
        if p.status.requestPiece {
          if !p.status.recvPiece && now - p.expire >= PEERPIECETIME {
            ok := true;
            p := p.(expire := now);
          }
        } else {
          ok := true;
          p := p.(status := p.status.(requestPiece := true), expire := now);
        }
        peerList := peerList[socket := p];
      }
    }

    /** NeedPiece::SendReq, without the sending. */
    method SendRequests(gameEnd: bool, now: int)
      modifies this`peerList, needPiece
      ensures State() == SendReq(old(State()), gameEnd, now)
    {
      ghost var peers := peerList;
      var index, sockets := needPiece.PopNeed(gameEnd, now);
      for k := 0 to |sockets|
        invariant needPiece.State() == old(needPiece.State()).(queue := needPiece.indexQueue)
        invariant Popped(needPiece.indexQueue, index, sockets) == Pop(old(needPiece.State()), gameEnd, now)
        invariant peerList == ReqPieces(peers, sockets[..k], now)
      {
        ReqPiecesStep(peers, sockets, k, now);
        var _ := RequestPiece(sockets[k], now);
      }
      assert sockets[..|sockets|] == sockets;
    }

    /** AmChoke to PrUnInterested. */
    method SetStatus(socket: int, c: Change, gameEnd: bool, now: int)
      modifies this, needPiece, downSpeed
      ensures State() == SetPeer(old(State()), socket, c, gameEnd, now)
    {
      hide SendReq, SetSpeed, Apply;
      if socket !in peerList {
        return;
      }
      var p := peerList[socket];
      if IsAm(c) && Apply(p.status, c) == p.status {
        return;
      }
      peerList := peerList[socket := p.(status := Apply(p.status, c))];
      var known := needPiece.SetStatus(p.id, c);
      if c == PrUnChoke && known {
        SendRequests(gameEnd, now);
      }
      downSpeed.SetStatus(socket, c);
    }

    /** LocalBitField::RecvHave and RecvBitField, given what CheckPiece or LackNeedPiece found. */
    method RecvNeeds(socket: int, indices: seq<int>)
      modifies this, needPiece, downSpeed
      ensures State() == Need(old(State()), socket, indices)
    {
      hide SetSpeed, Apply;
      var id := GetSocketId(socket);
      if socket in peerList {
        SetStatus(socket, AmInterested, false, 0);
        needPiece.PushNeeds(indices, Source(socket, id));
      }
    }

    /** Optimistic. `order` is how peer_list is iterated, `random` the clock in microseconds,
        `unsent` the sockets a keep-alive cannot be sent to. The pass stops at the choked peer
        whose turn it is, unchokes it, and then closes exactly the stale peers it came past. */
    method Optimistic(order: seq<int>, random: nat, now: int, unsent: set<int>)
      returns (ghost stop: nat, ghost steps: seq<Step>)
      requires forall s :: s in order <==> s in peerList
      modifies this, needPiece, downSpeed
      ensures stop <= |order| && State() == Run(old(State()), steps)
      ensures var w, turn := old(State()), Turn(|old(peerList)|, random);
              && |Choked(w.peers, order[..stop])| < turn
              && (stop < |order| ==> |Choked(w.peers, order[..stop + 1])| == turn)
              && steps == Unchoking(order, stop, now) + Closings(Stale(w.peers, order[..stop], now, unsent))
    {
      hide Close, SetPeer, Apply;
      ghost var w := State();
      assert Run(w, []) == w && Choked(w.peers, order[..0]) == [] && Stale(w.peers, order[..0], now, unsent) == [];
      hide Run, Choked, Stale;
      var num := |peerList| - 4;
      if num <= 0 {
        num := 1;
      }
      var optimistic := random % num;
      var delSocket := [];
      ghost var n, turn := optimistic, Turn(|peerList|, random);
      assert turn == if n == 0 then 1 else n;
      stop, steps := 0, [];
      for k := 0 to |order|
        invariant State() == w && steps == [] && stop == k
        invariant delSocket == Stale(w.peers, order[..k], now, unsent)
        invariant |Choked(w.peers, order[..k])| < turn
        invariant optimistic == n - |Choked(w.peers, order[..k])|
        invariant |Choked(w.peers, order[..k])| > 0 ==> optimistic > 0
      {
        var s := order[k];
        assert s in order;
        PassStep(w.peers, order, k, now, unsent);
        if peerList[s].status.amChoke {
          optimistic := optimistic - 1;
          if optimistic <= 0 {
            SetStatus(s, AmUnChoke, false, now);
            RunOne(w, [], ChangeStep(s, AmUnChoke, false, now));
            steps := [] + [ChangeStep(s, AmUnChoke, false, now)];
            break;
          }
        }
        if now - peerList[s].expire >= PEERKEEPALIVETIME || s in unsent {
          delSocket := delSocket + [s];
        }
        stop := k + 1;
      }
      assert order[..|order|] == order;
      steps := CloseAll(delSocket, w, steps);
    }

    /** The loop at the end of Optimistic. */
    method CloseAll(sockets: seq<int>, ghost w: Swarm, ghost first: seq<Step>) returns (ghost steps: seq<Step>)
      requires State() == Run(w, first)
      modifies this, needPiece, downSpeed
      ensures steps == first + Closings(sockets) && State() == Run(w, steps)
    {
      hide Close, Run;
      steps := first;
      for k := 0 to |sockets|
        invariant State() == Run(w, steps) && steps == first + Closings(sockets[..k])
      {
        CloseSocket(sockets[k]);
        RunOne(w, steps, CloseStep(sockets[k]));
        steps := steps + [CloseStep(sockets[k])];
        assert sockets[..k + 1][..k] == sockets[..k];
      }
      assert sockets[..|sockets|] == sockets;
    }

    /** CalculateSpeed: a re-sort, then AmUnChoke for every socket of the sorted list. */
    method CalculateSpeed(now: int) returns (ghost steps: seq<Step>)
      modifies this, needPiece, downSpeed
      ensures State() == Run(old(State()), steps)
      ensures |steps| == 1 + |old(downSpeed.queue)| && steps[0] == ResortStep
      ensures forall k :: 1 <= k < |steps| ==>
        steps[k] == ChangeStep(Sort(Faster, old(downSpeed.queue))[k - 1].socket, AmUnChoke, false, now)
    {
      hide SetPeer, Apply, Sort;
      ghost var w, sorted := State(), Sort(Faster, downSpeed.queue);
      var result := downSpeed.Resort();
      RunOne(w, [], ResortStep);
      steps := [] + [ResortStep];
      for k := 0 to |result|
        invariant State() == Run(w, steps)
        invariant |steps| == 1 + k && steps[0] == ResortStep
        invariant forall j :: 1 <= j < |steps| ==> steps[j] == ChangeStep(sorted[j - 1].socket, AmUnChoke, false, now)
      {
        SetStatus(result[k], AmUnChoke, false, now);
        RunOne(w, steps, ChangeStep(result[k], AmUnChoke, false, now));
        steps := steps + [ChangeStep(result[k], AmUnChoke, false, now)];
      }
    }

    /** RecvPiece: called by the event loop before it starts a DPiece worker. */
    method RecvPiece(socket: int) returns (ok: bool)
      modifies this`peerList
      ensures (State(), ok) == Received(old(State()), socket)
    {
      ok := false;
      if socket >= 0 && socket in peerList && !peerList[socket].status.recvPiece {
        ok := true;
        var p := peerList[socket];
        peerList := peerList[socket := p.(status := p.status.(recvPiece := true))];
      }
    }

    method ClearPieceStatus(socket: int)
      modifies this`peerList
      ensures State() == ClearFlag(old(State()), socket)
    {
      if socket >= 0 && socket in peerList {
        var p := peerList[socket];
        var status := p.status.(requestPiece := false, recvPiece := false);
        peerList := peerList[socket := p.(expire := 0, status := status)];
      }
    }
  }

  lemma ReqPiecesStep(peers: map<int, Peer>, sockets: seq<int>, k: nat, now: int)
    requires k < |sockets|
    ensures ReqPieces(peers, sockets[..k + 1], now) == ReqPieces(ReqPieces(peers, sockets[..k], now), [sockets[k]], now)
  {
    assert sockets[..k + 1][..k] == sockets[..k];
    assert [sockets[k]][..0] == [];
  }
}
