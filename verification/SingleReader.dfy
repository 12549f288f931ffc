/** No socket is read by two parties at once. */
module SingleReader {
  import opened Bytes
  import opened Network
  import opened NeedPiece
  import opened PeerTables
  import opened TableParts
  import opened TorrentFile
  import opened BitMemory
  import opened Engine

  predicate Flag(w: Swarm, s: int) { s in w.peers && w.peers[s].status.recvPiece }

  /** A worker's socket has its receive flag set, if it is still open, is not the event loop's,
      and is no other worker's. */
  ghost predicate Readers(e: Engine) {
    && (forall k, s :: 0 <= k < |e.workers| && Uses(e.workers[k], s) ==>
        && (s in e.swarm.peers ==> Flag(e.swarm, s))
        && s !in e.pending && e.loop != Reading(s))
    && (forall j, k, s :: 0 <= j < k < |e.workers| && Uses(e.workers[j], s) ==> !Uses(e.workers[k], s))
    && (e.loop.Reading? ==> e.loop.socket !in e.pending)
  }

  /** ReqPiece leaves the receive flags alone. */
  lemma {:induction false} RequestsKeepFlags(peers: map<int, Peer>, sockets: seq<int>, now: int)
    ensures var r := ReqPieces(peers, sockets, now);
            r.Keys == peers.Keys &&
            forall s :: s in peers ==> r[s].status.recvPiece == peers[s].status.recvPiece
  {
    if |sockets| == 0 {
    } else {
      RequestsKeepFlags(peers, sockets[..|sockets| - 1], now);
    }
  }

  /** No method of the tables but the piece methods touches the receive flag of a socket. */
  lemma EnvKeepsFlags(e: Engine, part: Part)
    requires EnvEnabled(e, part)
    ensures var w' := Do(e.swarm, part);
            forall s :: s in w'.peers ==>
              part == AddPeer(s) || (s in e.swarm.peers && Flag(w', s) == Flag(e.swarm, s))
  {
    hide DropSpeed, SetSpeed, Resorted, Pop, Push, ReqPieces, SetW, UnLock, Clear, SetId;
    if part.ReqPart? {
      RequestsKeepFlags(e.swarm.peers, [part.socket], part.now);
    } else if part.ResortPart? {
      ResortKeepsPeers(e.swarm);
    } else if part.ChangePeer? {
      ApplyKeepsFlag(part.c);
      hide Apply;
    }
  }

  lemma ApplyKeepsFlag(c: Change)
    ensures forall status :: Apply(status, c).recvPiece == status.recvPiece
  {
  }

  lemma ResortKeepsPeers(w: Swarm)
    ensures Resorted(w).peers == w.peers
  {
  }

  lemma EnvKeepsReaders(info: Info, e: Engine, part: Part)
    requires Readers(e) && EnvEnabled(e, part)
    ensures Readers(After(info, e, Env(part)))
  {
    EnvKeepsFlags(e, part);
    var e' := After(info, e, Env(part));
    assert part.AddPeer? ==> forall k :: 0 <= k < |e.workers| ==> !Uses(e.workers[k], part.socket);
    hide Do, Uses, EnvEnabled, Readers, Flag;
    FlagsKeepReaders(e, e', if part.AddPeer? then {part.socket} else {});
  }

  lemma FlagsKeepReaders(e: Engine, e': Engine, unused: set<int>)
    requires Readers(e) && e'.workers == e.workers && e'.pending == e.pending && e'.loop == e.loop
    requires forall k, s :: 0 <= k < |e.workers| && s in unused ==> !Uses(e.workers[k], s)
    requires forall s :: s in e'.swarm.peers ==>
      s in unused || (s in e.swarm.peers && Flag(e'.swarm, s) == Flag(e.swarm, s))
    ensures Readers(e')
  {
    hide Uses, Flag;
  }

  /** A worker that moves on lets go of its socket, or keeps it with the flag it had. */
  lemma MoveKeepsReaders(e: Engine, e': Engine, k: nat, w: Worker)
    requires Readers(e) && k < |e.workers|
    requires e'.workers == e.workers[k := w] && e'.pending == e.pending && e'.loop == e.loop
    requires forall s :: Uses(w, s) ==> Uses(e.workers[k], s)
    requires forall s :: s in e'.swarm.peers ==>
      && s in e.swarm.peers
      && (Flag(e'.swarm, s) == Flag(e.swarm, s) || (Uses(e.workers[k], s) && !Uses(w, s)))
    ensures Readers(e')
  {
    hide Uses, Flag;
    forall j, s | 0 <= j < |e'.workers| && Uses(e'.workers[j], s)
      ensures s in e'.swarm.peers ==> Flag(e'.swarm, s)
      ensures Uses(e.workers[j], s)
    {
      if j != k {
        OneUser(e, j, k, s);
      }
    }
  }

  lemma OneUser(e: Engine, j: nat, k: nat, s: int)
    requires Readers(e) && j < |e.workers| && k < |e.workers| && j != k && Uses(e.workers[j], s)
    ensures !Uses(e.workers[k], s)
  {
    hide Uses;
  }

  /** What a step may do to the flag of its worker's socket: clear it when the worker lets go. */
  lemma WorkerFlags(info: Info, e: Engine, act: Act)
    requires IsWorkers(act) && Enabled(info, e, act)
    ensures var k, e' := act.worker, After(info, e, act);
            && k < |e'.workers|
            && (forall s :: Uses(e'.workers[k], s) ==> Uses(e.workers[k], s))
            && (forall s :: s in e'.swarm.peers ==>
                 && s in e.swarm.peers
                 && (Flag(e'.swarm, s) == Flag(e.swarm, s) || (Uses(e.workers[k], s) && !Uses(e'.workers[k], s))))
  {
    WorkerMoves(info, e, act);
    var w := e.workers[act.worker];
    if act.Go? && !w.Writing? {
      hide Accepted, SetW, UnLock;
    } else {
      WriteTouches(info, e, act);
      hide Clear, Hashes, Patch, Length, Full, SliceCount, Flag;
    }
  }

  lemma WorkersKeepReaders(info: Info, e: Engine, act: Act)
    requires Readers(e) && IsWorkers(act) && Enabled(info, e, act)
    ensures Readers(After(info, e, act))
  {
    WorkerMoves(info, e, act);
    WorkerFlags(info, e, act);
    hide Readers, After, Enabled, Uses, Flag;
    MoveKeepsReaders(e, After(info, e, act), act.worker, After(info, e, act).workers[act.worker]);
  }

  /** RecvPiece hands the loop's socket over to a new worker. */
  lemma MessageKeepsReaders(info: Info, e: Engine, act: Act)
    requires Readers(e) && act.PieceMessage? && Enabled(info, e, act)
    ensures Readers(After(info, e, act))
  {
    var e', s := After(info, e, act), e.loop.socket;
    forall k, t | 0 <= k < |e'.workers| && Uses(e'.workers[k], t)
      ensures t in e'.swarm.peers ==> Flag(e'.swarm, t)
      ensures t !in e'.pending
      ensures k == |e.workers| ==> t == s
    {
    }
    hide Flag;
  }

  lemma LoopKeepsReaders(info: Info, e: Engine, act: Act)
    requires Readers(e) && (act.Poll? || act.Event? || act.NoPiece?) && Enabled(info, e, act)
    ensures Readers(After(info, e, act))
  {
    hide Uses;
  }

  lemma StepKeepsReaders(info: Info, e: Engine, act: Act)
    requires Readers(e) && Enabled(info, e, act)
    ensures Readers(After(info, e, act))
  {
    hide Readers, After, Enabled;
    if act.Env? {
      assert EnvEnabled(e, act.part) by {
        EnvPart(info, e, act);
      }
      EnvKeepsReaders(info, e, act.part);
    } else if IsWorkers(act) {
      WorkersKeepReaders(info, e, act);
    } else if act.PieceMessage? {
      MessageKeepsReaders(info, e, act);
    } else {
      LoopKeepsReaders(info, e, act);
    }
  }

  lemma EnvPart(info: Info, e: Engine, act: Act)
    requires act.Env? && Enabled(info, e, act)
    ensures EnvEnabled(e, act.part)
  {
  }

  /** The parties that may read a socket now: the event loop, and the workers. */
  function ReadersOf(e: Engine, s: int): set<int> {
    (if e.loop == Reading(s) then {-1} else {}) + set k | 0 <= k < |e.workers| && Uses(e.workers[k], s)
  }

  /** At most one party reads a socket. */
  lemma AtMostOneReader(e: Engine, s: int)
    requires Readers(e)
    ensures |ReadersOf(e, s)| <= 1
  {
    var r := ReadersOf(e, s);
    hide Uses;
    if r != {} {
      var x :| x in r;
      forall y | y in r
        ensures y == x
      {
        assert x < y || y < x || x == y;
      }
      assert r == {x};
    }
  }

  /** Adding a descriptor that a worker still uses lets the next poll read it a second time;
      adding any other does no harm. */
  lemma ReusedSocketIsReadTwice(info: Info, e: Engine, s: int)
    requires Readers(e) && e.loop.Polling? && s >= 0 && s !in e.swarm.peers
    ensures var e1 := After(info, e, Env(AddPeer(s)));
            var e2 := After(info, After(info, e1, Poll({s})), Event(s));
            Enabled(info, e1, Poll({s})) && Enabled(info, After(info, e1, Poll({s})), Event(s)) &&
            (|ReadersOf(e2, s)| <= 1 <==> EnvEnabled(e, AddPeer(s)))
  {
    var e1 := After(info, e, Env(AddPeer(s)));
    var e2 := After(info, After(info, e1, Poll({s})), Event(s));
    assert e2.workers == e.workers && e2.loop == Reading(s);
    hide Uses, Readers;
    if k :| 0 <= k < |e.workers| && Uses(e.workers[k], s) {
      assert {-1, k} <= ReadersOf(e2, s);
      SubsetCount({-1, k}, ReadersOf(e2, s));
    } else {
      assert ReadersOf(e2, s) == {-1};
    }
  }

  lemma SubsetCount(a: set<int>, b: set<int>)
    requires a <= b
    ensures |a| <= |b|
  {
    assert |b - a| == |b| - |a|;
  }
}
