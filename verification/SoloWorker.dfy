/** What a DPiece worker leaves behind when it runs to its end undisturbed. */
module SoloWorker {
  import opened Bytes
  import opened Network
  import opened NeedPiece
  import opened PeerTables
  import opened TorrentFile
  import opened BitMemory
  import opened LockBits
  import opened TableParts
  import opened Engine
  import opened SoloWrite
  import EngineRuns

  lemma {:induction false} StaysUnique(info: Info, e: Engine, k: nat, acts: seq<Act>, e': Engine)
    requires Unique(Queue(e)) && Alone(info, e, k, acts, e')
    ensures Unique(Queue(e'))
    decreases |acts|
  {
    hide Unique, After, Enabled;
    if |acts| == 0 {
    } else {
      var n := |acts| - 1;
      var before := EngineRuns.Run(info, e, acts[..n]);
      assert Alone(info, e, k, acts[..n], before);
      StaysUnique(info, e, k, acts[..n], before);
      UniqueKept(info, before, acts[n]);
    }
  }

  /** The index is not locked. */
  predicate Free(e: Engine, i: int) { i in Locks(Queue(e)) ==> Locks(Queue(e))[i] == Bits(false, false) }

  /** The socket is polled again, or closed. */
  predicate Released(e: Engine, s: int) { s in e.swarm.peers ==> Pollable(e.swarm, s) }

  lemma Step(info: Info, e0: Engine, k: nat, acts: seq<Act>, e: Engine) returns (acts': seq<Act>, e': Engine)
    requires Alone(info, e0, k, acts, e) && k < |e.workers| && !e.workers[k].Done? && !e.workers[k].Writing?
    ensures e' == After(info, e, Go(k)) && Alone(info, e0, k, acts', e')
  {
    hide After, Alone;
    e' := After(info, e, Go(k));
    acts' := Then(info, e0, k, acts, e, Go(k));
  }

  /** The last steps: the first Write has failed, or _LockPiece has ended. */
  lemma Finishes(info: Info, e0: Engine, k: nat, acts: seq<Act>, e: Engine) returns (acts': seq<Act>, e': Engine)
    requires Unique(Queue(e0)) && Alone(info, e0, k, acts, e) && k < |e.workers|
    requires e.workers[k].Failing? || (e.workers[k].Holding? && e.workers[k].ret == 0) || e.workers[k].Leaving?
    requires e.workers[k].socket >= 0 && e.workers[k].index >= 0
    ensures Alone(info, e0, k, acts', e') && k < |e'.workers| && e'.workers[k] == Done
    ensures Released(e', e.workers[k].socket) && Free(e', e.workers[k].index)
    ensures e.workers[k].socket in e'.swarm.peers <==> e.workers[k].Failing? && e.workers[k].socket in e.swarm.peers
  {
    hide Alone, UnLock, Locks, Unique;
    var s, i := e.workers[k].socket, e.workers[k].index;
    acts', e' := acts, e;
    if e'.workers[k].Holding? {
      acts', e' := Step(info, e0, k, acts', e');
    }
    if e'.workers[k].Leaving? {
      StaysUnique(info, e0, k, acts', e');
      UnLockLocks(Queue(e'), i);
      acts', e' := Step(info, e0, k, acts', e');
      acts', e' := Step(info, e0, k, acts', e');
    } else {
      acts', e' := Step(info, e0, k, acts', e');
      StaysUnique(info, e0, k, acts', e');
      UnLockLocks(Queue(e'), i);
      acts', e' := Step(info, e0, k, acts', e');
    }
  }

  lemma AloneJoins(info: Info, e: Engine, k: nat, acts: seq<Act>, e1: Engine, more: seq<Act>, e2: Engine)
    requires Alone(info, e, k, acts, e1) && Alone(info, e1, k, more, e2)
    ensures Alone(info, e, k, acts + more, e2)
  {
    EngineRuns.RunsJoin(info, EngineRuns.Plain, e, acts, more);
    hide EngineRuns.Run, EngineRuns.Follows;
  }

  /** The worker takes the index, and its first Write succeeds. */
  predicate SliceTaken(info: Info, e: Engine, w: Worker, initial: Piece, storing: Storing)
    requires w.Queued?
  {
    var (q, ok) := SetW(Queue(e), w.index);
    && Accepted(info, w.index, w.begin, |w.buf|) && ok
    && Written(info, DataOf(WithQueue(e, q)), w.index, w.begin, w.buf, initial, storing).1
  }

  /** A worker that was let in for a piece message. Undisturbed it ends, whatever becomes of Write; the
      index it took is not locked any more, and its socket is polled again or closed, if and only if
      the message has a length that DPiece accepts. The peer is closed if it sent a slice that was written
      and then no other. */
  lemma WorkerEnds(info: Info, e: Engine, k: nat, w: Worker, initial: Piece, storing: Storing)
    returns (acts: seq<Act>, e': Engine)
    requires k < |e.workers| && e.workers[k] == w && w.Queued? && w.socket >= 0 && Unique(Queue(e))
    requires w.socket in e.swarm.peers && !Pollable(e.swarm, w.socket)
    requires Writable(info, e.pool, w.index, w.begin, w.buf)
    requires initial.curLen == Length(info, w.index) && Full(info, w.index, initial)
    requires storing.Failed? ==> |storing.garbage| == Length(info, w.index)
    ensures Alone(info, e, k, acts, e') && k < |e'.workers| && e'.workers[k] == Done
    ensures Released(e', w.socket) <==> Accepted(info, w.index, w.begin, |w.buf|)
    ensures Accepted(info, w.index, w.begin, |w.buf|) && SetW(Queue(e), w.index).1 ==> Free(e', w.index)
    ensures w.socket in e'.swarm.peers <==> !SliceTaken(info, e, w, initial, storing)
  {
    assert Alone(info, e, k, [], e);
    hide Alone, Accepted, Unique, Locks, Free, Length, Full, Writable, Written;
    acts, e' := Step(info, e, k, [], e);
    if Accepted(info, w.index, w.begin, |w.buf|) {
      if SetW(Queue(e), w.index).1 {
        acts, e' := TakerEnds(info, e, k, acts, e', w, initial, storing);
      } else {
        hide SetW;
        acts, e' := Step(info, e, k, acts, e');
      }
    }
  }

  lemma TakerEnds(info: Info, e0: Engine, k: nat, acts: seq<Act>, e: Engine, w: Worker, initial: Piece,
                  storing: Storing) returns (acts': seq<Act>, e': Engine)
    requires Unique(Queue(e0)) && Alone(info, e0, k, acts, e) && k < |e.workers| && w.Queued?
    requires e.workers[k] == Writing(w.socket, w.index, First, Entering(w.begin, w.buf))
    requires w.socket >= 0 && w.index >= 0 && Writable(info, e.pool, w.index, w.begin, w.buf)
    requires initial.curLen == Length(info, w.index) && Full(info, w.index, initial)
    requires storing.Failed? ==> |storing.garbage| == Length(info, w.index)
    ensures Alone(info, e0, k, acts', e') && k < |e'.workers| && e'.workers[k] == Done
    ensures Released(e', w.socket) && Free(e', w.index)
    ensures var failed := !Written(info, DataOf(e), w.index, w.begin, w.buf, initial, storing).1;
            w.socket in e'.swarm.peers <==> w.socket in e.swarm.peers && failed
  {
    hide Alone, Unique, Locks, Free, Length, Full, Writable, Written, SliceCount;
    var v := e.workers[k];
    var more := StagesAreWritten(info, e, k, v, initial, storing);
    var (data, ok) := Written(info, DataOf(e), w.index, w.begin, w.buf, initial, storing);
    e' := With(e, k, Returned(info, v, ok), data);
    AloneJoins(info, e0, k, acts, e, more, e');
    acts', e' := Finishes(info, e0, k, acts + more, e');
  }

  /** A slice that Write refuses ends the worker, and the index is given up. After the first slice the
      peer is kept, after a later one it is closed. */
  lemma RefusalEnds(info: Info, e: Engine, k: nat, v: Worker, initial: Piece, storing: Storing)
    returns (acts: seq<Act>, e': Engine)
    requires k < |e.workers| && e.workers[k] == v && v.Writing? && v.stage.Entering? && Unique(Queue(e))
    requires v.socket >= 0 && v.index >= 0 && Writable(info, e.pool, v.index, v.stage.begin, v.stage.buf)
    requires initial.curLen == Length(info, v.index) && Full(info, v.index, initial)
    requires storing.Failed? ==> |storing.garbage| == Length(info, v.index)
    requires !Written(info, DataOf(e), v.index, v.stage.begin, v.stage.buf, initial, storing).1
    ensures Alone(info, e, k, acts, e') && k < |e'.workers| && e'.workers[k] == Done
    ensures Released(e', v.socket) && Free(e', v.index)
    ensures v.socket in e'.swarm.peers <==> v.caller == First && v.socket in e.swarm.peers
  {
    hide Alone, Unique, Locks, Free, Length, Full, Writable, Written, SliceCount;
    acts := StagesAreWritten(info, e, k, v, initial, storing);
    var data := Written(info, DataOf(e), v.index, v.stage.begin, v.stage.buf, initial, storing).0;
    acts, e' := Finishes(info, e, k, acts, With(e, k, Refused(v), data));
  }

  /** Were a descriptor used again while a worker is about to close it, the worker would close the new
      peer. */
  lemma ReusedSocketIsClosed(info: Info, e: Engine, k: nat, s: int)
    requires k < |e.workers| && e.workers[k] == Closing(s) && s >= 0 && s !in e.swarm.peers
    ensures !EnvEnabled(e, AddPeer(s))
    ensures var again := After(info, e, Env(AddPeer(s)));
            s in again.swarm.peers && s !in After(info, again, Go(k)).swarm.peers
  {
    assert Uses(e.workers[k], s);
  }
}
