/** What holds after every run of the engine. */
module EngineRuns {
  import opened Bytes
  import opened Network
  import opened NeedPiece
  import opened PeerTables
  import opened TorrentFile
  import opened BitMemory
  import opened LockBits
  import opened Engine
  import opened SingleReader
  import opened WriteLock
  import opened DownloadSafety
  import SwarmRuns

  /** What is known of a run: nothing more than that its steps are possible, or that slices are
      taken only for indices whose read bit is set. */
  datatype Rule = Plain | WithReadBits

  predicate Allowed(info: Info, rule: Rule, e: Engine, act: Act) {
    Enabled(info, e, act) && (rule == WithReadBits ==> ReadLocked(info, e, act))
  }

  /** No peers, and nothing in memory; the file and the bits as LoadLocalFile has found them. */
  function Start(disk: seq<byte>, present: set<nat>): Engine {
    Engine(SwarmRuns.EMPTY, {}, Polling, [], map[], disk, present)
  }

  function Run(info: Info, e: Engine, acts: seq<Act>): Engine {
    if |acts| == 0 then e else After(info, Run(info, e, acts[..|acts| - 1]), acts[|acts| - 1])
  }

  predicate Follows(info: Info, rule: Rule, e: Engine, acts: seq<Act>) {
    |acts| > 0 ==>
      Follows(info, rule, e, acts[..|acts| - 1]) &&
      Allowed(info, rule, Run(info, e, acts[..|acts| - 1]), acts[|acts| - 1])
  }

  /** A run and another from where it ends are one run. */
  lemma {:induction false} RunsJoin(info: Info, rule: Rule, e: Engine, acts: seq<Act>, more: seq<Act>)
    ensures Run(info, e, acts + more) == Run(info, Run(info, e, acts), more)
    ensures Follows(info, rule, e, acts + more) <==>
            Follows(info, rule, e, acts) && Follows(info, rule, Run(info, e, acts), more)
    decreases |more|
  {
    hide After, Allowed;
    if |more| == 0 {
      assert acts + more == acts;
    } else {
      var n := |more| - 1;
      RunsJoin(info, rule, e, acts, more[..n]);
      assert (acts + more)[..|acts| + n] == acts + more[..n];
    }
  }

  lemma RunOne(info: Info, rule: Rule, e: Engine, act: Act)
    ensures Run(info, e, [act]) == After(info, e, act)
    ensures Follows(info, rule, e, [act]) <==> Allowed(info, rule, e, act)
  {
    hide After, Allowed;
    assert [act][..0] == [];
  }

  /** A torrent, and a file in which every piece whose bit is set has the torrent's hash. */
  ghost predicate Torrent(info: Info, disk: seq<byte>, present: set<nat>) {
    WellFormed(info) && info.pieceLength <= 2 * BLOCK && Downloaded(info, disk, present)
  }

  ghost predicate Always(info: Info, rule: Rule, e: Engine) {
    && Unique(Queue(e)) && Readers(e) && Late(e)
    && (rule == WithReadBits ==> Exclusive(e) && Safe(info, e))
  }

  lemma StartIs(info: Info, rule: Rule, disk: seq<byte>, present: set<nat>)
    requires Torrent(info, disk, present)
    ensures Always(info, rule, Start(disk, present))
  {
    hide WellFormed, Downloaded;
    assert LocksNow(Start(disk, present)) == map[];
  }

  lemma StepKeeps(info: Info, rule: Rule, e: Engine, act: Act)
    requires WellFormed(info) && info.pieceLength <= 2 * BLOCK
    requires Always(info, rule, e) && Allowed(info, rule, e, act)
    ensures Always(info, rule, After(info, e, act))
  {
    hide WellFormed, Enabled, ReadLocked, After, Unique, Readers, Late, Exclusive, Safe;
    UniqueKept(info, e, act);
    StepKeepsReaders(info, e, act);
    StepKeepsLocks(info, e, act);
    if rule == WithReadBits {
      StepKeepsSafe(info, e, act);
    }
  }

  lemma {:induction false} EveryRunIs(info: Info, rule: Rule, disk: seq<byte>, present: set<nat>, acts: seq<Act>)
    requires Torrent(info, disk, present) && Follows(info, rule, Start(disk, present), acts)
    ensures Always(info, rule, Run(info, Start(disk, present), acts))
    decreases |acts|
  {
    hide Always, Allowed, After;
    if |acts| == 0 {
      StartIs(info, rule, disk, present);
    } else {
      var before := acts[..|acts| - 1];
      EveryRunIs(info, rule, disk, present, before);
      StepKeeps(info, rule, Run(info, Start(disk, present), before), acts[|acts| - 1]);
    }
  }

  /** Single reader: in every run, at most one of the event loop and the workers reads a socket,
      and a socket that a worker reads is not among those that the next poll looks at. */
  lemma EveryRunHasSingleReaders(info: Info, disk: seq<byte>, present: set<nat>, acts: seq<Act>, s: int)
    requires Torrent(info, disk, present) && Follows(info, Plain, Start(disk, present), acts)
    ensures var e := Run(info, Start(disk, present), acts);
            |ReadersOf(e, s)| <= 1 &&
            forall k :: 0 <= k < |e.workers| && Uses(e.workers[k], s) ==> !Pollable(e.swarm, s) && e.loop != Reading(s)
  {
    EveryRunIs(info, Plain, disk, present, acts);
    hide Run, Follows, Late, Uses, Unique, Downloaded;
    AtMostOneReader(Run(info, Start(disk, present), acts), s);
  }

  /** In every run, an index whose bit is set is queued only while a worker is between
      FillBitField and NeedPiece::ClearIndex on it. */
  lemma EveryRunClears(info: Info, disk: seq<byte>, present: set<nat>, acts: seq<Act>, i: nat)
    requires Torrent(info, disk, present) && Follows(info, Plain, Start(disk, present), acts)
    ensures var e := Run(info, Start(disk, present), acts);
            i in e.present && (forall k :: 0 <= k < |e.workers| ==> !Clearing(e.workers[k], i)) ==>
              forall x :: x in Queue(e) ==> x.index != i
  {
    EveryRunIs(info, Plain, disk, present, acts);
    var e := Run(info, Start(disk, present), acts);
    hide Run, Follows, Readers, Downloaded, Unique, Clearing;
    LocksAt(Queue(e), i);
    hide Locks;
    if i in e.present && forall k :: 0 <= k < |e.workers| ==> !Clearing(e.workers[k], i) {
      DoneIsNotQueued(e, i);
    }
  }

  /** Download safety: in every run that takes slices only for indices whose read bit is set, a bit
      that is set means that the file holds the piece with the torrent's hash. A worker that
      copies finds the blocks of its piece, and never lowers the count below 0. */
  lemma EveryGuardedRunIsSafe(info: Info, disk: seq<byte>, present: set<nat>, acts: seq<Act>)
    requires Torrent(info, disk, present) && Follows(info, WithReadBits, Start(disk, present), acts)
    ensures var e := Run(info, Start(disk, present), acts);
            && (forall i :: i in e.present ==> i < PieceCount(info) && Hashes(info, i, OnDisk(info, e.disk, i)))
            && (forall k :: 0 <= k < |e.workers| && e.workers[k].Writing? && e.workers[k].stage.Checked? ==>
                  var i := e.workers[k].index;
                  i in e.pool && Full(info, i, e.pool[i]) && |e.workers[k].stage.buf| <= e.pool[i].curLen)
            && (forall k :: 0 <= k < |e.workers| && e.workers[k].Writing? && e.workers[k].stage == Counted ==>
                  e.workers[k].index in e.pool && e.pool[e.workers[k].index].curLen >= 0)
  {
    EveryRunIs(info, WithReadBits, disk, present, acts);
    var e := Run(info, Start(disk, present), acts);
    hide Run, Follows, Readers, Unique, Late, Exclusive, Hashes, OnDisk, Full, PieceCount;
    assert Downloaded(info, e.disk, e.present);
    hide Safe;
    forall k | 0 <= k < |e.workers| && e.workers[k].Writing? && e.workers[k].stage.Checked?
      ensures var i := e.workers[k].index;
              i in e.pool && Full(info, i, e.pool[i]) && |e.workers[k].stage.buf| <= e.pool[i].curLen
    {
      CopyFindsBlocks(info, e, k);
    }
    forall k | 0 <= k < |e.workers| && e.workers[k].Writing? && e.workers[k].stage == Counted
      ensures e.workers[k].index in e.pool && e.pool[e.workers[k].index].curLen >= 0
    {
      CountStaysPositive(info, e, k);
    }
  }

  lemma {:induction false} EveryRunKeepsBits(info: Info, e: Engine, acts: seq<Act>, n: nat)
    requires n <= |acts|
    ensures Run(info, e, acts[..n]).present <= Run(info, e, acts).present
    decreases |acts|
  {
    hide After;
    if n == |acts| {
      assert acts[..n] == acts;
    } else {
      var before := acts[..|acts| - 1];
      EveryRunKeepsBits(info, e, before, n);
      assert before[..n] == acts[..n];
      BitsStay(info, Run(info, e, before), acts[|acts| - 1]);
    }
  }

  /** Write-lock exclusion: in every run that takes slices only for indices whose read bit is
      set, an index has at most one holder, PopNeed does not hand it out, and a holder that
      lets go leaves it unlocked or no longer queued. */
  lemma EveryGuardedRunExcludes(info: Info, disk: seq<byte>, present: set<nat>, acts: seq<Act>, i: int,
                                gameEnd: bool, now: int)
    requires Torrent(info, disk, present) && Follows(info, WithReadBits, Start(disk, present), acts)
    ensures var e := Run(info, Start(disk, present), acts);
            && (forall j, k :: 0 <= j < k < |e.workers| && Holds(e.workers[j], i) ==> !Holds(e.workers[k], i))
            && (forall k :: 0 <= k < |e.workers| && Pop(e.swarm.needs, gameEnd, now).sockets != [] ==>
                  !Holds(e.workers[k], Pop(e.swarm.needs, gameEnd, now).index))
            && (forall act, k :: Enabled(info, e, act) && 0 <= k < |e.workers| && Holds(e.workers[k], i) ==>
                  Frees(info, e, act, k, i))
  {
    EveryRunIs(info, WithReadBits, disk, present, acts);
    var e := Run(info, Start(disk, present), acts);
    hide Run, Follows, Readers, Unique, Late, Safe, Enabled, Frees, Pop, Holds, Exclusive, Downloaded;
    forall j, k | 0 <= j < k < |e.workers| && Holds(e.workers[j], i)
      ensures !Holds(e.workers[k], i)
    {
      OneHolder(e, j, k, i);
    }
    forall k | 0 <= k < |e.workers| && Pop(e.swarm.needs, gameEnd, now).sockets != []
      ensures !Holds(e.workers[k], Pop(e.swarm.needs, gameEnd, now).index)
    {
      HeldIsNotPopped(e, gameEnd, now, k);
    }
    forall act, k | Enabled(info, e, act) && 0 <= k < |e.workers| && Holds(e.workers[k], i)
      ensures Frees(info, e, act, k, i)
    {
      StepFrees(info, e, act, k, i);
    }
  }

  /** If the step ends the hold of a worker on an index, it leaves the index unlocked or not queued. */
  predicate Frees(info: Info, e: Engine, act: Act, k: nat, i: int) {
    var e' := After(info, e, act);
    k < |e'.workers| && !Holds(e'.workers[k], i) ==> i in LocksNow(e') ==> LocksNow(e')[i] == Bits(false, false)
  }

  lemma StepFrees(info: Info, e: Engine, act: Act, k: nat, i: int)
    requires Unique(Queue(e)) && Late(e) && Exclusive(e) && Enabled(info, e, act)
    requires k < |e.workers| && Holds(e.workers[k], i)
    ensures Frees(info, e, act, k, i)
  {
    hide After, Enabled, Unique, Late, Exclusive;
    if k < |After(info, e, act).workers| && !Holds(After(info, e, act).workers[k], i) {
      ReleaseFreesIndex(info, e, act, k, i);
    }
  }
}
