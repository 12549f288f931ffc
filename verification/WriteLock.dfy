/** A piece index is held by at most one worker at a time. */
module WriteLock {
  import opened Bytes
  import opened Network
  import opened StableSort
  import opened NeedPiece
  import opened PeerTables
  import opened TableParts
  import opened TorrentFile
  import opened BitMemory
  import opened LockBits
  import opened Engine

  function LocksNow(e: Engine): map<int, Bits> { Locks(Queue(e)) }

  /** An index whose bit is set is not queued, except while a worker is between FillBitField and
      NeedPiece::ClearIndex on it; such a worker's bit is set. */
  ghost predicate Late(e: Engine) {
    && (forall i :: i in e.present && i in LocksNow(e) ==>
         exists k :: 0 <= k < |e.workers| && Clearing(e.workers[k], i))
    && (forall k, i :: 0 <= k < |e.workers| && Clearing(e.workers[k], i) ==> IsSet(e.present, i))
  }

  predicate IsSet(present: set<nat>, i: int) { i >= 0 && i in present }

  lemma ClearingIsSet(e: Engine, k: nat, i: int)
    requires Late(e) && k < |e.workers| && Clearing(e.workers[k], i)
    ensures IsSet(e.present, i)
  {
    hide IsSet, Clearing;
  }

  /** An index is queued with both lock bits, or done and no longer queued. */
  predicate Guarded(present: set<nat>, locks: map<int, Bits>, i: int) {
    i >= 0 && if i in locks then locks[i] == Bits(true, true) else i in present
  }

  /** A held index is guarded, and held by one worker only. */
  ghost predicate Exclusive(e: Engine) {
    && (forall k, i :: 0 <= k < |e.workers| && Holds(e.workers[k], i) ==> Guarded(e.present, LocksNow(e), i))
    && (forall j, k, i :: 0 <= j < k < |e.workers| && Holds(e.workers[j], i) ==> !Holds(e.workers[k], i))
  }

  lemma OneHolder(e: Engine, j: nat, k: nat, i: int)
    requires Exclusive(e) && j < |e.workers| && k < |e.workers| && j != k && Holds(e.workers[j], i)
    ensures !Holds(e.workers[k], i)
  {
    hide Holds, Guarded;
  }

  lemma HeldIsGuarded(e: Engine, k: nat, i: int)
    requires Exclusive(e) && k < |e.workers| && Holds(e.workers[k], i)
    ensures Guarded(e.present, LocksNow(e), i)
  {
    hide Holds;
  }

  /** A worker that clears an index holds it, so that with one holder the rest is exact: an index
      held by a worker in another place is not queued once its bit is set. */
  lemma DoneIsNotQueued(e: Engine, i: int)
    requires Late(e) && i in e.present && forall k :: 0 <= k < |e.workers| ==> !Clearing(e.workers[k], i)
    ensures i !in LocksNow(e)
  {
    hide LocksNow;
  }

  lemma HeldElsewhereIsNotQueued(e: Engine, k: nat, i: int)
    requires Late(e) && Exclusive(e) && i in e.present
    requires k < |e.workers| && Holds(e.workers[k], i) && !Clearing(e.workers[k], i)
    ensures i !in LocksNow(e)
  {
    forall j | 0 <= j < |e.workers|
      ensures !Clearing(e.workers[j], i)
    {
      if j != k {
        OneHolder(e, k, j, i);
      }
    }
    DoneIsNotQueued(e, i);
  }

  // The other methods of the tables.

  /** Both bits stay where both are set, and only indices we lack are added. */
  ghost predicate Spares(present: set<nat>, locks: map<int, Bits>, locks': map<int, Bits>) {
    && (forall i :: i in locks && locks[i] == Bits(true, true) ==> i in locks' && locks'[i] == Bits(true, true))
    && (forall i :: i in locks' && i !in locks ==> i !in present)
  }

  lemma NothingSpares(present: set<nat>, locks: map<int, Bits>)
    ensures Spares(present, locks, locks)
  {
  }

  lemma PopSpares(n: Needs, gameEnd: bool, now: int, present: set<nat>)
    requires Unique(n.queue)
    ensures Spares(present, Locks(n.queue), Locks(Pop(n, gameEnd, now).queue))
  {
    PopLocks(n, gameEnd, now);
    hide Locks, Pop, Unique;
  }

  lemma PushSpares(q: seq<Entry>, index: int, source: Source, present: set<nat>)
    requires Unique(q) && index !in present
    ensures Spares(present, Locks(q), Locks(Push(q, index, source)))
  {
    PushLocks(q, index, source);
    hide Locks, Push, Unique;
  }

  lemma EnvSpares(e: Engine, part: Part)
    requires Unique(Queue(e)) && EnvEnabled(e, part)
    ensures Spares(e.present, LocksNow(e), Locks(Do(e.swarm, part).needs.queue))
  {
    hide Locks, Spares, Unique, Pop, Push, ReqPieces, DropSpeed, SetSpeed, SetId;
    match part
    case PopPart(gameEnd, now) => PopSpares(e.swarm.needs, gameEnd, now, e.present);
    case PushPart(index, source) => PushSpares(Queue(e), index, source, e.present);
    case _ => NothingSpares(e.present, LocksNow(e));
  }

  /** Whatever spares the held indices keeps them exclusive. */
  lemma SparedKeeps(e: Engine, e': Engine)
    requires Exclusive(e) && Spares(e.present, LocksNow(e), LocksNow(e')) && e.present == e'.present
    requires forall k, i :: 0 <= k < |e'.workers| && Holds(e'.workers[k], i) ==>
      k < |e.workers| && Holds(e.workers[k], i)
    ensures Exclusive(e')
  {
    hide Holds;
    forall k, i | 0 <= k < |e'.workers| && Holds(e'.workers[k], i)
      ensures Guarded(e'.present, LocksNow(e'), i)
    {
      HeldIsGuarded(e, k, i);
    }
  }

  /** What is queued in the end was queued before, or we lack it; workers go on clearing. */
  lemma SparedKeepsLate(e: Engine, e': Engine)
    requires Late(e) && Spares(e.present, LocksNow(e), LocksNow(e')) && e'.present == e.present
    requires forall k, i :: 0 <= k < |e.workers| && Clearing(e.workers[k], i) ==>
      k < |e'.workers| && Clearing(e'.workers[k], i)
    requires forall k, i :: 0 <= k < |e'.workers| && Clearing(e'.workers[k], i) ==>
      k < |e.workers| && Clearing(e.workers[k], i)
    ensures Late(e')
  {
    hide Clearing;
    forall i | i in e'.present && i in LocksNow(e')
      ensures exists k :: 0 <= k < |e'.workers| && Clearing(e'.workers[k], i)
    {
      assert i in LocksNow(e);
      var k :| 0 <= k < |e.workers| && Clearing(e.workers[k], i);
    }
    forall k, i | 0 <= k < |e'.workers| && Clearing(e'.workers[k], i)
      ensures IsSet(e'.present, i)
    {
      ClearingIsSet(e, k, i);
    }
  }

  // The workers.

  /** A worker takes an index: with the read bit set it is the only holder. */
  lemma TakeKeeps(e: Engine, e': Engine, k: nat, i: int)
    requires Exclusive(e) && k < |e.workers|
    requires i >= 0 && i in LocksNow(e) && !LocksNow(e)[i].write && LocksNow(e)[i].read
    requires e'.present == e.present && LocksNow(e') == LocksNow(e)[i := Bits(true, true)]
    requires |e'.workers| == |e.workers|
    requires forall x :: Holds(e'.workers[k], x) ==> x == i
    requires forall j :: 0 <= j < |e.workers| && j != k ==> e'.workers[j] == e.workers[j]
    ensures Exclusive(e')
  {
    hide LocksNow, Holds;
    forall j | 0 <= j < |e.workers|
      ensures !Holds(e.workers[j], i)
    {
      if Holds(e.workers[j], i) {
        HeldIsGuarded(e, j, i);
      }
    }
    forall j, x | 0 <= j < |e'.workers| && Holds(e'.workers[j], x)
      ensures Guarded(e'.present, LocksNow(e'), x)
    {
      if j != k {
        HeldIsGuarded(e, j, x);
      }
    }
    forall j, j', x | 0 <= j < j' < |e'.workers| && Holds(e'.workers[j], x)
      ensures !Holds(e'.workers[j'], x)
    {
      if j != k && j' != k {
        OneHolder(e, j, j', x);
      }
    }
  }

  /** A worker lets go of its index, or goes on holding it, while the bits of other indices stay. */
  lemma LetGoKeeps(e: Engine, e': Engine, k: nat, w: Worker, i: int)
    requires Exclusive(e) && k < |e.workers| && Holds(e.workers[k], i)
    requires e'.workers == e.workers[k := w]
    requires forall x :: Holds(w, x) ==> x == i && Guarded(e'.present, LocksNow(e'), i)
    requires forall x :: x != i && x in e.present ==> x in e'.present
    requires forall x :: x != i ==>
      (x in LocksNow(e) <==> x in LocksNow(e')) && (x in LocksNow(e) ==> LocksNow(e')[x] == LocksNow(e)[x])
    ensures Exclusive(e')
  {
    hide LocksNow, Holds;
    forall j, x | 0 <= j < |e'.workers| && Holds(e'.workers[j], x)
      ensures Holds(e.workers[j], x)
      ensures Guarded(e'.present, LocksNow(e'), x)
    {
      if j != k {
        OneHolder(e, j, k, x);
        HeldIsGuarded(e, j, x);
      }
    }
  }

  // The steps.

  lemma EnvKeepsLocks(info: Info, e: Engine, part: Part)
    requires Unique(Queue(e)) && Late(e) && EnvEnabled(e, part)
    ensures Late(After(info, e, Env(part)))
    ensures Exclusive(e) ==> Exclusive(After(info, e, Env(part)))
  {
    EnvSpares(e, part);
    hide Do, Spares, Late, Exclusive, Locks, Holds, Clearing;
    SparedKeepsLate(e, After(info, e, Env(part)));
    if Exclusive(e) {
      SparedKeeps(e, After(info, e, Env(part)));
    }
  }

  /** The loop's own steps leave the queue alone; a new worker holds nothing yet. */
  lemma LoopKeepsLocks(info: Info, e: Engine, act: Act)
    requires Late(e) && (act.Poll? || act.Event? || act.NoPiece? || act.PieceMessage?)
    ensures Late(After(info, e, act))
    ensures Exclusive(e) ==> Exclusive(After(info, e, act))
  {
    NothingSpares(e.present, LocksNow(e));
    assert Queue(After(info, e, act)) == Queue(e);
    hide Spares, Late, Exclusive, Locks, Touch;
    SparedKeepsLate(e, After(info, e, act));
    if Exclusive(e) {
      SparedKeeps(e, After(info, e, act));
    }
  }

  /** The start of DPiece: a worker that gets an index with its read bit is its only holder. */
  lemma StartKeepsLocks(info: Info, e: Engine, k: nat)
    requires Unique(Queue(e)) && Late(e) && k < |e.workers| && e.workers[k].Queued?
    ensures Late(After(info, e, Go(k)))
    ensures Exclusive(e) && ReadLocked(info, e, Go(k)) ==> Exclusive(After(info, e, Go(k)))
  {
    var Queued(s, i, b, buf) := e.workers[k];
    var e' := After(info, e, Go(k));
    SetWLocks(Queue(e), i);
    NothingSpares(e.present, LocksNow(e));
    assert Spares(e.present, LocksNow(e), LocksNow(e')) by {
      hide SetW, Locks, Accepted;
    }
    hide SetW, Spares, Late, Exclusive, Locks, Accepted;
    SparedKeepsLate(e, e');
    if Exclusive(e) && ReadLocked(info, e, Go(k)) {
      if Accepted(info, i, b, |buf|) && SetW(Queue(e), i).1 {
        TakeKeeps(e, e', k, i);
      } else {
        SparedKeeps(e, e');
      }
    }
  }

  /** What a step of a worker that has its index may do to the queue and the bits. */
  datatype Effect = Nothing | Unlocks | Fills | Clears

  ghost predicate Has(e: Engine, e': Engine, k: nat, i: int, effect: Effect)
    requires k < |e.workers| == |e'.workers|
  {
    match effect
    case Nothing =>
      && Queue(e') == Queue(e) && e'.present == e.present
      && (forall x :: Clearing(e'.workers[k], x) <==> Clearing(e.workers[k], x))
      && (forall x :: Holds(e'.workers[k], x) ==> Holds(e.workers[k], x))
    case Unlocks =>
      && Queue(e') == UnLock(Queue(e), i) && e'.present == e.present
      && (forall x :: !Holds(e'.workers[k], x) && !Clearing(e'.workers[k], x) && !Clearing(e.workers[k], x))
    case Fills =>
      && Queue(e') == Queue(e) && i >= 0 && e'.present == e.present + {i}
      && (forall x :: Clearing(e'.workers[k], x) <==> x == i) && (forall x :: Holds(e'.workers[k], x) <==> x == i)
      && (forall x :: !Clearing(e.workers[k], x))
    case Clears =>
      && Queue(e') == Clear(Queue(e), i) && e'.present == e.present
      && (forall x :: Clearing(e.workers[k], x) <==> x == i) && (forall x :: Holds(e'.workers[k], x) <==> x == i)
      && (forall x :: !Clearing(e'.workers[k], x))
  }

  lemma GoEffect(info: Info, e: Engine, k: nat) returns (effect: Effect, i: int)
    requires Enabled(info, e, Go(k)) && !e.workers[k].Queued? && !e.workers[k].Writing?
    ensures |After(info, e, Go(k)).workers| == |e.workers|
    ensures Has(e, After(info, e, Go(k)), k, i, effect) && (effect != Nothing ==> Holds(e.workers[k], i))
  {
    var w := e.workers[k];
    effect, i := Nothing, 0;
    hide UnLock;
    if w.Unlocking? || w.Leaving? {
      effect, i := Unlocks, w.index;
    }
  }

  lemma WriteEffect(info: Info, e: Engine, act: Act) returns (effect: Effect, i: int)
    requires IsWorkers(act) && Enabled(info, e, act) && !(act.Go? && !e.workers[act.worker].Writing?)
    ensures |After(info, e, act).workers| == |e.workers| && act.worker < |e.workers|
    ensures Has(e, After(info, e, act), act.worker, i, effect)
    ensures effect != Nothing ==> Holds(e.workers[act.worker], i)
  {
    WriteTouches(info, e, act);
    effect, i := Nothing, 0;
    if act.Go? {
      effect, i := NextEffect(info, e, act.worker);
    }
    hide Clear, Hashes, Patch, Length, Full, SliceCount;
  }

  lemma NextEffect(info: Info, e: Engine, k: nat) returns (effect: Effect, i: int)
    requires Enabled(info, e, Go(k)) && e.workers[k].Writing?
    ensures |After(info, e, Go(k)).workers| == |e.workers|
    ensures Has(e, After(info, e, Go(k)), k, i, effect)
    ensures effect != Nothing ==> Holds(e.workers[k], i)
  {
    WriteTouches(info, e, Go(k));
    var w := e.workers[k];
    hide Clear, Hashes, Patch, Length, SliceCount, GoEnabled;
    if w.index in e.pool && w.stage == Freed && w.index >= 0 {
      effect, i := Fills, w.index;
    } else if w.index in e.pool && w.stage == Filled {
      effect, i := Clears, w.index;
    } else {
      QuietNext(info, e, k);
      hide After;
      effect, i := Nothing, 0;
    }
  }

  lemma QuietNext(info: Info, e: Engine, k: nat)
    requires Enabled(info, e, Go(k)) && e.workers[k].Writing?
    requires e.workers[k].index in e.pool ==>
      e.workers[k].stage != Filled && !(e.workers[k].stage == Freed && e.workers[k].index >= 0)
    ensures var e' := After(info, e, Go(k));
            && |e'.workers| == |e.workers| && Queue(e') == Queue(e) && e'.present == e.present
            && (forall x :: Clearing(e'.workers[k], x) <==> Clearing(e.workers[k], x))
            && (forall x :: Holds(e'.workers[k], x) ==> Holds(e.workers[k], x))
  {
    hide Clear, Hashes, Patch, Length, SliceCount, GoEnabled, Accepted, SetW, UnLock, Touch;
  }

  lemma WorkerEffect(info: Info, e: Engine, act: Act) returns (effect: Effect, i: int)
    requires IsWorkers(act) && Enabled(info, e, act) && (act.Go? ==> !e.workers[act.worker].Queued?)
    ensures |After(info, e, act).workers| == |e.workers| && act.worker < |e.workers|
    ensures Has(e, After(info, e, act), act.worker, i, effect)
    ensures effect != Nothing ==> Holds(e.workers[act.worker], i)
  {
    hide After, Has;
    if act.Go? && !e.workers[act.worker].Writing? {
      effect, i := GoEffect(info, e, act.worker);
    } else {
      effect, i := WriteEffect(info, e, act);
    }
  }

  lemma EffectKeepsLate(e: Engine, e': Engine, k: nat, i: int, effect: Effect)
    requires Unique(Queue(e)) && Late(e) && k < |e.workers| == |e'.workers|
    requires e'.workers == e.workers[k := e'.workers[k]] && Has(e, e', k, i, effect)
    ensures Late(e')
  {
    UnLockLocks(Queue(e), i);
    if effect == Clears {
      ClearingIsSet(e, k, i);
      ClearLocks(Queue(e), i);
    }
    assert forall x :: x in LocksNow(e') ==> x in LocksNow(e) && !(effect == Clears && x == i);
    hide Locks, LocksNow, Unique, UnLock, Clear, Clearing, Holds;
    forall x | x in e'.present && x in LocksNow(e')
      ensures exists j :: 0 <= j < |e'.workers| && Clearing(e'.workers[j], x)
    {
      if effect == Fills && x == i {
        assert Clearing(e'.workers[k], x);
      } else {
        var j :| 0 <= j < |e.workers| && Clearing(e.workers[j], x);
        assert Clearing(e'.workers[j], x);
      }
    }
    forall j, x | 0 <= j < |e'.workers| && Clearing(e'.workers[j], x)
      ensures IsSet(e'.present, x)
    {
      if j != k || effect != Fills {
        ClearingIsSet(e, j, x);
      }
    }
  }

  lemma EffectKeepsExclusive(e: Engine, e': Engine, k: nat, i: int, effect: Effect)
    requires Unique(Queue(e)) && Late(e) && Exclusive(e) && k < |e.workers| == |e'.workers|
    requires e'.workers == e.workers[k := e'.workers[k]] && Has(e, e', k, i, effect)
    requires effect != Nothing ==> Holds(e.workers[k], i)
    ensures Exclusive(e')
  {
    if effect == Nothing {
      NothingSpares(e.present, LocksNow(e));
      hide Spares, Locks, Holds, Clearing, Exclusive, Late;
      SparedKeeps(e, e');
    } else {
      HeldIsGuarded(e, k, i);
      UnLockLocks(Queue(e), i);
      ClearLocks(Queue(e), i);
      if effect == Clears {
        ClearingIsSet(e, k, i);
      }
      hide Locks, Unique, UnLock, Clear, Exclusive, Late, Holds, Clearing;
      LetGoKeeps(e, e', k, e'.workers[k], i);
    }
  }

  lemma StepKeepsLocks(info: Info, e: Engine, act: Act)
    requires Unique(Queue(e)) && Late(e) && Enabled(info, e, act)
    ensures Late(After(info, e, act))
    ensures Exclusive(e) && ReadLocked(info, e, act) ==> Exclusive(After(info, e, act))
  {
    hide Late, Exclusive, After, ReadLocked, Unique, Enabled;
    if act.Env? {
      EnvIsEnabled(info, e, act);
      EnvKeepsLocks(info, e, act.part);
    } else if IsWorkers(act) {
      WorkerMoves(info, e, act);
      if act.Go? && e.workers[act.worker].Queued? {
        StartKeepsLocks(info, e, act.worker);
      } else {
        var effect, i := WorkerEffect(info, e, act);
        hide Has;
        EffectKeepsLate(e, After(info, e, act), act.worker, i, effect);
        if Exclusive(e) {
          EffectKeepsExclusive(e, After(info, e, act), act.worker, i, effect);
        }
      }
    } else {
      LoopKeepsLocks(info, e, act);
    }
  }

  lemma EnvIsEnabled(info: Info, e: Engine, act: Act)
    requires act.Env? && Enabled(info, e, act)
    ensures EnvEnabled(e, act.part)
  {
  }

  /** Pushing an index that no worker is clearing leaves finished indices out of the queue if and
      only if we lack it. */
  lemma PushNeedsLack(e: Engine, i: int, x: Source)
    requires Unique(Queue(e)) && Late(e) && i >= 0
    requires forall k :: 0 <= k < |e.workers| ==> !Clearing(e.workers[k], i)
    ensures Late(WithQueue(e, Push(Queue(e), i, x))) <==> i !in e.present
  {
    PushLocks(Queue(e), i, x);
    hide Locks, Push, Unique, Clearing;
    var e' := WithQueue(e, Push(Queue(e), i, x));
    assert i in LocksNow(e') && forall j :: j in LocksNow(e') ==> j in LocksNow(e) || j == i;
    if i in e.present {
      assert !Late(e');
    } else {
      hide LocksNow;
      forall j | j in e'.present && j in LocksNow(e')
        ensures exists k :: 0 <= k < |e'.workers| && Clearing(e'.workers[k], j)
      {
        var k :| 0 <= k < |e.workers| && Clearing(e.workers[k], j);
        assert Clearing(e'.workers[k], j);
      }
      forall k, j | 0 <= k < |e'.workers| && Clearing(e'.workers[k], j)
        ensures IsSet(e'.present, j)
      {
        ClearingIsSet(e, k, j);
      }
    }
  }

  // What exclusion means.

  /** PopNeed never hands out a held index. */
  lemma HeldIsNotPopped(e: Engine, gameEnd: bool, now: int, k: nat)
    requires Unique(Queue(e)) && Exclusive(e) && k < |e.workers|
    ensures var r := Pop(e.swarm.needs, gameEnd, now); r.sockets != [] ==> !Holds(e.workers[k], r.index)
  {
    PopLocks(e.swarm.needs, gameEnd, now);
    var r := Pop(e.swarm.needs, gameEnd, now);
    assert r.sockets != [] ==> r.index in LocksNow(e) && LocksNow(e)[r.index] != Bits(true, true);
    hide Locks, Pop, Unique;
    if Holds(e.workers[k], r.index) {
      HeldIsGuarded(e, k, r.index);
    }
  }

  /** A worker that stops holding an index leaves it unlocked, or no longer queued. */
  lemma ReleaseFreesIndex(info: Info, e: Engine, act: Act, k: nat, i: int)
    requires Unique(Queue(e)) && Late(e) && Exclusive(e) && Enabled(info, e, act)
    requires k < |e.workers| && Holds(e.workers[k], i)
    requires k < |After(info, e, act).workers| && !Holds(After(info, e, act).workers[k], i)
    ensures var locks := LocksNow(After(info, e, act)); i in locks ==> locks[i] == Bits(false, false)
  {
    HeldIsGuarded(e, k, i);
    var w, e' := e.workers[k], After(info, e, act);
    OnlyGoLetsGo(info, e, act, k, i);
    hide Late, Exclusive, Unique, Locks;
    UnLockLocks(Queue(e), i);
    hide UnLock;
    if w.Holding? {
      HeldElsewhereIsNotQueued(e, k, i);
    }
  }

  lemma OnlyGoLetsGo(info: Info, e: Engine, act: Act, k: nat, i: int)
    requires Enabled(info, e, act) && k < |e.workers| && Holds(e.workers[k], i)
    requires k < |After(info, e, act).workers| && !Holds(After(info, e, act).workers[k], i)
    ensures act == Go(k) && (e.workers[k].Unlocking? || e.workers[k].Leaving? || e.workers[k].Holding?)
    ensures e.workers[k].Holding? ==> i in e.present
  {
    hide Do, Received, Accepted, SetW, UnLock, Clear, Hashes, Patch, Length, Full, SliceCount, GoEnabled, EnvEnabled;
    if IsWorkers(act) {
      WorkerMoves(info, e, act);
    }
  }
}
