/** A bit that is set stands for a piece that is on disk and has the torrent's hash. */
module DownloadSafety {
  import opened Bytes
  import opened Network
  import opened NeedPiece
  import opened PeerTables
  import opened TableParts
  import opened TorrentFile
  import opened BitMemory
  import opened LockBits
  import opened Engine
  import opened WriteLock

  /** The bytes of piece i in the file. */
  function OnDisk(info: Info, disk: seq<byte>, i: int): seq<byte> {
    if 0 <= Offset(info, i) <= Offset(info, i) + Length(info, i) <= |disk| then
      disk[Offset(info, i)..Offset(info, i) + Length(info, i)]
    else []
  }

  /** Every piece whose bit is set is in the file, with the torrent's hash. */
  ghost predicate Downloaded(info: Info, disk: seq<byte>, present: set<nat>) {
    |disk| == Total(info) &&
    forall i :: i in present ==> i < PieceCount(info) && Hashes(info, i, OnDisk(info, disk, i))
  }

  lemma FullHasBytes(info: Info, i: int, p: Piece)
    requires WellFormed(info) && info.pieceLength <= 2 * BLOCK && i >= 0
    ensures 0 < Length(info, i) && BLOCK * BlocksOf(info, i) >= Length(info, i)
    ensures Full(info, i, p) ==> p.data != [] && |Head(p.data, Length(info, i))| == Length(info, i)
  {
    LengthBounds(info, i);
    hide WellFormed, Length;
  }

  lemma RangesApart(info: Info, i: nat, j: nat)
    requires WellFormed(info) && i < j < PieceCount(info)
    ensures Offset(info, i) + Length(info, i) <= Offset(info, j)
  {
    PieceRange(info, i);
    LastPieceSize(info, i);
    MulOrder(i + 1, j, info.pieceLength);
    assert (i + 1) * info.pieceLength == i * info.pieceLength + info.pieceLength;
  }

  lemma RangeInside(info: Info, i: nat)
    requires WellFormed(info) && i < PieceCount(info)
    ensures 0 <= Offset(info, i) && 0 < Length(info, i) && Offset(info, i) + Length(info, i) <= Total(info)
  {
    PieceRange(info, i);
    LastPieceSize(info, i);
    PieceOffset(info, i);
  }

  /** Writing one piece's range changes that piece in the file and no other. */
  lemma PatchOnDisk(info: Info, disk: seq<byte>, i: nat, data: seq<byte>, j: nat)
    requires WellFormed(info) && i < PieceCount(info) && j < PieceCount(info)
    requires |disk| == Total(info) && |data| == Length(info, i)
    ensures OnDisk(info, Patch(disk, Offset(info, i), data), j) == if i == j then data else OnDisk(info, disk, j)
  {
    RangeInside(info, i);
    RangeInside(info, j);
    if i < j {
      RangesApart(info, i, j);
    } else if j < i {
      RangesApart(info, j, i);
    }
    hide WellFormed, Offset, Length, Total, PieceCount;
  }

  // What a worker relies on while it holds its index.

  /** All that concerns one index: its piece in memory, its bit, and its range of the file. */
  datatype View = View(known: bool, piece: Piece, isSet: bool, range: seq<byte>)

  function ViewOf(info: Info, e: Engine, i: int): View {
    View(i in e.pool, if i in e.pool then e.pool[i] else Piece(0, []), i in e.present,
         if 0 <= i < PieceCount(info) then OnDisk(info, e.disk, i) else [])
  }

  /** The piece has its blocks, and is not finished. */
  predicate Whole(info: Info, i: int, v: View) { v.known && !v.isSet && Full(info, i, v.piece) }

  /** A finished piece has given its blocks back, with a count of 0 that turns slices away; any
      other has its blocks, or is not in memory yet. */
  predicate Settled(info: Info, i: int, v: View) {
    if v.isSet then v.known && v.piece == Piece(0, []) else v.known ==> Full(info, i, v.piece)
  }

  /** The piece is in the file. */
  predicate InFile(info: Info, i: int, v: View) { 0 <= i < PieceCount(info) && Hashes(info, i, v.range) }

  predicate StageOk(info: Info, i: int, stage: Stage, v: View) {
    match stage
    case Entering(begin, buf) => Settled(info, i, v)
    case Allocating(begin, buf) => v.known && !v.isSet && v.piece.data == [] && buf != []
    case Found(begin, buf) => v.known && Settled(info, i, v) && buf != []
    case Checked(begin, buf) => Whole(info, i, v) && 0 < |buf| <= v.piece.curLen
    case Copied(length) => Whole(info, i, v) && 0 < length <= v.piece.curLen
    case Counted => Whole(info, i, v) && v.piece.curLen >= 0
    case Hashed =>
      Whole(info, i, v) && v.piece.curLen == 0 && Hashes(info, i, Head(v.piece.data, Length(info, i)))
    case OnFile => Whole(info, i, v) && v.piece.curLen == 0 && InFile(info, i, v)
    case Freed => v.known && !v.isSet && v.piece == Piece(0, []) && InFile(info, i, v)
    case Filled => v.known && v.isSet && v.piece == Piece(0, [])
  }

  predicate WorkerOk(info: Info, w: Worker, v: View) {
    && (w.Holding? ==> w.index >= 0 && Settled(info, w.index, v))
    && (w.Writing? ==> w.index >= 0 && StageOk(info, w.index, w.stage, v))
  }

  function IndexOfWorker(w: Worker): int { if w.Writing? || w.Holding? then w.index else -1 }

  /** The worker's piece is in memory without blocks for now. */
  predicate Bare(w: Worker, i: int) { w.Writing? && w.index == i && (w.stage.Allocating? || w.stage == Freed) }

  ghost predicate Safe(info: Info, e: Engine) {
    && Downloaded(info, e.disk, e.present)
    && (forall k :: 0 <= k < |e.workers| ==>
         WorkerOk(info, e.workers[k], ViewOf(info, e, IndexOfWorker(e.workers[k]))))
    && (forall i :: i in e.pool && i !in e.present ==>
         Full(info, i, e.pool[i]) || exists k :: 0 <= k < |e.workers| && Bare(e.workers[k], i))
  }

  // One step of one worker.

  /** What the step leaves at the worker's own index i. */
  ghost predicate OwnOk(info: Info, e': Engine, k: nat, i: int)
    requires k < |e'.workers|
  {
    var w', v := e'.workers[k], ViewOf(info, e', i);
    && (IndexOfWorker(w') == i || !(w'.Writing? || w'.Holding?))
    && WorkerOk(info, w', v)
    && (v.isSet ==> InFile(info, i, v))
    && (v.known && !v.isSet ==> Full(info, i, v.piece) || Bare(w', i))
  }

  /** What the step leaves alone. */
  ghost predicate OthersSame(info: Info, e: Engine, e': Engine, i: int) {
    && |e'.disk| == |e.disk|
    && forall j :: j != i ==> ViewOf(info, e', j) == ViewOf(info, e, j)
  }

  lemma SameViews(info: Info, e: Engine, e': Engine, i: int)
    requires e'.disk == e.disk
    requires forall j :: j != i ==> (j in e.pool <==> j in e'.pool) && (j in e.pool ==> e'.pool[j] == e.pool[j])
    requires forall j :: j != i ==> (j in e.present <==> j in e'.present)
    ensures OthersSame(info, e, e', i)
  {
    hide OnDisk, PieceCount;
  }

  /** A step of Write but for Allocate and Store leaves other indices alone. */
  lemma WroteOthers(info: Info, e: Engine, k: nat)
    requires Enabled(info, e, Go(k)) && e.workers[k].Writing?
    ensures |After(info, e, Go(k)).workers| == |e.workers|
    ensures OthersSame(info, e, After(info, e, Go(k)), e.workers[k].index)
  {
    SameViews(info, e, After(info, e, Go(k)), e.workers[k].index);
    hide OnDisk, Hashes, Patch, Length, SliceCount, Clear, OthersSame, Head, PieceCount;
  }

  /** Up to the copy. */
  lemma EarlyOk(info: Info, e: Engine, k: nat)
    requires WellFormed(info) && info.pieceLength <= 2 * BLOCK && Enabled(info, e, Go(k)) && e.workers[k].Writing?
    requires var v := ViewOf(info, e, e.workers[k].index);
             && WorkerOk(info, e.workers[k], v) && (v.isSet ==> InFile(info, e.workers[k].index, v))
    requires var t := e.workers[k].stage; t.Entering? || t.Found? || t.Checked?
    ensures |After(info, e, Go(k)).workers| == |e.workers|
    ensures OwnOk(info, After(info, e, Go(k)), k, e.workers[k].index)
  {
    var i := e.workers[k].index;
    FullHasBytes(info, i, Piece(0, []));
    if e.workers[k].stage.Checked? {
      PatchKeepsFull(info, i, ViewOf(info, e, i).piece, e.workers[k].stage.begin, e.workers[k].stage.buf);
    }
    hide WellFormed, OnDisk, Hashes, Patch, Length, SliceCount, Clear, BlocksOf, Head, PieceCount;
  }

  /** From the copy on. */
  lemma LateOk(info: Info, e: Engine, k: nat)
    requires Enabled(info, e, Go(k)) && e.workers[k].Writing?
    requires var v := ViewOf(info, e, e.workers[k].index);
             && WorkerOk(info, e.workers[k], v) && (v.isSet ==> InFile(info, e.workers[k].index, v))
    requires var t := e.workers[k].stage; !t.Entering? && !t.Found? && !t.Checked?
    ensures |After(info, e, Go(k)).workers| == |e.workers|
    ensures OwnOk(info, After(info, e, Go(k)), k, e.workers[k].index)
  {
    hide OnDisk, Hashes, Patch, Length, SliceCount, Clear, BlocksOf, Head, PieceCount;
  }

  lemma PatchKeepsFull(info: Info, i: int, p: Piece, begin: int, buf: seq<byte>)
    requires Full(info, i, p)
    ensures Full(info, i, p.(data := Patch(p.data, begin, buf)))
  {
  }

  lemma AllocatedOk(info: Info, e: Engine, k: nat, initial: Piece)
    requires Enabled(info, e, Allocate(k, initial)) && WorkerOk(info, e.workers[k], ViewOf(info, e, e.workers[k].index))
    ensures |After(info, e, Allocate(k, initial)).workers| == |e.workers|
    ensures OwnOk(info, After(info, e, Allocate(k, initial)), k, e.workers[k].index)
    ensures OthersSame(info, e, After(info, e, Allocate(k, initial)), e.workers[k].index)
  {
    SameViews(info, e, After(info, e, Allocate(k, initial)), e.workers[k].index);
    hide OnDisk, Hashes, Length, OthersSame, BlocksOf, PieceCount;
  }

  /** Writing one piece's range into the file. */
  lemma PatchedViews(info: Info, e: Engine, i: nat, data: seq<byte>, e': Engine)
    requires WellFormed(info) && i < PieceCount(info) && |e.disk| == Total(info) && |data| == Length(info, i)
    requires e'.disk == Patch(e.disk, Offset(info, i), data) && e'.present == e.present
    requires forall j :: j != i ==> (j in e.pool <==> j in e'.pool) && (j in e.pool ==> e'.pool[j] == e.pool[j])
    ensures OthersSame(info, e, e', i) && ViewOf(info, e', i).range == data
  {
    hide WellFormed, Patch, OnDisk, Length, Offset, Total;
    forall j | 0 <= j < PieceCount(info)
      ensures OnDisk(info, e'.disk, j) == if i == j then data else OnDisk(info, e.disk, j)
    {
      PatchOnDisk(info, e.disk, i, data, j);
    }
    hide PieceCount;
  }

  lemma FlushedOk(info: Info, e: Engine, k: nat, storing: Storing)
    requires WellFormed(info) && info.pieceLength <= 2 * BLOCK && Enabled(info, e, Store(k, storing))
    requires |e.disk| == Total(info) && WorkerOk(info, e.workers[k], ViewOf(info, e, e.workers[k].index))
    ensures |After(info, e, Store(k, storing)).workers| == |e.workers|
    ensures OwnOk(info, After(info, e, Store(k, storing)), k, e.workers[k].index)
    ensures OthersSame(info, e, After(info, e, Store(k, storing)), e.workers[k].index)
  {
    var w, i := e.workers[k], e.workers[k].index;
    var p, data := e.pool[i], Head(e.pool[i].data, Length(info, i));
    FullHasBytes(info, i, p);
    HashedIsListed(info, i, data);
    FlushedTo(info, e, k, storing);
    var written := match storing case Stored => data case Failed(garbage) => garbage;
    var e1 := e.(disk := Patch(e.disk, Offset(info, i), written));
    assert Whole(info, i, ViewOf(info, e, i)) && Hashes(info, i, data) && p.curLen == 0;
    hide After, Enabled, WellFormed, Hashes, Patch, Length, Offset, BlocksOf, Head, Total, OnDisk;
    PatchedViews(info, e, i, written, e1);
    hide PieceCount;
    match storing
    case Stored => StoredOk(info, e1, k, w.(stage := OnFile), i);
    case Failed(garbage) => NotStoredOk(info, e1, k, i);
  }

  lemma StoredOk(info: Info, e: Engine, k: nat, w: Worker, i: nat)
    requires k < |e.workers| && w.Writing? && w.index == i && w.stage == OnFile
    requires var v := ViewOf(info, e, i); Whole(info, i, v) && v.piece.curLen == 0 && InFile(info, i, v)
    ensures OwnOk(info, Move(e, k, w), k, i)
    ensures forall j :: ViewOf(info, Move(e, k, w), j) == ViewOf(info, e, j)
  {
    hide Full, OnDisk, Hashes, PieceCount;
  }

  lemma NotStoredOk(info: Info, e: Engine, k: nat, i: nat)
    requires k < |e.workers| && e.workers[k].Writing? && e.workers[k].index == i && Whole(info, i, ViewOf(info, e, i))
    ensures OwnOk(info, GivenUp(info, e, k), k, i)
    ensures forall j :: j != i ==> ViewOf(info, GivenUp(info, e, k), j) == ViewOf(info, e, j)
  {
    hide OnDisk, Hashes, PieceCount, Length, BlocksOf;
  }

  /** What Store does when there are blocks. */
  lemma FlushedTo(info: Info, e: Engine, k: nat, storing: Storing)
    requires Enabled(info, e, Store(k, storing)) && e.workers[k].index in e.pool
    requires e.pool[e.workers[k].index].data != []
    ensures var w, i, e' := e.workers[k], e.workers[k].index, After(info, e, Store(k, storing));
            var data := Head(e.pool[i].data, Length(info, i));
            match storing
            case Stored => e' == Move(e.(disk := Patch(e.disk, Offset(info, i), data)), k, w.(stage := OnFile))
            case Failed(garbage) => e' == GivenUp(info, e.(disk := Patch(e.disk, Offset(info, i), garbage)), k)
  {
    hide Patch, Length, Offset, Head;
  }

  /** The worker takes its index: its piece has its blocks, or is not in memory yet. */
  lemma TakenIsReady(info: Info, e: Engine, i: int)
    requires Unique(Queue(e)) && Late(e) && Exclusive(e) && Safe(info, e) && SetW(Queue(e), i).1
    ensures i >= 0 && Settled(info, i, ViewOf(info, e, i)) && i !in e.present
  {
    SetWLocks(Queue(e), i);
    assert i in LocksNow(e) && !LocksNow(e)[i].write;
    hide SetW, Locks, Unique, Late, Full, OnDisk;
    forall k | 0 <= k < |e.workers|
      ensures !Clearing(e.workers[k], i) && !Bare(e.workers[k], i)
    {
      if Holds(e.workers[k], i) {
        HeldIsGuarded(e, k, i);
      }
    }
    hide Exclusive;
    if i in e.present {
      DoneIsNotQueued(e, i);
    }
  }

  // One step of the engine.

  /** A step that leaves memory, bits and file alone, and no index without its worker. */
  lemma QuietKeepsSafe(info: Info, e: Engine, e': Engine)
    requires Safe(info, e) && e'.pool == e.pool && e'.disk == e.disk && e'.present == e.present
    requires |e.workers| <= |e'.workers|
    requires forall k :: 0 <= k < |e'.workers| ==>
      || (k < |e.workers| && e'.workers[k] == e.workers[k])
      || (WorkerOk(info, e'.workers[k], ViewOf(info, e, IndexOfWorker(e'.workers[k]))) &&
          (k < |e.workers| ==> !e.workers[k].Writing?))
    ensures Safe(info, e')
  {
    hide WorkerOk, Full, Downloaded;
    assert forall i :: ViewOf(info, e', i) == ViewOf(info, e, i);
    hide ViewOf;
    forall i | i in e'.pool && i !in e'.present
      ensures Full(info, i, e'.pool[i]) || exists k :: 0 <= k < |e'.workers| && Bare(e'.workers[k], i)
    {
      if !Full(info, i, e'.pool[i]) {
        var k :| 0 <= k < |e.workers| && Bare(e.workers[k], i);
        assert Bare(e'.workers[k], i);
      }
    }
  }

  /** A step of Write: with one holder per index nobody else is concerned. */
  lemma WriteKeepsSafe(info: Info, e: Engine, e': Engine, k: nat, i: int)
    requires Safe(info, e) && Exclusive(e) && k < |e.workers| == |e'.workers|
    requires e.workers[k].Writing? && e.workers[k].index == i
    requires e'.workers == e.workers[k := e'.workers[k]] && OwnOk(info, e', k, i) && OthersSame(info, e, e', i)
    ensures Safe(info, e')
  {
    assert forall j, x :: 0 <= j < |e.workers| && j != k && Bare(e.workers[j], x) ==> Bare(e'.workers[j], x);
    forall j | 0 <= j < |e'.workers| && j != k
      ensures IndexOfWorker(e.workers[j]) != i
    {
      if Holds(e.workers[j], i) {
        OneHolder(e, k, j, i);
      }
      assert i >= 0;
    }
    assert Downloaded(info, e'.disk, e'.present) by {
      OwnDownloaded(info, e, e', k, i);
    }
    hide StageOk, Full, Downloaded, Exclusive, Settled, InFile;
    forall x | x in e'.pool && x !in e'.present
      ensures Full(info, x, e'.pool[x]) || exists j :: 0 <= j < |e'.workers| && Bare(e'.workers[j], x)
    {
      if x == i {
        assert ViewOf(info, e', i).known;
      } else {
        assert ViewOf(info, e', x) == ViewOf(info, e, x);
        if !Full(info, x, e'.pool[x]) {
          var j :| 0 <= j < |e.workers| && Bare(e.workers[j], x);
          assert Bare(e'.workers[j], x);
        }
      }
    }
    forall j | 0 <= j < |e'.workers|
      ensures WorkerOk(info, e'.workers[j], ViewOf(info, e', IndexOfWorker(e'.workers[j])))
    {
    }
  }

  lemma OwnDownloaded(info: Info, e: Engine, e': Engine, k: nat, i: int)
    requires Downloaded(info, e.disk, e.present) && k < |e'.workers|
    requires OwnOk(info, e', k, i) && OthersSame(info, e, e', i)
    ensures Downloaded(info, e'.disk, e'.present)
  {
    hide Hashes, OnDisk, PieceCount, WorkerOk;
    forall x | x in e'.present
      ensures x < PieceCount(info) && Hashes(info, x, OnDisk(info, e'.disk, x))
    {
      if x == i {
        assert ViewOf(info, e', i).isSet;
      } else {
        assert ViewOf(info, e', x) == ViewOf(info, e, x);
        assert ViewOf(info, e', x).isSet && ViewOf(info, e, x).isSet;
      }
    }
  }

  lemma OwnView(info: Info, e: Engine, k: nat)
    requires Safe(info, e) && k < |e.workers| && e.workers[k].Writing?
    ensures var v := ViewOf(info, e, e.workers[k].index);
            && WorkerOk(info, e.workers[k], v) && (v.isSet ==> InFile(info, e.workers[k].index, v))
    ensures |e.disk| == Total(info)
  {
    hide StageOk, OnDisk, Hashes, Full, PieceCount;
  }

  lemma WritingKeepsSafe(info: Info, e: Engine, act: Act)
    requires WellFormed(info) && info.pieceLength <= 2 * BLOCK && Safe(info, e) && Exclusive(e)
    requires Enabled(info, e, act) && IsWorkers(act) && e.workers[act.worker].Writing?
    ensures Safe(info, After(info, e, act))
  {
    var k := act.worker;
    OwnView(info, e, k);
    WorkerMoves(info, e, act);
    var t := e.workers[k].stage;
    hide Safe, Exclusive, After, OwnOk, OthersSame, ViewOf, WorkerOk, WellFormed, Full, Length;
    if act.Go? {
      WroteOthers(info, e, k);
      if t.Entering? || t.Found? || t.Checked? {
        EarlyOk(info, e, k);
      } else {
        LateOk(info, e, k);
      }
    } else if act.Allocate? {
      AllocatedOk(info, e, k, act.initial);
    } else {
      FlushedOk(info, e, k, act.storing);
    }
    WriteKeepsSafe(info, e, After(info, e, act), k, e.workers[k].index);
  }

  lemma StartKeepsSafe(info: Info, e: Engine, k: nat)
    requires Unique(Queue(e)) && Late(e) && Exclusive(e) && Safe(info, e)
    requires k < |e.workers| && e.workers[k].Queued?
    ensures Safe(info, After(info, e, Go(k)))
  {
    var i := e.workers[k].index;
    if SetW(Queue(e), i).1 {
      TakenIsReady(info, e, i);
    }
    hide Accepted, SetW, Unique, Late, Exclusive, Safe, Settled, ViewOf;
    QuietKeepsSafe(info, e, After(info, e, Go(k)));
  }

  lemma IdleKeepsSafe(info: Info, e: Engine, act: Act)
    requires Safe(info, e) && Enabled(info, e, act)
    requires IsWorkers(act) ==> !e.workers[act.worker].Writing? && !e.workers[act.worker].Queued?
    ensures Safe(info, After(info, e, act))
  {
    if act.Slice? {
      assert WorkerOk(info, e.workers[act.worker], ViewOf(info, e, e.workers[act.worker].index));
    }
    hide Safe, Accepted, UnLock, Do, Settled, ViewOf, Touch;
    QuietKeepsSafe(info, e, After(info, e, act));
  }

  lemma StepKeepsSafe(info: Info, e: Engine, act: Act)
    requires WellFormed(info) && info.pieceLength <= 2 * BLOCK
    requires Unique(Queue(e)) && Late(e) && Exclusive(e) && Safe(info, e) && Enabled(info, e, act)
    ensures Safe(info, After(info, e, act))
  {
    if IsWorkers(act) {
      WorkerMoves(info, e, act);
    }
    hide WellFormed, Unique, Late, Exclusive, Safe, After, Enabled;
    if IsWorkers(act) && e.workers[act.worker].Writing? {
      WritingKeepsSafe(info, e, act);
    } else if act.Go? && e.workers[act.worker].Queued? {
      StartKeepsSafe(info, e, act.worker);
    } else {
      if IsWorkers(act) && !act.Go? {
        OnlyGoStarts(info, e, act);
      }
      IdleKeepsSafe(info, e, act);
    }
  }

  lemma OnlyGoStarts(info: Info, e: Engine, act: Act)
    requires IsWorkers(act) && Enabled(info, e, act) && !act.Go?
    ensures !e.workers[act.worker].Queued?
  {
  }

  /** A bit that is set is never cleared. */
  lemma BitsStay(info: Info, e: Engine, act: Act)
    ensures e.present <= After(info, e, act).present
  {
    hide Do, Accepted, SetW, UnLock, Clear, Hashes, Patch, Length, SliceCount, Touch;
  }

  /** A copy into memory finds the blocks of its piece, and the count is enough for it. */
  lemma CopyFindsBlocks(info: Info, e: Engine, k: nat)
    requires Safe(info, e) && k < |e.workers| && e.workers[k].Writing? && e.workers[k].stage.Checked?
    ensures var i := e.workers[k].index;
            i in e.pool && Full(info, i, e.pool[i]) && |e.workers[k].stage.buf| <= e.pool[i].curLen
  {
    hide Full, OnDisk;
  }

  /** The count of a piece is never lowered below 0. */
  lemma CountStaysPositive(info: Info, e: Engine, k: nat)
    requires Safe(info, e) && k < |e.workers| && e.workers[k].Writing? && e.workers[k].stage == Counted
    ensures e.workers[k].index in e.pool && e.pool[e.workers[k].index].curLen >= 0
  {
    hide Full, OnDisk;
  }
}
