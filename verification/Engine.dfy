/** The event loop of SelectSwitch and its DPiece workers beside it, as a transition system. What
    happens to the tables under one lock is one step; AddSocket, CloseSocket and the status
    methods, which take three locks in turn, are three. Write, which holds no lock for most of
    its body, is the stages below, with a step from each to the next. */
module Engine {
  import opened Bytes
  import opened Network
  import opened NeedPiece
  import opened PeerTables
  import opened TableParts
  import opened TorrentFile
  import opened BitMemory
  import opened LockBits

  /** Who called Write: DPiece itself, or _LockPiece with so many slices to come. */
  datatype Caller = First | Later(left: int)

  /** How far a call of Write has come. */
  datatype Stage =
    | Entering(begin: int32, buf: seq<byte>)     // called
    | Allocating(begin: int32, buf: seq<byte>)   // the piece was not in memory_pool, and is there without blocks
    | Found(begin: int32, buf: seq<byte>)        // the piece is in memory_pool
    | Checked(begin: int32, buf: seq<byte>)      // cur_len was at least the length of the slice
    | Copied(length: nat)                        // the slice is in the blocks
    | Counted                                    // cur_len has been lowered
    | Hashed                                     // it was 0, and the blocks had the right hash
    | OnFile                                     // _Write has written the whole piece
    | Freed                                      // the blocks have been given back
    | Filled                                     // FillBitField has returned

  /** Where a DPiece worker stands. */
  datatype Worker =
    | Queued(socket: int, index: int32, begin: int32, buf: seq<byte>)        // pushed by the event loop
    | Writing(socket: int, index: int32, caller: Caller, stage: Stage)       // SetIndexW has succeeded; in Write
    | Holding(socket: int, index: int32, left: int, ret: int)                // in _LockPiece
    | Failing(socket: int, index: int32)                                     // its first Write has failed
    | Unlocking(index: int32)                                                // and its flag is cleared
    | Leaving(socket: int, index: int32)                                     // gives up index and socket
    | Closing(socket: int)                                                   // and has given up the index
    | Returning(socket: int)                                                 // clears its flag and ends
    | Done

  /** The worker may still read the socket, or call a method on it. */
  predicate Uses(w: Worker, socket: int) { !w.Unlocking? && !w.Done? && w.socket == socket }

  /** The worker is between a successful SetIndexW and its UnLockIndex or end. */
  predicate Holds(w: Worker, index: int) {
    (w.Writing? || w.Holding? || w.Failing? || w.Unlocking? || w.Leaving?) && w.index == index
  }

  /** The worker is between FillBitField and NeedPiece::ClearIndex. */
  predicate Clearing(w: Worker, index: int) { w.Writing? && w.stage == Filled && w.index == index }

  datatype Loop = Polling | Reading(socket: int)

  /** The tables, the epoll events not looked at yet, the event loop, the workers, and the data. */
  datatype Engine = Engine(swarm: Swarm, pending: set<int>, loop: Loop, workers: seq<Worker>,
                           pool: map<int, Piece>, disk: seq<byte>, present: set<nat>)

  function Queue(e: Engine): seq<Entry> { e.swarm.needs.queue }

  function WithQueue(e: Engine, q: seq<Entry>): Engine { e.(swarm := WithNeeds(e.swarm, q)) }

  function DataOf(e: Engine): World { World(e.pool, e.disk, e.present, Queue(e)) }

  function WithData(e: Engine, w: World): Engine {
    WithQueue(e, w.queue).(pool := w.pool, disk := w.disk, present := w.present)
  }

  function Move(e: Engine, k: nat, w: Worker): Engine
    requires k < |e.workers|
  {
    e.(workers := e.workers[k := w])
  }

  datatype Act =
    | Env(part: Part)                       // a part of a method of the tables
    | Poll(events: set<int>)                // RetSocketList and epoll_wait
    | Event(socket: int)                    // the loop turns to a socket
    | NoPiece                               // and has dealt with a message that is no piece
    | PieceMessage(index: int32, begin: int32, buf: seq<byte>)
    | Go(worker: nat)                       // the worker's next step
    | Slice(worker: nat, begin: int32, buf: seq<byte>)   // _LockPiece has received a slice
    | Allocate(worker: nat, initial: Piece)              // the blocks come with some contents
    | Store(worker: nat, storing: Storing)               // _Write, with the outcome given

  /** The length checks of DPiece, for any index. */
  predicate Accepted(info: Info, index: int32, begin: int32, length: int) {
    if index < 0 then length == SLICESIZE else Accepts(info, index, begin, length)
  }

  /** Of any but the last piece only slices of 16384 bytes are accepted, whatever the begin; a negative
      index or one that is too large is no exception. */
  lemma OnlyWholeSlices(info: Info, index: int32, begin: int32, length: int)
    requires WellFormed(info) && index != PieceCount(info) - 1
    ensures Accepted(info, index, begin, length) <==> length == 16384
  {
    LastPieceSize(info, 0);
  }

  /** GetPieceBit, for any index. */
  function SliceCount(info: Info, index: int): int {
    var ret := Length(info, index);
    if ret % SLICESIZE == 0 then ret / SLICESIZE else ret / SLICESIZE + 1
  }

  lemma SliceCountIs(info: Info, i: nat)
    requires WellFormed(info) && i < PieceCount(info)
    ensures SliceCount(info, i) == GetPieceBit(info, i)
  {
    PieceRange(info, i);
  }

  /** A piece message in the event loop: RecvPiece lets one worker in. */
  function Dispatched(e: Engine, socket: int, index: int32, begin: int32, buf: seq<byte>): Engine {
    var (swarm, ok) := Received(e.swarm, socket);
    if !ok then e.(loop := Polling)
    else e.(loop := Polling, swarm := swarm, workers := e.workers + [Queued(socket, index, begin, buf)])
  }

  /** In any case the loop is done with the socket. There is a new worker exactly if the socket's receive
      flag was clear, which is then set. */
  lemma MessageHandedOver(e: Engine, socket: int, index: int32, begin: int32, buf: seq<byte>)
    ensures var e', n := Dispatched(e, socket, index, begin, buf), |e.workers|;
            && e'.loop == Polling && e'.workers[..n] == e.workers && !Pollable(e'.swarm, socket)
            && if Pollable(e.swarm, socket) then e'.workers[n..] == [Queued(socket, index, begin, buf)]
               else e' == e.(loop := Polling)
  {
  }

  /** DPiece up to its call of Write. */
  function Started(info: Info, e: Engine, k: nat): Engine
    requires k < |e.workers| && e.workers[k].Queued?
  {
    var Queued(s, i, b, buf) := e.workers[k];
    if !Accepted(info, i, b, |buf|) then Move(e, k, Done)
    else
      var (q, ok) := SetW(Queue(e), i);
      Move(WithQueue(e, q), k, if ok then Writing(s, i, First, Entering(b, buf)) else Returning(s))
  }

  // Write.

  /** Write has returned true. */
  function Succeeded(info: Info, w: Worker): Worker
    requires w.Writing?
  {
    match w.caller
    case First => Holding(w.socket, w.index, SliceCount(info, w.index) - 1, 0)
    case Later(left) => Holding(w.socket, w.index, left - 1, 1)
  }

  /** Write has returned false. */
  function Refused(w: Worker): Worker
    requires w.Writing?
  {
    if w.caller == First then Failing(w.socket, w.index) else Leaving(w.socket, w.index)
  }

  function WithPiece(e: Engine, i: int, p: Piece): Engine { e.(pool := e.pool[i := p]) }

  /** The piece's count is restarted, and Write returns false. */
  function GivenUp(info: Info, e: Engine, k: nat): Engine
    requires k < |e.workers| && e.workers[k].Writing?
  {
    var i := e.workers[k].index;
    if i !in e.pool then e
    else Move(WithPiece(e, i, e.pool[i].(curLen := Length(info, i))), k, Refused(e.workers[k]))
  }

  /** The next step of Write, but for Allocate and Store. */
  function Wrote(info: Info, e: Engine, k: nat): Engine
    requires k < |e.workers| && e.workers[k].Writing?
  {
    var w := e.workers[k];
    var i := w.index;
    if w.stage.Entering? then
      if i < 0 || w.stage.buf == [] then Move(e, k, Refused(w))
      else if i in e.pool then Move(e, k, w.(stage := Found(w.stage.begin, w.stage.buf)))
      else Move(WithPiece(e, i, Piece(0, [])), k, w.(stage := Allocating(w.stage.begin, w.stage.buf)))
    else if i !in e.pool then e
    else
      var p := e.pool[i];
      match w.stage
      case Found(begin, buf) =>
        if p.curLen < |buf| then GivenUp(info, e, k) else Move(e, k, w.(stage := Checked(begin, buf)))
      case Checked(begin, buf) =>
        Move(WithPiece(e, i, p.(data := Patch(p.data, begin, buf))), k, w.(stage := Copied(|buf|)))
      case Copied(length) => Move(WithPiece(e, i, p.(curLen := p.curLen - length)), k, w.(stage := Counted))
      case Counted =>
        if p.curLen > 0 then Move(e, k, Succeeded(info, w))
        else if p.curLen == 0 && Hashes(info, i, Head(p.data, Length(info, i))) then Move(e, k, w.(stage := Hashed))
        else GivenUp(info, e, k)
      case OnFile => Move(WithPiece(e, i, p.(data := [])), k, w.(stage := Freed))
      case Freed => if i < 0 then e else Move(e.(present := e.present + {i}), k, w.(stage := Filled))
      case Filled => Move(WithQueue(e, Clear(Queue(e), i)), k, Succeeded(info, w))
      case _ => e
  }

  /** The allocation loop of Write. */
  function Allocated(e: Engine, k: nat, initial: Piece): Engine
    requires k < |e.workers|
  {
    var w := e.workers[k];
    if !w.Writing? || !w.stage.Allocating? then e
    else Move(WithPiece(e, w.index, initial), k, w.(stage := Found(w.stage.begin, w.stage.buf)))
  }

  /** _Write, which writes the blocks as they are now. */
  function Flushed(info: Info, e: Engine, k: nat, storing: Storing): Engine
    requires k < |e.workers|
  {
    var w := e.workers[k];
    if !w.Writing? || w.stage != Hashed || w.index !in e.pool then e
    else
      var data := Head(e.pool[w.index].data, Length(info, w.index));
      if e.pool[w.index].data == [] then GivenUp(info, e, k)
      else match storing
        case Stored => Move(e.(disk := Patch(e.disk, Offset(info, w.index), data)), k, w.(stage := OnFile))
        case Failed(garbage) => GivenUp(info, e.(disk := Patch(e.disk, Offset(info, w.index), garbage)), k)
  }

  function Gone(info: Info, e: Engine, k: nat): Engine
    requires k < |e.workers|
  {
    match e.workers[k]
    case Queued(s, i, b, buf) => Started(info, e, k)
    case Writing(s, i, caller, stage) => Wrote(info, e, k)
    case Returning(s) => Move(e.(swarm := ClearFlag(e.swarm, s)), k, Done)
    case Failing(s, i) => Move(e.(swarm := ClearFlag(e.swarm, s)), k, Unlocking(i))
    case Unlocking(i) => Move(WithQueue(e, UnLock(Queue(e), i)), k, Done)
    case Holding(s, i, left, ret) => Move(e, k, if ret > 0 && i in e.present then Returning(s) else Leaving(s, i))
    case Leaving(s, i) => Move(WithQueue(e, UnLock(Queue(e), i)), k, Closing(s))
    // The other two parts of CloseSocket are Env steps, which may come at any time.
    case Closing(s) => Move(e.(swarm := Do(e.swarm, ClosePeer(s))), k, Done)
    case Done => e
  }

  /** A slice for the worker's index arrives in _LockPiece. */
  function Sliced(e: Engine, k: nat, begin: int32, buf: seq<byte>): Engine
    requires k < |e.workers|
  {
    var w := e.workers[k];
    if !w.Holding? then e else Move(e, k, Writing(w.socket, w.index, Later(w.left), Entering(begin, buf)))
  }

  function After(info: Info, e: Engine, act: Act): Engine {
    match act
    case Env(part) => e.(swarm := Do(e.swarm, part))
    case Poll(events) => e.(pending := events)
    case Event(socket) => e.(pending := e.pending - {socket}, loop := Reading(socket))
    case NoPiece => e.(loop := Polling)
    case PieceMessage(index, begin, buf) =>
      if e.loop.Reading? then Dispatched(e, e.loop.socket, index, begin, buf) else e
    case Go(k) => if k < |e.workers| then Gone(info, e, k) else e
    case Slice(k, begin, buf) => if k < |e.workers| then Sliced(e, k, begin, buf) else e
    case Allocate(k, initial) => if k < |e.workers| then Allocated(e, k, initial) else e
    case Store(k, storing) => if k < |e.workers| then Flushed(info, e, k, storing) else e
  }

  /** What any thread may do to the tables at any time. Descriptors are reused only once no
      worker uses them any more, only indices we lack are pushed, and the receive flag belongs
      to the loop and the workers. */
  predicate EnvEnabled(e: Engine, part: Part) {
    match part
    case AddPeer(s) => s !in e.swarm.peers && forall k :: 0 <= k < |e.workers| ==> !Uses(e.workers[k], s)
    case PushPart(i, source) => i !in e.present
    case TouchPart(s, request, recv, expire) => s in e.swarm.peers ==> recv == e.swarm.peers[s].status.recvPiece
    case SetWPart(_) => false
    case UnLockPart(_) => false
    case ClearPart(_) => false
    case _ => true
  }

  /** A worker's next step: a copy is possible only inside the blocks. */
  predicate GoEnabled(info: Info, w: Worker) {
    && !w.Done?
    && (w.Writing? ==> !w.stage.Allocating? && w.stage != Hashed)
    && (w.Writing? && w.stage.Checked? ==> Inside(info, w.index, w.stage.begin, w.stage.buf))
  }

  /** The blocks are there. */
  predicate Full(info: Info, index: int, p: Piece) { |p.data| == BLOCK * BlocksOf(info, index) }

  predicate Enabled(info: Info, e: Engine, act: Act) {
    match act
    case Env(part) => EnvEnabled(e, part)
    case Poll(events) => e.loop.Polling? && forall s :: s in events ==> Pollable(e.swarm, s)
    case Event(socket) => e.loop.Polling? && socket in e.pending
    case NoPiece => e.loop.Reading?
    case PieceMessage(index, begin, buf) => e.loop.Reading?
    case Go(k) => k < |e.workers| && GoEnabled(info, e.workers[k])
    case Slice(k, begin, buf) => k < |e.workers| && e.workers[k].Holding? && e.workers[k].left > 0
    case Allocate(k, initial) =>
      && k < |e.workers| && e.workers[k].Writing? && e.workers[k].stage.Allocating?
      && initial.curLen == Length(info, e.workers[k].index) && Full(info, e.workers[k].index, initial)
    case Store(k, storing) =>
      && k < |e.workers| && e.workers[k].Writing? && e.workers[k].stage == Hashed
      && (storing.Failed? ==> |storing.garbage| == Length(info, e.workers[k].index))
  }

  /** A slice that is taken arrives for an index whose read bit is set. */
  predicate ReadLocked(info: Info, e: Engine, act: Act) {
    act.Go? && act.worker < |e.workers| && e.workers[act.worker].Queued? ==>
      var w := e.workers[act.worker];
      Accepted(info, w.index, w.begin, |w.buf|) && SetW(Queue(e), w.index).1 ==>
        w.index in Locks(Queue(e)) && Locks(Queue(e))[w.index].read
  }

  // Every step does at most one part to the tables.

  predicate IsPart(w: Swarm, w': Swarm, part: Part) {
    (w' == w || w' == Do(w, part)) && (part.AddPeer? ==> part.socket !in w.peers)
  }

  predicate IsWorkers(act: Act) { act.Go? || act.Slice? || act.Allocate? || act.Store? }

  /** A worker's step moves that worker, and nothing of the event loop. */
  lemma WorkerMoves(info: Info, e: Engine, act: Act)
    requires IsWorkers(act) && Enabled(info, e, act)
    ensures var k, e' := act.worker, After(info, e, act);
            && k < |e.workers| == |e'.workers| && e'.workers == e.workers[k := e'.workers[k]]
            && e'.pending == e.pending && e'.loop == e.loop
  {
    hide Accepted, SetW, UnLock, Clear, Hashes, Patch, Length, Touch, Full;
  }

  /** Write touches the tables only with NeedPiece::ClearIndex. */
  lemma WriteTouches(info: Info, e: Engine, act: Act)
    requires IsWorkers(act) && Enabled(info, e, act) && !(act.Go? && !e.workers[act.worker].Writing?)
    ensures var w, e' := e.workers[act.worker], After(info, e, act);
            e'.swarm == if act.Go? && w.Writing? && w.stage == Filled && w.index in e.pool then
                          WithNeeds(e.swarm, Clear(Queue(e), w.index))
                        else e.swarm
  {
    hide Clear, Hashes, Patch, Length, Full, SliceCount;
  }

  lemma GoIsPart(info: Info, e: Engine, k: nat) returns (part: Part)
    requires Enabled(info, e, Go(k))
    ensures IsPart(e.swarm, After(info, e, Go(k)).swarm, part)
  {
    if e.workers[k].Writing? {
      part := ClearPart(e.workers[k].index);
      WriteTouches(info, e, Go(k));
      hide After, Clear;
    } else {
      part := OtherIsPart(info, e, k);
    }
  }

  lemma OtherIsPart(info: Info, e: Engine, k: nat) returns (part: Part)
    requires k < |e.workers| && !e.workers[k].Writing? && !e.workers[k].Done?
    ensures IsPart(e.swarm, After(info, e, Go(k)).swarm, part)
  {
    hide Accepted, SetW, UnLock, Touch;
    match e.workers[k]
    case Queued(s, i, b, buf) => part := SetWPart(i);
    case Returning(s) => part := TouchPart(s, false, false, 0);
    case Failing(s, i) => part := TouchPart(s, false, false, 0);
    case Unlocking(i) => part := UnLockPart(i);
    case Leaving(s, i) => part := UnLockPart(i);
    case Closing(s) => part := ClosePeer(s);
    case Holding(s, i, left, ret) => part := ResortPart;
  }

  /** Every step of the loop and the workers does to the tables nothing, or what one lock
      protects. */
  lemma OnePartStep(info: Info, e: Engine, act: Act) returns (part: Part)
    requires Enabled(info, e, act)
    ensures IsPart(e.swarm, After(info, e, act).swarm, part)
  {
    part := ResortPart;
    if act.Go? {
      part := GoIsPart(info, e, act.worker);
    } else if IsWorkers(act) {
      WriteTouches(info, e, act);
    } else if act.Env? {
      part := act.part;
    } else if act.PieceMessage? && e.loop.socket in e.swarm.peers {
      var p := e.swarm.peers[e.loop.socket];
      part := TouchPart(e.loop.socket, p.status.requestPiece, true, p.expire);
    }
    hide Touch, Gone, Allocated, Flushed, Sliced;
  }

  /** Every index stays queued at most once. */
  lemma UniqueKept(info: Info, e: Engine, act: Act)
    requires Unique(Queue(e)) && Enabled(info, e, act)
    ensures Unique(Queue(After(info, e, act)))
  {
    hide Unique, Enabled, After, Do;
    var part := OnePartStep(info, e, act);
    UniqueAfter(e.swarm, part);
  }
}
