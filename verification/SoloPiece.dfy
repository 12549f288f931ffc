/** A whole piece through one DPiece worker: the slice that started it, and the others as
    _LockPiece receives them. */
module SoloPiece {
  import opened Bytes
  import opened Network
  import opened NeedPiece
  import opened PeerTables
  import opened TorrentFile
  import opened BitMemory
  import opened LockBits
  import opened DownloadSafety
  import opened Engine
  import opened SoloWrite
  import PieceAssembly
  import SoloWorker

  type Slices = seq<PieceAssembly.Slice>

  /** The slices are the piece t, cut up in any way and in any order. */
  predicate Whole(info: Info, i: nat, slices: Slices, t: seq<byte>) {
    && i < PieceCount(info) && |t| == Length(info, i) && Hashes(info, i, t)
    && PieceAssembly.Apart(slices, t) && PieceAssembly.Complete(slices, |t|)
    && forall j :: 0 <= j < |slices| ==> slices[j].begin < 0x8000_0000
  }

  /** The piece has its blocks and nothing of it has been counted. */
  predicate Untouched(info: Info, i: nat, p: Piece) { p.curLen == Length(info, i) && Full(info, i, p) }

  lemma SliceOf(info: Info, i: nat, slices: Slices, t: seq<byte>, j: nat)
    requires WellFormed(info) && info.pieceLength <= 2 * BLOCK && Whole(info, i, slices, t) && j < |slices|
    ensures Inside(info, i, slices[j].begin, slices[j].data) && slices[j].data != []
    ensures PieceAssembly.Sum(slices[..j + 1]) == PieceAssembly.Sum(slices[..j]) + |slices[j].data| <= |t|
    ensures j + 1 == |slices| <==> PieceAssembly.Sum(slices[..j + 1]) == |t|
    ensures PieceAssembly.Apart(slices[..j], t)
  {
    LengthBounds(info, i);
    assert PieceAssembly.End(slices[j]) <= |t|;
    PieceAssembly.CountdownIsCoverage(slices, |t|);
    SumGrows(slices, t, j + 1);
    PrefixApart(slices, t, j);
    PrefixApart(slices, t, j + 1);
    hide WellFormed, Length, Hashes, PieceCount, PieceAssembly.Apart, PieceAssembly.Complete;
    assert slices[..j + 1] == slices[..j] + [slices[j]];
    PieceAssembly.ApartPrefix(slices[..j], slices[j], t, Piece(0, []));
    hide PieceAssembly.Sum;
  }

  lemma {:induction false} PrefixApart(slices: Slices, t: seq<byte>, j: nat)
    requires PieceAssembly.Apart(slices, t) && j <= |slices|
    ensures PieceAssembly.Apart(slices[..j], t)
    decreases |slices|
  {
    if j == |slices| {
      assert slices[..j] == slices;
    } else {
      PieceAssembly.PrefixKeeps(slices, t);
      var n := |slices| - 1;
      assert PieceAssembly.Apart(slices[..n], t);
      PrefixApart(slices[..n], t, j);
      assert slices[..n][..j] == slices[..j];
    }
  }

  lemma {:induction false} SumGrows(slices: Slices, t: seq<byte>, j: nat)
    requires PieceAssembly.Apart(slices, t) && j <= |slices|
    ensures if j == |slices| then PieceAssembly.Sum(slices[..j]) == PieceAssembly.Sum(slices)
            else PieceAssembly.Sum(slices[..j]) < PieceAssembly.Sum(slices)
    decreases |slices|
  {
    if j == |slices| {
      assert slices[..j] == slices;
    } else {
      PieceAssembly.PrefixKeeps(slices, t);
      var n := |slices| - 1;
      SumGrows(slices[..n], t, j);
      assert slices[..n][..j] == slices[..j];
      assert slices[n].data != [];
    }
  }

  /** Write of slice j, after those before it: it is taken, and succeeds. */
  lemma NextSucceeds(info: Info, w: World, i: nat, slices: Slices, t: seq<byte>, initial: Piece, j: nat)
    requires WellFormed(info) && info.pieceLength <= 2 * BLOCK && Whole(info, i, slices, t) && j < |slices|
    requires Untouched(info, i, Before(w.pool, i, initial)) && Untouched(info, i, initial)
    ensures var w1 := PieceAssembly.WriteAll(info, w, i, slices[..j], initial);
            && Writable(info, w1.pool, i, slices[j].begin, slices[j].data)
            && Written(info, w1, i, slices[j].begin, slices[j].data, initial, Stored) ==
               (PieceAssembly.WriteAll(info, w, i, slices[..j + 1], initial), true)
  {
    var p := Before(w.pool, i, initial);
    var w1 := PieceAssembly.WriteAll(info, w, i, slices[..j], initial);
    SliceOf(info, i, slices, t, j);
    assert slices[..j + 1][..j] == slices[..j];
    PieceAssembly.WriteAllFills(info, w, i, slices[..j], initial, p);
    LengthBounds(info, i);
    PieceAssembly.FilledHolds(p, slices[..j], t);
    WrittenCases(info, w1, i, slices[j].begin, slices[j].data, initial, Stored);
    if j + 1 == |slices| {
      assert slices[..j + 1] == slices;
      PieceAssembly.FilledHolds(p, slices, t);
      PieceAssembly.FilledIsPiece(p, slices, t);
    }
  }

  /** The worker is in _LockPiece and j slices have been written; nothing of the peers has changed. */
  ghost predicate Midway(info: Info, e0: Engine, k: nat, acts: seq<Act>, e: Engine, s: int, i: int32, d: World,
                         slices: Slices, j: nat, initial: Piece) {
    && Alone(info, e0, k, acts, e) && k < |e.workers| && 0 < j <= |slices| && i >= 0
    && e.workers[k] == Holding(s, i, |slices| - j, if j == 1 then 0 else 1)
    && DataOf(e) == PieceAssembly.WriteAll(info, d, i, slices[..j], initial) && e.swarm.peers == e0.swarm.peers
  }

  lemma DataAfter(e: Engine, k: nat, w: Worker, data: World)
    requires k < |e.workers|
    ensures DataOf(With(e, k, w, data)) == data && With(e, k, w, data).swarm.peers == e.swarm.peers
    ensures With(e, k, w, data).workers == e.workers[k := w]
  {
  }

  /** Write of slice j by a worker that has just called it. */
  lemma WritesSlice(info: Info, e0: Engine, k: nat, acts: seq<Act>, e: Engine, v: Worker, d: World, slices: Slices,
                    t: seq<byte>, initial: Piece, j: nat) returns (acts': seq<Act>, e': Engine)
    requires WellFormed(info) && info.pieceLength <= 2 * BLOCK && Alone(info, e0, k, acts, e) && k < |e.workers|
    requires e.workers[k] == v && v.Writing? && v.index >= 0 && Whole(info, v.index, slices, t) && j < |slices|
    requires v.stage == Entering(slices[j].begin, slices[j].data)
    requires Untouched(info, v.index, Before(d.pool, v.index, initial)) && Untouched(info, v.index, initial)
    requires DataOf(e) == PieceAssembly.WriteAll(info, d, v.index, slices[..j], initial)
    requires e.swarm.peers == e0.swarm.peers
    ensures Alone(info, e0, k, acts', e') && k < |e'.workers| && e'.workers[k] == Succeeded(info, v)
    ensures DataOf(e') == PieceAssembly.WriteAll(info, d, v.index, slices[..j + 1], initial)
    ensures e'.swarm.peers == e0.swarm.peers
  {
    hide Alone, Whole, WellFormed, PieceAssembly.WriteAll, Writable, Written, Succeeded, With, Before, Full, Length;
    NextSucceeds(info, d, v.index, slices, t, initial, j);
    var more := StagesAreWritten(info, e, k, v, initial, Stored);
    var data := PieceAssembly.WriteAll(info, d, v.index, slices[..j + 1], initial);
    e' := With(e, k, Succeeded(info, v), data);
    DataAfter(e, k, Succeeded(info, v), data);
    acts' := acts + more;
    SoloWorker.AloneJoins(info, e0, k, acts, e, more, e');
  }

  /** One more slice arrives in _LockPiece. */
  lemma OneMore(info: Info, e0: Engine, k: nat, acts: seq<Act>, e: Engine, s: int, i: int32, d: World, slices: Slices,
                t: seq<byte>, initial: Piece, j: nat) returns (acts': seq<Act>, e': Engine)
    requires WellFormed(info) && info.pieceLength <= 2 * BLOCK && i >= 0 && Whole(info, i, slices, t)
    requires Midway(info, e0, k, acts, e, s, i, d, slices, j, initial) && j < |slices|
    requires Untouched(info, i, Before(d.pool, i, initial)) && Untouched(info, i, initial)
    ensures Midway(info, e0, k, acts', e', s, i, d, slices, j + 1, initial)
  {
    var begin, buf := slices[j].begin, slices[j].data;
    hide Alone, Whole, WellFormed, PieceAssembly.WriteAll, Before, Full, Length, PieceAssembly.Apart;
    var e1 := After(info, e, Slice(k, begin, buf));
    acts' := Then(info, e0, k, acts, e, Slice(k, begin, buf));
    acts', e' := WritesSlice(info, e0, k, acts', e1, e1.workers[k], d, slices, t, initial, j);
  }

  lemma {:induction false} AllOthers(info: Info, e0: Engine, k: nat, acts: seq<Act>, e: Engine, s: int, i: int32,
                                     d: World, slices: Slices, t: seq<byte>, initial: Piece, j: nat)
    returns (acts': seq<Act>, e': Engine)
    requires WellFormed(info) && info.pieceLength <= 2 * BLOCK && i >= 0 && Whole(info, i, slices, t)
    requires Midway(info, e0, k, acts, e, s, i, d, slices, j, initial)
    requires Untouched(info, i, Before(d.pool, i, initial)) && Untouched(info, i, initial)
    ensures Midway(info, e0, k, acts', e', s, i, d, slices, |slices|, initial)
    decreases |slices| - j
  {
    hide Whole, WellFormed, Before, Untouched;
    assert j <= |slices|;
    hide Midway;
    if j == |slices| {
      acts', e' := acts, e;
    } else {
      acts', e' := OneMore(info, e0, k, acts, e, s, i, d, slices, t, initial, j);
      acts', e' := AllOthers(info, e0, k, acts', e', s, i, d, slices, t, initial, j + 1);
    }
  }

  lemma AfterTake(info: Info, e: Engine, k: nat, w: Worker)
    requires k < |e.workers| && e.workers[k] == w && w.Queued? && Accepted(info, w.index, w.begin, |w.buf|)
    requires SetW(Queue(e), w.index).1
    ensures After(info, e, Go(k)) ==
      Move(WithQueue(e, SetW(Queue(e), w.index).0), k, Writing(w.socket, w.index, First, Entering(w.begin, w.buf)))
  {
    hide Accepted, SetW;
  }

  /** The first slice, up to _LockPiece. */
  lemma Begins(info: Info, e: Engine, k: nat, w: Worker, d: World, slices: Slices, t: seq<byte>, initial: Piece)
    returns (acts: seq<Act>, e': Engine)
    requires WellFormed(info) && info.pieceLength <= 2 * BLOCK && k < |e.workers| && e.workers[k] == w && w.Queued?
    requires w.index >= 0 && Whole(info, w.index, slices, t) && |slices| == SliceCount(info, w.index) > 0
    requires w.begin == slices[0].begin && w.buf == slices[0].data && Accepted(info, w.index, w.begin, |w.buf|)
    requires SetW(Queue(e), w.index).1 && d == DataOf(WithQueue(e, SetW(Queue(e), w.index).0))
    requires Untouched(info, w.index, Before(d.pool, w.index, initial)) && Untouched(info, w.index, initial)
    ensures Midway(info, e, k, acts, e', w.socket, w.index, d, slices, 1, initial)
  {
    assert Alone(info, e, k, [], e);
    hide Alone, Whole, WellFormed, Untouched, Accepted, SetW, Before, Length, SliceCount;
    acts, e' := SoloWorker.Step(info, e, k, [], e);
    AfterTake(info, e, k, w);
    assert slices[..0] == [] && PieceAssembly.WriteAll(info, d, w.index, [], initial) == d;
    hide PieceAssembly.WriteAll, After;
    acts, e' := WritesSlice(info, e, k, acts, e', e'.workers[k], d, slices, t, initial, 0);
  }

  /** A piece that arrives through one worker, whose message had its first slice: it is in the file with
      its bit set, and no longer queued. The peer is kept, and polled again, if and only if the
      piece has more than one slice: _LockPiece returns 0 when there is nothing to receive. */
  lemma PieceThroughWorker(info: Info, e: Engine, k: nat, w: Worker, slices: Slices, t: seq<byte>, initial: Piece)
    returns (acts: seq<Act>, e': Engine)
    requires WellFormed(info) && info.pieceLength <= 2 * BLOCK && |e.disk| == Total(info) && Unique(Queue(e))
    requires k < |e.workers| && e.workers[k] == w && w.Queued? && w.socket >= 0 && w.socket in e.swarm.peers
    requires w.index >= 0 && Whole(info, w.index, slices, t) && |slices| == SliceCount(info, w.index) > 0
    requires w.begin == slices[0].begin && w.buf == slices[0].data && Accepted(info, w.index, w.begin, |w.buf|)
    requires SetW(Queue(e), w.index).1
    requires Untouched(info, w.index, Before(e.pool, w.index, initial)) && Untouched(info, w.index, initial)
    ensures Alone(info, e, k, acts, e') && k < |e'.workers| && e'.workers[k] == Done
    ensures w.index in e'.present && OnDisk(info, e'.disk, w.index) == t && w.index !in Locks(Queue(e'))
    ensures w.socket in e'.swarm.peers <==> |slices| > 1
    ensures w.socket in e'.swarm.peers ==> Pollable(e'.swarm, w.socket)
  {
    var s, i := w.socket, w.index;
    var d := DataOf(WithQueue(e, SetW(Queue(e), i).0));
    hide Alone, Whole, WellFormed, Untouched, Accepted, SetW, Locks, Unique, OnDisk, Length, SliceCount, Total;
    hide PieceAssembly.WriteAll;
    acts, e' := Begins(info, e, k, w, d, slices, t, initial);
    acts, e' := AllOthers(info, e, k, acts, e', s, i, d, slices, t, initial, 1);
    LocksKeepUnique(Queue(e), i);
    WholeArrives(info, d, i, slices, t, initial);
    assert slices[..|slices|] == slices;
    acts, e' := LetsGo(info, e, k, acts, e', s, i);
  }

  lemma WholeArrives(info: Info, d: World, i: nat, slices: Slices, t: seq<byte>, initial: Piece)
    requires WellFormed(info) && info.pieceLength <= 2 * BLOCK && |d.disk| == Total(info) && Unique(d.queue)
    requires Whole(info, i, slices, t)
    requires Untouched(info, i, Before(d.pool, i, initial)) && Untouched(info, i, initial)
    ensures var d' := PieceAssembly.WriteAll(info, d, i, slices, initial);
            i in d'.present && OnDisk(info, d'.disk, i) == t && i !in Locks(d'.queue)
  {
    LengthBounds(info, i);
    PieceAssembly.PieceArrives(info, d, i, slices, t, initial);
    PatchOnDisk(info, d.disk, i, t, i);
    ClearLocks(d.queue, i);
    hide Locks;
  }

  /** The end of DPiece once the piece is there. */
  lemma LetsGo(info: Info, e0: Engine, k: nat, acts: seq<Act>, e: Engine, s: int, i: int32)
    returns (acts': seq<Act>, e': Engine)
    requires Alone(info, e0, k, acts, e) && k < |e.workers| && e.workers[k].Holding? && e.workers[k].ret in {0, 1}
    requires e.workers[k].socket == s >= 0 && e.workers[k].index == i && s in e.swarm.peers && i >= 0
    requires i in e.present && i !in Locks(Queue(e))
    ensures Alone(info, e0, k, acts', e') && k < |e'.workers| && e'.workers[k] == Done
    ensures e'.present == e.present && e'.disk == e.disk && i !in Locks(Queue(e'))
    ensures s in e'.swarm.peers <==> e.workers[k].ret == 1
    ensures s in e'.swarm.peers ==> Pollable(e'.swarm, s)
  {
    LocksAt(Queue(e), i);
    hide Alone, Locks;
    acts', e' := SoloWorker.Step(info, e0, k, acts, e);
    acts', e' := SoloWorker.Step(info, e0, k, acts', e');
    if e.workers[k].ret == 0 {
      acts', e' := SoloWorker.Step(info, e0, k, acts', e');
    }
  }
}
