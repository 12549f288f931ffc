/** A call of Write that no other step disturbs does in its stages what BitMemory.Write does. */
module SoloWrite {
  import opened Bytes
  import opened Network
  import opened NeedPiece
  import opened TorrentFile
  import opened BitMemory
  import opened Engine
  import EngineRuns

  /** Steps of worker k alone lead from e0 to e. */
  ghost predicate Alone(info: Info, e0: Engine, k: nat, acts: seq<Act>, e: Engine) {
    && EngineRuns.Follows(info, EngineRuns.Plain, e0, acts) && EngineRuns.Run(info, e0, acts) == e
    && forall n :: 0 <= n < |acts| ==> IsWorkers(acts[n]) && acts[n].worker == k
  }

  lemma Then(info: Info, e0: Engine, k: nat, acts: seq<Act>, e: Engine, act: Act) returns (acts': seq<Act>)
    requires Alone(info, e0, k, acts, e) && Enabled(info, e, act) && IsWorkers(act) && act.worker == k
    ensures Alone(info, e0, k, acts', After(info, e, act))
  {
    hide After, Enabled;
    acts' := acts + [act];
    assert acts'[..|acts|] == acts;
  }

  /** The engine with worker k somewhere else and these data. */
  function With(e: Engine, k: nat, w: Worker, data: World): Engine {
    if k < |e.workers| then Move(WithData(e, data), k, w) else e
  }

  /** The engine with worker k somewhere else and a piece in memory. */
  function Put(e: Engine, k: nat, i: int, p: Piece, w: Worker): Engine {
    if k < |e.workers| then Move(WithPiece(e, i, p), k, w) else e
  }

  lemma PutTwice(e: Engine, k: nat, i: int, p: Piece, q: Piece, w: Worker, w': Worker)
    requires k < |e.workers|
    ensures var e1 := Put(e, k, i, p, w);
            && |e1.workers| == |e.workers| && e1.workers[k] == w && i in e1.pool && e1.pool[i] == p
            && Put(e1, k, i, q, w') == Put(e, k, i, q, w') && Move(e1, k, w') == Put(e, k, i, p, w')
  {
    assert e.pool[i := p][i := q] == e.pool[i := q];
    assert e.workers[k := w][k := w'] == e.workers[k := w'];
  }

  lemma PutIsWith(e: Engine, k: nat, i: int, p: Piece, w: Worker)
    ensures Put(e, k, i, p, w) == With(e, k, w, DataOf(e).(pool := e.pool[i := p]))
  {
  }

  // The stages, for a worker w at place k that writes a slice of its index; p is its piece.

  function At(w: Worker, stage: Stage): Worker { if w.Writing? then w.(stage := stage) else w }

  /** Write returns ok. */
  function Returned(info: Info, w: Worker, ok: bool): Worker
    requires w.Writing?
  {
    if ok then Succeeded(info, w) else Refused(w)
  }

  /** The lookup, with the allocation of a piece that is not there. */
  lemma Enters(info: Info, e: Engine, k: nat, w: Worker, initial: Piece) returns (acts: seq<Act>)
    requires k < |e.workers| && e.workers[k] == w && w.Writing? && w.stage.Entering?
    requires w.index >= 0 && w.stage.buf != []
    requires initial.curLen == Length(info, w.index) && Full(info, w.index, initial)
    ensures Alone(info, e, k, acts,
      Put(e, k, w.index, Before(e.pool, w.index, initial), At(w, Found(w.stage.begin, w.stage.buf))))
  {
    assert Alone(info, e, k, [], e);
    hide Alone, Full, Length;
    acts := Then(info, e, k, [], e, Go(k));
    if w.index in e.pool {
      assert e.pool[w.index := e.pool[w.index]] == e.pool;
    } else {
      var t := At(w, Allocating(w.stage.begin, w.stage.buf));
      PutTwice(e, k, w.index, Piece(0, []), initial, t, At(w, Found(w.stage.begin, w.stage.buf)));
      acts := Then(info, e, k, acts, Put(e, k, w.index, Piece(0, []), t), Allocate(k, initial));
    }
  }

  /** The piece after copy and countdown. */
  function Lowered(p: Piece, begin: int, buf: seq<byte>): Piece { Piece(p.curLen - |buf|, Patch(p.data, begin, buf)) }

  lemma Counts(info: Info, e: Engine, k: nat, w: Worker, begin: int32, buf: seq<byte>, p: Piece, acts: seq<Act>)
    returns (acts': seq<Act>)
    requires k < |e.workers| && w.Writing? && Inside(info, w.index, begin, buf) && |buf| <= p.curLen
    requires Alone(info, e, k, acts, Put(e, k, w.index, p, At(w, Found(begin, buf))))
    ensures Alone(info, e, k, acts', Put(e, k, w.index, Lowered(p, begin, buf), At(w, Counted)))
  {
    hide Alone, Patch, Length, Inside;
    var q := p.(data := Patch(p.data, begin, buf));
    acts' := Copies(info, e, k, w, begin, buf, p, acts);
    PutTwice(e, k, w.index, q, Lowered(p, begin, buf), At(w, Copied(|buf|)), At(w, Counted));
    acts' := Then(info, e, k, acts', Put(e, k, w.index, q, At(w, Copied(|buf|))), Go(k));
  }

  lemma Copies(info: Info, e: Engine, k: nat, w: Worker, begin: int32, buf: seq<byte>, p: Piece, acts: seq<Act>)
    returns (acts': seq<Act>)
    requires k < |e.workers| && w.Writing? && Inside(info, w.index, begin, buf) && |buf| <= p.curLen
    requires Alone(info, e, k, acts, Put(e, k, w.index, p, At(w, Found(begin, buf))))
    ensures Alone(info, e, k, acts', Put(e, k, w.index, p.(data := Patch(p.data, begin, buf)), At(w, Copied(|buf|))))
  {
    hide Alone, Patch, Length, Inside;
    var q := p.(data := Patch(p.data, begin, buf));
    PutTwice(e, k, w.index, p, q, At(w, Found(begin, buf)), At(w, Checked(begin, buf)));
    acts' := Then(info, e, k, acts, Put(e, k, w.index, p, At(w, Found(begin, buf))), Go(k));
    PutTwice(e, k, w.index, p, q, At(w, Checked(begin, buf)), At(w, Copied(|buf|)));
    acts' := Then(info, e, k, acts', Put(e, k, w.index, p, At(w, Checked(begin, buf))), Go(k));
  }

  /** The count turns the slice away. */
  lemma TurnsAway(info: Info, e: Engine, k: nat, w: Worker, begin: int32, buf: seq<byte>, p: Piece, acts: seq<Act>)
    returns (acts': seq<Act>)
    requires k < |e.workers| && w.Writing? && p.curLen < |buf|
    requires Alone(info, e, k, acts, Put(e, k, w.index, p, At(w, Found(begin, buf))))
    ensures Alone(info, e, k, acts', Put(e, k, w.index, p.(curLen := Length(info, w.index)), Refused(w)))
  {
    hide Alone, Length;
    PutTwice(e, k, w.index, p, p.(curLen := Length(info, w.index)), At(w, Found(begin, buf)), Refused(w));
    acts' := Then(info, e, k, acts, Put(e, k, w.index, p, At(w, Found(begin, buf))), Go(k));
  }

  /** Slices are still missing. */
  lemma GoesOn(info: Info, e: Engine, k: nat, w: Worker, p: Piece, acts: seq<Act>) returns (acts': seq<Act>)
    requires k < |e.workers| && w.Writing? && p.curLen > 0
    requires Alone(info, e, k, acts, Put(e, k, w.index, p, At(w, Counted)))
    ensures Alone(info, e, k, acts', Put(e, k, w.index, p, Succeeded(info, w)))
  {
    hide Alone, Length, SliceCount;
    PutTwice(e, k, w.index, p, p, At(w, Counted), Succeeded(info, w));
    acts' := Then(info, e, k, acts, Put(e, k, w.index, p, At(w, Counted)), Go(k));
  }

  /** The hash is wrong. */
  lemma Restarts(info: Info, e: Engine, k: nat, w: Worker, p: Piece, acts: seq<Act>) returns (acts': seq<Act>)
    requires k < |e.workers| && w.Writing? && p.curLen == 0
    requires !Hashes(info, w.index, Head(p.data, Length(info, w.index)))
    requires Alone(info, e, k, acts, Put(e, k, w.index, p, At(w, Counted)))
    ensures Alone(info, e, k, acts', Put(e, k, w.index, p.(curLen := Length(info, w.index)), Refused(w)))
  {
    hide Alone, Length, Hashes, Head;
    PutTwice(e, k, w.index, p, p.(curLen := Length(info, w.index)), At(w, Counted), Refused(w));
    acts' := Then(info, e, k, acts, Put(e, k, w.index, p, At(w, Counted)), Go(k));
  }

  /** The hash is right, and the file does not take the piece. */
  lemma FailsToStore(info: Info, e: Engine, k: nat, w: Worker, p: Piece, garbage: seq<byte>, acts: seq<Act>)
    returns (acts': seq<Act>)
    requires k < |e.workers| && w.Writing? && p.curLen == 0 && p.data != [] && |garbage| == Length(info, w.index)
    requires Hashes(info, w.index, Head(p.data, Length(info, w.index)))
    requires Alone(info, e, k, acts, Put(e, k, w.index, p, At(w, Counted)))
    ensures Alone(info, e, k, acts', Put(e.(disk := Patch(e.disk, Offset(info, w.index), garbage)), k, w.index,
                                         p.(curLen := Length(info, w.index)), Refused(w)))
  {
    hide Alone, Length, Hashes, Head, Patch, Offset;
    PutTwice(e, k, w.index, p, p, At(w, Counted), At(w, Hashed));
    acts' := Then(info, e, k, acts, Put(e, k, w.index, p, At(w, Counted)), Go(k));
    var e1 := e.(disk := Patch(e.disk, Offset(info, w.index), garbage));
    PutTwice(e1, k, w.index, p, p.(curLen := Length(info, w.index)), At(w, Hashed), Refused(w));
    acts' := Then(info, e, k, acts', Put(e, k, w.index, p, At(w, Hashed)), Store(k, Failed(garbage)));
  }

  /** The hash is right and the piece is stored. */
  lemma Stores(info: Info, e: Engine, k: nat, w: Worker, p: Piece, acts: seq<Act>) returns (acts': seq<Act>)
    requires k < |e.workers| && w.Writing? && p.curLen == 0 && p.data != []
    requires Hashes(info, w.index, Head(p.data, Length(info, w.index)))
    requires Alone(info, e, k, acts, Put(e, k, w.index, p, At(w, Counted)))
    ensures Alone(info, e, k, acts',
      Put(e.(disk := Patch(e.disk, Offset(info, w.index), Head(p.data, Length(info, w.index)))), k, w.index, p,
          At(w, OnFile)))
  {
    hide Alone, Length, Hashes, Head, Patch, Offset;
    PutTwice(e, k, w.index, p, p, At(w, Counted), At(w, Hashed));
    acts' := Then(info, e, k, acts, Put(e, k, w.index, p, At(w, Counted)), Go(k));
    var e1 := e.(disk := Patch(e.disk, Offset(info, w.index), Head(p.data, Length(info, w.index))));
    PutTwice(e1, k, w.index, p, p, At(w, Hashed), At(w, OnFile));
    acts' := Then(info, e, k, acts', Put(e, k, w.index, p, At(w, Hashed)), Store(k, Stored));
  }

  /** The three calls after _Write; e is as it was when Write was called, but for the file. */
  lemma Records(info: Info, e0: Engine, e: Engine, k: nat, w: Worker, p: Piece, acts: seq<Act>)
    returns (acts': seq<Act>)
    requires k < |e.workers| && w.Writing? && w.index >= 0
    requires Alone(info, e0, k, acts, Put(e, k, w.index, p, At(w, OnFile)))
    ensures Alone(info, e0, k, acts',
      With(e, k, Succeeded(info, w), Recorded(DataOf(e).(pool := e.pool[w.index := p]), w.index)))
  {
    hide Alone, SliceCount, Clear;
    var q := p.(data := []);
    PutTwice(e, k, w.index, p, q, At(w, OnFile), At(w, Freed));
    acts' := Then(info, e0, k, acts, Put(e, k, w.index, p, At(w, OnFile)), Go(k));
    acts' := Then(info, e0, k, acts', Put(e, k, w.index, q, At(w, Freed)), Go(k));
    var e1 := e.(present := e.present + {w.index});
    PutTwice(e1, k, w.index, q, q, At(w, Freed), At(w, Filled));
    acts' := Then(info, e0, k, acts', Put(e1, k, w.index, q, At(w, Filled)), Go(k));
    assert e.pool[w.index := p][w.index := q] == e.pool[w.index := q];
    assert e.workers[k := At(w, Filled)][k := Succeeded(info, w)] == e.workers[k := Succeeded(info, w)];
  }

  /** From the test of a count that has come to 0. */
  lemma Ends(info: Info, e: Engine, k: nat, w: Worker, p: Piece, storing: Storing, acts: seq<Act>)
    returns (acts': seq<Act>)
    requires k < |e.workers| && w.Writing? && w.index >= 0 && p.curLen == 0 && p.data != []
    requires storing.Failed? ==> |storing.garbage| == Length(info, w.index)
    requires Alone(info, e, k, acts, Put(e, k, w.index, p, At(w, Counted)))
    ensures var ok := Hashes(info, w.index, Head(p.data, Length(info, w.index))) && storing == Stored;
            Alone(info, e, k, acts', With(e, k, Returned(info, w, ok),
              Finished(info, DataOf(e).(pool := e.pool[w.index := p]), w.index, storing)))
  {
    var data := Head(p.data, Length(info, w.index));
    assert e.pool[w.index := p][w.index := p.(curLen := Length(info, w.index))]
        == e.pool[w.index := p.(curLen := Length(info, w.index))];
    hide Alone, Length, Hashes, Head, Patch, Offset, Clear;
    if !Hashes(info, w.index, data) {
      acts' := Restarts(info, e, k, w, p, acts);
    } else if storing.Failed? {
      acts' := FailsToStore(info, e, k, w, p, storing.garbage, acts);
    } else {
      acts' := Stores(info, e, k, w, p, acts);
      acts' := Records(info, e, e.(disk := Patch(e.disk, Offset(info, w.index), data)), k, w, p, acts');
    }
  }

  /** No index, or no bytes. */
  lemma NothingToWrite(info: Info, e: Engine, k: nat) returns (acts: seq<Act>)
    requires k < |e.workers| && e.workers[k].Writing? && e.workers[k].stage.Entering?
    requires e.workers[k].index < 0 || e.workers[k].stage.buf == []
    ensures Alone(info, e, k, acts, With(e, k, Refused(e.workers[k]), DataOf(e)))
  {
    assert Alone(info, e, k, [], e);
    hide Alone;
    acts := Then(info, e, k, [], e, Go(k));
  }

  /** From the first look at the count. */
  lemma Decides(info: Info, e: Engine, k: nat, w: Worker, begin: int32, buf: seq<byte>, p: Piece, storing: Storing,
                acts: seq<Act>) returns (acts': seq<Act>)
    requires k < |e.workers| && w.Writing? && w.index >= 0 && buf != []
    requires |buf| <= p.curLen ==> Inside(info, w.index, begin, buf) && p.data != []
    requires storing.Failed? ==> |storing.garbage| == Length(info, w.index)
    requires Alone(info, e, k, acts, Put(e, k, w.index, p, At(w, Found(begin, buf))))
    ensures p.curLen < |buf| ==>
      Alone(info, e, k, acts', Put(e, k, w.index, p.(curLen := Length(info, w.index)), Refused(w)))
    ensures p.curLen > |buf| ==>
      Alone(info, e, k, acts', Put(e, k, w.index, Lowered(p, begin, buf), Succeeded(info, w)))
    ensures p.curLen == |buf| ==>
      var ok := Hashes(info, w.index, Head(Patch(p.data, begin, buf), Length(info, w.index))) && storing == Stored;
      Alone(info, e, k, acts', With(e, k, Returned(info, w, ok),
        Finished(info, DataOf(e).(pool := e.pool[w.index := Lowered(p, begin, buf)]), w.index, storing)))
  {
    PatchLength(p.data, begin, buf);
    hide Alone, Finished, Patch, Hashes, Head, Length, Inside, With, Put, SliceCount;
    if p.curLen < |buf| {
      acts' := TurnsAway(info, e, k, w, begin, buf, p, acts);
    } else {
      acts' := Counts(info, e, k, w, begin, buf, p, acts);
      if p.curLen == |buf| {
        acts' := Ends(info, e, k, w, Lowered(p, begin, buf), storing, acts');
      } else {
        acts' := GoesOn(info, e, k, w, Lowered(p, begin, buf), acts');
      }
    }
  }

  /** All of Write, under the same conditions. */
  lemma StagesAreWritten(info: Info, e: Engine, k: nat, w: Worker, initial: Piece, storing: Storing)
    returns (acts: seq<Act>)
    requires k < |e.workers| && e.workers[k] == w && w.Writing? && w.stage.Entering?
    requires w.index >= 0 && w.stage.buf != [] ==> Writable(info, e.pool, w.index, w.stage.begin, w.stage.buf)
    requires initial.curLen == Length(info, w.index) && Full(info, w.index, initial)
    requires storing.Failed? ==> |storing.garbage| == Length(info, w.index)
    ensures var (data, ok) := Written(info, DataOf(e), w.index, w.stage.begin, w.stage.buf, initial, storing);
            Alone(info, e, k, acts, With(e, k, Returned(info, w, ok), data))
  {
    hide Alone, Finished, Hashes, Length, Full, Writable, With, Put, SliceCount, Clear;
    if w.index < 0 || w.stage.buf == [] {
      acts := NothingToWrite(info, e, k);
    } else {
      hide Written;
      var (data, ok) := Written(info, DataOf(e), w.index, w.stage.begin, w.stage.buf, initial, storing);
      acts := SliceIsWritten(info, e, k, w, w.stage.begin, w.stage.buf, initial, storing, data, ok);
    }
  }

  lemma SliceIsWritten(info: Info, e: Engine, k: nat, w: Worker, begin: int32, buf: seq<byte>, initial: Piece,
                       storing: Storing, data: World, ok: bool) returns (acts: seq<Act>)
    requires k < |e.workers| && e.workers[k] == w && w.Writing? && w.stage == Entering(begin, buf)
    requires w.index >= 0 && buf != [] && Writable(info, e.pool, w.index, begin, buf)
    requires initial.curLen == Length(info, w.index) && Full(info, w.index, initial)
    requires storing.Failed? ==> |storing.garbage| == Length(info, w.index)
    requires (data, ok) == Written(info, DataOf(e), w.index, begin, buf, initial, storing)
    ensures Alone(info, e, k, acts, With(e, k, Returned(info, w, ok), data))
  {
    var p, i := Before(e.pool, w.index, initial), w.index;
    assert |buf| <= p.curLen ==> Inside(info, i, begin, buf) && p.data != [];
    Outcomes(info, DataOf(e), i, begin, buf, initial, storing, p, data, ok);
    hide Alone, Written, Finished, Patch, Hashes, Head, Length, Inside, Full, With, Put, Before, Writable, DataOf;
    acts := Enters(info, e, k, w, initial);
    acts := Decides(info, e, k, w, begin, buf, p, storing, acts);
    if p.curLen < |buf| {
      PutIsWith(e, k, i, p.(curLen := Length(info, i)), Refused(w));
    } else if p.curLen > |buf| {
      PutIsWith(e, k, i, Lowered(p, begin, buf), Succeeded(info, w));
    }
  }

  lemma Outcomes(info: Info, d: World, i: int, begin: int, buf: seq<byte>, initial: Piece, storing: Storing, p: Piece,
                 data: World, ok: bool)
    requires i >= 0 && buf != [] && p == Before(d.pool, i, initial)
    requires (data, ok) == Written(info, d, i, begin, buf, initial, storing)
    ensures p.curLen < |buf| ==> data == d.(pool := d.pool[i := p.(curLen := Length(info, i))]) && !ok
    ensures p.curLen > |buf| ==> data == d.(pool := d.pool[i := Lowered(p, begin, buf)]) && ok
    ensures p.curLen == |buf| ==>
      && data == Finished(info, d.(pool := d.pool[i := Lowered(p, begin, buf)]), i, storing)
      && ok == (Hashes(info, i, Head(Patch(p.data, begin, buf), Length(info, i))) && storing == Stored)
  {
    WrittenCases(info, d, i, begin, buf, initial, storing);
    hide Written, Finished, Patch, Hashes, Head, Length;
  }

  lemma PatchLength(s: seq<byte>, begin: int, data: seq<byte>)
    ensures |Patch(s, begin, data)| == |s|
  {
  }
}
