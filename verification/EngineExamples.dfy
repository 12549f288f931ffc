/** Short runs: one in which an index gets a second holder, what the two may then do to the file,
    and one in which a descriptor that is used again gets a second reader. */
module EngineExamples {
  import opened Bytes
  import opened Network
  import opened StableSort
  import opened NeedPiece
  import opened PeerTables
  import opened TableParts
  import opened TorrentFile
  import opened BitMemory
  import opened Engine
  import opened SingleReader
  import DownloadSafety
  import EngineRuns
  import Sha1Spec

  /** A torrent of one piece, shorter than a slice, with the contents t. */
  function OnePiece(t: seq<byte>): Info {
    Info(true, "f", |t|, [], SLICESIZE, if |t| < SLICESIZE then Sha1Spec.Digest(t) else [])
  }

  predicate Short(t: seq<byte>) { 0 < |t| < SLICESIZE }

  lemma OnePieceFits(t: seq<byte>)
    requires Short(t)
    ensures WellFormed(OnePiece(t)) && OnePiece(t).pieceLength <= 2 * BLOCK && PieceCount(OnePiece(t)) == 1
    ensures Length(OnePiece(t), 0) == |t| && Offset(OnePiece(t), 0) == 0 && BlockCount(|t|) == 1
    ensures Accepted(OnePiece(t), 0, 0, |t|)
    ensures forall d: seq<byte> :: |d| == |t| ==>
      (Hashes(OnePiece(t), 0, d) <==> Sha1Spec.Digest(d) == Sha1Spec.Digest(t))
  {
    hide Sha1Spec.Digest;
    assert Sha1Spec.Digest(t)[0..20] == Sha1Spec.Digest(t);
  }

  /** An index with status 0x02 alone is handed out, and then taken again. */
  lemma WriteLockAloneIsLost(ids: map<int, PeerStatus>, now: int)
    requires 0 in ids && !ids[0].peerChoke
    ensures var n := Needs([Entry(0, false, true, 0, [Source(1, 0)])], ids);
            Pop(n, false, now) == Popped([Entry(0, true, false, now, [Source(1, 0)])], 0, [1]) &&
            !SetW(n.queue, 0).1 && SetW(Pop(n, false, now).queue, 0).1
  {
    var e := Entry(0, false, true, 0, [Source(1, 0)]);
    assert [e][1..] == [];
    assert Sort(Rarer, [e]) == Insert(Rarer, e, Sort(Rarer, []));
    assert [Source(1, 0)][..0] == [];
    assert Unchoked([Source(1, 0)], ids) == Unchoked([], ids) + [1];
  }

  /** What the run has done so far. */
  ghost predicate Reached(info: Info, disk: seq<byte>, acts: seq<Act>, e: Engine) {
    && EngineRuns.Follows(info, EngineRuns.Plain, EngineRuns.Start(disk, {}), acts)
    && EngineRuns.Run(info, EngineRuns.Start(disk, {}), acts) == e
  }

  lemma Then(info: Info, disk: seq<byte>, acts: seq<Act>, e: Engine, act: Act) returns (acts': seq<Act>, e': Engine)
    requires Reached(info, disk, acts, e) && Enabled(info, e, act)
    ensures acts' == acts + [act] && e' == After(info, e, act) && Reached(info, disk, acts', e')
  {
    hide After, Enabled;
    acts', e' := acts + [act], After(info, e, act);
    assert acts'[..|acts|] == acts;
  }

  lemma EnvThen(info: Info, disk: seq<byte>, acts: seq<Act>, e: Engine, part: Part)
    returns (acts': seq<Act>, e': Engine)
    requires Reached(info, disk, acts, e) && EnvEnabled(e, part)
    ensures acts' == acts + [Env(part)] && e' == e.(swarm := Do(e.swarm, part)) && Reached(info, disk, acts', e')
  {
    hide Reached, Do;
    acts', e' := Then(info, disk, acts, e, Env(part));
  }

  /** Neither memory nor the file nor a bit has changed. */
  predicate SameData(e: Engine, e': Engine) { e'.pool == e.pool && e'.disk == e.disk && e'.present == e.present }

  /** A peer is added and sends a slice of index 0, for which a worker is started. */
  lemma SliceArrives(info: Info, disk: seq<byte>, acts: seq<Act>, e: Engine, s: int, t: seq<byte>)
    returns (acts': seq<Act>, e': Engine)
    requires Reached(info, disk, acts, e) && e.loop == Polling && s > 0 && EnvEnabled(e, AddPeer(s))
    ensures Reached(info, disk, acts', e') && e'.loop == Polling && SameData(e, e')
    ensures e'.workers == e.workers + [Queued(s, 0, 0, t)]
    ensures e'.swarm.needs == e.swarm.needs && e'.swarm.peers.Keys == e.swarm.peers.Keys + {s}
  {
    hide Reached;
    acts', e' := EnvThen(info, disk, acts, e, AddPeer(s));
    assert Pollable(e'.swarm, s) && e'.swarm.needs == e.swarm.needs;
    acts', e' := Then(info, disk, acts', e', Poll({s}));
    acts', e' := Then(info, disk, acts', e', Event(s));
    acts', e' := Then(info, disk, acts', e', PieceMessage(0, 0, t));
  }

  /** The worker takes the index. */
  lemma WorkerTakes(info: Info, disk: seq<byte>, acts: seq<Act>, e: Engine, k: nat, read: bool, t: seq<byte>)
    returns (acts': seq<Act>, e': Engine)
    requires Reached(info, disk, acts, e) && k < |e.workers| && e.workers[k].Queued?
    requires e.workers[k] == Queued(e.workers[k].socket, 0, 0, t) && Accepted(info, 0, 0, |t|)
    requires Queue(e) == [Entry(0, read, false, 0, [Source(1, 0)])]
    ensures Reached(info, disk, acts', e') && SameData(e, e')
    ensures e'.workers == e.workers[k := Writing(e.workers[k].socket, 0, First, Entering(0, t))]
    ensures Queue(e') == [Entry(0, read, true, 0, [Source(1, 0)])] && e'.loop == e.loop
    ensures e'.swarm.peers == e.swarm.peers && e'.swarm.needs.ids == e.swarm.needs.ids
  {
    hide Reached, Accepted;
    acts', e' := Then(info, disk, acts, e, Go(k));
  }

  /** Index 0 is pushed. */
  lemma Pushed(info: Info, disk: seq<byte>) returns (acts: seq<Act>, e: Engine)
    ensures Reached(info, disk, acts, e) && e.loop == Polling && e.swarm.peers == map[] && e.workers == []
    ensures SameData(EngineRuns.Start(disk, {}), e)
    ensures Queue(e) == [Entry(0, false, false, 0, [Source(1, 0)])] && 0 in e.swarm.needs.ids
  {
    acts, e := [], EngineRuns.Start(disk, {});
    assert Reached(info, disk, acts, e);
    hide Reached, After, Enabled;
    acts, e := EnvThen(info, disk, acts, e, AddId(0));
    acts, e := EnvThen(info, disk, acts, e, PushPart(0, Source(1, 0)));
  }

  /** A slice of it arrives before it was ever handed out. */
  lemma FirstHolder(t: seq<byte>, disk: seq<byte>) returns (acts: seq<Act>, e: Engine)
    requires Short(t)
    ensures Reached(OnePiece(t), disk, acts, e) && e.loop == Polling && e.swarm.peers.Keys == {1}
    ensures e.workers == [Writing(1, 0, First, Entering(0, t))] && SameData(EngineRuns.Start(disk, {}), e)
    ensures Queue(e) == [Entry(0, false, true, 0, [Source(1, 0)])] && 0 in e.swarm.needs.ids
  {
    OnePieceFits(t);
    var info := OnePiece(t);
    hide Reached, Accepted, Length, WellFormed, Hashes, After, Enabled, Do, OnePiece, EngineRuns.Start;
    acts, e := Pushed(info, disk);
    acts, e := SliceArrives(info, disk, acts, e, 1, t);
    acts, e := WorkerTakes(info, disk, acts, e, 0, false, t);
  }

  /** The peer stops choking us and the index is handed out again. */
  lemma HandedOut(info: Info, disk: seq<byte>, acts: seq<Act>, e: Engine) returns (acts': seq<Act>, e': Engine)
    requires Reached(info, disk, acts, e) && 0 in e.swarm.needs.ids
    requires Queue(e) == [Entry(0, false, true, 0, [Source(1, 0)])]
    ensures Reached(info, disk, acts', e') && e'.workers == e.workers && e'.loop == e.loop && SameData(e, e')
    ensures e'.swarm.peers == e.swarm.peers && Queue(e') == [Entry(0, true, false, 0, [Source(1, 0)])]
  {
    hide Reached;
    acts', e' := EnvThen(info, disk, acts, e, ChangeId(0, PrUnChoke));
    WriteLockAloneIsLost(e'.swarm.needs.ids, 0);
    assert e'.swarm.needs == Needs([Entry(0, false, true, 0, [Source(1, 0)])], e'.swarm.needs.ids);
    hide Pop;
    acts', e' := EnvThen(info, disk, acts', e', PopPart(false, 0));
  }

  /** Then a slice arrives from a second peer, and its worker takes the index too. */
  lemma SecondTakes(info: Info, disk: seq<byte>, acts: seq<Act>, e: Engine, t: seq<byte>, u: seq<byte>)
    returns (acts': seq<Act>, e': Engine)
    requires Reached(info, disk, acts, e) && e.loop == Polling && e.swarm.peers.Keys == {1} && Accepted(info, 0, 0, |u|)
    requires e.workers == [Writing(1, 0, First, Entering(0, t))]
    requires Queue(e) == [Entry(0, true, false, 0, [Source(1, 0)])]
    ensures Reached(info, disk, acts', e') && SameData(e, e')
    ensures e'.workers == [Writing(1, 0, First, Entering(0, t)), Writing(2, 0, First, Entering(0, u))]
  {
    hide Reached, Accepted, After, Enabled, Do;
    acts', e' := SliceArrives(info, disk, acts, e, 2, u);
    acts', e' := WorkerTakes(info, disk, acts', e', 1, true, u);
  }

  /** Two workers hold index 0. */
  lemma SecondHolder(t: seq<byte>, u: seq<byte>, disk: seq<byte>) returns (acts: seq<Act>, e: Engine)
    requires Short(t) && |u| == |t|
    ensures Reached(OnePiece(t), disk, acts, e) && SameData(EngineRuns.Start(disk, {}), e)
    ensures e.workers == [Writing(1, 0, First, Entering(0, t)), Writing(2, 0, First, Entering(0, u))]
    ensures Holds(e.workers[0], 0) && Holds(e.workers[1], 0)
  {
    OnePieceFits(t);
    var info := OnePiece(t);
    hide Reached, Accepted, Length, WellFormed, Hashes, OnePiece, After, Enabled, Do, EngineRuns.Start;
    acts, e := FirstHolder(t, disk);
    acts, e := HandedOut(info, disk, acts, e);
    acts, e := SecondTakes(info, disk, acts, e, t, u);
  }

  // What two holders may do.

  function Zeros(): seq<byte> { seq(BLOCK, (_: int) => 0 as byte) }

  /** Two workers in Write, with their piece in memory. */
  function Duo(e: Engine, p: Piece, disk: seq<byte>, present: set<nat>, first: Stage, second: Stage): Engine {
    e.(pool := map[0 := p], disk := disk, present := present,
       workers := [Writing(1, 0, First, first), Writing(2, 0, First, second)])
  }

  /** The first worker has allocated the piece, and both have passed the test of the count. */
  lemma BothChecked(t: seq<byte>, u: seq<byte>, disk: seq<byte>) returns (acts: seq<Act>, e: Engine)
    requires Short(t) && |u| == |t|
    ensures Reached(OnePiece(t), disk, acts, Duo(e, Piece(|t|, Zeros()), disk, {}, Checked(0, t), Checked(0, u)))
  {
    OnePieceFits(t);
    var info := OnePiece(t);
    hide Reached, Length, WellFormed, Hashes, OnePiece, Offset, Accepted, PieceCount;
    acts, e := SecondHolder(t, u, disk);
    hide After, Enabled;
    acts := FirstEnters(info, disk, acts, e, t, u);
    acts := Allocates(info, disk, acts, e, t, u);
    acts := PassTest(info, disk, acts, e, t, u);
  }

  lemma Next(info: Info, disk: seq<byte>, acts: seq<Act>, e: Engine, act: Act) returns (acts': seq<Act>)
    requires Reached(info, disk, acts, e) && Enabled(info, e, act)
    ensures Reached(info, disk, acts', After(info, e, act))
  {
    hide Reached, After, Enabled;
    var e';
    acts', e' := Then(info, disk, acts, e, act);
  }

  lemma FirstEnters(info: Info, disk: seq<byte>, acts: seq<Act>, e: Engine, t: seq<byte>, u: seq<byte>)
    returns (acts': seq<Act>)
    requires t != [] && Reached(info, disk, acts, e) && SameData(EngineRuns.Start(disk, {}), e)
    requires e.workers == [Writing(1, 0, First, Entering(0, t)), Writing(2, 0, First, Entering(0, u))]
    ensures Reached(info, disk, acts', Duo(e, Piece(0, []), disk, {}, Allocating(0, t), Entering(0, u)))
  {
    hide Reached;
    assert After(info, e, Go(0)) == Duo(e, Piece(0, []), disk, {}, Allocating(0, t), Entering(0, u));
    acts' := Next(info, disk, acts, e, Go(0));
  }

  lemma Allocates(info: Info, disk: seq<byte>, acts: seq<Act>, e: Engine, t: seq<byte>, u: seq<byte>)
    returns (acts': seq<Act>)
    requires 0 < Length(info, 0) == |t| && BlockCount(|t|) == 1
    requires Reached(info, disk, acts, Duo(e, Piece(0, []), disk, {}, Allocating(0, t), Entering(0, u)))
    ensures Reached(info, disk, acts', Duo(e, Piece(|t|, Zeros()), disk, {}, Found(0, t), Entering(0, u)))
  {
    hide Reached, Length;
    var p := Piece(|t|, Zeros());
    var e1 := Duo(e, Piece(0, []), disk, {}, Allocating(0, t), Entering(0, u));
    assert After(info, e1, Allocate(0, p)) == Duo(e, p, disk, {}, Found(0, t), Entering(0, u));
    acts' := Next(info, disk, acts, e1, Allocate(0, p));
  }

  lemma PassTest(info: Info, disk: seq<byte>, acts: seq<Act>, e: Engine, t: seq<byte>, u: seq<byte>)
    returns (acts': seq<Act>)
    requires |u| == |t| > 0
    requires Reached(info, disk, acts, Duo(e, Piece(|t|, Zeros()), disk, {}, Found(0, t), Entering(0, u)))
    ensures Reached(info, disk, acts', Duo(e, Piece(|t|, Zeros()), disk, {}, Checked(0, t), Checked(0, u)))
  {
    hide Reached, Length;
    var p := Piece(|t|, Zeros());
    var e1 := Duo(e, p, disk, {}, Found(0, t), Entering(0, u));
    var e2 := Duo(e, p, disk, {}, Checked(0, t), Entering(0, u));
    var e3 := Duo(e, p, disk, {}, Checked(0, t), Found(0, u));
    assert After(info, e1, Go(0)) == e2 && After(info, e2, Go(1)) == e3;
    assert After(info, e3, Go(1)) == Duo(e, p, disk, {}, Checked(0, t), Checked(0, u));
    acts' := Next(info, disk, acts, e1, Go(0));
    acts' := Next(info, disk, acts', e2, Go(1));
    acts' := Next(info, disk, acts', e3, Go(1));
  }

  /** The first copies and counts to 0. */
  lemma FirstCounts(info: Info, disk: seq<byte>, acts: seq<Act>, e: Engine, t: seq<byte>, u: seq<byte>)
    returns (acts': seq<Act>)
    requires 0 < Length(info, 0) == |t| <= BLOCK
    requires Reached(info, disk, acts, Duo(e, Piece(|t|, Zeros()), disk, {}, Checked(0, t), Checked(0, u)))
    ensures Reached(info, disk, acts', Duo(e, Piece(0, Patch(Zeros(), 0, t)), disk, {}, Counted, Checked(0, u)))
  {
    hide Reached, Length, Patch, Head, Hashes;
    var q := Patch(Zeros(), 0, t);
    var e1 := Duo(e, Piece(|t|, Zeros()), disk, {}, Checked(0, t), Checked(0, u));
    var e2 := Duo(e, Piece(|t|, q), disk, {}, Copied(|t|), Checked(0, u));
    assert After(info, e1, Go(0)) == e2;
    acts' := Next(info, disk, acts, e1, Go(0));
    assert After(info, e2, Go(0)) == Duo(e, Piece(0, q), disk, {}, Counted, Checked(0, u));
    acts' := Next(info, disk, acts', e2, Go(0));
  }

  /** And finds the right hash. */
  lemma FirstHashes(info: Info, disk: seq<byte>, acts: seq<Act>, e: Engine, t: seq<byte>, u: seq<byte>)
    returns (acts': seq<Act>)
    requires 0 < Length(info, 0) == |t| <= BLOCK && Hashes(info, 0, t)
    requires Reached(info, disk, acts, Duo(e, Piece(0, Patch(Zeros(), 0, t)), disk, {}, Counted, Checked(0, u)))
    ensures Reached(info, disk, acts', Duo(e, Piece(0, Patch(Zeros(), 0, t)), disk, {}, Hashed, Checked(0, u)))
  {
    PatchedHead(t, Zeros());
    hide Reached, Length, Patch, Head, Hashes;
    var q := Patch(Zeros(), 0, t);
    var e1 := Duo(e, Piece(0, q), disk, {}, Counted, Checked(0, u));
    assert After(info, e1, Go(0)) == Duo(e, Piece(0, q), disk, {}, Hashed, Checked(0, u));
    acts' := Next(info, disk, acts, e1, Go(0));
  }

  lemma PatchedHead(t: seq<byte>, s: seq<byte>)
    requires 0 < |t| <= |s|
    ensures Head(Patch(s, 0, t), |t|) == t && |Patch(s, 0, t)| == |s| > 0
  {
  }

  /** The second copies other bytes into the block before the first writes the file. */
  lemma SecondCopies(info: Info, disk: seq<byte>, acts: seq<Act>, e: Engine, t: seq<byte>, u: seq<byte>)
    returns (acts': seq<Act>)
    requires 0 < Length(info, 0) == |t| == |u| == |disk| <= BLOCK && Offset(info, 0) == 0
    requires Reached(info, disk, acts, Duo(e, Piece(0, Patch(Zeros(), 0, t)), disk, {}, Hashed, Checked(0, u)))
    ensures Reached(info, disk, acts',
      Duo(e, Piece(0, Patch(Patch(Zeros(), 0, t), 0, u)), u, {}, OnFile, Copied(|u|)))
  {
    PatchedHead(t, Zeros());
    PatchedHead(u, Patch(Zeros(), 0, t));
    assert Patch(disk, 0, u) == u;
    hide Reached, Length, Patch, Head, Offset;
    var p, q := Patch(Zeros(), 0, t), Patch(Patch(Zeros(), 0, t), 0, u);
    var e1 := Duo(e, Piece(0, p), disk, {}, Hashed, Checked(0, u));
    var e2 := Duo(e, Piece(0, q), disk, {}, Hashed, Copied(|u|));
    assert After(info, e1, Go(1)) == e2;
    assert After(info, e2, Store(0, Stored)) == Duo(e, Piece(0, q), u, {}, OnFile, Copied(|u|));
    acts' := Next(info, disk, acts, e1, Go(1));
    acts' := Next(info, disk, acts', e2, Store(0, Stored));
  }

  /** The first gives its blocks back and sets the bit. */
  lemma BitIsSet(info: Info, disk: seq<byte>, acts: seq<Act>, e: Engine, q: seq<byte>, u: seq<byte>)
    returns (acts': seq<Act>)
    requires Reached(info, disk, acts, Duo(e, Piece(0, q), u, {}, OnFile, Copied(|u|)))
    ensures Reached(info, disk, acts', Duo(e, Piece(0, []), u, {0}, Filled, Copied(|u|)))
  {
    hide Reached;
    var e1 := Duo(e, Piece(0, q), u, {}, OnFile, Copied(|u|));
    var e2 := Duo(e, Piece(0, []), u, {}, Freed, Copied(|u|));
    assert After(info, e1, Go(0)) == e2;
    acts' := Next(info, disk, acts, e1, Go(0));
    assert After(info, e2, Go(0)) == Duo(e, Piece(0, []), u, {0}, Filled, Copied(|u|));
    acts' := Next(info, disk, acts', e2, Go(0));
  }

  /** The second lowers the count below 0. */
  lemma CountIsNegative(info: Info, disk: seq<byte>, acts: seq<Act>, e: Engine, u: seq<byte>) returns (acts': seq<Act>)
    requires Reached(info, disk, acts, Duo(e, Piece(0, []), u, {0}, Filled, Copied(|u|)))
    ensures Reached(info, disk, acts', Duo(e, Piece(-|u|, []), u, {0}, Filled, Counted))
  {
    hide Reached;
    var e1 := Duo(e, Piece(0, []), u, {0}, Filled, Copied(|u|));
    assert After(info, e1, Go(1)) == Duo(e, Piece(-|u|, []), u, {0}, Filled, Counted);
    acts' := Next(info, disk, acts, e1, Go(1));
  }

  /** With two holders the file may end up with bytes that nobody hashed: the bit is set, and the
      piece has the torrent's hash only if the two slices have. The count is below 0. */
  lemma UnhashedBytesAreStored(t: seq<byte>, u: seq<byte>, disk: seq<byte>) returns (acts: seq<Act>, e: Engine)
    requires Short(t) && |u| == |t| == |disk|
    ensures Reached(OnePiece(t), disk, acts, e)
    ensures 0 in e.present && 0 in e.pool && e.pool[0].curLen < 0
    ensures DownloadSafety.OnDisk(OnePiece(t), e.disk, 0) == u
    ensures Hashes(OnePiece(t), 0, DownloadSafety.OnDisk(OnePiece(t), e.disk, 0)) <==>
            Sha1Spec.Digest(u) == Sha1Spec.Digest(t)
  {
    OnePieceFits(t);
    var info := OnePiece(t);
    assert DownloadSafety.OnDisk(info, u, 0) == u;
    hide Reached, Length, WellFormed, Hashes, OnePiece, Offset, Accepted, PieceCount, Patch, Head;
    hide DownloadSafety.OnDisk, Sha1Spec.Digest;
    acts, e := BothChecked(t, u, disk);
    acts := FirstCounts(info, disk, acts, e, t, u);
    acts := FirstHashes(info, disk, acts, e, t, u);
    acts := SecondCopies(info, disk, acts, e, t, u);
    acts := BitIsSet(info, disk, acts, e, Patch(Patch(Zeros(), 0, t), 0, u), u);
    acts := CountIsNegative(info, disk, acts, e, u);
    e := Duo(e, Piece(-|u|, []), u, {0}, Filled, Counted);
  }

  // A descriptor that is used again.

  /** Peer 1 sends a slice and is closed while the worker still has it: the next peer may not
      have descriptor 1 yet. With it, the event loop comes to read what the worker reads. */
  lemma SecondReader(info: Info, t: seq<byte>, disk: seq<byte>) returns (acts: seq<Act>, e: Engine)
    ensures Reached(info, disk, acts, e) && 1 !in e.swarm.peers && |e.workers| == 1 && Uses(e.workers[0], 1)
    ensures var again := After(info, e, Env(AddPeer(1)));
            var read := After(info, After(info, again, Poll({1})), Event(1));
            !EnvEnabled(e, AddPeer(1)) && ReadersOf(read, 1) == {-1, 0}
  {
    acts, e := [], EngineRuns.Start(disk, {});
    assert Reached(info, disk, acts, e);
    hide EngineRuns.Run, EngineRuns.Follows;
    acts, e := SliceArrives(info, disk, acts, e, 1, t);
    acts, e := EnvThen(info, disk, acts, e, ClosePeer(1));
    hide Reached;
    var again := After(info, e, Env(AddPeer(1)));
    var read := After(info, After(info, again, Poll({1})), Event(1));
    assert read.workers == e.workers && read.loop == Reading(1);
  }
}
