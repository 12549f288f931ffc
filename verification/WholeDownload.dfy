/** A torrent that lists the hashes of its own pieces, and what becomes of its file when all the
    slices of all its pieces arrive. */
module WholeDownload {
  import opened Bytes
  import opened TorrentFile
  import opened BitMemory
  import opened PieceAssembly
  import opened DownloadSafety
  import BitField
  import NeedPiece
  import Sha1Spec

  // The hash list.

  /** A list of 20-byte hashes, as it stands in a torrent. */
  function Joined(hashes: seq<seq<byte>>): (r: seq<byte>)
    requires forall k :: 0 <= k < |hashes| ==> |hashes[k]| == 20
    ensures |r| == 20 * |hashes|
  {
    if |hashes| == 0 then [] else Joined(hashes[..|hashes| - 1]) + hashes[|hashes| - 1]
  }

  /** GetHash returns the hash that has 20 * index bytes before it. */
  lemma GetHashAt(info: Info, index: nat, before: seq<byte>, hash: seq<byte>, after: seq<byte>)
    requires info.pieces == before + hash + after && |before| == 20 * index && |hash| == 20
    ensures GetHash(info, index) == hash
  {
  }

  lemma {:induction false} JoinedAt(hashes: seq<seq<byte>>, i: nat) returns (before: seq<byte>, after: seq<byte>)
    requires i < |hashes| && forall k :: 0 <= k < |hashes| ==> |hashes[k]| == 20
    ensures Joined(hashes) == before + hashes[i] + after && |before| == 20 * i
    decreases |hashes|
  {
    var n := |hashes| - 1;
    if i == n {
      before, after := Joined(hashes[..n]), [];
    } else {
      before, after := JoinedAt(hashes[..n], i);
      after := after + hashes[n];
    }
  }

  /** The hash list has the digest of every piece of the content t, in order. */
  ghost predicate TorrentOf(info: Info, t: seq<byte>) {
    WellFormed(info) && |t| == Total(info) && info.pieces == Joined(Digests(info, t))
  }

  function Digests(info: Info, t: seq<byte>): (r: seq<seq<byte>>)
    ensures |r| == PieceCount(info) && forall k :: 0 <= k < |r| ==> |r[k]| == 20
  {
    seq(PieceCount(info), (i: nat) => DigestOf(OnDisk(info, t, i)))
  }

  function DigestOf(data: seq<byte>): (d: seq<byte>)
    ensures |d| == 20
  {
    if |data| < 0x8000_0000 then Sha1Spec.Digest(data) else seq(20, _ => 0)
  }

  /** The hash test accepts for piece i exactly what has the digest of piece i. */
  lemma HashesOwnPiece(info: Info, t: seq<byte>, i: nat, data: seq<byte>)
    requires TorrentOf(info, t) && i < PieceCount(info) && |data| < 0x8000_0000
    ensures Hashes(info, i, data) <==> Sha1Spec.Digest(data) == Sha1Spec.Digest(OnDisk(info, t, i))
    ensures Hashes(info, i, OnDisk(info, t, i))
  {
    RangeInside(info, i);
    hide WellFormed, Sha1Spec.Digest, OnDisk, PieceCount, Total, GetHash;
    var before, after := JoinedAt(Digests(info, t), i);
    hide Joined;
    GetHashAt(info, i, before, Digests(info, t)[i], after);
  }

  // All the slices.

  datatype Arrival = Arrival(index: nat, slice: Slice)

  /** The slices of one piece, in the order in which they arrive. */
  function SlicesOf(arrivals: seq<Arrival>, i: nat): seq<Slice> {
    if |arrivals| == 0 then []
    else
      var a := arrivals[|arrivals| - 1];
      SlicesOf(arrivals[..|arrivals| - 1], i) + if a.index == i then [a.slice] else []
  }

  /** Write for every slice that arrives, on a file that stores what it is given. */
  function WriteEach(info: Info, w: World, arrivals: seq<Arrival>, initial: nat -> Piece): World {
    if |arrivals| == 0 then w
    else
      var a := arrivals[|arrivals| - 1];
      var w1 := WriteEach(info, w, arrivals[..|arrivals| - 1], initial);
      Written(info, w1, a.index, a.slice.begin, a.slice.data, initial(a.index), Stored).0
  }

  /** What has become of piece i after these of its slices. */
  predicate Stands(info: Info, t: seq<byte>, w: World, i: nat, slices: seq<Slice>, initial: Piece) {
    if Sum(slices) < |OnDisk(info, t, i)| then
      i !in w.present && Before(w.pool, i, initial) == Filled(initial, slices)
    else
      i in w.present && OnDisk(info, w.disk, i) == OnDisk(info, t, i)
  }

  /** A piece as it is allocated, whatever its blocks hold. */
  predicate Fresh(info: Info, i: nat, p: Piece) { p.curLen == Length(info, i) <= |p.data| }

  /** One more slice of piece i. */
  lemma SliceWritten(info: Info, t: seq<byte>, w: World, i: nat, slices: seq<Slice>, s: Slice, initial: Piece)
    returns (w': World)
    requires TorrentOf(info, t) && i < PieceCount(info) && |w.disk| == Total(info) && Fresh(info, i, initial)
    requires Stands(info, t, w, i, slices, initial) && Apart(slices + [s], OnDisk(info, t, i))
    ensures w' == Written(info, w, i, s.begin, s.data, initial, Stored).0
    ensures Stands(info, t, w', i, slices + [s], initial) && |w'.disk| == Total(info)
    ensures w'.present == w.present || w'.present == w.present + {i}
    ensures forall j: nat :: j < PieceCount(info) && j != i ==>
      (j in w'.pool <==> j in w.pool) && (j in w.pool ==> w'.pool[j] == w.pool[j]) &&
      OnDisk(info, w'.disk, j) == OnDisk(info, w.disk, j)
  {
    var piece := OnDisk(info, t, i);
    RangeInside(info, i);
    ApartPrefix(slices, s, piece, initial);
    FilledHolds(initial, slices, piece);
    if Sum(slices + [s]) < |piece| {
      WrittenCases(info, w, i, s.begin, s.data, initial, Stored);
      w' := Written(info, w, i, s.begin, s.data, initial, Stored).0;
      hide Written, Patch, Filled, CutFrom, Sum, TorrentOf, Length;
    } else {
      hide Stands, Sum, Filled;
      w' := LastSliceWritten(info, t, w, i, slices, s, initial);
      StandsDone(info, t, w', i, slices + [s], initial);
    }
  }

  lemma StandsDone(info: Info, t: seq<byte>, w: World, i: nat, slices: seq<Slice>, initial: Piece)
    requires Sum(slices) >= |OnDisk(info, t, i)| && i in w.present && OnDisk(info, w.disk, i) == OnDisk(info, t, i)
    ensures Stands(info, t, w, i, slices, initial)
  {
  }

  /** The slice that completes the piece. */
  lemma LastSliceWritten(info: Info, t: seq<byte>, w: World, i: nat, slices: seq<Slice>, s: Slice, initial: Piece)
    returns (w': World)
    requires TorrentOf(info, t) && i < PieceCount(info) && |w.disk| == Total(info) && Fresh(info, i, initial)
    requires Apart(slices + [s], OnDisk(info, t, i)) && Sum(slices + [s]) == |OnDisk(info, t, i)|
    requires Before(w.pool, i, initial) == Filled(initial, slices)
    ensures w' == Written(info, w, i, s.begin, s.data, initial, Stored).0 && |w'.disk| == Total(info)
    ensures w'.present == w.present + {i} && OnDisk(info, w'.disk, i) == OnDisk(info, t, i)
    ensures forall j: nat :: j < PieceCount(info) && j != i ==>
      (j in w'.pool <==> j in w.pool) && (j in w.pool ==> w'.pool[j] == w.pool[j]) &&
      OnDisk(info, w'.disk, j) == OnDisk(info, w.disk, j)
  {
    var piece := OnDisk(info, t, i);
    RangeInside(info, i);
    ApartPrefix(slices, s, piece, initial);
    FilledHolds(initial, slices, piece);
    FilledHolds(initial, slices + [s], piece);
    FilledIsPiece(initial, slices + [s], piece);
    HashesOwnPiece(info, t, i, piece);
    LastSlice(info, w, i, s, initial, |piece|);
    w' := Written(info, w, i, s.begin, s.data, initial, Stored).0;
    var w1 := w.(pool := w.pool[i := Filled(initial, slices + [s])]);
    assert w' == Finished(info, w1, i, Stored);
    hide Written, Filled, Sum, TorrentOf, Hashes, Apart, WellFormed, PieceCount, Total;
    assert w'.disk == Patch(w.disk, Offset(info, i), piece);
    hide Finished;
    forall j: nat | j < PieceCount(info)
      ensures OnDisk(info, w'.disk, j) == if i == j then piece else OnDisk(info, w.disk, j)
    {
      PatchOnDisk(info, w.disk, i, piece, j);
    }
  }

  /** Slices of the pieces of t, each byte at most once. */
  ghost predicate Sound(info: Info, t: seq<byte>, arrivals: seq<Arrival>) {
    && (forall k :: 0 <= k < |arrivals| ==> arrivals[k].index < PieceCount(info))
    && (forall i :: 0 <= i < PieceCount(info) ==> Apart(SlicesOf(arrivals, i), OnDisk(info, t, i)))
  }

  lemma LastSliceOf(arrivals: seq<Arrival>, n: nat, i: nat)
    requires |arrivals| == n + 1
    ensures SlicesOf(arrivals, i) ==
            if arrivals[n].index != i then SlicesOf(arrivals[..n], i)
            else SlicesOf(arrivals[..n], i) + [arrivals[n].slice]
  {
  }

  lemma SoundPrefix(info: Info, t: seq<byte>, arrivals: seq<Arrival>, n: nat)
    requires Sound(info, t, arrivals) && |arrivals| == n + 1
    ensures Sound(info, t, arrivals[..n]) && arrivals[n].index < PieceCount(info)
  {
    hide OnDisk, PieceCount, Apart, SlicesOf;
    var a := arrivals[n];
    forall i: nat | i < PieceCount(info)
      ensures Apart(SlicesOf(arrivals[..n], i), OnDisk(info, t, i))
    {
      LastSliceOf(arrivals, n, i);
      assert Apart(SlicesOf(arrivals, i), OnDisk(info, t, i));
      if i == a.index {
        ApartPrefix(SlicesOf(arrivals[..n], i), a.slice, OnDisk(info, t, i), Piece(0, []));
      }
    }
  }

  lemma {:induction false} ArrivalsStand(info: Info, t: seq<byte>, disk: seq<byte>, queue: seq<NeedPiece.Entry>,
                                         arrivals: seq<Arrival>, initial: nat -> Piece)
    requires TorrentOf(info, t) && |disk| == Total(info) && Sound(info, t, arrivals)
    requires forall i :: 0 <= i < PieceCount(info) ==> Fresh(info, i, initial(i))
    ensures var w := WriteEach(info, World(map[], disk, {}, queue), arrivals, initial);
            && |w.disk| == Total(info) && w.present <= BitField.Below(PieceCount(info))
            && forall i :: 0 <= i < PieceCount(info) ==> Stands(info, t, w, i, SlicesOf(arrivals, i), initial(i))
    decreases |arrivals|
  {
    hide TorrentOf, Sound, Fresh, Stands, Apart, PieceCount, OnDisk, Written;
    if |arrivals| == 0 {
      StandsAtFirst(info, t, disk, queue, initial);
    } else {
      var n := |arrivals| - 1;
      var a := arrivals[n];
      SoundPrefix(info, t, arrivals, n);
      ArrivalsStand(info, t, disk, queue, arrivals[..n], initial);
      OneArrives(info, t, WriteEach(info, World(map[], disk, {}, queue), arrivals[..n], initial), arrivals, initial);
    }
  }

  lemma StandsAtFirst(info: Info, t: seq<byte>, disk: seq<byte>, queue: seq<NeedPiece.Entry>, initial: nat -> Piece)
    requires TorrentOf(info, t)
    ensures forall i :: 0 <= i < PieceCount(info) ==>
      Stands(info, t, World(map[], disk, {}, queue), i, [], initial(i))
  {
    forall i | 0 <= i < PieceCount(info)
      ensures |OnDisk(info, t, i)| > 0
    {
      RangeInside(info, i);
    }
  }

  lemma OneArrives(info: Info, t: seq<byte>, w: World, arrivals: seq<Arrival>, initial: nat -> Piece)
    requires TorrentOf(info, t) && |w.disk| == Total(info) && Sound(info, t, arrivals) && |arrivals| > 0
    requires w.present <= BitField.Below(PieceCount(info))
    requires forall i :: 0 <= i < PieceCount(info) ==> Fresh(info, i, initial(i))
    requires forall i :: 0 <= i < PieceCount(info) ==>
      Stands(info, t, w, i, SlicesOf(arrivals[..|arrivals| - 1], i), initial(i))
    ensures var a := arrivals[|arrivals| - 1];
            var w' := Written(info, w, a.index, a.slice.begin, a.slice.data, initial(a.index), Stored).0;
            && |w'.disk| == Total(info) && w'.present <= BitField.Below(PieceCount(info))
            && forall i :: 0 <= i < PieceCount(info) ==> Stands(info, t, w', i, SlicesOf(arrivals, i), initial(i))
  {
    var n := |arrivals| - 1;
    var a := arrivals[n];
    SoundPrefix(info, t, arrivals, n);
    hide SlicesOf;
    assert Apart(SlicesOf(arrivals, a.index), OnDisk(info, t, a.index));
    LastSliceOf(arrivals, n, a.index);
    hide TorrentOf, Sound, Fresh, Apart, PieceCount, OnDisk, Written, Filled, Total;
    var w' := SliceWritten(info, t, w, a.index, SlicesOf(arrivals[..n], a.index), a.slice, initial(a.index));
    hide Stands;
    forall i: nat | i < PieceCount(info)
      ensures Stands(info, t, w', i, SlicesOf(arrivals, i), initial(i))
    {
      if i != a.index {
        SameStands(info, t, w, w', arrivals, i, initial(i));
      }
    }
  }

  lemma SameStands(info: Info, t: seq<byte>, w: World, w': World, arrivals: seq<Arrival>, i: nat, initial: Piece)
    requires |arrivals| > 0 && arrivals[|arrivals| - 1].index != i
    requires Stands(info, t, w, i, SlicesOf(arrivals[..|arrivals| - 1], i), initial)
    requires OnDisk(info, w'.disk, i) == OnDisk(info, w.disk, i) && (i in w'.present <==> i in w.present)
    requires (i in w'.pool <==> i in w.pool) && (i in w.pool ==> w'.pool[i] == w.pool[i])
    ensures Stands(info, t, w', i, SlicesOf(arrivals, i), initial)
  {
    LastSliceOf(arrivals, |arrivals| - 1, i);
  }

  lemma ByteInRange(info: Info, o: nat) returns (i: nat)
    requires WellFormed(info) && o < Total(info)
    ensures i < PieceCount(info) && i == o / info.pieceLength
    ensures 0 <= Offset(info, i) <= o < Offset(info, i) + Length(info, i) <= Total(info)
  {
    i := o / info.pieceLength;
    PieceOfByte(info, o);
    QuotientRange(o, info.pieceLength, i);
    RangeInside(info, i);
    hide WellFormed, Total, PieceCount;
  }

  lemma ByteOnDisk(info: Info, disk: seq<byte>, o: nat) returns (i: nat)
    requires WellFormed(info) && |disk| == Total(info) && o < Total(info)
    ensures i < PieceCount(info) && i == o / info.pieceLength && 0 <= o - Offset(info, i) < |OnDisk(info, disk, i)|
    ensures OnDisk(info, disk, i)[o - Offset(info, i)] == disk[o]
  {
    i := ByteInRange(info, o);
    hide WellFormed, Total, PieceCount, Offset, Length;
  }

  lemma SameOnDisk(info: Info, disk: seq<byte>, t: seq<byte>)
    requires WellFormed(info) && |disk| == |t| == Total(info)
    requires forall i :: 0 <= i < PieceCount(info) ==> OnDisk(info, disk, i) == OnDisk(info, t, i)
    ensures disk == t
  {
    forall o | 0 <= o < Total(info)
      ensures disk[o] == t[o]
    {
      var i := ByteOnDisk(info, disk, o);
      var j := ByteOnDisk(info, t, o);
      hide OnDisk, WellFormed;
    }
  }

  /** A whole download: the slices of all pieces arrive, in any order and interleaved at will, into
      blocks and a file that hold anything. A bit is set exactly when every byte of its piece
      has arrived; when all have, the file is the torrent's content. */
  lemma DownloadCompletes(info: Info, t: seq<byte>, disk: seq<byte>, queue: seq<NeedPiece.Entry>,
                          arrivals: seq<Arrival>, initial: nat -> Piece)
    requires TorrentOf(info, t) && |disk| == Total(info) && Sound(info, t, arrivals)
    requires forall i :: 0 <= i < PieceCount(info) ==> Fresh(info, i, initial(i))
    ensures var w := WriteEach(info, World(map[], disk, {}, queue), arrivals, initial);
            && (forall i :: 0 <= i < PieceCount(info) ==>
                  (i in w.present <==> Complete(SlicesOf(arrivals, i), |OnDisk(info, t, i)|)))
            && (w.present == BitField.Below(PieceCount(info)) ==> w.disk == t)
  {
    ArrivalsStand(info, t, disk, queue, arrivals, initial);
    var w := WriteEach(info, World(map[], disk, {}, queue), arrivals, initial);
    assert WellFormed(info) && |t| == Total(info);
    hide TorrentOf, Fresh, PieceCount, OnDisk, WellFormed, Total, SlicesOf, Complete, WriteEach;
    forall i | 0 <= i < PieceCount(info)
      ensures i in w.present <==> Complete(SlicesOf(arrivals, i), |OnDisk(info, t, i)|)
      ensures i in w.present ==> OnDisk(info, w.disk, i) == OnDisk(info, t, i)
    {
      assert Apart(SlicesOf(arrivals, i), OnDisk(info, t, i));
      CountdownIsCoverage(SlicesOf(arrivals, i), |OnDisk(info, t, i)|);
      assert Stands(info, t, w, i, SlicesOf(arrivals, i), initial(i));
    }
    if w.present == BitField.Below(PieceCount(info)) {
      SameOnDisk(info, w.disk, t);
    }
  }
}
