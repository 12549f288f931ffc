/** The countdown of BitMemory::Write over all the slices of one piece. */
module PieceAssembly {
  import opened Bytes
  import opened TorrentFile
  import opened BitMemory
  import BitField
  import NeedPiece

  datatype Slice = Slice(begin: nat, data: seq<byte>)

  function End(s: Slice): nat { s.begin + |s.data| }

  predicate InSlice(s: Slice, b: nat) { s.begin <= b < End(s) }

  predicate Reached(slices: seq<Slice>, b: nat) { exists k :: 0 <= k < |slices| && InSlice(slices[k], b) }

  /** Every byte of the piece is in some slice. */
  predicate Complete(slices: seq<Slice>, length: nat) { forall b :: 0 <= b < length ==> Reached(slices, b) }

  /** The bytes of the piece that a slice covers. */
  function Covers(s: Slice): set<nat> { set b: nat | b < End(s) && InSlice(s, b) }

  function Covered(slices: seq<Slice>): set<nat> {
    if |slices| == 0 then {} else Covered(slices[..|slices| - 1]) + Covers(slices[|slices| - 1])
  }

  function Sum(slices: seq<Slice>): nat {
    if |slices| == 0 then 0 else Sum(slices[..|slices| - 1]) + |slices[|slices| - 1].data|
  }

  predicate Inside(slices: seq<Slice>, length: nat) {
    forall k :: 0 <= k < |slices| ==> slices[k].data != [] && End(slices[k]) <= length
  }

  predicate Disjoint(slices: seq<Slice>) {
    forall j, k :: 0 <= j < k < |slices| ==> End(slices[j]) <= slices[k].begin || End(slices[k]) <= slices[j].begin
  }

  lemma {:induction false} CoversCount(s: Slice)
    ensures |Covers(s)| == |s.data|
    decreases |s.data|
  {
    if s.data == [] {
      assert forall b :: b !in Covers(s);
    } else {
      var shorter := Slice(s.begin, s.data[..|s.data| - 1]);
      CoversCount(shorter);
      forall b: nat
        ensures b in Covers(s) <==> b in Covers(shorter) || b == End(s) - 1
      {
        assert InSlice(s, b) <==> InSlice(shorter, b) || b == End(s) - 1;
      }
      assert Covers(s) == Covers(shorter) + {End(s) - 1};
    }
  }

  lemma {:induction false} CoveredAt(slices: seq<Slice>, b: nat)
    ensures b in Covered(slices) <==> Reached(slices, b)
  {
    if |slices| == 0 {
    } else {
      var n := |slices| - 1;
      CoveredAt(slices[..n], b);
      if Reached(slices, b) {
        var k :| 0 <= k < |slices| && InSlice(slices[k], b);
        assert k == n || slices[..n][k] == slices[k];
      }
      if Reached(slices[..n], b) {
        var k :| 0 <= k < n && InSlice(slices[..n][k], b);
        assert slices[k] == slices[..n][k];
      }
    }
  }

  /** The lengths of disjoint slices add up to the number of bytes they cover. */
  lemma {:induction false} SumIsCovered(slices: seq<Slice>)
    requires Disjoint(slices)
    ensures |Covered(slices)| == Sum(slices)
  {
    if |slices| == 0 {
    } else {
      var n := |slices| - 1;
      SumIsCovered(slices[..n]);
      CoversCount(slices[n]);
      forall b | b in Covered(slices[..n])
        ensures b !in Covers(slices[n])
      {
        CoveredAt(slices[..n], b);
      }
      assert Covered(slices[..n]) !! Covers(slices[n]);
    }
  }

  /** The count stays in [0, length], and is 0 exactly when every byte is covered. */
  lemma CountdownIsCoverage(slices: seq<Slice>, length: nat)
    requires Disjoint(slices) && Inside(slices, length)
    ensures 0 <= length - Sum(slices) <= length
    ensures length - Sum(slices) == 0 <==> Complete(slices, length)
  {
    SumIsCovered(slices);
    forall b: nat
      ensures b in Covered(slices) <==> Reached(slices, b)
      ensures Reached(slices, b) ==> b < length
    {
      CoveredAt(slices, b);
    }
    hide Covered, Reached, Disjoint, Inside;
    assert Covered(slices) <= BitField.Below(length);
    BitField.FullIffAll(Covered(slices), length);
    assert Covered(slices) == BitField.Below(length) <==> forall b: nat :: b < length ==> b in Covered(slices);
  }

  /** A piece in memory after some slices, while its count has not run out. */
  function Filled(p: Piece, slices: seq<Slice>): Piece {
    if |slices| == 0 then p
    else
      var q, s := Filled(p, slices[..|slices| - 1]), slices[|slices| - 1];
      Piece(q.curLen - |s.data|, Patch(q.data, s.begin, s.data))
  }

  /** Slices cut out of one piece t. */
  predicate CutFrom(slices: seq<Slice>, t: seq<byte>) {
    forall k :: 0 <= k < |slices| ==> End(slices[k]) <= |t| && slices[k].data == t[slices[k].begin..End(slices[k])]
  }

  lemma {:induction false} FilledHolds(p: Piece, slices: seq<Slice>, t: seq<byte>)
    requires CutFrom(slices, t) && |t| <= |p.data|
    ensures Filled(p, slices).curLen == p.curLen - Sum(slices)
    ensures |Filled(p, slices).data| == |p.data|
    ensures forall b :: b in Covered(slices) ==> b < |t| && Filled(p, slices).data[b] == t[b]
  {
    if |slices| == 0 {
    } else {
      var n := |slices| - 1;
      FilledHolds(p, slices[..n], t);
      var q, s := Filled(p, slices[..n]), slices[n];
      assert s.data == t[s.begin..End(s)];
      assert Filled(p, slices).data == Patch(q.data, s.begin, s.data);
      hide Patch, CutFrom, Filled;
      forall b | b in Covered(slices)
        ensures b < |t| && Filled(p, slices).data[b] == t[b]
      {
        assert b in Covered(slices[..n]) || b in Covers(s);
        PatchFrom(q.data, t, s, b);
      }
    }
  }

  lemma PatchFrom(data: seq<byte>, t: seq<byte>, s: Slice, b: nat)
    requires End(s) <= |t| <= |data| && s.data == t[s.begin..End(s)]
    requires b in Covers(s) || (b < |t| && data[b] == t[b])
    ensures b < |t| && Patch(data, s.begin, s.data)[b] == t[b]
  {
    PatchAt(data, s.begin, s.data, b);
    hide Patch;
  }

  /** Disjoint slices that use up the count leave exactly the piece, in whatever order they
      came and whatever the blocks held before. */
  lemma FilledIsPiece(p: Piece, slices: seq<Slice>, t: seq<byte>)
    requires CutFrom(slices, t) && |t| <= |p.data| && p.curLen == |t|
    requires Disjoint(slices) && Inside(slices, |t|) && Filled(p, slices).curLen == 0
    ensures Head(Filled(p, slices).data, |t|) == t
  {
    FilledHolds(p, slices, t);
    CountdownIsCoverage(slices, |t|);
    assert Complete(slices, |t|);
    hide Filled;
    forall b | 0 <= b < |t|
      ensures Filled(p, slices).data[b] == t[b]
    {
      assert Reached(slices, b);
      CoveredAt(slices, b);
    }
  }

  /** Write called for one slice after the other, with a file that stores what it is given. */
  function WriteAll(info: Info, w: World, index: nat, slices: seq<Slice>, initial: Piece): World {
    if |slices| == 0 then w
    else
      var n := |slices| - 1;
      var w1 := WriteAll(info, w, index, slices[..n], initial);
      Written(info, w1, index, slices[n].begin, slices[n].data, initial, Stored).0
  }

  /** Before the count runs out only the piece in memory changes. */
  lemma {:induction false} WriteAllFills(info: Info, w: World, index: nat, slices: seq<Slice>, initial: Piece, p: Piece)
    requires p == Before(w.pool, index, initial)
    requires p.curLen >= 0 && Inside(slices, p.curLen) && Sum(slices) < p.curLen
    ensures slices != [] ==> WriteAll(info, w, index, slices, initial) == w.(pool := w.pool[index := Filled(p, slices)])
    ensures Before(WriteAll(info, w, index, slices, initial).pool, index, initial) == Filled(p, slices)
    ensures Filled(p, slices).curLen == p.curLen - Sum(slices)
  {
    hide Finished, Patch;
    if |slices| == 0 {
    } else {
      WriteAllFills(info, w, index, slices[..|slices| - 1], initial, p);
    }
  }

  lemma PrefixKeeps(slices: seq<Slice>, t: seq<byte>)
    requires |slices| > 0 && CutFrom(slices, t) && Disjoint(slices) && Inside(slices, |t|)
    ensures var before := slices[..|slices| - 1];
            CutFrom(before, t) && Disjoint(before) && Inside(before, |t|)
  {
  }

  /** A piece arrives: after disjoint slices that cover it, Write has the whole piece hashed;
      the bit is set and the file changed exactly when the hash is the torrent's. Otherwise its
      count is restarted, and the next attempt finds it as this one did. */
  lemma PieceArrives(info: Info, w: World, index: nat, slices: seq<Slice>, t: seq<byte>, initial: Piece)
    requires WellFormed(info) && index < PieceCount(info) && |t| == Length(info, index) > 0
    requires var p := Before(w.pool, index, initial); |t| <= |p.data| && p.curLen == |t|
    requires CutFrom(slices, t) && Disjoint(slices) && Inside(slices, |t|)
    requires Complete(slices, |t|)
    ensures var w' := WriteAll(info, w, index, slices, initial);
      if Hashes(info, index, t) then
        w'.present == w.present + {index} && w'.queue == NeedPiece.Clear(w.queue, index) &&
        w'.disk == Patch(w.disk, Offset(info, index), t)
      else
        w'.present == w.present && w'.queue == w.queue && w'.disk == w.disk &&
        var p := Before(w'.pool, index, initial); |t| <= |p.data| && p.curLen == |t|
  {
    hide Hashes, WellFormed, Length, Patch, Offset;
    CountdownIsCoverage(slices, |t|);
    assert Reached(slices, 0);
    var n, p := |slices| - 1, Before(w.pool, index, initial);
    PrefixKeeps(slices, t);
    WriteAllFills(info, w, index, slices[..n], initial, p);
    FilledHolds(p, slices, t);
    assert Filled(p, slices).curLen == 0;
    FilledIsPiece(p, slices, t);
    hide CutFrom, Disjoint, Inside, Before;
    LastSlice(info, WriteAll(info, w, index, slices[..n], initial), index, slices[n], initial, |t|);
  }

  /** The slice that brings the count to 0. */
  lemma LastSlice(info: Info, w: World, index: nat, s: Slice, initial: Piece, length: nat)
    requires var p := Before(w.pool, index, initial); p.curLen == |s.data| && length == Length(info, index)
    requires s.data != []
    ensures var p := Before(w.pool, index, initial);
      Written(info, w, index, s.begin, s.data, initial, Stored).0 ==
      Finished(info, w.(pool := w.pool[index := Piece(0, Patch(p.data, s.begin, s.data))]), index, Stored)
  {
    WrittenCases(info, w, index, s.begin, s.data, initial, Stored);
    hide Finished, Patch, Written, Hashes, Length;
  }

  /** Slice k of a piece t. */
  function SliceOf(info: Info, i: nat, t: seq<byte>, k: nat): Slice {
    var begin := k * SLICESIZE;
    if 0 <= begin <= SliceEnd(info, i, k) <= |t| then Slice(begin, t[begin..SliceEnd(info, i, k)]) else Slice(0, [])
  }

  function AllSlices(info: Info, i: nat, t: seq<byte>): seq<Slice> {
    if GetPieceBit(info, i) < 0 then [] else seq(GetPieceBit(info, i), (k: nat) => SliceOf(info, i, t, k))
  }

  /** Slice k of t when it is cut at the multiples of SLICESIZE. */
  predicate Row(s: Slice, t: seq<byte>, k: nat) {
    && s.begin == k * SLICESIZE && s.data != []
    && End(s) <= |t| && s.data == t[s.begin..End(s)]
    && End(s) <= k * SLICESIZE + SLICESIZE
    && (End(s) < k * SLICESIZE + SLICESIZE ==> End(s) == |t|)
  }

  lemma SliceAt(info: Info, i: nat, t: seq<byte>, k: nat)
    requires WellFormed(info) && i < PieceCount(info) && Sliceable(info, i) && |t| == PieceSize(info, i)
    requires k < GetPieceBit(info, i)
    ensures Row(SliceOf(info, i, t, k), t, k) && |SliceOf(info, i, t, k).data| == SliceLength(info, i, k)
  {
    SlicesAreStretches(info, i, k);
    hide WellFormed, Sliceable, PieceSize, GetPieceBit, SliceLength;
  }

  lemma RowsApart(s: Slice, r: Slice, t: seq<byte>, j: nat, k: nat)
    requires Row(s, t, j) && Row(r, t, k) && j < k
    ensures End(s) <= r.begin
  {
  }

  lemma RowsTile(slices: seq<Slice>, t: seq<byte>)
    requires forall k :: 0 <= k < |slices| ==> Row(slices[k], t, k)
    requires forall b :: 0 <= b < |t| ==> b / SLICESIZE < |slices|
    ensures CutFrom(slices, t) && Disjoint(slices) && Inside(slices, |t|) && Complete(slices, |t|)
  {
    forall b | 0 <= b < |t|
      ensures Reached(slices, b)
    {
      assert Row(slices[b / SLICESIZE], t, b / SLICESIZE);
      assert InSlice(slices[b / SLICESIZE], b);
    }
    assert CutFrom(slices, t) && Inside(slices, |t|);
    hide Row, CutFrom, Inside, Complete, End;
    forall j, k | 0 <= j < k < |slices|
      ensures End(slices[j]) <= slices[k].begin
    {
      RowsApart(slices[j], slices[k], t, j, k);
    }
  }

  /** The slices that DPiece accepts are disjoint and complete, so that PieceArrives applies to
      them in the order of their begins and in any other. */
  lemma SlicesComplete(info: Info, i: nat, t: seq<byte>)
    requires WellFormed(info) && i < PieceCount(info) && Sliceable(info, i) && |t| == PieceSize(info, i)
    ensures var slices := AllSlices(info, i, t);
            CutFrom(slices, t) && Disjoint(slices) && Inside(slices, |t|) && Complete(slices, |t|)
  {
    LastPieceSize(info, i);
    var slices := AllSlices(info, i, t);
    assert forall b :: 0 <= b < |t| ==> b / SLICESIZE < |slices|;
    hide SliceOf, WellFormed, Sliceable, PieceSize, Row;
    forall k | 0 <= k < |slices|
      ensures Row(slices[k], t, k)
    {
      SliceAt(info, i, t, k);
    }
    hide *;
    RowsTile(slices, t);
  }

  // Slices one by one.

  /** Slices cut out of one piece, no two of which overlap. */
  predicate Apart(slices: seq<Slice>, piece: seq<byte>) {
    CutFrom(slices, piece) && Disjoint(slices) && Inside(slices, |piece|)
  }

  lemma ApartPrefix(slices: seq<Slice>, s: Slice, piece: seq<byte>, p: Piece)
    requires Apart(slices + [s], piece)
    ensures Apart(slices, piece) && s.data != []
    ensures Sum(slices + [s]) == Sum(slices) + |s.data| <= |piece|
    ensures Filled(p, slices + [s]) ==
            Piece(Filled(p, slices).curLen - |s.data|, Patch(Filled(p, slices).data, s.begin, s.data))
  {
    PrefixKeeps(slices + [s], piece);
    assert (slices + [s])[..|slices|] == slices;
    assert (slices + [s])[|slices|] == s;
    CountdownIsCoverage(slices + [s], |piece|);
  }
}
