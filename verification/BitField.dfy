/** BitTorrent/CszBitField.cpp: the packed bit field as a set of piece indices. */
module BitField {
  import opened Bytes
  import opened Network
  import TorrentFile

  const MESSAGE_ID: byte := 5

  /** bit_hex: the high bit of a byte stands for the lowest index. */
  function BitHex(k: nat): byte
    requires k < 8
  {
    if k == 0 then 0x80 else if k == 1 then 0x40 else if k == 2 then 0x20 else if k == 3 then 0x10
    else if k == 4 then 0x08 else if k == 5 then 0x04 else if k == 6 then 0x02 else 0x01
  }

  predicate HasBit(b: byte, k: nat)
    requires k < 8
  {
    b & BitHex(k) != 0
  }

  predicate BitSet(field: seq<byte>, i: nat)
    requires i < 8 * |field|
  {
    HasBit(field[i / 8], i % 8)
  }

  /** The indices below n whose bit is set. */
  function Indices(field: seq<byte>, n: nat): set<nat>
    requires n <= 8 * |field|
  {
    set i: nat | i < n && BitSet(field, i)
  }

  function OrBit(b: byte, k: nat): byte
    requires k < 8
  {
    b | BitHex(k)
  }

  lemma OrSetsOneBit(b: byte, j: nat, k: nat)
    requires j < 8 && k < 8
    ensures HasBit(OrBit(b, k), j) <==> j == k || HasBit(b, j)
  {
  }

  function WithBit(field: seq<byte>, i: nat): (r: seq<byte>)
    requires i < 8 * |field|
    ensures |r| == |field|
  {
    field[i / 8 := OrBit(field[i / 8], i % 8)]
  }

  lemma WithBitSets(field: seq<byte>, i: nat, j: nat)
    requires i < 8 * |field| && j < 8 * |field|
    ensures BitSet(WithBit(field, i), j) <==> j == i || BitSet(field, j)
  {
    OrSetsOneBit(field[i / 8], j % 8, i % 8);
    hide HasBit, OrBit;
  }

  lemma WithBitIndices(field: seq<byte>, i: nat, n: nat)
    requires i < 8 * |field| && n <= 8 * |field|
    ensures Indices(WithBit(field, i), n) == Indices(field, n) + if i < n then {i} else {}
  {
    forall j: nat | j < n
      ensures BitSet(WithBit(field, i), j) <==> j == i || BitSet(field, j)
    {
      WithBitSets(field, i, j);
    }
    hide BitSet, WithBit;
  }

  /** What index i contributes to the value of its byte. */
  function Worth(s: set<nat>, i: nat, value: nat): nat { if i in s then value else 0 }

  /** The value of every byte of a field, from the indices alone: high bit first, as in BEP 3. */
  lemma ByteOfIndices(field: seq<byte>, at: nat)
    requires at < |field|
    ensures var s := Indices(field, 8 * |field|);
            Val(field[at]) == Worth(s, 8 * at, 128) + Worth(s, 8 * at + 1, 64) + Worth(s, 8 * at + 2, 32)
                            + Worth(s, 8 * at + 3, 16) + Worth(s, 8 * at + 4, 8) + Worth(s, 8 * at + 5, 4)
                            + Worth(s, 8 * at + 6, 2) + Worth(s, 8 * at + 7, 1)
  {
    forall k: nat | k < 8
      ensures 8 * at + k in Indices(field, 8 * |field|) <==> HasBit(field[at], k)
    {
      assert (8 * at + k) / 8 == at && (8 * at + k) % 8 == k;
    }
    EightBits(field[at]);
    hide HasBit, Indices;
    assert 8 * at + 0 == 8 * at;
  }

  lemma EightBits(b: byte)
    ensures Val(b) == (if HasBit(b, 0) then 128 else 0) + (if HasBit(b, 1) then 64 else 0)
                    + (if HasBit(b, 2) then 32 else 0) + (if HasBit(b, 3) then 16 else 0)
                    + (if HasBit(b, 4) then 8 else 0) + (if HasBit(b, 5) then 4 else 0)
                    + (if HasBit(b, 6) then 2 else 0) + (if HasBit(b, 7) then 1 else 0)
  {
  }

  function Below(n: nat): (s: set<nat>)
    ensures forall i: nat :: i in s <==> i < n
    ensures |s| == n
  {
    if n == 0 then {} else Below(n - 1) + {n - 1}
  }

  lemma FullIffAll(s: set<nat>, n: nat)
    requires s <= Below(n)
    ensures |s| <= n
    ensures |s| == n <==> s == Below(n)
  {
    assert |Below(n) - s| == |Below(n)| - |s|;
    if |s| == n {
      assert |Below(n) - s| == 0;
    }
  }

  /** The indices below n that the peer has and we lack, in ascending order. */
  function Lacking(peer: seq<byte>, local: seq<byte>, n: nat): seq<nat>
    requires n <= 8 * |peer| && |peer| == |local|
  {
    if n == 0 then []
    else Lacking(peer, local, n - 1) +
         if BitSet(peer, n - 1) && !BitSet(local, n - 1) then [n - 1] else []
  }

  lemma LackingStep(peer: seq<byte>, local: seq<byte>, at: nat, k: nat)
    requires at < |peer| == |local| && k < 8
    ensures Lacking(peer, local, 8 * at + k + 1) == Lacking(peer, local, 8 * at + k) +
            if HasBit(peer[at], k) && !HasBit(local[at], k) then [8 * at + k] else []
  {
    hide HasBit;
    assert (8 * at + k) / 8 == at && (8 * at + k) % 8 == k;
  }

  lemma {:induction false} LackingIsDifference(peer: seq<byte>, local: seq<byte>, n: nat)
    requires n <= 8 * |peer| && |peer| == |local|
    ensures forall x :: x in Lacking(peer, local, n) <==> x in Indices(peer, n) - Indices(local, n)
    ensures forall j, k :: 0 <= j < k < |Lacking(peer, local, n)| ==>
      Lacking(peer, local, n)[j] < Lacking(peer, local, n)[k]
  {
    if n == 0 {
    } else {
      LackingIsDifference(peer, local, n - 1);
      hide BitSet;
      var r := Lacking(peer, local, n - 1);
      assert forall k :: 0 <= k < |r| ==> r[k] in r;
    }
  }

  function Cut(total: nat, n: nat): nat { if total < n then total else n }

  /** The inner loop of LackNeedPiece: the bits of one byte, until `total` runs out. */
  method ScanByte(peer: seq<byte>, local: seq<byte>, total: nat, curLen: nat, before: seq<nat>) returns (ret: seq<nat>)
    requires |peer| == |local| && total <= 8 * |peer| && curLen < |peer|
    requires before == Lacking(peer, local, Cut(total, 8 * curLen))
    ensures ret == Lacking(peer, local, Cut(total, 8 * curLen + 8))
  {
    hide HasBit, Lacking;
    ret := before;
    var i := 0;
    var index, checkTotal := Cut(total, 8 * curLen), total - Cut(total, 8 * curLen);
    while i < 8 && checkTotal > 0
      invariant 0 <= i <= 8 && checkTotal == total - index
      invariant index == Cut(total, 8 * curLen + i)
      invariant ret == Lacking(peer, local, index)
      decreases 8 - i
    {
      LackingStep(peer, local, curLen, i);
      if HasBit(peer[curLen], i) && !HasBit(local[curLen], i) {
        ret := ret + [index];
      }
      i, index, checkTotal := i + 1, index + 1, checkTotal - 1;
    }
  }

  /** The outer loop of LackNeedPiece. */
  method ScanBoth(peer: seq<byte>, local: seq<byte>, total: nat) returns (ret: seq<nat>)
    requires |peer| == |local| && total <= 8 * |peer|
    ensures ret == Lacking(peer, local, total)
  {
    assert Lacking(peer, local, 0) == [];
    hide Lacking;
    ret := [];
    var curLen := 0;
    while curLen < |peer|
      invariant 0 <= curLen <= |peer|
      invariant ret == Lacking(peer, local, Cut(total, 8 * curLen))
    {
      ret := ScanByte(peer, local, total, curLen, ret);
      curLen := curLen + 1;
    }
  }

  /** DownLoad and LeftSize, in the uint32_t the source computes in. */
  function DownLoaded(info: TorrentFile.Info, have: nat, total: int): nat {
    if have == total then TorrentFile.Total(info) % 0x1_0000_0000
    else TorrentFile.Offset(info, have) % 0x1_0000_0000
  }

  function Left(info: TorrentFile.Info, have: nat, total: int): nat {
    if have == total then 0 else (TorrentFile.Total(info) - DownLoaded(info, have, total)) % 0x1_0000_0000
  }

  /** LeftSize never underflows, and is 0 only when nothing is missing. */
  lemma LeftCounts(info: TorrentFile.Info, have: nat)
    requires TorrentFile.WellFormed(info) && have <= TorrentFile.PieceCount(info)
    ensures Left(info, have, TorrentFile.PieceCount(info)) == 0 <==> have == TorrentFile.PieceCount(info)
    ensures have != TorrentFile.PieceCount(info) ==>
      Left(info, have, TorrentFile.PieceCount(info)) == TorrentFile.Total(info) - TorrentFile.Offset(info, have)
  {
    hide TorrentFile.Offset, TorrentFile.WellFormed, TorrentFile.Total, TorrentFile.PieceCount;
    if have != TorrentFile.PieceCount(info) {
      TorrentFile.PieceOffset(info, have);
      LeftArithmetic(TorrentFile.Total(info), TorrentFile.Offset(info, have));
    }
  }

  /** DownLoad counts every piece as a full one until all are there, and with LeftSize it makes up
      the torrent. */
  lemma DownLoadCounts(info: TorrentFile.Info, have: nat)
    requires TorrentFile.WellFormed(info) && have <= TorrentFile.PieceCount(info)
    ensures var count := TorrentFile.PieceCount(info);
            && DownLoaded(info, have, count) ==
               (if have == count then TorrentFile.Total(info) else have * info.pieceLength)
            && DownLoaded(info, have, count) + Left(info, have, count) == TorrentFile.Total(info)
  {
    LeftCounts(info, have);
    if have != TorrentFile.PieceCount(info) {
      TorrentFile.PieceOffset(info, have);
    }
    hide TorrentFile.WellFormed, TorrentFile.Total, TorrentFile.PieceCount;
  }

  function Within(s: set<nat>, n: nat): set<nat> { set i | i in s && i < n }

  /** The bytes of those of the first n pieces that are in s. */
  function BytesOf(info: TorrentFile.Info, s: set<nat>, n: nat): int {
    if n == 0 then 0
    else BytesOf(info, s, n - 1) + if n - 1 in s then TorrentFile.PieceSize(info, n - 1) else 0
  }

  lemma WithinStep(s: set<nat>, n: nat)
    ensures |Within(s, n + 1)| == |Within(s, n)| + if n in s then 1 else 0
  {
    if n in s {
      assert Within(s, n + 1) == Within(s, n) + {n};
    } else {
      assert Within(s, n + 1) == Within(s, n);
    }
  }

  /** Before the last piece every piece is a full one. */
  lemma {:induction false} FullPieces(info: TorrentFile.Info, s: set<nat>, n: nat)
    requires TorrentFile.WellFormed(info) && n < TorrentFile.PieceCount(info)
    ensures BytesOf(info, s, n) == |Within(s, n)| * info.pieceLength
  {
    if n == 0 {
      assert Within(s, 0) == {};
    } else {
      FullPieces(info, s, n - 1);
      WithinStep(s, n - 1);
      TorrentFile.LastPieceSize(info, n - 1);
    }
  }

  /** LeftSize counts every piece as a full one, so that it is what is missing if and only if all
      pieces are there, or the last is not, or the last is a full one as well. */
  lemma LeftBytes(info: TorrentFile.Info, s: set<nat>)
    requires TorrentFile.WellFormed(info) && s <= Below(TorrentFile.PieceCount(info))
    ensures var count := TorrentFile.PieceCount(info);
      var size := TorrentFile.PieceSize(info, count - 1);
      |s| <= count &&
      (Left(info, |s|, count) == TorrentFile.Total(info) - BytesOf(info, s, count) <==>
       |s| == count || count - 1 !in s || size == info.pieceLength)
  {
    var last := TorrentFile.PieceCount(info) - 1;
    FullIffAll(s, last + 1);
    FullPieces(info, s, last);
    WithinStep(s, last);
    assert Within(s, last + 1) == s;
    assert |Within(s, last)| <= last by {
      FullIffAll(Within(s, last), last);
    }
    LeftCounts(info, |s|);
    TorrentFile.LastPieceSize(info, last);
    var size, c := TorrentFile.PieceSize(info, last), |Within(s, last)|;
    assert BytesOf(info, s, last + 1) == c * info.pieceLength + if last in s then size else 0;
    assert TorrentFile.Total(info) == last * info.pieceLength + size;
    hide Left, Within, BytesOf;
    hide TorrentFile.WellFormed, TorrentFile.PieceSize, TorrentFile.PieceCount, TorrentFile.Total;
    LeftGap(TorrentFile.Total(info), info.pieceLength, size, c, last in s, last, Left(info, |s|, last + 1));
  }

  lemma LeftGap(total: int, pl: nat, size: nat, c: nat, hasLast: bool, last: nat, left: int)
    requires total == last * pl + size && 0 < size <= pl && c <= last
    requires left == if hasLast && c == last then 0 else total - (c + if hasLast then 1 else 0) * pl
    ensures left == total - (c * pl + if hasLast then size else 0) <==>
            (hasLast && c == last) || !hasLast || size == pl
  {
    assert (c + 1) * pl == c * pl + pl;
  }

  /** 32868 bytes in pieces of 32768: with only the last piece there, 32768 bytes are missing and
      LeftSize says 100. */
  lemma LeftBytesFails()
    ensures var info := TorrentFile.Info(true, "f", 32868, [], 32768, seq(40, (_: int) => 0 as byte));
            TorrentFile.WellFormed(info) && Left(info, |{1}|, 2) == 100 &&
            TorrentFile.Total(info) - BytesOf(info, {1}, 2) == 32768
  {
    var info := TorrentFile.Info(true, "f", 32868, [], 32768, seq(40, (_: int) => 0 as byte));
    assert TorrentFile.PieceSize(info, 1) == 100;
    assert BytesOf(info, {1}, 1) == 0;
    assert |{1}| == 1;
  }

  class BitField {
    var prefixAndBitField: seq<byte>
    var total: int
    var curSum: int

    /** cur_sum counts the set bits; the spare bits at the end stay clear. */
    ghost predicate Valid()
      reads this
    {
      && |prefixAndBitField| >= 5 && 0 <= total <= 8 * (|prefixAndBitField| - 5)
      && (forall i :: total <= i < 8 * (|prefixAndBitField| - 5) ==> !BitSet(prefixAndBitField[5..], i))
      && curSum == |Present()|
    }

    /** The pieces we have. */
    function Present(): set<nat>
      reads this
    {
      if |prefixAndBitField| >= 5 && 0 <= total <= 8 * (|prefixAndBitField| - 5) then
        Indices(prefixAndBitField[5..], total)
      else {}
    }

    constructor ()
      ensures Valid() && Present() == {} && total == 0 && curSum == 0 && prefixAndBitField[4..] == [MESSAGE_ID]
    {
      prefixAndBitField := [0, 0, 0, 0, MESSAGE_ID];
      total, curSum := 0, 0;
    }

    /** SetParameter leaves cur_sum alone, so that on a new object the count is right exactly for
        the all-zero field that main passes it. */
    method SetParameter(field: seq<byte>, newTotal: int32)
      requires Valid() && |field| < 0x7FFF_FFF0
      modifies this
      ensures total == newTotal && curSum == old(curSum) && |prefixAndBitField| == 5 + |field|
      ensures prefixAndBitField[4..] == old(prefixAndBitField[4..5]) + field
      ensures field != [] ==> prefixAndBitField[..4] == ToBytes(|prefixAndBitField| - 4)
      ensures curSum == 0 ==>
        (Valid() <==> 0 <= newTotal <= 8 * |field| && forall k :: 0 <= k < |field| ==> field[k] == 0)
      ensures curSum == 0 && Valid() ==> Present() == {}
    {
      hide ToBytes;
      prefixAndBitField := prefixAndBitField[..5];
      if field != [] {
        prefixAndBitField := prefixAndBitField + field;
        prefixAndBitField := ToBytes(|prefixAndBitField| - 4) + prefixAndBitField[4..];
      }
      total := newTotal;
      assert prefixAndBitField[5..] == field;
      ValidIffZero(field);
    }

    lemma ValidIffZero(field: seq<byte>)
      requires |prefixAndBitField| >= 5 && prefixAndBitField[5..] == field
      ensures curSum == 0 ==>
        (Valid() <==> 0 <= total <= 8 * |field| && forall k :: 0 <= k < |field| ==> field[k] == 0)
      ensures curSum == 0 && Valid() ==> Present() == {}
    {
      if 0 <= total <= 8 * |field| {
        ZeroIffEmpty(field, total);
      }
      hide Indices, BitSet;
      assert Present() == {} <==> |Present()| == 0;
    }

    /** FillBitField, at any bit of the field. The count stays right, and the index is added,
        exactly when the bit is not one of the spare bits. */
    method FillBitField(index: int32)
      requires Valid() && (|prefixAndBitField| > 5 ==> index < 8 * (|prefixAndBitField| - 5))
      modifies this
      ensures total == old(total)
      ensures |prefixAndBitField| == old(|prefixAndBitField|) && prefixAndBitField[..5] == old(prefixAndBitField[..5])
      ensures index < 0 || |prefixAndBitField| <= 5 ==> Valid() && Present() == old(Present())
      ensures index >= 0 && |prefixAndBitField| > 5 ==>
        (Valid() <==> index < total) && Present() == old(Present()) + if index < total then {index} else {}
    {
      hide HasBit, OrBit;
      if index < 0 || |prefixAndBitField| <= 5 {
        return;
      }
      var at, k := index / 8 + 5, index % 8;
      ghost var field := prefixAndBitField[5..];
      if HasBit(prefixAndBitField[at], k) {
        assert BitSet(field, index);
        return;
      }
      assert !BitSet(field, index);
      curSum := curSum + 1;
      prefixAndBitField := prefixAndBitField[at := OrBit(prefixAndBitField[at], k)];
      assert prefixAndBitField[5..] == WithBit(field, index);
      WithBitIndices(field, index, total);
      forall i | total <= i < 8 * |field|
        ensures BitSet(prefixAndBitField[5..], i) <==> i == index
      {
        WithBitSets(field, index, i);
      }
      hide BitSet, WithBit;
    }

    /** The byte that CheckPiece looks at is in the string, or its terminating NUL. */
    predicate Readable(index: int32)
      reads this
    {
      index < 0 || |prefixAndBitField| <= 5 || index / 8 + 5 <= |prefixAndBitField|
    }

    /** Every bit of the field is readable, and so are the eight that would follow. */
    lemma FieldIsReadable(index: int32)
      requires |prefixAndBitField| > 5
      ensures Readable(index) <==> index < 8 * (|prefixAndBitField| - 5) + 8
    {
    }

    /** CheckPiece; a negative index, or a field not set up yet, comes back as -1. Far outside the
        field any byte may be read. */
    method CheckPiece(index: int32) returns (found: bool, checked: int32)
      requires Valid()
      ensures index < 0 || |prefixAndBitField| <= 5 ==> found && checked == -1
      ensures index >= 0 && |prefixAndBitField| > 5 ==>
        checked == index && (Readable(index) ==> (found <==> index in Present()))
      ensures index >= 0 && |prefixAndBitField| > 5 && !found ==> index !in Present()
    {
      hide HasBit, OrBit;
      if index < 0 || |prefixAndBitField| <= 5 {
        return true, -1;
      }
      var at := index / 8 + 5;
      var val: byte := *;
      if at < |prefixAndBitField| {
        val := prefixAndBitField[at];
      } else if at == |prefixAndBitField| {
        val := 0;
      }
      found, checked := HasBit(val, index % 8), index;
      if at < |prefixAndBitField| {
        assert found == BitSet(prefixAndBitField[5..], index);
      } else if at == |prefixAndBitField| {
        ZeroHasNoBit(index % 8);
      }
    }

    /** LocalBitField::CheckBitField. */
    method CheckBitField(index: int32) returns (found: bool)
      requires Valid()
      ensures Readable(index) && |prefixAndBitField| > 5 ==> (found <==> index >= 0 && index in Present())
      ensures index < 0 ==> !found
    {
      var f, checked := CheckPiece(index);
      found := f && checked >= 0;
    }

    /** LackNeedPiece: the peer's pieces minus ours, ascending, spare bits ignored. */
    method LackNeedPiece(peer: seq<byte>) returns (ret: seq<nat>)
      requires Valid()
      ensures |peer| + 5 != |prefixAndBitField| || |prefixAndBitField| <= 5 ==> ret == []
      ensures |peer| + 5 == |prefixAndBitField| ==> ret == Lacking(peer, prefixAndBitField[5..], total)
    {
      ret := [];
      if |prefixAndBitField| <= 5 || |peer| + 5 != |prefixAndBitField| {
        return;
      }
      ret := ScanBoth(peer, prefixAndBitField[5..], total);
    }

    lemma FullWhenCounted()
      requires Valid()
      ensures 0 <= curSum <= total
      ensures curSum == total <==> Present() == Below(total)
    {
      hide BitSet;
      FullIffAll(Present(), total);
    }

    /** GameOver holds exactly when every piece is present. */
    method GameOver() returns (ret: bool)
      requires Valid()
      ensures ret <==> Present() == Below(total)
    {
      FullWhenCounted();
      ret := total == curSum;
    }

    /** GameEnd, over the reals: at least 99 percent of the pieces. */
    predicate GameEnd()
      requires total > 0
      reads this
    {
      curSum as real / total as real >= 0.99
    }

    /** The end of the game is near when at most one piece in a hundred is missing. */
    lemma GameEndMeans()
      requires total > 0
      ensures GameEnd() <==> 100 * (total - curSum) <= total
    {
      Quotient(curSum as real, total as real);
    }

    function DownLoad(info: TorrentFile.Info): nat
      requires curSum >= 0
      reads this
    {
      DownLoaded(info, curSum, total)
    }

    function LeftSize(info: TorrentFile.Info): nat
      requires curSum >= 0
      reads this
    {
      Left(info, curSum, total)
    }

    /** LeftSize is 0 exactly when every piece is present. */
    lemma LeftSizeZeroIffComplete(info: TorrentFile.Info)
      requires Valid() && TorrentFile.WellFormed(info) && total == TorrentFile.PieceCount(info)
      ensures LeftSize(info) == 0 <==> Present() == Below(total)
    {
      hide TorrentFile.WellFormed, TorrentFile.PieceCount, Left;
      FullWhenCounted();
      hide Valid, Present;
      LeftCounts(info, curSum);
    }
  }

  lemma Quotient(x: real, y: real)
    requires y > 0.0
    ensures x / y >= 0.99 <==> x >= 0.99 * y
  {
    assert x / y * y == x;
    if x / y >= 0.99 {
      assert (x / y - 0.99) * y >= 0.0;
    } else {
      assert (0.99 - x / y) * y > 0.0;
    }
  }

  lemma LeftArithmetic(all: nat, have: nat)
    requires have < all < 0x8000_0000
    ensures (all - have % 0x1_0000_0000) % 0x1_0000_0000 == all - have
  {
  }

  /** Without a set bit, spare ones included, every byte is 0. */
  lemma ZeroIffEmpty(field: seq<byte>, n: nat)
    requires n <= 8 * |field|
    ensures (forall k :: 0 <= k < |field| ==> field[k] == 0) <==>
            Indices(field, n) == {} && forall i :: n <= i < 8 * |field| ==> !BitSet(field, i)
  {
    if forall k :: 0 <= k < |field| ==> field[k] == 0 {
      forall i | 0 <= i < 8 * |field|
        ensures !BitSet(field, i)
      {
        assert field[i / 8] == 0;
        ZeroHasNoBit(i % 8);
      }
    }
    if Indices(field, n) == {} && forall i :: n <= i < 8 * |field| ==> !BitSet(field, i) {
      forall i | 0 <= i < 8 * |field|
        ensures !BitSet(field, i)
      {
        assert i < n ==> (BitSet(field, i) <==> i in Indices(field, n));
      }
      forall k | 0 <= k < |field|
        ensures field[k] == 0
      {
        NoBits(field, k);
      }
    }
  }

  lemma NoBits(field: seq<byte>, k: nat)
    requires k < |field| && forall i :: 0 <= i < 8 * |field| ==> !BitSet(field, i)
    ensures field[k] == 0
  {
    forall j: nat | j < 8
      ensures !HasBit(field[k], j)
    {
      assert (8 * k + j) / 8 == k && (8 * k + j) % 8 == j;
      assert !BitSet(field, 8 * k + j);
    }
    NoBitIsZero(field[k]);
  }

  lemma NoBitIsZero(b: byte)
    requires !HasBit(b, 0) && !HasBit(b, 1) && !HasBit(b, 2) && !HasBit(b, 3)
    requires !HasBit(b, 4) && !HasBit(b, 5) && !HasBit(b, 6) && !HasBit(b, 7)
    ensures b == 0
  {
  }

  lemma ZeroHasNoBit(k: nat)
    requires k < 8
    ensures !HasBit(0, k)
  {
    ZeroAnd(BitHex(k));
  }

  lemma ZeroAnd(b: byte)
    ensures 0 & b == 0
  {
  }
}
