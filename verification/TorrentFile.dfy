/** BitTorrent/CszTorrentFile.cpp: piece and slice geometry, and the slice requests of
    SelectSwitch::DPiece that rest on it. */
module TorrentFile {
  import opened Bytes
  import opened Network

  const SLICESIZE: int32 := 16 * 1024

  datatype File = File(path: string, length: nat)

  datatype Info = Info(single: bool, name: string, length: nat, files: seq<File>,
                       pieceLength: nat, pieces: seq<byte>)

  function FilesTotal(files: seq<File>): nat {
    if |files| == 0 then 0 else FilesTotal(files[..|files| - 1]) + files[|files| - 1].length
  }

  function Total(info: Info): nat { if info.single then info.length else FilesTotal(info.files) }

  function PieceCount(info: Info): nat { |info.pieces| / 20 }

  /** A torrent whose hash list has one hash for every piece, the last one short or not. */
  ghost predicate WellFormed(info: Info) {
    && 0 < Total(info) < 0x8000_0000
    && 0 < info.pieceLength < 0x8000_0000
    && PieceCount(info) > 0
    && (PieceCount(info) - 1) * info.pieceLength < Total(info) <= PieceCount(info) * info.pieceLength
  }

  /** What piece i holds: a full piece, or what is left of the torrent. */
  function PieceSize(info: Info, i: nat): int {
    if info.pieceLength <= Total(info) - i * info.pieceLength then info.pieceLength
    else Total(info) - i * info.pieceLength
  }

  /** Conversion to int32_t. */
  function Int32(x: int): int32 { (x + 0x8000_0000) % 0x1_0000_0000 - 0x8000_0000 }

  function GetIndexEnd(info: Info): int32 { Int32(PieceCount(info) - 1) }

  method GetFileTotal(info: Info) returns (ret: nat)
    ensures ret == Total(info)
  {
    if info.single {
      return info.length;
    }
    ret := 0;
    for k := 0 to |info.files|
      invariant ret == FilesTotal(info.files[..k])
    {
      assert info.files[..k + 1][..k] == info.files[..k];
      ret := ret + info.files[k].length;
    }
    assert info.files[..|info.files|] == info.files;
  }

  /** The file lengths added up in an int32_t. */
  method FilesTotal32(info: Info) returns (ret: int32)
    requires FilesTotal(info.files) < 0x8000_0000
    ensures ret == FilesTotal(info.files)
  {
    ret := 0;
    for k := 0 to |info.files|
      invariant ret == FilesTotal(info.files[..k])
    {
      FilesTotalMonotone(info.files, k + 1);
      assert info.files[..k + 1][..k] == info.files[..k];
      ret := Int32(ret + info.files[k].length);
    }
    assert info.files[..|info.files|] == info.files;
  }

  lemma {:induction false} FilesTotalMonotone(files: seq<File>, k: nat)
    requires k <= |files|
    ensures FilesTotal(files[..k]) <= FilesTotal(files)
    decreases |files|
  {
    if k < |files| {
      FilesTotalMonotone(files[..|files| - 1], k);
      assert files[..|files| - 1][..k] == files[..k];
    } else {
      assert files[..k] == files;
    }
  }

  lemma LastPieceSize(info: Info, i: nat)
    requires WellFormed(info) && i < PieceCount(info)
    ensures PieceSize(info, i) == if i == PieceCount(info) - 1 then Total(info) - i * info.pieceLength
                                  else info.pieceLength
    ensures 0 < PieceSize(info, i) <= info.pieceLength
    ensures GetIndexEnd(info) == PieceCount(info) - 1
    ensures 0 < Total(info) < 0x8000_0000 && 0 < info.pieceLength < 0x8000_0000
  {
    var n, p := PieceCount(info), info.pieceLength;
    assert n * p == (n - 1) * p + p;
    MulAtLeast(n - 1, p);
    if i < n - 1 {
      assert (n - 1) * p - i * p == (n - 1 - i) * p;
      MulAtLeast(n - 1 - i, p);
    }
  }

  lemma MulAtLeast(a: nat, b: nat)
    ensures b > 0 ==> a * b >= a
    ensures a > 0 ==> a * b >= b
  {
  }

  /** GetPieceLength, branch by branch. */
  method GetPieceLength(info: Info, index: int32) returns (ret: int32)
    requires WellFormed(info)
    ensures 0 <= index < PieceCount(info) ==> ret == PieceSize(info, index)
    ensures index < 0 ==> ret == 0
    ensures index >= PieceCount(info) ==> ret == info.pieceLength
  {
    ret := 0;
    if index < 0 {
      return 0;
    }
    LastPieceSize(info, 0);
    if index < PieceCount(info) {
      LastPieceSize(info, index);
    }
    var count := GetIndexEnd(info);
    if count == index && 0 == count {
      if info.single {
        ret := Int32(info.length);
      } else {
        ret := FilesTotal32(info);
      }
    } else if count == index {
      if info.single {
        ret := Int32(info.length - count * info.pieceLength);
      } else {
        ret := FilesTotal32(info);
        ret := Int32(ret - count * info.pieceLength);
      }
    } else {
      ret := info.pieceLength;
    }
  }

  /** GetIndexEndLength is the size of the last piece. */
  method GetIndexEndLength(info: Info) returns (ret: int32)
    requires WellFormed(info)
    ensures ret == PieceSize(info, PieceCount(info) - 1)
  {
    var total := GetFileTotal(info);
    LastPieceSize(info, PieceCount(info) - 1);
    ret := Int32(total - GetIndexEnd(info) * info.pieceLength);
  }

  function SumOfPieces(info: Info, n: nat): int {
    if n == 0 then 0 else SumOfPieces(info, n - 1) + PieceSize(info, n - 1)
  }

  lemma {:induction false} PiecePrefix(info: Info, n: nat)
    requires WellFormed(info) && n < PieceCount(info)
    ensures SumOfPieces(info, n) == n * info.pieceLength
  {
    if n == 0 {
    } else {
      PiecePrefix(info, n - 1);
      LastPieceSize(info, n - 1);
    }
  }

  /** The pieces add up to the torrent. */
  lemma PiecesSumToTotal(info: Info)
    requires WellFormed(info)
    ensures SumOfPieces(info, PieceCount(info)) == Total(info)
  {
    var n := PieceCount(info) - 1;
    PiecePrefix(info, n);
    LastPieceSize(info, n);
  }

  /** A byte range of one file. */
  datatype Range = Range(path: string, begin: int32, length: int32)

  function Offset(info: Info, i: int): int { i * info.pieceLength }

  /** GetFileName for a single-file torrent. */
  function SingleFileRange(info: Info, index: int32, begin: int32, length: int32): seq<Range> {
    if index < 0 then []
    else if index == GetIndexEnd(info) then
      var first := Int32(Offset(info, index));
      [Range(info.name, first, Int32(Total(info) - first))]
    else [Range(info.name, Int32(Offset(info, index) + begin), length)]
  }

  /** The one-argument GetFileName: the whole piece. */
  function WholePiece(info: Info, index: int32): seq<Range> {
    SingleFileRange(info, index, 0, Int32(info.pieceLength))
  }

  lemma PieceOffset(info: Info, i: nat)
    requires WellFormed(info) && i < PieceCount(info)
    ensures i < 0x8000_0000 && 0 <= Offset(info, i) < Total(info) < 0x8000_0000
    ensures info.pieceLength < 0x8000_0000
    ensures PieceSize(info, i) == if i == GetIndexEnd(info) then Total(info) - Offset(info, i) else info.pieceLength
  {
    hide WellFormed, PieceSize, GetIndexEnd, PieceCount, Total;
    LastPieceSize(info, i);
    PieceStart(info, i);
  }

  lemma WholePieceRange(info: Info, i: nat)
    requires WellFormed(info) && i < PieceCount(info)
    ensures i < 0x8000_0000 && 0 <= Offset(info, i) < Total(info) < 0x8000_0000
    ensures WholePiece(info, i) == [Range(info.name, Offset(info, i), PieceSize(info, i))]
  {
    hide Int32, PieceSize, Offset, WellFormed, GetIndexEnd, PieceCount, Total;
    PieceOffset(info, i);
    var offset := Offset(info, i);
    Int32Identity(offset);
    Int32Identity(Total(info) - offset);
    Int32Identity(info.pieceLength);
    assert offset + 0 == offset;
  }

  /** The conversion wraps: it is the int32_t that differs by a multiple of 2^32. */
  lemma Int32Wraps(x: int, y: int32)
    ensures Int32(x) == y <==> (x - y) % 0x1_0000_0000 == 0
  {
  }

  /** A slice's range is at its offset in the file, but in the last piece GetFileName returns the whole
      piece whatever slice it is asked for. */
  lemma SliceRange(info: Info, i: nat, begin: int32, length: int32)
    requires WellFormed(info) && i < PieceCount(info) && 0 <= begin && i * info.pieceLength + begin < 0x8000_0000
    ensures i < 0x8000_0000
    ensures SingleFileRange(info, i, begin, length) ==
            if i == PieceCount(info) - 1 then [Range(info.name, Offset(info, i), PieceSize(info, i))]
            else [Range(info.name, Offset(info, i) + begin, length)]
  {
    LastPieceSize(info, i);
    WholePieceRange(info, i);
    hide Int32, WellFormed, PieceSize;
    if i != PieceCount(info) - 1 {
      Int32Identity(Offset(info, i) + begin);
    }
  }

  lemma Int32Identity(x: int)
    requires -0x8000_0000 <= x < 0x8000_0000
    ensures Int32(x) == x
  {
  }

  lemma PieceStart(info: Info, i: nat)
    requires WellFormed(info) && i < PieceCount(info)
    ensures i < 0x8000_0000 && i * info.pieceLength < Total(info)
  {
    MulOrder(i, PieceCount(info) - 1, info.pieceLength);
    MulAtLeast(i, info.pieceLength);
  }

  lemma MulOrder(a: nat, b: nat, c: nat)
    requires a <= b
    ensures a * c <= b * c
  {
  }

  lemma QuotientRange(o: nat, p: nat, i: nat)
    requires p > 0
    ensures i == o / p <==> i * p <= o < i * p + p
  {
    var q := o / p;
    assert o == q * p + o % p;
    if i < q {
      MulOrder(i + 1, q, p);
      assert (i + 1) * p == i * p + p;
    } else if q < i {
      MulOrder(q + 1, i, p);
      assert (q + 1) * p == q * p + p;
    }
  }

  /** Every byte of the file belongs to exactly one piece's range. */
  lemma WholePiecesTile(info: Info, i: nat, o: nat)
    requires WellFormed(info) && i < PieceCount(info) && o < Total(info)
    ensures i < 0x8000_0000 && |WholePiece(info, i)| == 1
    ensures var r := WholePiece(info, i)[0]; r.begin <= o < r.begin + r.length <==> i == o / info.pieceLength
    ensures o / info.pieceLength < PieceCount(info)
  {
    WholePieceRange(info, i);
    LastPieceSize(info, i);
    var p, n := info.pieceLength, PieceCount(info);
    QuotientRange(o, p, i);
    assert n * p == (n - 1) * p + p;
    PieceOfByte(info, o);
    hide WellFormed, PieceSize, WholePiece;
  }

  lemma PieceOfByte(info: Info, o: nat)
    requires WellFormed(info) && o < Total(info)
    ensures o / info.pieceLength < PieceCount(info)
  {
    var p, n := info.pieceLength, PieceCount(info);
    var q := o / p;
    assert q * p <= o;
    if q >= n {
      MulOrder(n, q, p);
    }
  }

  /** GetPieceBit: the number of slices of a piece. */
  function GetPieceBit(info: Info, i: nat): int {
    var ret := PieceSize(info, i);
    if ret % SLICESIZE == 0 then ret / SLICESIZE else ret / SLICESIZE + 1
  }

  datatype EndSlice = NotEnd | End(length: int)

  /** CheckEndSlice(index). */
  function CheckEndSlice(info: Info, i: nat): EndSlice {
    if i == GetIndexEnd(info) then
      var rest := PieceSize(info, i) % SLICESIZE;
      End(if rest == 0 then SLICESIZE else rest)
    else NotEnd
  }

  /** CheckEndSlice(index, begin). */
  function CheckEndSliceAt(info: Info, i: nat, begin: int32): EndSlice {
    if i != GetIndexEnd(info) then NotEnd
    else
      var size := PieceSize(info, i);
      if size < SLICESIZE then End(if begin == 0 then size else -1)
      else if begin % SLICESIZE == 0 then
        End(if begin + SLICESIZE > size then size % SLICESIZE else SLICESIZE)
      else End(-1)
  }

  /** The two length checks at the head of DPiece. */
  predicate Accepts(info: Info, i: nat, begin: int32, length: int) {
    match CheckEndSliceAt(info, i, begin)
    case NotEnd => length == SLICESIZE
    case End(n) => length == n
  }

  datatype Request = Request(begin: int, length: int)

  /** The length of slice k: whole, but for the last slice of the last piece. */
  function SliceLength(info: Info, i: nat, k: nat): int {
    match CheckEndSlice(info, i)
    case NotEnd => SLICESIZE
    case End(n) => if k == GetPieceBit(info, i) - 1 then n else SLICESIZE
  }

  /** Slice 0 is asked for by SendReq, always whole, and the others by DPiece. */
  function RequestLength(info: Info, i: nat, k: nat): int {
    if k == 0 then SLICESIZE else SliceLength(info, i, k)
  }

  /** The loop of DPiece over slices 1 .. size - 1. */
  method SliceRequests(info: Info, i: nat) returns (requests: seq<Request>)
    requires WellFormed(info) && i < PieceCount(info)
    ensures |requests| == GetPieceBit(info, i) - 1
    ensures forall k :: 1 <= k < GetPieceBit(info, i) ==>
      requests[k - 1] == Request(k * SLICESIZE, RequestLength(info, i, k))
  {
    LastPieceSize(info, i);
    var size, endSlice := GetPieceBit(info, i), CheckEndSlice(info, i);
    requests := [];
    for k := 1 to size
      invariant |requests| == k - 1
      invariant forall n :: 1 <= n < k ==> requests[n - 1] == Request(n * SLICESIZE, RequestLength(info, i, n))
    {
      if k == size - 1 && endSlice.End? {
        requests := requests + [Request(k * SLICESIZE, endSlice.length)];
      } else {
        requests := requests + [Request(k * SLICESIZE, SLICESIZE)];
      }
    }
  }

  /** Where slice k ends when slices of SLICESIZE bytes are cut from a piece. */
  function SliceEnd(info: Info, i: nat, k: nat): int {
    if (k + 1) * SLICESIZE <= PieceSize(info, i) then (k + 1) * SLICESIZE else PieceSize(info, i)
  }

  /** Whole slices: the last piece, or any piece when slices divide the piece length. */
  predicate Sliceable(info: Info, i: nat) { i == GetIndexEnd(info) || info.pieceLength % SLICESIZE == 0 }

  /** Each slice is exactly the next stretch of the piece. */
  lemma SlicesAreStretches(info: Info, i: nat, k: nat)
    requires WellFormed(info) && i < PieceCount(info) && Sliceable(info, i)
    requires k < GetPieceBit(info, i)
    ensures k * SLICESIZE + SliceLength(info, i, k) == SliceEnd(info, i, k)
    ensures k * SLICESIZE < SliceEnd(info, i, k)
    ensures k == GetPieceBit(info, i) - 1 <==> SliceEnd(info, i, k) == PieceSize(info, i)
  {
    LastPieceSize(info, i);
  }

  /** DPiece accepts exactly the slice's length for the begin of a slice. */
  lemma AcceptsSlices(info: Info, i: nat, k: nat, length: int)
    requires WellFormed(info) && i < PieceCount(info) && k < GetPieceBit(info, i)
    ensures k * SLICESIZE < 0x8000_0000
    ensures Accepts(info, i, k * SLICESIZE, length) <==> length == SliceLength(info, i, k)
  {
    LastPieceSize(info, i);
    var size := PieceSize(info, i);
    assert k * SLICESIZE < size;
    assert (k * SLICESIZE) % SLICESIZE == 0;
  }

  /** The last piece may be shorter than the first slice that SendReq asks for. */
  predicate ShortPiece(info: Info, i: nat) { i == GetIndexEnd(info) && PieceSize(info, i) < SLICESIZE }

  /** What is requested is what DPiece accepts, except for slice 0 of a short last piece. */
  lemma AcceptsWhatIsRequested(info: Info, i: nat, k: nat)
    requires WellFormed(info) && i < PieceCount(info) && k < GetPieceBit(info, i)
    ensures k * SLICESIZE < 0x8000_0000
    ensures Accepts(info, i, k * SLICESIZE, RequestLength(info, i, k)) <==> k > 0 || !ShortPiece(info, i)
  {
    AcceptsSlices(info, i, k, RequestLength(info, i, k));
    LastPieceSize(info, i);
  }

  /** 32868 bytes in pieces of 32768: the last piece has 100, and its first request asks for
      16384, which DPiece does not accept. */
  lemma FirstRequestRefused()
    ensures var info := Info(true, "f", 32868, [], 32768, seq(40, (_: int) => 0 as byte));
            WellFormed(info) && PieceSize(info, 1) == 100 && RequestLength(info, 1, 0) == 16384 &&
            !Accepts(info, 1, 0, RequestLength(info, 1, 0)) && Accepts(info, 1, 0, 100)
  {
    var info := Info(true, "f", 32868, [], 32768, seq(40, (_: int) => 0 as byte));
    assert PieceCount(info) == 2;
    AcceptsWhatIsRequested(info, 1, 0);
  }

  /** A slice that DPiece accepts lies inside the piece exactly for these begins. */
  lemma AcceptedInside(info: Info, i: nat, begin: int32, length: int)
    requires WellFormed(info) && i < PieceCount(info) && Accepts(info, i, begin, length) && length > 0
    ensures 0 <= begin && begin + length <= PieceSize(info, i) <==>
            0 <= begin && if i == GetIndexEnd(info) then begin < PieceSize(info, i)
                          else begin <= info.pieceLength - SLICESIZE
  {
    LastPieceSize(info, i);
  }

  /** In pieces of 32768 bytes an accepted slice may lie before the first piece, behind it or across its end. */
  lemma AcceptedOutside()
    ensures var info := Info(true, "f", 65536, [], 32768, seq(40, (_: int) => 0 as byte));
            WellFormed(info) && PieceSize(info, 0) == 32768 &&
            Accepts(info, 0, -16384, 16384) && Accepts(info, 0, 32768, 16384) && Accepts(info, 0, 20000, 16384)
  {
    var info := Info(true, "f", 65536, [], 32768, seq(40, (_: int) => 0 as byte));
    assert PieceCount(info) == 2 && CheckEndSliceAt(info, 0, -16384) == NotEnd;
  }

  function SumOfSlices(info: Info, i: nat, n: int): int {
    if n <= 0 then 0 else SumOfSlices(info, i, n - 1) + SliceLength(info, i, n - 1)
  }

  lemma {:induction false} SlicePrefix(info: Info, i: nat, n: nat)
    requires WellFormed(info) && i < PieceCount(info) && n < GetPieceBit(info, i)
    ensures SumOfSlices(info, i, n) == n * SLICESIZE < PieceSize(info, i)
  {
    LastPieceSize(info, i);
    if n == 0 {
    } else {
      SlicePrefix(info, i, n - 1);
    }
  }

  /** The slices of a piece add up to it, so that its countdown reaches 0 at the last slice
      and not before, exactly when the piece divides into slices. */
  lemma SlicesSumToPiece(info: Info, i: nat)
    requires WellFormed(info) && i < PieceCount(info)
    ensures SumOfSlices(info, i, GetPieceBit(info, i)) == PieceSize(info, i) <==> Sliceable(info, i)
    ensures forall n :: 0 <= n < GetPieceBit(info, i) ==> SumOfSlices(info, i, n) < PieceSize(info, i)
  {
    LastPieceSize(info, i);
    var n := GetPieceBit(info, i) - 1;
    SlicePrefix(info, i, n);
    forall m | 0 <= m < GetPieceBit(info, i)
      ensures SumOfSlices(info, i, m) < PieceSize(info, i)
    {
      SlicePrefix(info, i, m);
    }
  }

  /** Pieces of 20000 bytes: the slices DPiece accepts for the first come to 32768. */
  lemma SlicesOvershoot()
    ensures var info := Info(true, "f", 40000, [], 20000, seq(40, (_: int) => 0 as byte));
            WellFormed(info) && GetPieceBit(info, 0) == 2 &&
            SumOfSlices(info, 0, 2) == 32768 && PieceSize(info, 0) == 20000
  {
    var info := Info(true, "f", 40000, [], 20000, seq(40, (_: int) => 0 as byte));
    assert PieceCount(info) == 2 && CheckEndSlice(info, 0) == NotEnd;
    assert SumOfSlices(info, 0, 1) == 16384;
  }
}
