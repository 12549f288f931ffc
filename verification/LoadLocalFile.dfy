/** BitField::LoadLocalFile for a single-file torrent: which bits a download starts with. */
module LoadLocalFile {
  import opened Bytes
  import opened TorrentFile
  import opened BitMemory
  import opened DownloadSafety
  import BitField
  import EngineRuns
  import Sha1
  import Sha1Spec
  import WholeDownload

  /** std::string::resize. */
  function Resize(s: seq<byte>, n: nat): (r: seq<byte>)
    ensures |r| == n
  {
    if n <= |s| then s[..n] else s + seq(n - |s|, _ => 0)
  }

  /** What File::Read finds at an offset. A file that cannot be opened is read as an empty one. */
  function Available(content: seq<byte>, offset: nat, length: nat): (n: nat)
    ensures n <= length && (n > 0 ==> offset + n <= |content|)
  {
    if |content| <= offset then 0 else if |content| - offset < length then |content| - offset else length
  }

  function Start(info: Info, i: nat): nat { i * info.pieceLength }

  function Size(info: Info, i: nat): nat { if PieceSize(info, i) < 0 then 0 else PieceSize(info, i) }

  /** sha1_str once piece n - 1 has been read: where there is nothing to read it keeps what it had. */
  function BufferAfter(info: Info, content: seq<byte>, n: nat): (s: seq<byte>)
    ensures n > 0 ==> |s| == Size(info, n - 1)
  {
    if n == 0 then []
    else
      var b := Resize(BufferAfter(info, content, n - 1), Size(info, n - 1));
      var a := Available(content, Start(info, n - 1), Size(info, n - 1));
      if a == 0 then b else content[Start(info, n - 1)..Start(info, n - 1) + a] + b[a..]
  }

  /** The program ends when a piece can be read only in part. */
  predicate Partial(info: Info, content: seq<byte>, i: nat) {
    0 < Available(content, Start(info, i), Size(info, i)) < Size(info, i)
  }

  /** The bits that are set by the first n pieces. */
  function Loaded(info: Info, content: seq<byte>, n: nat): set<nat> {
    set i: nat | i < n && Matches(info, content, i)
  }

  predicate Matches(info: Info, content: seq<byte>, i: nat) { Hashes(info, i, BufferAfter(info, content, i + 1)) }

  lemma SizeIs(info: Info, i: nat)
    requires WellFormed(info) && i < PieceCount(info)
    ensures Size(info, i) == PieceSize(info, i) == Length(info, i) && Start(info, i) == Offset(info, i)
    ensures 0 < Size(info, i) < 0x8000_0000 && Start(info, i) + Size(info, i) <= Total(info) && i < 0x8000_0000
  {
    LastPieceSize(info, i);
    PieceRange(info, i);
    PieceOffset(info, i);
  }

  /** Reads piece i over what the buffer holds. */
  method ReadPiece(info: Info, content: seq<byte>, i: nat, before: seq<byte>) returns (quit: bool, buf: seq<byte>)
    requires before == BufferAfter(info, content, i)
    ensures quit <==> Partial(info, content, i)
    ensures !quit ==> buf == BufferAfter(info, content, i + 1)
  {
    quit := false;
    buf := Resize(before, Size(info, i));
    var n := Available(content, Start(info, i), Size(info, i));
    if n != Size(info, i) && n != 0 {
      return true, buf;
    }
    if n > 0 {
      buf := content[Start(info, i)..Start(info, i) + n] + buf[n..];
    }
  }

  /** Hash, compare and fill. */
  method Mark(info: Info, i: nat, buf: seq<byte>, bitField: BitField.BitField)
    requires bitField.Valid() && i < bitField.total && i < 0x8000_0000 && |buf| < 0x8000_0000
    modifies bitField
    ensures bitField.Valid() && bitField.total == old(bitField.total)
    ensures bitField.Present() == old(bitField.Present()) + if Hashes(info, i, buf) then {i} else {}
  {
    hide Sha1Spec.Digest;
    assert |bitField.prefixAndBitField| > 5 && i < 8 * (|bitField.prefixAndBitField| - 5);
    hide BitField.BitField.Valid, BitField.BitField.Present;
    var digest := Sha1.Sha1(buf);
    if digest == GetHash(info, i) {
      bitField.FillBitField(i);
    }
  }

  /** One turn of the loop. */
  method LoadPiece(info: Info, content: seq<byte>, i: nat, before: seq<byte>, bitField: BitField.BitField)
    returns (quit: bool, buf: seq<byte>)
    requires WellFormed(info) && i < PieceCount(info) == bitField.total && bitField.Valid()
    requires before == BufferAfter(info, content, i)
    modifies bitField
    ensures quit <==> Partial(info, content, i)
    ensures bitField.Valid() && bitField.total == old(bitField.total)
    ensures !quit ==>
      && buf == BufferAfter(info, content, i + 1)
      && bitField.Present() == old(bitField.Present()) + if Matches(info, content, i) then {i} else {}
  {
    SizeIs(info, i);
    hide BitField.BitField.Valid, BitField.BitField.Present, WellFormed, PieceCount, Partial, Hashes, Size;
    quit, buf := ReadPiece(info, content, i, before);
    if !quit {
      Mark(info, i, buf, bitField);
    }
  }

  ghost predicate After(info: Info, content: seq<byte>, present: set<nat>, n: nat, s: seq<byte>,
                        bitField: BitField.BitField)
    reads bitField
  {
    && bitField.Valid() && bitField.total == PieceCount(info) && s == BufferAfter(info, content, n)
    && bitField.Present() == present + Loaded(info, content, n) && !AnyPartial(info, content, n)
  }

  method LoadNext(info: Info, content: seq<byte>, ghost present: set<nat>, i: nat, before: seq<byte>,
                  bitField: BitField.BitField) returns (quit: bool, buf: seq<byte>)
    requires WellFormed(info) && i < PieceCount(info) && After(info, content, present, i, before, bitField)
    modifies bitField
    ensures bitField.Valid() && bitField.total == PieceCount(info)
    ensures if quit then AnyPartial(info, content, PieceCount(info))
            else After(info, content, present, i + 1, buf, bitField)
  {
    quit, buf := LoadPiece(info, content, i, before, bitField);
    hide BitField.BitField.Valid, BitField.BitField.Present, WellFormed, PieceCount, Matches, BufferAfter, Loaded;
    if quit {
      PartialLater(info, content, i, PieceCount(info));
    } else {
      LoadedStep(info, content, present, i);
    }
  }

  /** The loop over the pieces. */
  method Load(info: Info, content: seq<byte>, bitField: BitField.BitField) returns (quit: bool)
    requires WellFormed(info) && bitField.Valid() && bitField.total == PieceCount(info)
    modifies bitField
    ensures quit <==> AnyPartial(info, content, PieceCount(info))
    ensures bitField.Valid() && bitField.total == PieceCount(info)
    ensures !quit ==> bitField.Present() == old(bitField.Present()) + Loaded(info, content, PieceCount(info))
  {
    ghost var present := bitField.Present();
    var buf := [];
    LoadedNone(info, content);
    for i := 0 to PieceCount(info)
      invariant After(info, content, present, i, buf, bitField)
    {
      quit, buf := LoadNext(info, content, present, i, buf, bitField);
      if quit {
        return;
      }
    }
    quit := false;
  }

  predicate AnyPartial(info: Info, content: seq<byte>, n: nat) {
    exists i :: 0 <= i < n && Partial(info, content, i)
  }

  lemma PartialLater(info: Info, content: seq<byte>, i: nat, n: nat)
    requires i < n && Partial(info, content, i)
    ensures AnyPartial(info, content, n)
  {
  }

  lemma LoadedNone(info: Info, content: seq<byte>)
    ensures Loaded(info, content, 0) == {} && BufferAfter(info, content, 0) == [] && !AnyPartial(info, content, 0)
  {
  }

  lemma LoadedStep(info: Info, content: seq<byte>, present: set<nat>, i: nat)
    ensures present + Loaded(info, content, i + 1) ==
            present + Loaded(info, content, i) + if Matches(info, content, i) then {i} else {}
    ensures AnyPartial(info, content, i + 1) <==> AnyPartial(info, content, i) || Partial(info, content, i)
  {
    hide BufferAfter, Hashes, Partial;
  }

  // What is loaded.

  /** A piece that is in the file is judged by its own bytes. */
  lemma ReadsPiece(info: Info, content: seq<byte>, i: nat)
    requires WellFormed(info) && i < PieceCount(info) && Start(info, i) + Size(info, i) <= |content|
    ensures BufferAfter(info, content, i + 1) == OnDisk(info, content, i) && !Partial(info, content, i)
  {
    SizeIs(info, i);
    var n := Size(info, i);
    assert Resize(BufferAfter(info, content, i), n)[n..] == [];
    assert content[Start(info, i)..Start(info, i) + n] + [] == content[Start(info, i)..Start(info, i) + n];
  }

  /** With the whole file there, exactly the pieces that have the torrent's hash are loaded, and
      the download may start. */
  lemma WholeFile(info: Info, content: seq<byte>)
    requires WellFormed(info) && |content| == Total(info)
    ensures forall i :: 0 <= i < PieceCount(info) ==> !Partial(info, content, i)
    ensures forall i: nat :: i in Loaded(info, content, PieceCount(info)) <==>
              i < PieceCount(info) && Hashes(info, i, OnDisk(info, content, i))
    ensures Downloaded(info, content, Loaded(info, content, PieceCount(info)))
    ensures info.pieceLength <= 2 * BLOCK ==>
      EngineRuns.Torrent(info, content, Loaded(info, content, PieceCount(info)))
  {
    hide Hashes, Partial, BufferAfter, OnDisk;
    forall i: nat | i < PieceCount(info)
      ensures !Partial(info, content, i) && BufferAfter(info, content, i + 1) == OnDisk(info, content, i)
    {
      SizeIs(info, i);
      ReadsPiece(info, content, i);
    }
    hide WellFormed, PieceCount, Total;
  }

  /** The finished file of a torrent loads every bit. */
  lemma OwnFile(info: Info, t: seq<byte>)
    requires WholeDownload.TorrentOf(info, t)
    ensures Loaded(info, t, PieceCount(info)) == BitField.Below(PieceCount(info))
  {
    WholeFile(info, t);
    hide Hashes, OnDisk, Loaded;
    forall i: nat | i < PieceCount(info)
      ensures i in Loaded(info, t, PieceCount(info))
    {
      RangeInside(info, i);
      WholeDownload.HashesOwnPiece(info, t, i, []);
    }
  }

  lemma {:induction false} NothingRead(info: Info, n: nat)
    ensures BufferAfter(info, [], n) == if n == 0 then [] else seq(Size(info, n - 1), _ => 0)
    decreases n
  {
    if n == 0 {
    } else {
      NothingRead(info, n - 1);
      hide Size;
    }
  }

  /** Without a file the bits of exactly those pieces are set that would be all zero. */
  lemma NoFile(info: Info)
    requires WellFormed(info)
    ensures forall i: nat :: i in Loaded(info, [], PieceCount(info)) <==>
              i < PieceCount(info) && Hashes(info, i, seq(Size(info, i), _ => 0))
  {
    hide Hashes, BufferAfter, Size, PieceCount;
    forall i: nat
      ensures BufferAfter(info, [], i + 1) == seq(Size(info, i), _ => 0)
    {
      NothingRead(info, i + 1);
    }
  }

  /** A piece of which nothing is in the file is judged by what was read before it, so that a bit
      stands for a piece in the file if and only if no such piece has that hash. */
  lemma LoadsWhatIsThere(info: Info, content: seq<byte>)
    requires WellFormed(info) && forall i :: 0 <= i < PieceCount(info) ==> !Partial(info, content, i)
    ensures (forall i :: i in Loaded(info, content, PieceCount(info)) ==>
               Start(info, i) + Size(info, i) <= |content| && Hashes(info, i, OnDisk(info, content, i))) <==>
            (forall i :: 0 <= i < PieceCount(info) && |content| <= Start(info, i) ==>
               !Hashes(info, i, Resize(BufferAfter(info, content, i), Size(info, i))))
  {
    hide Hashes, BufferAfter, OnDisk, Resize, Start, Size, WellFormed, Partial, PieceCount;
    forall i: nat | i < PieceCount(info)
      ensures 0 < Size(info, i)
      ensures Start(info, i) + Size(info, i) <= |content| || |content| <= Start(info, i)
      ensures Start(info, i) + Size(info, i) <= |content| ==>
        BufferAfter(info, content, i + 1) == OnDisk(info, content, i)
      ensures |content| <= Start(info, i) ==>
        BufferAfter(info, content, i + 1) == Resize(BufferAfter(info, content, i), Size(info, i))
    {
      ReadOrKept(info, content, i);
    }
  }

  /** A download starts, or is resumed, from a file of any length under that condition. What is
      behind the end of the file counts as zero bytes, which is how it reads after a later write. */
  lemma DownloadStarts(info: Info, content: seq<byte>)
    requires WellFormed(info) && info.pieceLength <= 2 * BLOCK && |content| <= Total(info)
    requires forall i :: 0 <= i < PieceCount(info) ==> !Partial(info, content, i)
    requires forall i :: 0 <= i < PieceCount(info) && |content| <= Start(info, i) ==>
      !Hashes(info, i, Resize(BufferAfter(info, content, i), Size(info, i)))
    ensures EngineRuns.Torrent(info, Resize(content, Total(info)), Loaded(info, content, PieceCount(info)))
  {
    hide Hashes, Partial, BufferAfter, OnDisk, WellFormed, PieceCount, Total, Start, Size, Resize, Matches;
    LoadsWhatIsThere(info, content);
    forall i | i in Loaded(info, content, PieceCount(info))
      ensures i < PieceCount(info) && Hashes(info, i, OnDisk(info, Resize(content, Total(info)), i))
    {
      PaddedOnDisk(info, content, i);
    }
    hide Loaded;
  }

  lemma PaddedOnDisk(info: Info, content: seq<byte>, i: nat)
    requires WellFormed(info) && i < PieceCount(info) && Start(info, i) + Size(info, i) <= |content| <= Total(info)
    ensures OnDisk(info, Resize(content, Total(info)), i) == OnDisk(info, content, i)
  {
    SizeIs(info, i);
    hide WellFormed, PieceCount, Total, Size, Start, Offset, Length;
  }

  lemma ReadOrKept(info: Info, content: seq<byte>, i: nat)
    requires WellFormed(info) && i < PieceCount(info) && !Partial(info, content, i)
    ensures 0 < Size(info, i)
    ensures Start(info, i) + Size(info, i) <= |content| || |content| <= Start(info, i)
    ensures Start(info, i) + Size(info, i) <= |content| ==>
      BufferAfter(info, content, i + 1) == OnDisk(info, content, i)
    ensures |content| <= Start(info, i) ==>
      BufferAfter(info, content, i + 1) == Resize(BufferAfter(info, content, i), Size(info, i))
  {
    SizeIs(info, i);
    if Start(info, i) + Size(info, i) <= |content| {
      ReadsPiece(info, content, i);
    }
  }

  /** One byte, which should be 0, and no file: the bit is set. */
  lemma ZeroPieceWithoutFile()
    ensures var info := Info(true, "f", 1, [], 16384, Sha1Spec.Digest([0]));
            WellFormed(info) && 0 in Loaded(info, [], PieceCount(info))
  {
    var info := Info(true, "f", 1, [], 16384, Sha1Spec.Digest([0]));
    hide Sha1Spec.Digest;
    NoFile(info);
    assert Size(info, 0) == 1;
    assert seq(1, _ => 0 as byte) == [0];
    assert Sha1Spec.Digest([0])[0..20] == Sha1Spec.Digest([0]);
  }
}
