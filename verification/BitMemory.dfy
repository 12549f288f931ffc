/** BitTorrent/CszBitMemory.cpp: slices of a piece collected in blocks of 512 KiB, counted
    down, hashed and written out. */
module BitMemory {
  import opened Bytes
  import opened Network
  import opened TorrentFile
  import BitField
  import NeedPiece
  import Sha1
  import Sha1Spec

  const BLOCK: nat := 512 * 1024

  function BlockCount(length: nat): nat { (length + BLOCK - 1) / BLOCK }

  /** A block is 512 KiB, and a piece has as many as it needs. */
  lemma BlockSizes()
    ensures BlockCount(0x8_0000) == 1 && BlockCount(0x8_0001) == 2 && BlockCount(0x10_0000) == 2 && BlockCount(1) == 1
  {
  }

  /** A flat byte array with `data` copied over [begin, begin + |data|). */
  function Patch(s: seq<byte>, begin: int, data: seq<byte>): (r: seq<byte>)
    ensures |r| == |s|
  {
    if 0 <= begin && begin + |data| <= |s| then s[..begin] + data + s[begin + |data|..] else s
  }

  function Head(s: seq<byte>, n: int): seq<byte> { if 0 <= n <= |s| then s[..n] else s }

  lemma PatchAt(s: seq<byte>, begin: nat, data: seq<byte>, k: nat)
    requires begin + |data| <= |s| && k < |s|
    ensures Patch(s, begin, data)[k] == if begin <= k < begin + |data| then data[k - begin] else s[k]
  {
  }

  lemma PatchTwice(s: seq<byte>, begin: nat, l: seq<byte>, r: seq<byte>)
    requires begin + |l| + |r| <= |s|
    ensures Patch(Patch(s, begin, l), begin + |l|, r) == Patch(s, begin, l + r)
  {
  }

  lemma InBlock(k: nat, b: nat)
    ensures k / BLOCK == b <==> BLOCK * b <= k < BLOCK * b + BLOCK
    ensures k / BLOCK == b ==> k % BLOCK == k - BLOCK * b
  {
  }

  predicate Blocks(img: seq<seq<byte>>) { forall k :: 0 <= k < |img| ==> |img[k]| == BLOCK }

  function Join(img: seq<seq<byte>>): (s: seq<byte>)
    requires Blocks(img)
    ensures |s| == BLOCK * |img|
  {
    seq(BLOCK * |img|, (k: nat) requires k < BLOCK * |img| => img[k / BLOCK][k % BLOCK])
  }

  lemma JoinAt(img: seq<seq<byte>>, k: nat)
    requires Blocks(img) && k < BLOCK * |img|
    ensures k / BLOCK < |img| && Join(img)[k] == img[k / BLOCK][k % BLOCK]
  {
  }

  lemma JoinPatchAt(img: seq<seq<byte>>, b: nat, at: nat, data: seq<byte>, k: nat)
    requires Blocks(img) && b < |img| && at + |data| <= BLOCK && k < BLOCK * |img|
    ensures Join(img[b := Patch(img[b], at, data)])[k] == Patch(Join(img), BLOCK * b + at, data)[k]
  {
    hide Patch, Join;
    JoinAt(img, k);
    JoinAt(img[b := Patch(img[b], at, data)], k);
    InBlock(k, b);
    PatchAt(Join(img), BLOCK * b + at, data, k);
    if k / BLOCK == b {
      PatchAt(img[b], at, data, k % BLOCK);
    }
  }

  lemma JoinPatch(img: seq<seq<byte>>, b: nat, at: nat, data: seq<byte>)
    requires Blocks(img) && b < |img| && at + |data| <= BLOCK
    ensures Join(img[b := Patch(img[b], at, data)]) == Patch(Join(img), BLOCK * b + at, data)
  {
    hide Patch, Join;
    var l, r := Join(img[b := Patch(img[b], at, data)]), Patch(Join(img), BLOCK * b + at, data);
    forall k | 0 <= k < |l|
      ensures l[k] == r[k]
    {
      JoinPatchAt(img, b, at, data, k);
    }
  }

  lemma JoinNext(img: seq<seq<byte>>, k: nat, m: nat)
    requires Blocks(img) && k < |img| && m <= BLOCK
    ensures BLOCK * k + m <= BLOCK * |img|
    ensures Join(img)[..BLOCK * k] + img[k][..m] == Join(img)[..BLOCK * k + m]
  {
    hide Join;
    var flat := Join(img);
    forall j | 0 <= j < m
      ensures flat[BLOCK * k + j] == img[k][j]
    {
      InBlock(BLOCK * k + j, k);
      JoinAt(img, BLOCK * k + j);
    }
    assert flat[BLOCK * k..BLOCK * k + m] == img[k][..m];
  }

  /** DataType: what is still missing, and the blocks. */
  class PieceBuffer {
    var curLen: int
    var blocks: seq<array<byte>>

    ghost predicate Valid()
      reads this, blocks
    {
      && (forall k :: 0 <= k < |blocks| ==> blocks[k].Length == BLOCK)
      && (forall j, k :: 0 <= j < k < |blocks| ==> blocks[j] != blocks[k])
    }

    ghost function Image(): (img: seq<seq<byte>>)
      requires Valid()
      reads this, blocks
      ensures |img| == |blocks| && Blocks(img)
    {
      seq(|blocks|, (k: nat) requires k < |blocks| && Valid() reads this, blocks => blocks[k][..])
    }

    /** The blocks as one flat array. */
    ghost function Flat(): (s: seq<byte>)
      requires Valid()
      reads this, blocks
      ensures |s| == BLOCK * |blocks|
    {
      Join(Image())
    }

    ghost function Value(): Piece
      requires Valid()
      reads this, blocks
    {
      Piece(curLen, Flat())
    }

    /** The first one or two blocks of the flat array. */
    lemma FlatHead(length: nat)
      requires Valid() && 0 < length <= 2 * BLOCK && |blocks| == BlockCount(length)
      ensures |blocks| == if length <= BLOCK then 1 else 2
      ensures length <= BLOCK ==> Flat()[..length] == blocks[0][..][..length]
      ensures length > BLOCK ==> Flat()[..length] == blocks[0][..] + blocks[1][..][..length - BLOCK]
    {
    }

    /** The allocation loop of Write. */
    constructor (length: nat)
      ensures Valid() && curLen == length && |blocks| == BlockCount(length)
      ensures forall k :: 0 <= k < |blocks| ==> fresh(blocks[k])
    {
      curLen := length;
      blocks := [];
      new;
      var curMemory: int := length;
      while curMemory > 0
        invariant Valid() && curLen == length
        invariant forall k :: 0 <= k < |blocks| ==> fresh(blocks[k])
        invariant curMemory == length - BLOCK * |blocks| && curMemory + BLOCK > 0
      {
        var buf := new byte[BLOCK];
        blocks := blocks + [buf];
        curMemory := curMemory - BLOCK;
      }
    }

    /** One memcpy into one block, seen in the flat array. */
    method CopyBlock(b: nat, at: nat, data: seq<byte>)
      requires Valid() && b < |blocks| && at + |data| <= BLOCK
      modifies blocks[b]
      ensures Valid() && Flat() == Patch(old(Flat()), BLOCK * b + at, data)
    {
      hide Join;
      ghost var img := Image();
      CopyInto(blocks[b], at, data);
      assert Image() == img[b := Patch(img[b], at, data)];
      hide Patch;
      JoinPatch(img, b, at, data);
    }

    /** The copy in Write: one memcpy, or two when the slice crosses a block boundary. */
    method CopyIn(begin: nat, buf: seq<byte>)
      requires Valid() && begin % BLOCK + |buf| <= 2 * BLOCK && begin + |buf| <= BLOCK * |blocks| && |buf| > 0
      modifies blocks
      ensures Valid() && Flat() == Patch(old(Flat()), begin, buf)
    {
      hide Flat, Patch;
      ghost var before := Flat();
      var blockIndex, at := begin / BLOCK, begin % BLOCK;
      if at + |buf| > BLOCK {
        var lhs := BLOCK - at;
        CopyBlock(blockIndex, at, buf[..lhs]);
        CopyBlock(blockIndex + 1, 0, buf[lhs..]);
        PatchTwice(before, begin, buf[..lhs], buf[lhs..]);
        assert buf[..lhs] + buf[lhs..] == buf;
      } else {
        CopyBlock(blockIndex, at, buf);
      }
    }

    /** The flat array up to some point of block k. */
    lemma FlatNext(k: nat, m: nat)
      requires Valid() && k < |blocks| && m <= BLOCK
      ensures BLOCK * k + m <= |Flat()|
      ensures Flat()[..BLOCK * k] + blocks[k][..m] == Flat()[..BLOCK * k + m]
    {
      hide Join;
      JoinNext(Image(), k, m);
    }

    /** The concatenation that is hashed. */
    method Assemble(length: nat) returns (data: seq<byte>)
      requires Valid() && 0 < length <= BLOCK * |blocks|
      ensures data == Flat()[..length]
    {
      hide Patch, Flat;
      if length <= BLOCK {
        FlatNext(0, length);
        data := blocks[0][..length];
      } else {
        data := [];
        var left: int := length;
        var k := 0;
        while k < |blocks| && left > 0
          invariant 0 <= k <= |blocks|
          invariant left == length - BLOCK * k || (left <= 0 && |data| == length)
          invariant |data| == if left > 0 then BLOCK * k else length
          invariant data == Flat()[..|data|]
          decreases |blocks| - k
        {
          if left > BLOCK {
            FlatNext(k, BLOCK);
            data := data + blocks[k][..];
          } else {
            FlatNext(k, left);
            data := data + blocks[k][..left];
          }
          left := left - BLOCK;
          k := k + 1;
        }
      }
    }
  }

  // What Write does to one piece, on values.

  /** A piece in memory: the bytes still missing and the flat contents of its blocks, none
      once it has been written out. */
  datatype Piece = Piece(curLen: int, data: seq<byte>)

  /** GetHash: the 20 bytes of the index, or nothing. */
  function GetHash(info: Info, index: int): seq<byte> {
    if index < 0 || (index + 1) * 20 > |info.pieces| then [] else info.pieces[20 * index..20 * index + 20]
  }

  /** The piece's bytes have the SHA-1 that the torrent lists. */
  predicate Hashes(info: Info, index: int, data: seq<byte>) {
    |data| < 0x8000_0000 && Sha1Spec.Digest(data) == GetHash(info, index)
  }

  /** T_LEN. */
  function Length(info: Info, index: int): int {
    if index == PieceCount(info) - 1 then Total(info) - (PieceCount(info) - 1) * info.pieceLength
    else info.pieceLength
  }

  /** Everything Write works on. */
  datatype World = World(pool: map<int, Piece>, disk: seq<byte>, present: set<nat>, queue: seq<NeedPiece.Entry>)

  /** Whether _Write stored the whole piece, and if not what it left in the piece's range. */
  datatype Storing = Stored | Failed(garbage: seq<byte>)

  function Before(pool: map<int, Piece>, index: int, initial: Piece): Piece {
    if index in pool then pool[index] else initial
  }

  /** The file after _Write, which is called only on a piece with the right hash. */
  function Flushed(info: Info, disk: seq<byte>, index: int, data: seq<byte>, storing: Storing): seq<byte> {
    if !Hashes(info, index, data) then disk
    else Patch(disk, Offset(info, index), match storing case Stored => data case Failed(garbage) => garbage)
  }

  /** A piece that is on disk: no more blocks, its bit set, and no longer wanted. */
  function Recorded(w: World, index: nat): World
    requires index in w.pool
  {
    World(w.pool[index := Piece(w.pool[index].curLen, [])], w.disk, w.present + {index},
          NeedPiece.Clear(w.queue, index))
  }

  function Restarted(info: Info, w: World, index: int): World
    requires index in w.pool
  {
    w.(pool := w.pool[index := w.pool[index].(curLen := Length(info, index))])
  }

  /** The last part of Write, on a piece whose count has come to 0. */
  function Finished(info: Info, w: World, index: nat, storing: Storing): World
    requires index in w.pool
  {
    var data := Head(w.pool[index].data, Length(info, index));
    var w1 := w.(disk := Flushed(info, w.disk, index, data, storing));
    if Hashes(info, index, data) && storing == Stored then Recorded(w1, index) else Restarted(info, w1, index)
  }

  /** Write: the new state and the answer. `initial` is the piece if it is allocated now. */
  function Written(info: Info, w: World, index: int, begin: int, buf: seq<byte>, initial: Piece, storing: Storing)
    : (World, bool)
  {
    if index < 0 || buf == [] then (w, false)
    else
      var length := Length(info, index);
      var p := Before(w.pool, index, initial);
      if p.curLen < |buf| then (w.(pool := w.pool[index := p.(curLen := length)]), false)
      else
        var w1 := w.(pool := w.pool[index := Piece(p.curLen - |buf|, Patch(p.data, begin, buf))]);
        if p.curLen != |buf| then (w1, true)
        else (Finished(info, w1, index, storing),
              Hashes(info, index, Head(w1.pool[index].data, length)) && storing == Stored)
  }

  /** The three ways through Write: the count turns the slice away, stays above 0, or comes to 0. */
  lemma WrittenCases(info: Info, w: World, index: int, begin: int, buf: seq<byte>, initial: Piece, storing: Storing)
    requires index >= 0 && buf != []
    ensures var p := Before(w.pool, index, initial);
            var w1 := w.(pool := w.pool[index := Piece(p.curLen - |buf|, Patch(p.data, begin, buf))]);
            Written(info, w, index, begin, buf, initial, storing) ==
              if p.curLen < |buf| then (w.(pool := w.pool[index := p.(curLen := Length(info, index))]), false)
              else if p.curLen != |buf| then (w1, true)
              else (Finished(info, w1, index, storing),
                    Hashes(info, index, Head(Patch(p.data, begin, buf), Length(info, index))) && storing == Stored)
  {
    hide Finished, Hashes, Patch, Length;
  }

  /** The file a single-file torrent is written to. */
  class Disk {
    var content: seq<byte>

    /** File::Write: the count written, less than asked for or negative when it fails. */
    method Write(offset: nat, data: seq<byte>) returns (n: int)
      requires offset + |data| <= |content|
      modifies this
      ensures |content| == old(|content|)
      ensures n <= |data|
      ensures n == |data| ==> content == Patch(old(content), offset, data)
      ensures content[..offset] == old(content[..offset])
      ensures content[offset + |data|..] == old(content[offset + |data|..])
    {
      var fails: bool := *;
      if fails {
        return -1;
      }
      content := Patch(content, offset, data);
      n := |data|;
    }
  }

  class BitMemory {
    const info: Info
    var memoryPool: map<int, PieceBuffer>
    ghost var Repr: set<object>

    ghost predicate Valid()
      reads this, Repr
    {
      && this in Repr
      && (forall k :: k in memoryPool ==>
          && memoryPool[k] in Repr
          && (forall b :: b in memoryPool[k].blocks ==> b in Repr)
          && memoryPool[k].Valid())
      && (forall j, k :: j in memoryPool && k in memoryPool && j != k ==>
          && memoryPool[j] != memoryPool[k]
          && (forall b :: b in memoryPool[j].blocks ==> b !in memoryPool[k].blocks))
    }

    /** memory_pool on values. */
    ghost function Pool(): (m: map<int, Piece>)
      requires Valid()
      reads this, Repr
      ensures m.Keys == memoryPool.Keys
    {
      map k | k in memoryPool :: memoryPool[k].Value()
    }

    lemma PoolAt(index: int)
      requires Valid() && index in memoryPool
      ensures memoryPool[index].Valid() && Pool()[index] == memoryPool[index].Value()
      ensures Pool()[index].data == memoryPool[index].Flat()
    {
      hide Join;
    }

    constructor (info: Info)
      ensures Valid() && this.info == info && Pool() == map[] && Repr == {this}
    {
      this.info := info;
      memoryPool := map[];
      Repr := {this};
    }

    /** Allocates a piece that is not there yet. */
    method Allocate(index: int) returns (piece: PieceBuffer)
      requires Valid() && 0 < Length(info, index) && index !in memoryPool
      modifies this
      ensures Valid() && fresh(Repr - old(Repr)) && index in memoryPool && piece == memoryPool[index] && piece.Valid()
      ensures Pool() == old(Pool())[index := piece.Value()]
      ensures piece.curLen == Length(info, index) && |piece.Flat()| == BLOCK * BlockCount(Length(info, index))
    {
      hide Patch, Join;
      piece := new PieceBuffer(Length(info, index));
      assert |piece.Flat()| == BLOCK * |piece.blocks|;
      hide PieceBuffer.Flat;
      memoryPool := memoryPool[index := piece];
      Repr := Repr + {piece} + set b | b in piece.blocks;
    }

    /** The first part of Write: find the piece, or allocate its blocks. */
    method Fetch(index: int) returns (piece: PieceBuffer, ghost initial: Piece)
      requires Valid() && 0 < Length(info, index)
      modifies this
      ensures Valid() && fresh(Repr - old(Repr)) && index in memoryPool && piece == memoryPool[index] && piece.Valid()
      ensures piece.Value() == if index in old(memoryPool) then old(Pool())[index] else initial
      ensures Pool() == old(Pool())[index := piece.Value()]
      ensures initial.curLen == Length(info, index) && |initial.data| == BLOCK * BlockCount(Length(info, index))
    {
      hide Patch, Join, PieceBuffer.Flat;
      initial := Piece(Length(info, index), seq(BLOCK * BlockCount(Length(info, index)), _ => 0));
      if index !in memoryPool {
        piece := Allocate(index);
        initial := piece.Value();
      } else {
        PoolAt(index);
        piece := memoryPool[index];
      }
    }

    /** BitMemory::ClearIndex: length 0 gives the blocks back, any other restarts the count. */
    method ClearIndex(index: int, length: int)
      requires Valid()
      modifies Repr
      ensures Valid() && Repr == old(Repr) && memoryPool == old(memoryPool)
      ensures Pool() == if index !in old(Pool()) then old(Pool())
        else old(Pool())[index := if length == 0 then Piece(old(Pool())[index].curLen, [])
                                  else old(Pool())[index].(curLen := length)]
    {
      if index in memoryPool {
        var piece := memoryPool[index];
        ghost var img := piece.Image();
        if length == 0 {
          piece.blocks := [];
          assert piece.Flat() == [];
        } else {
          piece.curLen := length;
          assert piece.Image() == img;
        }
        OthersKept(index);
      }
    }

    twostate lemma OthersKept(index: int)
      requires old(Valid()) && Valid() && memoryPool == old(memoryPool) && index in memoryPool
      requires forall k :: k in memoryPool && k != index ==>
        unchanged(memoryPool[k]) && forall b :: b in memoryPool[k].blocks ==> unchanged(b)
      ensures Pool() == old(Pool())[index := memoryPool[index].Value()]
    {
      hide Join;
      forall k | k in memoryPool && k != index
        ensures memoryPool[k].Value() == old(memoryPool[k].Value())
      {
        var piece := memoryPool[k];
        forall i | 0 <= i < |piece.blocks|
          ensures piece.blocks[i][..] == old(piece.blocks[i][..])
        {
          assert piece.blocks[i] in piece.blocks;
        }
        assert piece.Image() == old(piece.Image());
      }
    }

    /** Write refines Written: slices, countdown, hash and file on blocks in memory do what
        they do on flat arrays. The count never goes below 0. */
    method Write(index: int, begin: int, buf: seq<byte>, disk: Disk,
                 bitField: BitField.BitField, needPiece: NeedPiece.NeedPiece)
      returns (ok: bool, ghost initial: Piece, ghost storing: Storing)
      requires Wired(this, disk, bitField, needPiece)
      requires index >= 0 && buf != [] ==> Writable(info, Pool(), index, begin, buf)
      modifies this, Repr, disk, bitField, needPiece
      ensures Wired(this, disk, bitField, needPiece) && fresh(Repr - old(Repr))
      ensures needPiece.idQueue == old(needPiece.idQueue)
      ensures initial.curLen == Length(info, index) && |initial.data| == BLOCK * BlockCount(Length(info, index))
      ensures (WorldOf(this, disk, bitField, needPiece), ok) ==
        Written(info, old(WorldOf(this, disk, bitField, needPiece)), index, begin, buf, initial, storing)
    {
      storing := Stored;
      initial := Piece(Length(info, index), seq(BLOCK * BlockCount(Length(info, index)), _ => 0));
      if index < 0 || buf == [] {
        return false, initial, storing;
      }
      LengthBounds(info, index);
      hide Join, Patch, WellFormed, Length, PieceSize, Offset, Total, BlockCount, Hashes, Finished;
      hide Valid, Pool, PieceBuffer.Valid, PieceBuffer.Flat, BitField.BitField.Valid, BitField.BitField.Present;
      ghost var before := WorldOf(this, disk, bitField, needPiece);
      var piece, taken;
      piece, taken, initial := Collect(index, begin, buf);
      ghost var w := WorldOf(this, disk, bitField, needPiece);
      assert Wired(this, disk, bitField, needPiece) && w == before.(pool := Pool());
      PoolAt(index);
      WrittenCases(info, before, index, begin, buf, initial, storing);
      hide Wired, WorldOf, Written, Before;
      if !taken {
        return false, initial, storing;
      }
      if piece.curLen == 0 {
        ok, storing := Finish(this, index, piece, disk, bitField, needPiece);
        WrittenCases(info, before, index, begin, buf, initial, storing);
        return ok, initial, storing;
      } else if piece.curLen < 0 {
        assert false;
      }
      ok := true;
    }

    /** The part of Write before the count is compared with 0. */
    method Collect(index: int, begin: int, buf: seq<byte>)
      returns (piece: PieceBuffer, taken: bool, ghost initial: Piece)
      requires Valid() && 0 < Length(info, index) <= BLOCK * BlockCount(Length(info, index)) <= 2 * BLOCK
      requires buf != [] && Writable(info, Pool(), index, begin, buf)
      modifies this, Repr
      ensures Valid() && fresh(Repr - old(Repr))
      ensures initial.curLen == Length(info, index) && |initial.data| == BLOCK * BlockCount(Length(info, index))
      ensures index in memoryPool && piece == memoryPool[index]
      ensures var p := Before(old(Pool()), index, initial);
              (taken <==> |buf| <= p.curLen) &&
              (taken ==> piece.curLen == p.curLen - |buf| >= 0 && |piece.blocks| == BlockCount(Length(info, index))) &&
              Pool() == old(Pool())[index := if taken then Piece(p.curLen - |buf|, Patch(p.data, begin, buf))
                                             else p.(curLen := Length(info, index))]
    {
      hide Join, Patch, Length, BlockCount, Valid, Pool, PieceBuffer.Valid, PieceBuffer.Flat;
      ghost var before := Pool();
      piece, initial := Fetch(index);
      ghost var p := piece.Value();
      assert p == Before(before, index, initial);
      taken := |buf| <= piece.curLen;
      if taken {
        Store(index, piece, begin, buf);
      } else {
        ClearIndex(index, Length(info, index));
      }
    }

    /** The copy and the countdown. */
    method Store(index: int, piece: PieceBuffer, begin: nat, buf: seq<byte>)
      requires Valid() && index in memoryPool && piece == memoryPool[index]
      requires |buf| > 0 && begin + |buf| <= BLOCK * |piece.blocks| <= 2 * BLOCK
      modifies Repr
      ensures Valid() && Repr == old(Repr) && memoryPool == old(memoryPool) && piece.blocks == old(piece.blocks)
      ensures piece.curLen == old(piece.curLen) - |buf|
      ensures Pool() == old(Pool())[index := Piece(old(piece.curLen) - |buf|, Patch(old(piece.Flat()), begin, buf))]
    {
      hide Patch, Join;
      piece.CopyIn(begin, buf);
      ghost var img := piece.Image();
      piece.curLen := piece.curLen - |buf|;
      assert piece.Image() == img;
      OthersKept(index);
    }
  }

  function BlocksOf(info: Info, index: int): nat {
    if Length(info, index) <= 0 then 0 else BlockCount(Length(info, index))
  }

  /** The slice lies inside the blocks of the piece, though perhaps not inside the piece. */
  predicate Inside(info: Info, index: int, begin: int, buf: seq<byte>) {
    0 <= begin && begin + |buf| <= BLOCK * BlocksOf(info, index)
  }

  /** What Write needs of its caller: unless the count turns the slice away first, the piece
      has its blocks and the slice lies inside them. */
  predicate Writable(info: Info, pool: map<int, Piece>, index: int, begin: int, buf: seq<byte>) {
    |buf| <= (if index in pool then pool[index].curLen else Length(info, index)) ==>
      Inside(info, index, begin, buf) &&
      (index in pool ==> |pool[index].data| == BLOCK * BlocksOf(info, index))
  }

  /** The hash test. */
  method Verify(info: Info, index: int, piece: PieceBuffer) returns (good: bool)
    requires piece.Valid() && 0 < Length(info, index) <= BLOCK * |piece.blocks| && Length(info, index) <= 2 * BLOCK
    ensures good <==> Hashes(info, index, Head(piece.Flat(), Length(info, index)))
  {
    hide Join, Length, Sha1Spec.Digest;
    var data := piece.Assemble(Length(info, index));
    var digest := Sha1.Sha1(data);
    good := digest == GetHash(info, index);
  }

  lemma HashedIsListed(info: Info, index: int, data: seq<byte>)
    requires index >= 0 && Hashes(info, index, data)
    ensures index < PieceCount(info)
  {
    hide Sha1Spec.Digest;
  }

  lemma LengthBounds(info: Info, index: int)
    requires WellFormed(info) && info.pieceLength <= 2 * BLOCK && index >= 0
    ensures 0 < Length(info, index) <= 2 * BLOCK
    ensures index < PieceCount(info) ==> Length(info, index) == PieceSize(info, index)
    ensures Length(info, index) <= BLOCK * BlockCount(Length(info, index)) <= 2 * BLOCK
  {
    LastPieceSize(info, PieceCount(info) - 1);
    if index < PieceCount(info) {
      PieceRange(info, index);
    }
  }

  /** The loop body of _Write for one range of one file. */
  method WriteRange(piece: PieceBuffer, disk: Disk, offset: nat, length: nat) returns (n: int)
    requires 0 < length <= 2 * BLOCK && piece.Valid() && |piece.blocks| == BlockCount(length)
    requires offset + length <= |disk.content|
    modifies disk
    ensures |disk.content| == old(|disk.content|)
    ensures n == length ==> disk.content == Patch(old(disk.content), offset, piece.Flat()[..length])
    ensures disk.content[..offset] == old(disk.content[..offset])
    ensures disk.content[offset + length..] == old(disk.content[offset + length..])
  {
    hide Join;
    piece.FlatHead(length);
    ghost var before := disk.content;
    var b0 := piece.blocks[0][..];
    if length <= BLOCK {
      n := disk.Write(offset, b0[..length]);
    } else {
      var b1 := piece.blocks[1][..];
      n := disk.Write(offset, b0);
      assert disk.content[offset + length..] == before[offset + BLOCK..][length - BLOCK..];
      ghost var middle := disk.content;
      var m := disk.Write(offset + BLOCK, b1[..length - BLOCK]);
      assert disk.content[..offset] == middle[..offset + BLOCK][..offset];
      n := n + m;
      if n == length {
        PatchTwice(before, offset, b0, b1[..length - BLOCK]);
      }
    }
    if n != length {
      n := -1;
    }
  }

  /** _Write for a single-file torrent, whose pieces are at most two blocks. */
  method WriteOut(info: Info, index: nat, piece: PieceBuffer, disk: Disk) returns (n: int)
    requires WellFormed(info) && index < PieceCount(info) && PieceSize(info, index) <= 2 * BLOCK
    requires piece.Valid() && |piece.blocks| == BlockCount(PieceSize(info, index))
    requires |disk.content| == Total(info)
    modifies disk
    ensures |disk.content| == Total(info)
    ensures 0 <= Offset(info, index) && Offset(info, index) + PieceSize(info, index) <= Total(info)
    ensures n == PieceSize(info, index) ==>
      disk.content == Patch(old(disk.content), Offset(info, index), piece.Flat()[..PieceSize(info, index)])
    ensures disk.content[..Offset(info, index)] == old(disk.content[..Offset(info, index)])
    ensures disk.content[Offset(info, index) + PieceSize(info, index)..] ==
            old(disk.content[Offset(info, index) + PieceSize(info, index)..])
  {
    hide WellFormed, PieceSize, Offset, Total;
    WholePieceRange(info, index);
    PieceRange(info, index);
    LastPieceSize(info, index);
    var Range(_, offset, length) := WholePiece(info, index)[0];
    n := WriteRange(piece, disk, offset, length);
  }

  lemma PieceRange(info: Info, i: nat)
    requires WellFormed(info) && i < PieceCount(info)
    ensures Offset(info, i) + PieceSize(info, i) <= Total(info)
    ensures Length(info, i) == PieceSize(info, i)
  {
    LastPieceSize(info, i);
    if i < PieceCount(info) - 1 {
      MulOrder(i + 1, PieceCount(info) - 1, info.pieceLength);
      assert (i + 1) * info.pieceLength == i * info.pieceLength + info.pieceLength;
    }
  }

  ghost function WorldOf(memory: BitMemory, disk: Disk, bitField: BitField.BitField,
                         needPiece: NeedPiece.NeedPiece): World
    requires memory.Valid() && bitField.Valid()
    reads memory, memory.Repr, disk, bitField, needPiece
  {
    World(memory.Pool(), disk.content, bitField.Present(), needPiece.indexQueue)
  }

  /** What the methods below need and keep: the objects are apart, and belong to one torrent. */
  ghost predicate Wired(memory: BitMemory, disk: Disk, bitField: BitField.BitField, needPiece: NeedPiece.NeedPiece)
    reads memory, memory.Repr, disk, bitField
  {
    && memory.Valid() && bitField.Valid()
    && disk !in memory.Repr && bitField !in memory.Repr && needPiece !in memory.Repr
    && WellFormed(memory.info) && memory.info.pieceLength <= 2 * BLOCK
    && |disk.content| == Total(memory.info) && bitField.total == PieceCount(memory.info)
  }

  /** The rest of Write once the count is 0: hash, write out, and record the piece. */
  method Finish(memory: BitMemory, index: nat, piece: PieceBuffer, disk: Disk,
                bitField: BitField.BitField, needPiece: NeedPiece.NeedPiece)
    returns (ok: bool, ghost storing: Storing)
    requires Wired(memory, disk, bitField, needPiece)
    requires index in memory.memoryPool && piece == memory.memoryPool[index]
    requires |piece.blocks| == BlockCount(Length(memory.info, index))
    modifies memory.Repr, disk, bitField, needPiece
    ensures Wired(memory, disk, bitField, needPiece) && memory.Repr == old(memory.Repr)
    ensures needPiece.idQueue == old(needPiece.idQueue)
    ensures ok <==> Hashes(memory.info, index, Head(old(piece.Flat()), Length(memory.info, index))) && storing == Stored
    ensures WorldOf(memory, disk, bitField, needPiece) ==
      Finished(memory.info, old(WorldOf(memory, disk, bitField, needPiece)), index, storing)
  {
    LengthBounds(memory.info, index);
    memory.PoolAt(index);
    hide Join, Patch, WellFormed, Length, PieceSize, Offset, Total, BlockCount, Hashes;
    hide BitMemory.Valid, BitMemory.Pool, PieceBuffer.Valid, PieceBuffer.Flat;
    hide BitField.BitField.Valid, BitField.BitField.Present;
    ghost var w := WorldOf(memory, disk, bitField, needPiece);
    hide Flushed, Head;
    ok, storing := VerifyAndStore(memory.info, index, piece, disk);
    assert Wired(memory, disk, bitField, needPiece);
    assert WorldOf(memory, disk, bitField, needPiece) == w.(disk := disk.content);
    assert bitField.total == PieceCount(memory.info);
    hide Recorded, Restarted, Wired, WorldOf;
    if ok {
      RecordPiece(memory, index, disk, bitField, needPiece);
    } else {
      Restart(memory, index, disk, bitField, needPiece);
    }
  }

  /** What Write does to a piece that is on disk. */
  method RecordPiece(memory: BitMemory, index: int32, disk: Disk, bitField: BitField.BitField,
                     needPiece: NeedPiece.NeedPiece)
    requires Wired(memory, disk, bitField, needPiece) && index in memory.memoryPool && 0 <= index < bitField.total
    modifies memory.Repr, bitField, needPiece
    ensures Wired(memory, disk, bitField, needPiece) && memory.Repr == old(memory.Repr)
    ensures needPiece.idQueue == old(needPiece.idQueue)
    ensures WorldOf(memory, disk, bitField, needPiece) ==
      Recorded(old(WorldOf(memory, disk, bitField, needPiece)), index)
  {
    hide Patch, WellFormed, PieceSize, Total, BlockCount, Join, PieceBuffer.Valid, PieceBuffer.Flat;
    hide BitMemory.Valid, BitMemory.Pool, BitField.BitField.Valid, BitField.BitField.Present;
    memory.ClearIndex(index, 0);
    RecordBit(index, bitField, needPiece);
  }

  /** The two calls of Write that tell the rest of the program. */
  method RecordBit(index: int32, bitField: BitField.BitField, needPiece: NeedPiece.NeedPiece)
    requires bitField.Valid() && 0 <= index < bitField.total
    modifies bitField, needPiece
    ensures bitField.Valid() && bitField.total == old(bitField.total)
    ensures bitField.Present() == old(bitField.Present()) + {index}
    ensures needPiece.idQueue == old(needPiece.idQueue)
    ensures needPiece.indexQueue == NeedPiece.Clear(old(needPiece.indexQueue), index)
  {
    assert |bitField.prefixAndBitField| > 5 && index < 8 * (|bitField.prefixAndBitField| - 5);
    hide BitField.BitField.Valid, BitField.BitField.Present;
    bitField.FillBitField(index);
    needPiece.ClearIndex(index);
  }

  /** What Write does to a piece with the wrong hash, or not stored. */
  method Restart(memory: BitMemory, index: int, disk: Disk, bitField: BitField.BitField, needPiece: NeedPiece.NeedPiece)
    requires Wired(memory, disk, bitField, needPiece) && index in memory.memoryPool && Length(memory.info, index) != 0
    modifies memory.Repr
    ensures Wired(memory, disk, bitField, needPiece) && memory.Repr == old(memory.Repr)
    ensures WorldOf(memory, disk, bitField, needPiece) ==
      Restarted(memory.info, old(WorldOf(memory, disk, bitField, needPiece)), index)
  {
    hide Patch, WellFormed, Length, PieceSize, Total, BlockCount, PieceBuffer.Valid, PieceBuffer.Flat;
    hide BitMemory.Valid, BitMemory.Pool, BitField.BitField.Valid, BitField.BitField.Present;
    memory.ClearIndex(index, Length(memory.info, index));
  }

  method VerifyAndStore(info: Info, index: nat, piece: PieceBuffer, disk: Disk)
    returns (ok: bool, ghost storing: Storing)
    requires WellFormed(info) && info.pieceLength <= 2 * BLOCK
    requires piece.Valid() && |piece.blocks| == BlockCount(Length(info, index))
    requires |disk.content| == Total(info)
    modifies disk
    ensures |disk.content| == Total(info)
    ensures var good := Hashes(info, index, Head(piece.Flat(), Length(info, index)));
            (ok <==> good && storing == Stored) && (good ==> index < PieceCount(info) && index < 0x8000_0000) &&
            disk.content == Flushed(info, old(disk.content), index, Head(piece.Flat(), Length(info, index)), storing)
  {
    LengthBounds(info, index);
    hide Patch, WellFormed, Length, PieceSize, Offset, Total, BlockCount, Hashes, PieceBuffer.Valid, PieceBuffer.Flat;
    storing := Stored;
    ok := Verify(info, index, piece);
    if ok {
      HashedIsListed(info, index, Head(piece.Flat(), Length(info, index)));
      PieceOffset(info, index);
      ok, storing := StorePiece(info, index, piece, disk);
    }
  }

  /** The call of _Write. */
  method StorePiece(info: Info, index: nat, piece: PieceBuffer, disk: Disk) returns (ok: bool, ghost storing: Storing)
    requires WellFormed(info) && index < PieceCount(info) && info.pieceLength <= 2 * BLOCK
    requires piece.Valid() && |piece.blocks| == BlockCount(Length(info, index))
    requires |disk.content| == Total(info)
    modifies disk
    ensures |disk.content| == Total(info) && (ok <==> storing == Stored)
    ensures disk.content == Patch(old(disk.content), Offset(info, index),
      match storing case Stored => Head(piece.Flat(), Length(info, index)) case Failed(garbage) => garbage)
  {
    LengthBounds(info, index);
    PieceRange(info, index);
    hide WellFormed, Length, PieceSize, Offset, Total, BlockCount, PieceBuffer.Flat;
    ghost var before := disk.content;
    var n := WriteOut(info, index, piece, disk);
    ok := n == Length(info, index);
    storing := Stored;
    if !ok {
      ghost var from, to := Offset(info, index), Offset(info, index) + Length(info, index);
      storing := Failed(disk.content[from..to]);
      assert disk.content == before[..from] + disk.content[from..to] + before[to..];
    }
  }
}
