/** BitTorrent/CszLocalBitField.cpp: what have and bitfield messages do to the tables. Both
    methods are taken as one step, from the look at the bit field to the last push. */
module LocalBitField {
  import opened Bytes
  import opened Network
  import opened NeedPiece
  import opened PeerTables
  import BitField
  import PeerWire

  /** A new object that is given a field is the bitfield message of BEP 3 for that field. */
  method BuildBitField(field: seq<byte>, total: int32) returns (bitField: BitField.BitField)
    requires 0 < |field| < 0x7FFF_FFF0
    ensures fresh(bitField) && bitField.total == total
    ensures bitField.prefixAndBitField == PeerWire.Encode(PeerWire.BitField(field))
  {
    hide ToBytes, BitField.BitField.Valid, BitField.BitField.Present;
    bitField := new BitField.BitField();
    bitField.SetParameter(field, total);
    ghost var s := bitField.prefixAndBitField;
    assert s == s[..4] + s[4..];
  }

  class LocalBitField {
    const bitField: BitField.BitField
    const peerManager: PeerManager

    constructor (bitField: BitField.BitField, peerManager: PeerManager)
      ensures this.bitField == bitField && this.peerManager == peerManager
    {
      this.bitField, this.peerManager := bitField, peerManager;
    }

    /** A have message for a piece we do not have. */
    predicate Wanted(index: int32)
      reads this, bitField
    {
      index >= 0 && |bitField.prefixAndBitField| > 5 && index !in bitField.Present()
    }

    /** RecvHave, with whatever index the peer sends: inside the field, or one byte behind it, the
        index is wanted exactly if we lack it; further out any byte may be read, but in no case
        is an index pushed that we have. */
    method RecvHave(socket: int, index: int32)
      requires bitField.Valid()
      modifies peerManager, peerManager.needPiece, peerManager.downSpeed
      ensures bitField.Valid() && bitField.Present() == old(bitField.Present())
      ensures bitField.Readable(index) ==>
        peerManager.State() ==
          if Wanted(index) then Need(old(peerManager.State()), socket, [index]) else old(peerManager.State())
      ensures peerManager.State() != old(peerManager.State()) ==>
        Wanted(index) && peerManager.State() == Need(old(peerManager.State()), socket, [index])
    {
      hide BitField.Indices, BitField.BitField.Valid, Need;
      var found, checked := bitField.CheckPiece(index);
      if !found {
        peerManager.RecvNeeds(socket, [checked]);
      }
    }

    /** RecvBitField: everything the peer has and we lack is pushed, and nothing we have. */
    method RecvBitField(socket: int, peer: seq<byte>) returns (ghost indices: seq<int>)
      requires bitField.Valid()
      modifies peerManager, peerManager.needPiece, peerManager.downSpeed
      ensures bitField.Valid() && bitField.Present() == old(bitField.Present())
      ensures |peer| + 5 != |bitField.prefixAndBitField| || |peer| == 0 ==> indices == []
      ensures |peer| + 5 == |bitField.prefixAndBitField| && |peer| > 0 ==>
        forall x: nat :: x in indices <==> x in BitField.Indices(peer, bitField.total) && x !in bitField.Present()
      ensures forall k :: 0 <= k < |indices| ==> indices[k] >= 0 && indices[k] !in bitField.Present()
      ensures peerManager.State() ==
        if indices == [] then old(peerManager.State()) else Need(old(peerManager.State()), socket, indices)
    {
      var lacking := bitField.LackNeedPiece(peer);
      indices := lacking;
      if |peer| + 5 == |bitField.prefixAndBitField| {
        BitField.LackingIsDifference(peer, bitField.prefixAndBitField[5..], bitField.total);
      }
      hide BitField.Indices, BitField.Lacking, Need;
      assert forall k :: 0 <= k < |lacking| ==> lacking[k] in lacking;
      if lacking == [] {
        return;
      }
      peerManager.RecvNeeds(socket, lacking);
    }
  }
}
