/** Bytes as the program's `char` buffers hold them. */
module Bytes {
  type byte = bv8

  /** The byte with the value n, digit by digit. */
  function ToByte(n: nat): byte
    requires n < 256
  {
    if n == 0 then 0 else AddDigit(ToByte(n / 2), n % 2)
  }

  function AddDigit(b: byte, digit: nat): byte { if digit == 1 then (b << 1) | 1 else b << 1 }

  function Val(b: byte): (v: nat)
    ensures v < 256
  {
    b as int
  }

  lemma DigitAdded(b: byte)
    requires b as int < 128
    ensures ((b << 1) | 1) as int == 2 * (b as int) + 1
    ensures (b << 1) as int == 2 * (b as int)
  {
  }

  lemma {:induction false} ByteOfVal(n: nat)
    requires n < 256
    ensures Val(ToByte(n)) == n
  {
    if n == 0 {
    } else {
      ByteOfVal(n / 2);
      DigitAdded(ToByte(n / 2));
    }
  }

  /** memcpy: overwrites dst[at..at + |src|] and nothing else. */
  method CopyInto(dst: array<byte>, at: nat, src: seq<byte>)
    requires at + |src| <= dst.Length
    modifies dst
    ensures dst[..] == old(dst[..at]) + src + old(dst[at + |src|..])
  {
    for k := 0 to |src|
      invariant dst[..at] == old(dst[..at])
      invariant dst[at..at + k] == src[..k]
      invariant dst[at + k..] == old(dst[at + k..])
    {
      dst[at + k] := src[k];
    }
  }
}
