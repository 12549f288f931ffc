/** SHA-1 as FIPS 180-4 defines it: sections 4.1.1, 4.2.1, 5.1.1, 5.3.1 and 6.1.2. */
module Sha1Spec {
  import opened Bytes

  type word = bv32

  /** The five working variables; also the hash value H. */
  datatype Regs = Regs(a: word, b: word, c: word, d: word, e: word)

  const INITIAL := Regs(0x67452301, 0xEFCDAB89, 0x98BADCFE, 0x10325476, 0xC3D2E1F0)

  function RotL5(x: word): word { x.RotateLeft(5) }

  function RotL30(x: word): word { x.RotateLeft(30) }

  function Ch(x: word, y: word, z: word): word { (x & y) ^ (!x & z) }

  function Parity(x: word, y: word, z: word): word { x ^ y ^ z }

  function Maj(x: word, y: word, z: word): word { (x & y) ^ (x & z) ^ (y & z) }

  function F(t: nat, x: word, y: word, z: word): word {
    if t < 20 then Ch(x, y, z)
    else if t < 40 then Parity(x, y, z)
    else if t < 60 then Maj(x, y, z)
    else Parity(x, y, z)
  }

  function K(t: nat): word {
    if t < 20 then 0x5A827999
    else if t < 40 then 0x6ED9EBA1
    else if t < 60 then 0x8F1BBCDC
    else 0xCA62C1D6
  }

  function Mix(x3: word, x8: word, x14: word, x16: word): word { (x3 ^ x8 ^ x14 ^ x16).RotateLeft(1) }

  /** The message schedule W_t of section 6.1.2, step 1. */
  function W(m: seq<word>, t: nat): word
    requires |m| == 16
  {
    if t < 16 then m[t]
    else Mix(W(m, t - 3), W(m, t - 8), W(m, t - 14), W(m, t - 16))
  }

  function Sum(r: word, f: word, e: word, k: word, w: word): word { r + f + e + k + w }

  /** One iteration of section 6.1.2, step 3. */
  function Step(r: Regs, t: nat, w: word): Regs {
    Regs(Sum(RotL5(r.a), F(t, r.b, r.c, r.d), r.e, K(t), w),
         r.a, RotL30(r.b), r.c, r.d)
  }

  function Rounds(m: seq<word>, h: Regs, t: nat): Regs
    requires |m| == 16
  {
    if t == 0 then h else Step(Rounds(m, h, t - 1), t - 1, W(m, t - 1))
  }

  function AddRegs(h: Regs, r: Regs): Regs {
    Regs(h.a + r.a, h.b + r.b, h.c + r.c, h.d + r.d, h.e + r.e)
  }

  function Compress(h: Regs, m: seq<word>): Regs
    requires |m| == 16
  {
    AddRegs(h, Rounds(m, h, 80))
  }

  function BigEndianWord(b0: byte, b1: byte, b2: byte, b3: byte): word {
    ((b0 as word) << 24) | ((b1 as word) << 16) | ((b2 as word) << 8) | (b3 as word)
  }

  /** Section 5.2.1: a 512-bit block is sixteen 32-bit words. */
  function BlockWords(s: seq<byte>): (m: seq<word>)
    requires |s| == 64
    ensures |m| == 16
  {
    seq(16, (k: nat) requires k < 16 => BigEndianWord(s[4 * k], s[4 * k + 1], s[4 * k + 2], s[4 * k + 3]))
  }

  /** The hash value after all the blocks of m. */
  function Absorb(m: seq<byte>): Regs
    requires |m| % 64 == 0
  {
    if |m| == 0 then INITIAL
    else Compress(Absorb(m[..|m| - 64]), BlockWords(m[|m| - 64..]))
  }

  function Zeros(n: nat): (s: seq<byte>)
    ensures |s| == n
  {
    seq(n, _ => 0)
  }

  /** n mod 2^64 as eight bytes, most significant first. */
  function Length64(n: nat): (s: seq<byte>)
    ensures |s| == 8
  {
    [ToByte(n / 0x100_0000_0000_0000 % 256), ToByte(n / 0x1_0000_0000_0000 % 256),
     ToByte(n / 0x100_0000_0000 % 256), ToByte(n / 0x1_0000_0000 % 256),
     ToByte(n / 0x100_0000 % 256), ToByte(n / 0x1_0000 % 256),
     ToByte(n / 0x100 % 256), ToByte(n % 256)]
  }

  /** Section 5.1.1: k is the least number of zero bytes with n + 1 + k = 56 mod 64. */
  function PadZeros(n: nat): (k: nat)
    ensures k < 64 && (n + 1 + k) % 64 == 56
  {
    (119 - n % 64) % 64
  }

  function Pad(m: seq<byte>): seq<byte> {
    m + [0x80] + Zeros(PadZeros(|m|)) + Length64(8 * |m|)
  }

  lemma PadWholeBlocks(m: seq<byte>)
    ensures |Pad(m)| == |m| + 1 + PadZeros(|m|) + 8
    ensures |Pad(m)| % 64 == 0
  {
    hide Zeros, PadZeros, Length64;
  }

  function WordByte(w: word, k: nat): byte
    requires k < 4
  {
    if k == 0 then ((w >> 24) & 0xFF) as byte
    else if k == 1 then ((w >> 16) & 0xFF) as byte
    else if k == 2 then ((w >> 8) & 0xFF) as byte
    else (w & 0xFF) as byte
  }

  function WordBytes(w: word): (s: seq<byte>)
    ensures |s| == 4
  {
    [WordByte(w, 0), WordByte(w, 1), WordByte(w, 2), WordByte(w, 3)]
  }

  function RegsBytes(h: Regs): (s: seq<byte>)
    ensures |s| == 20
  {
    WordBytes(h.a) + WordBytes(h.b) + WordBytes(h.c) + WordBytes(h.d) + WordBytes(h.e)
  }

  /** The message digest. FIPS 180-4 defines it for messages under 2^64 bits. */
  function Digest(m: seq<byte>): (d: seq<byte>)
    requires |m| < 0x2000_0000_0000_0000
    ensures |d| == 20
  {
    PadWholeBlocks(m);
    RegsBytes(Absorb(Pad(m)))
  }
}
