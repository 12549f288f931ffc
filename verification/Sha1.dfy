/** BitTorrent/sha1.c: the context, the unrolled compression and the padding. */
module Sha1 {
  import opened Bytes
  import opened Sha1Spec

  const M32: nat := 0x1_0000_0000
  const M64: nat := 0x1_0000_0000_0000_0000

  /** The macro rol(value, bits) at the five distances it is used with. */
  function Rol1(x: word): word { (x << 1) | (x >> 31) }

  function Rol5(x: word): word { (x << 5) | (x >> 27) }

  function Rol8(x: word): word { (x << 8) | (x >> 24) }

  function Rol24(x: word): word { (x << 24) | (x >> 8) }

  function Rol30(x: word): word { (x << 30) | (x >> 2) }

  /** A word as a little-endian host loads it from four bytes of memory. */
  function HostWord(b0: byte, b1: byte, b2: byte, b3: byte): word {
    (b0 as word) | ((b1 as word) << 8) | ((b2 as word) << 16) | ((b3 as word) << 24)
  }

  function ByteSwap(x: word): word {
    (Rol24(x) & 0xFF00FF00) | (Rol8(x) & 0x00FF00FF)
  }

  lemma SwapLanes(x: word, b0: byte, b1: byte, b2: byte, b3: byte)
    requires x == (b0 as word) | ((b1 as word) << 8) | ((b2 as word) << 16) | ((b3 as word) << 24)
    ensures (Rol24(x) & 0xFF00FF00) | (Rol8(x) & 0x00FF00FF)
         == ((b0 as word) << 24) | ((b1 as word) << 16) | ((b2 as word) << 8) | (b3 as word)
  {
  }

  /** blk0's byte swap turns a host word into the big-endian word FIPS 180-4 asks for. */
  lemma ByteSwapIsBigEndian(b0: byte, b1: byte, b2: byte, b3: byte)
    ensures ByteSwap(HostWord(b0, b1, b2, b3)) == BigEndianWord(b0, b1, b2, b3)
  {
    hide Rol8, Rol24;
    SwapLanes(HostWord(b0, b1, b2, b3), b0, b1, b2, b3);
  }

  /** The expressions of the macros blk and R0 to R4, as written. */
  function BlkMix(x13: word, x8: word, x2: word, x0: word): word { Rol1(x13 ^ x8 ^ x2 ^ x0) }

  function MacroCh(w: word, x: word, y: word): word { (w & (x ^ y)) ^ y }

  function MacroParity(w: word, x: word, y: word): word { w ^ x ^ y }

  function MacroMaj(w: word, x: word, y: word): word { ((w | x) & y) | (w & x) }

  function MacroSum(z: word, f: word, blk: word, k: word, r: word): word {
    z + (f + blk + k + r)
  }

  lemma RotateXor(x: word)
    ensures (x << 1) | (x >> 31) == x.RotateLeft(1)
  {
  }

  lemma BlkMixIsMix(x13: word, x8: word, x2: word, x0: word)
    ensures BlkMix(x13, x8, x2, x0) == Mix(x13, x8, x2, x0)
  {
    RotateXor(x13 ^ x8 ^ x2 ^ x0);
  }

  lemma ChTrick(w: word, x: word, y: word)
    ensures (w & (x ^ y)) ^ y == (w & x) ^ (!w & y)
  {
  }

  lemma MacroChIsCh(w: word, x: word, y: word)
    ensures MacroCh(w, x, y) == Ch(w, x, y)
  {
    ChTrick(w, x, y);
  }

  lemma MacroParityIsParity(w: word, x: word, y: word)
    ensures MacroParity(w, x, y) == Parity(w, x, y)
  {
  }

  lemma MajTrick(w: word, x: word, y: word)
    ensures ((w | x) & y) | (w & x) == (w & x) ^ (w & y) ^ (x & y)
  {
  }

  lemma MacroMajIsMaj(w: word, x: word, y: word)
    ensures MacroMaj(w, x, y) == Maj(w, x, y)
  {
    MajTrick(w, x, y);
  }

  lemma Rol5IsRotateLeft(x: word)
    ensures Rol5(x) == RotL5(x)
  {
  }

  lemma SumOrder(z: word, f: word, blk: word, k: word, r: word, macro: word, sum: word)
    requires macro == z + (f + blk + k + r) && sum == r + f + z + k + blk
    ensures macro == sum
  {
  }

  lemma MacroSumIsSum(z: word, f: word, blk: word, k: word, r: word)
    ensures MacroSum(z, f, blk, k, r) == Sum(r, f, z, k, blk)
  {
    SumOrder(z, f, blk, k, r, MacroSum(z, f, blk, k, r), Sum(r, f, z, k, blk));
  }

  lemma Rol30IsRotateLeft(x: word)
    ensures Rol30(x) == RotL30(x)
  {
  }

  /** What block->l holds before round t: the last sixteen schedule words, and before
      round 16 the words not yet swapped. */
  ghost predicate Circular(l: seq<word>, m: seq<word>, host: seq<word>, t: nat)
    requires |m| == 16 && |host| == 16
  {
    && |l| == 16
    && (forall j :: 0 <= j < t <= j + 16 ==> l[j % 16] == W(m, j))
    && (forall j :: t <= j < 16 ==> l[j] == host[j])
  }

  lemma SixteenOn(t: nat)
    ensures (t + 16) % 16 == t % 16
  {
  }

  lemma CircularIndices(t: nat)
    requires t >= 16
    ensures (t + 13) % 16 == (t - 3) % 16 && (t + 8) % 16 == (t - 8) % 16
    ensures (t + 2) % 16 == (t - 14) % 16 && t % 16 == (t - 16) % 16
  {
    SixteenOn(t - 3);
    SixteenOn(t - 8);
    SixteenOn(t - 14);
    SixteenOn(t - 16);
  }

  lemma CircularStep(l: seq<word>, m: seq<word>, host: seq<word>, t: nat)
    requires |m| == 16 && |host| == 16 && Circular(l, m, host, t)
    ensures Circular(l[t % 16 := W(m, t)], m, host, t + 1)
  {
    var l' := l[t % 16 := W(m, t)];
    forall j | 0 <= j < t + 1 <= j + 16
      ensures l'[j % 16] == W(m, j)
    {
      if j < t {
        assert j % 16 != t % 16;
      }
    }
  }

  lemma ScheduleRecurrence(l: seq<word>, m: seq<word>, host: seq<word>, t: nat)
    requires |m| == 16 && |host| == 16 && Circular(l, m, host, t) && t >= 16
    ensures BlkMix(l[(t + 13) % 16], l[(t + 8) % 16], l[(t + 2) % 16], l[t % 16]) == W(m, t)
  {
    hide BlkMix, Mix;
    CircularIndices(t);
    BlkMixIsMix(W(m, t - 3), W(m, t - 8), W(m, t - 14), W(m, t - 16));
  }

  /** blk0(i) for the first sixteen rounds and blk(i) for the rest: the schedule word,
      left in the circular buffer. */
  method Blk(block: array<word>, i: nat, ghost m: seq<word>, ghost host: seq<word>) returns (w: word)
    requires block.Length == 16 && |m| == 16 && |host| == 16
    requires forall k :: 0 <= k < 16 ==> ByteSwap(host[k]) == m[k]
    requires Circular(block[..], m, host, i)
    modifies block
    ensures w == W(m, i)
    ensures Circular(block[..], m, host, i + 1)
  {
    ghost var before := block[..];
    if i < 16 {
      w := ByteSwap(block[i]);
    } else {
      w := BlkMix(block[(i + 13) % 16], block[(i + 8) % 16], block[(i + 2) % 16], block[i % 16]);
      ScheduleRecurrence(before, m, host, i);
    }
    CircularStep(before, m, host, i);
    block[i % 16] := w;
    assert block[..] == before[i % 16 := w];
  }

  /** The macros R0 to R4: z takes the new value, w is rotated, the names do the shifting. */
  method Round(block: array<word>, v: word, w: word, x: word, y: word, z: word, i: nat,
               ghost m: seq<word>, ghost host: seq<word>) returns (w': word, z': word)
    requires block.Length == 16 && |m| == 16 && |host| == 16
    requires forall k :: 0 <= k < 16 ==> ByteSwap(host[k]) == m[k]
    requires Circular(block[..], m, host, i)
    modifies block
    ensures Regs(z', v, w', x, y) == Step(Regs(v, w, x, y, z), i, W(m, i))
    ensures Circular(block[..], m, host, i + 1)
  {
    hide Rol5, Rol30, RotL5, RotL30, Circular, Ch, Maj, Parity, Sum, W, ByteSwap;
    hide MacroCh, MacroParity, MacroMaj, MacroSum;
    var blk := Blk(block, i, m, host);
    var f: word, k: word;
    if i < 20 {
      f, k := MacroCh(w, x, y), 0x5A827999;
      MacroChIsCh(w, x, y);
    } else if i < 40 {
      f, k := MacroParity(w, x, y), 0x6ED9EBA1;
      MacroParityIsParity(w, x, y);
    } else if i < 60 {
      f, k := MacroMaj(w, x, y), 0x8F1BBCDC;
      MacroMajIsMaj(w, x, y);
    } else {
      f, k := MacroParity(w, x, y), 0xCA62C1D6;
      MacroParityIsParity(w, x, y);
    }
    MacroSumIsSum(z, f, blk, k, Rol5(v));
    Rol5IsRotateLeft(v);
    Rol30IsRotateLeft(w);
    z' := MacroSum(z, f, blk, k, Rol5(v));
    w' := Rol30(w);
  }

  lemma RoundsStart(m: seq<word>, h: Regs)
    requires |m| == 16
    ensures Rounds(m, h, 0) == h
  {
  }

  lemma RoundsFive(m: seq<word>, h: Regs, t: nat, r1: Regs, r2: Regs, r3: Regs, r4: Regs, r5: Regs)
    requires |m| == 16
    requires r1 == Step(Rounds(m, h, t), t, W(m, t))
    requires r2 == Step(r1, t + 1, W(m, t + 1))
    requires r3 == Step(r2, t + 2, W(m, t + 2))
    requires r4 == Step(r3, t + 3, W(m, t + 3))
    requires r5 == Step(r4, t + 4, W(m, t + 4))
    ensures r5 == Rounds(m, h, t + 5)
  {
    hide Step, W;
    assert r1 == Rounds(m, h, t + 1);
    assert r2 == Rounds(m, h, t + 2);
    assert r3 == Rounds(m, h, t + 3);
    assert r4 == Rounds(m, h, t + 4);
  }

  /** Five consecutive lines of the unrolled code: each macro call names the registers one
      place further round, and after the fifth every register has its own name again. */
  method FiveRounds(block: array<word>, regs: Regs, t: nat, ghost h: Regs, ghost m: seq<word>, ghost host: seq<word>)
    returns (r: Regs)
    requires block.Length == 16 && |m| == 16 && |host| == 16
    requires forall k :: 0 <= k < 16 ==> ByteSwap(host[k]) == m[k]
    requires Circular(block[..], m, host, t)
    requires regs == Rounds(m, h, t)
    modifies block
    ensures r == Rounds(m, h, t + 5)
    ensures Circular(block[..], m, host, t + 5)
  {
    hide Step, Rounds, W, ByteSwap, Circular;
    var Regs(a, b, c, d, e) := regs;
    b, e := Round(block, a, b, c, d, e, t, m, host);
    ghost var r1 := Regs(e, a, b, c, d);
    a, d := Round(block, e, a, b, c, d, t + 1, m, host);
    ghost var r2 := Regs(d, e, a, b, c);
    e, c := Round(block, d, e, a, b, c, t + 2, m, host);
    ghost var r3 := Regs(c, d, e, a, b);
    d, b := Round(block, c, d, e, a, b, t + 3, m, host);
    ghost var r4 := Regs(b, c, d, e, a);
    c, a := Round(block, b, c, d, e, a, t + 4, m, host);
    r := Regs(a, b, c, d, e);
    RoundsFive(m, h, t, r1, r2, r3, r4, r);
  }

  ghost predicate StateIs(state: array<word>, h: Regs)
    reads state
  {
    && state.Length == 5
    && state[0] == h.a && state[1] == h.b && state[2] == h.c && state[3] == h.d && state[4] == h.e
  }

  /** The copy into the workspace: sixteen host words that byte-swap to the block's words. */
  method LoadWorkspace(data: seq<byte>) returns (block: array<word>)
    requires |data| == 64
    ensures fresh(block) && block.Length == 16
    ensures forall k :: 0 <= k < 16 ==> ByteSwap(block[k]) == BlockWords(data)[k]
  {
    block := new word[16];
    for k := 0 to 16
      invariant forall n :: 0 <= n < k ==> ByteSwap(block[n]) == BlockWords(data)[n]
    {
      ByteSwapIsBigEndian(data[4 * k], data[4 * k + 1], data[4 * k + 2], data[4 * k + 3]);
      block[k] := HostWord(data[4 * k], data[4 * k + 1], data[4 * k + 2], data[4 * k + 3]);
    }
  }

  /** The 80 rounds. The source writes them out; they are sixteen groups of five. */
  method EightyRounds(block: array<word>, h: Regs, ghost m: seq<word>) returns (r: Regs)
    requires block.Length == 16 && |m| == 16
    requires forall k :: 0 <= k < 16 ==> ByteSwap(block[k]) == m[k]
    modifies block
    ensures r == Rounds(m, h, 80)
  {
    ghost var host := block[..];
    RoundsStart(m, h);
    r := h;
    var t := 0;
    assert Circular(block[..], m, host, 0);
    hide Step, Rounds, W, ByteSwap, Circular;
    while t < 80
      invariant t % 5 == 0 && t <= 80
      invariant r == Rounds(m, h, t)
      invariant Circular(block[..], m, host, t)
    {
      r := FiveRounds(block, r, t, h, m, host);
      t := t + 5;
    }
  }

  method AddInto(state: array<word>, ghost h: Regs, r: Regs)
    requires StateIs(state, h)
    modifies state
    ensures StateIs(state, AddRegs(h, r))
  {
    hide AddRegs;
    var sum := AddRegs(Regs(state[0], state[1], state[2], state[3], state[4]), r);
    state[0], state[1], state[2], state[3], state[4] := sum.a, sum.b, sum.c, sum.d, sum.e;
  }

  /** SHA1Transform refines the compression of FIPS 180-4. */
  method Transform(state: array<word>, data: seq<byte>, ghost h: Regs)
    requires |data| == 64 && StateIs(state, h)
    modifies state
    ensures StateIs(state, Compress(h, BlockWords(data)))
  {
    hide Rounds, W, BlockWords, ByteSwap, AddRegs;
    var block := LoadWorkspace(data);
    var r := EightyRounds(block, Regs(state[0], state[1], state[2], state[3], state[4]), BlockWords(data));
    AddInto(state, h, r);
  }

  function Whole(m: seq<byte>): (w: seq<byte>)
    ensures |w| % 64 == 0
  {
    m[..|m| - |m| % 64]
  }

  function Tail(m: seq<byte>): seq<byte> { m[|m| - |m| % 64..] }

  lemma AbsorbBlock(m: seq<byte>, block: seq<byte>)
    requires |m| % 64 == 0 && |block| == 64
    ensures |m + block| % 64 == 0
    ensures Absorb(m + block) == Compress(Absorb(m), BlockWords(block))
  {
    assert (m + block)[..|m + block| - 64] == m;
    assert (m + block)[|m + block| - 64..] == block;
    hide Compress, BlockWords;
  }

  /** The two-word bit counter, with its carry out of the low word. */
  function CountLow(c0: nat, len: nat): nat { (c0 + len * 8 % M32) % M32 }

  function CountHigh(c0: nat, c1: nat, len: nat): nat {
    var carry := if CountLow(c0, len) < len * 8 % M32 then 1 else 0;
    ((c1 + carry) % M32 + len / 0x2000_0000) % M32
  }

  ghost predicate Counts(c0: nat, c1: nat, n: nat) {
    c0 < M32 && c1 < M32 && c1 * M32 + c0 == 8 * n % M64
  }

  lemma LowWord(c0: nat, len: nat) returns (hi: nat, lo: nat, carry: nat)
    requires c0 < M32 && len < M32
    ensures len * 8 == hi * M32 + lo && lo < M32 && hi == len / 0x2000_0000 && hi < 8
    ensures CountLow(c0, len) == c0 + lo - carry * M32 && carry <= 1
    ensures carry == if CountLow(c0, len) < len * 8 % M32 then 1 else 0
  {
    hi, lo := len / 0x2000_0000, len * 8 % M32;
    carry := if c0 + lo >= M32 then 1 else 0;
  }

  lemma HighWord(c1: nat, carry: nat, hi: nat) returns (d: nat)
    requires c1 < M32 && carry <= 1 && hi < 8
    ensures ((c1 + carry) % M32 + hi) % M32 == c1 + carry + hi - d * M32
  {
    d := (c1 + carry + hi) / M32;
  }

  lemma Residue64(x: nat, q: nat, r: nat)
    requires x == q * M64 + r && r < M64
    ensures x % M64 == r
  {
  }

  lemma CountAdvances(c0: nat, c1: nat, n: nat, len: nat)
    requires Counts(c0, c1, n) && len < M32
    ensures Counts(CountLow(c0, len), CountHigh(c0, c1, len), n + len)
  {
    var hi, lo, carry := LowWord(c0, len);
    var d := HighWord(c1, carry, hi);
    var q := 8 * n / M64;
    var c0', c1' := CountLow(c0, len), CountHigh(c0, c1, len);
    hide CountLow, CountHigh;
    assert c1' == c1 + carry + hi - d * M32;
    Residue64(8 * (n + len), q + d, c1' * M32 + c0');
  }

  lemma CountTail(c0: nat, c1: nat, n: nat)
    requires Counts(c0, c1, n)
    ensures c0 / 8 % 64 == n % 64
  {
    var q := 8 * n / M64;
    var k := n - q * 0x2000_0000_0000_0000 - c1 * 0x2000_0000;
    assert c0 == 8 * k;
    assert c0 / 8 == k;
    assert n == 64 * (q * 0x80_0000_0000_0000 + c1 * 0x80_0000) + k;
  }

  /** No block is completed: the data joins the buffered tail. */
  lemma TailGrows(m: seq<byte>, data: seq<byte>)
    requires |m| % 64 + |data| <= 63
    ensures |m + data| % 64 == |m| % 64 + |data|
    ensures Whole(m + data) == Whole(m) && Tail(m + data) == Tail(m) + data
  {
    var q, r := |m| / 64, |m| % 64;
    SmallResidue(|m| + |data|, q, r + |data|);
    assert (m + data)[..64 * q] == m[..64 * q];
    assert (m + data)[64 * q..] == m[64 * q..] + data;
  }

  lemma SmallResidue(n: nat, q: nat, r: nat)
    requires n == 64 * q + r && r < 64
    ensures n % 64 == r
  {
  }

  /** Once i bytes of data complete the last block, what is left is the new tail. */
  lemma TailRestarts(m: seq<byte>, data: seq<byte>, i: nat)
    requires i <= |data| < i + 64 && (|m| + i) % 64 == 0
    ensures |m + data| % 64 == |data| - i
    ensures Whole(m + data) == m + data[..i] && Tail(m + data) == data[i..]
  {
    var q := (|m| + i) / 64;
    assert |m + data| == 64 * q + (|data| - i);
  }

  /** The padding loop of SHA1Final stops after exactly PadZeros(n) zero bytes. */
  lemma PaddingStops(n: nat, k: nat)
    requires k <= PadZeros(n)
    ensures (n + 1 + k) % 64 == 56 <==> k == PadZeros(n)
  {
    var z := PadZeros(n);
    var q := (n + 1 + z) / 64;
    assert n + 1 + z == 64 * q + 56;
    if k < z {
      assert n + 1 + k == 64 * q + (56 - (z - k));
      if z - k <= 56 {
        assert (n + 1 + k) % 64 == 56 - (z - k);
      } else {
        assert n + 1 + k == 64 * (q - 1) + (120 - (z - k));
        assert (n + 1 + k) % 64 == 120 - (z - k);
      }
    }
  }

  lemma ModuloIs(q: nat, r: nat)
    ensures (256 * q + r) % 256 == r % 256
  {
  }

  lemma ByteOfResidue(x: nat, q: nat, y: nat, p: nat, u: nat)
    requires p > 0 && u == 256 * p && x == q * u + y
    ensures x / p % 256 == y / p % 256
  {
    var r := y / p;
    assert y == r * p + y % p;
    assert x == (256 * q + r) * p + y % p by {
      assert (256 * q + r) * p == 256 * q * p + r * p;
      assert q * u == 256 * q * p;
    }
    DivisionIs(x, p, 256 * q + r, y % p);
    ModuloIs(q, r);
  }

  lemma MultipleAtLeast(k: int, p: nat)
    requires k >= 1
    ensures k * p >= p
  {
  }

  lemma DivisionIs(x: nat, p: nat, q: nat, r: nat)
    requires p > 0 && x == q * p + r && r < p
    ensures x / p == q
  {
    var d := x / p;
    assert (d - q) * p == r - x % p && (q - d) * p == x % p - r;
    if d > q {
      MultipleAtLeast(d - q, p);
    } else if d < q {
      MultipleAtLeast(q - d, p);
    }
  }

  function CountByte(c: nat, i: nat): byte
    requires i < 4
  {
    if i == 0 then ToByte(c / 0x100_0000 % 256)
    else if i == 1 then ToByte(c / 0x1_0000 % 256)
    else if i == 2 then ToByte(c / 0x100 % 256)
    else ToByte(c % 256)
  }

  lemma HighCountBytes(h: nat, q: nat, c1: nat)
    requires h == q * M32 + c1
    ensures h / 0x100_0000 % 256 == c1 / 0x100_0000 % 256
    ensures h / 0x1_0000 % 256 == c1 / 0x1_0000 % 256
    ensures h / 0x100 % 256 == c1 / 0x100 % 256
    ensures h % 256 == c1 % 256
  {
    ByteOfResidue(h, q, c1, 0x100_0000, M32);
    ByteOfResidue(h, q * 0x100, c1, 0x1_0000, 0x100_0000);
    ByteOfResidue(h, q * 0x1_0000, c1, 0x100, 0x1_0000);
    ByteOfResidue(h, q * 0x100_0000, c1, 1, 0x100);
  }

  lemma LengthByteAt(c0: nat, c1: nat, n: nat, i: nat)
    requires Counts(c0, c1, n) && i < 8
    ensures Length64(8 * n)[i] == CountByte(if i >= 4 then c0 else c1, i % 4)
  {
    hide ToByte;
    var x, q := 8 * n, 8 * n / M64;
    var h := q * M32 + c1;
    HighBytes(x, h, c0);
    HighCountBytes(h, q, c1);
    HighCountBytes(x, h, c0);
  }

  lemma HighBytes(x: nat, h: nat, c0: nat)
    requires x == h * M32 + c0 && c0 < M32
    ensures x / 0x100_0000_0000_0000 == h / 0x100_0000
    ensures x / 0x1_0000_0000_0000 == h / 0x1_0000
    ensures x / 0x100_0000_0000 == h / 0x100
    ensures x / 0x1_0000_0000 == h
  {
  }

  /** j + len of SHA1Update is a uint32_t. Below 2^32 it does not wrap, and nor does i + 63. */
  predicate Fits(absorbed: seq<byte>, data: seq<byte>) { |absorbed| % 64 + |data| < M32 }

  lemma NextBlockFits(absorbed: seq<byte>, data: seq<byte>, i: nat)
    requires Fits(absorbed, data) && i <= |data| && (|absorbed| + i) % 64 == 0
    ensures i + 63 < M32
  {
    assert (|absorbed| % 64 + i) % 64 == 0;
  }

  class Context {
    var state: array<word>
    var buffer: array<byte>
    var count0: nat
    var count1: nat
    ghost var absorbed: seq<byte>

    ghost predicate Valid()
      reads this, state, buffer
    {
      && state.Length == 5 && buffer.Length == 64
      && Counts(count0, count1, |absorbed|)
      && StateIs(state, Absorb(Whole(absorbed)))
      && buffer[..|absorbed| % 64] == Tail(absorbed)
    }

    constructor Init()
      ensures Valid() && absorbed == [] && fresh(state) && fresh(buffer)
    {
      state := new word[5];
      buffer := new byte[64];
      count0, count1 := 0, 0;
      absorbed := [];
      new;
      state[0], state[1], state[2], state[3], state[4] :=
        0x67452301, 0xEFCDAB89, 0x98BADCFE, 0x10325476, 0xC3D2E1F0;
    }

    /** The branch of SHA1Update that completes the buffered block and then takes whole
        blocks straight from the caller's data. */
    method TakeBlocks(data: seq<byte>, j: nat) returns (i: nat)
      requires state.Length == 5 && buffer.Length == 64
      requires StateIs(state, Absorb(Whole(absorbed)))
      requires j == |absorbed| % 64 && buffer[..j] == Tail(absorbed) && j + |data| > 63 && Fits(absorbed, data)
      modifies state, buffer
      ensures i <= |data| < i + 64 && (|absorbed| + i) % 64 == 0
      ensures StateIs(state, Absorb(absorbed + data[..i]))
    {
      hide Compress, BlockWords, Absorb;
      i := 64 - j;
      CopyInto(buffer, j, data[..i]);
      assert absorbed + data[..i] == Whole(absorbed) + buffer[..];
      AbsorbBlock(Whole(absorbed), buffer[..]);
      Transform(state, buffer[..], Absorb(Whole(absorbed)));
      while i + 63 < |data|
        invariant i <= |data| && (|absorbed| + i) % 64 == 0 && i + 63 < M32
        invariant StateIs(state, Absorb(absorbed + data[..i]))
      {
        assert absorbed + data[..i + 64] == (absorbed + data[..i]) + data[i..i + 64];
        AbsorbBlock(absorbed + data[..i], data[i..i + 64]);
        Transform(state, data[i..i + 64], Absorb(absorbed + data[..i]));
        i := i + 64;
        NextBlockFits(absorbed, data, i);
      }
    }

    /** SHA1Update. When j + len wraps, all of the data is copied behind the 64 bytes of the buffer. */
    method Update(data: seq<byte>)
      requires Valid() && Fits(absorbed, data)
      modifies this, state, buffer
      ensures Valid() && state == old(state) && buffer == old(buffer)
      ensures absorbed == old(absorbed) + data
    {
      hide Absorb, Counts;
      var len := |data|;
      var j := count0 / 8 % 64;
      CountTail(count0, count1, |absorbed|);
      CountAdvances(count0, count1, |absorbed|, len);
      count0, count1 := CountLow(count0, len), CountHigh(count0, count1, len);
      hide CountLow, CountHigh;
      var i := 0;
      if j + len > 63 {
        i := TakeBlocks(data, j);
        TailRestarts(absorbed, data, i);
        j := 0;
      } else {
        TailGrows(absorbed, data);
      }
      CopyInto(buffer, j, data[i..]);
      absorbed := absorbed + data;
    }

    lemma CountGivesTail()
      requires Valid()
      ensures count0 / 8 % 64 == |absorbed| % 64
    {
      hide Absorb;
      CountTail(count0, count1, |absorbed|);
    }

    method FinalCount() returns (finalcount: seq<byte>)
      requires Valid()
      ensures finalcount == Length64(8 * |absorbed|)
    {
      hide Absorb, Counts, Length64, CountByte;
      ghost var bytes := Length64(8 * |absorbed|);
      finalcount := [];
      for i := 0 to 8
        invariant finalcount == bytes[..i]
      {
        LengthByteAt(count0, count1, |absorbed|, i);
        finalcount := finalcount + [CountByte(if i >= 4 then count0 else count1, i % 4)];
      }
    }

    /** The zero bytes of the padding: the loop of SHA1Final tests the low count word. */
    method PadToLength(ghost m: seq<byte>)
      requires Valid() && absorbed == m + [0x80]
      modifies this, state, buffer
      ensures Valid() && state == old(state) && buffer == old(buffer)
      ensures absorbed == m + [0x80] + Zeros(PadZeros(|m|))
    {
      hide Valid, PadZeros;
      ghost var k := 0;
      CountGivesTail();
      PaddingStops(|m|, k);
      while count0 / 8 % 64 != 56
        invariant Valid() && state == old(state) && buffer == old(buffer)
        invariant k <= PadZeros(|m|) && absorbed == m + [0x80] + Zeros(k)
        invariant count0 / 8 % 64 == 56 <==> k == PadZeros(|m|)
        decreases PadZeros(|m|) - k
      {
        Update([0]);
        assert Zeros(k + 1) == Zeros(k) + [0];
        k := k + 1;
        CountGivesTail();
        PaddingStops(|m|, k);
      }
    }

    /** The padding of SHA1Final: 0x80, zero bytes up to 56 mod 64, the bit count. */
    method AppendPadding()
      requires Valid()
      modifies this, state, buffer
      ensures Valid() && state == old(state) && buffer == old(buffer)
      ensures absorbed == Pad(old(absorbed))
    {
      hide Valid, PadZeros, Length64, Zeros;
      ghost var m := absorbed;
      var finalcount := FinalCount();
      Update([0x80]);
      PadToLength(m);
      Update(finalcount);
    }

    /** SHA1Final, up to the wiping of the context: the FIPS 180-4 digest of everything
        absorbed, however it was divided among the calls of Update. */
    method Final() returns (digest: seq<byte>)
      requires Valid() && |absorbed| < 0x2000_0000_0000_0000
      modifies this, state, buffer
      ensures digest == Digest(old(absorbed))
    {
      hide Absorb, Pad, Counts, RegsBytes;
      ghost var m := absorbed;
      AppendPadding();
      PadWholeBlocks(m);
      assert Whole(Pad(m)) == Pad(m);
      digest := DigestBytes(state, Absorb(Pad(m)));
    }
  }

  lemma Concat5At(a: seq<byte>, b: seq<byte>, c: seq<byte>, d: seq<byte>, e: seq<byte>, q: nat, r: nat)
    requires |a| == |b| == |c| == |d| == |e| == 4 && q < 5 && r < 4
    ensures (a + b + c + d + e)[4 * q + r] == [a, b, c, d, e][q][r]
  {
  }

  lemma WordByteAt(w: word, r: nat)
    requires r < 4
    ensures WordBytes(w)[r] == WordByte(w, r)
  {
    hide WordByte;
  }

  function RegAt(h: Regs, q: nat): word
    requires q < 5
  {
    if q == 0 then h.a else if q == 1 then h.b else if q == 2 then h.c else if q == 3 then h.d else h.e
  }

  lemma RegsByteAt(h: Regs, q: nat, r: nat)
    requires q < 5 && r < 4
    ensures RegsBytes(h)[4 * q + r] == WordByte(RegAt(h, q), r)
  {
    WordByteAt(RegAt(h, q), r);
    hide WordByte, WordBytes;
    Concat5At(WordBytes(h.a), WordBytes(h.b), WordBytes(h.c), WordBytes(h.d), WordBytes(h.e), q, r);
  }

  method DigestBytes(state: array<word>, ghost h: Regs) returns (digest: seq<byte>)
    requires StateIs(state, h)
    ensures digest == RegsBytes(h)
  {
    hide WordByte, RegsBytes;
    digest := [];
    for i := 0 to 20
      invariant digest == RegsBytes(h)[..i]
    {
      RegsByteAt(h, i / 4, i % 4);
      assert state[i / 4] == RegAt(h, i / 4);
      digest := digest + [WordByte(state[i / 4], i % 4)];
    }
  }

  /** Sha1, the one-call entry point: the length is cut to its low 32 bits. */
  method Sha1(data: seq<byte>) returns (digest: seq<byte>)
    ensures digest == Digest(data[..|data| % M32])
    ensures |data| < M32 ==> digest == Digest(data)
  {
    hide Digest, Context.Valid;
    LowWordOfLength(data);
    var context := new Context.Init();
    var taken := data[..|data| % M32];
    assert [] + taken == taken;
    context.Update(taken);
    digest := context.Final();
  }

  lemma LowWordOfLength(data: seq<byte>)
    ensures |data| % M32 <= |data| && |data| % M32 < M32
    ensures |data| < M32 ==> data[..|data| % M32] == data
  {
  }

  function Flatten(chunks: seq<seq<byte>>): seq<byte> {
    if |chunks| == 0 then [] else Flatten(chunks[..|chunks| - 1]) + chunks[|chunks| - 1]
  }

  /** Every division of a message into Update calls, empty ones included, has the same digest. */
  method HashInPieces(chunks: seq<seq<byte>>) returns (digest: seq<byte>)
    requires forall k :: 0 <= k < |chunks| ==> Fits(Flatten(chunks[..k]), chunks[k])
    requires |Flatten(chunks)| < 0x2000_0000_0000_0000
    ensures digest == Digest(Flatten(chunks))
  {
    var context := new Context.Init();
    hide Digest;
    for k := 0 to |chunks|
      invariant context.Valid() && context.absorbed == Flatten(chunks[..k])
      invariant fresh(context) && fresh(context.state) && fresh(context.buffer)
    {
      assert chunks[..k + 1][..k] == chunks[..k];
      context.Update(chunks[k]);
    }
    assert chunks[..|chunks|] == chunks;
    digest := context.Final();
  }
}
