/** Ping/CszCheckSum.cpp: the Internet checksum of RFC 1071. */
module Checksum {
  import opened Bytes

  const M32: nat := 0x1_0000_0000
  const INT_LIMIT: nat := 0x8000_0000

  type Word16 = w: nat | w < 65536

  /** The k-th 16-bit word as a little-endian host loads it; an odd last byte is padded
      with a zero byte after it. */
  function WordAt(data: seq<byte>, k: nat): Word16
    requires 2 * k < |data|
  {
    Val(data[2 * k]) + if 2 * k + 1 < |data| then 256 * Val(data[2 * k + 1]) else 0
  }

  function Words(data: seq<byte>): (ws: seq<Word16>)
    ensures |ws| == (|data| + 1) / 2
  {
    seq((|data| + 1) / 2, (k: nat) requires k < (|data| + 1) / 2 => WordAt(data, k))
  }

  /** RFC 1071, section 1: a message of odd length counts as padded with a zero byte. */
  lemma OddIsPadded(data: seq<byte>)
    requires |data| % 2 == 1
    ensures Words(data) == Words(data + [0])
  {
    assert Val(0) == 0;
  }

  function Sum(ws: seq<Word16>): nat {
    if |ws| == 0 then 0 else Sum(ws[..|ws| - 1]) + ws[|ws| - 1]
  }

  /** RFC 1071, section 2: 16-bit one's-complement addition with end-around carry. */
  function OnesAdd(x: Word16, y: Word16): Word16 {
    if x + y > 65535 then x + y - 65535 else x + y
  }

  function OnesSum(ws: seq<Word16>): Word16 {
    if |ws| == 0 then 0 else OnesAdd(OnesSum(ws[..|ws| - 1]), ws[|ws| - 1])
  }

  /** RFC 1071, section 1: the complement of the one's-complement sum. */
  function Rfc1071(ws: seq<Word16>): Word16 { 65535 - OnesSum(ws) }

  /** n modulo 65535, with 65535 rather than 0 for a positive multiple. */
  function Reduce(n: nat): Word16 {
    if n == 0 then 0 else (n - 1) % 65535 + 1
  }

  lemma ReduceIs(n: nat, q: int, r: nat)
    requires n == q * 65535 + r && 1 <= r <= 65535 && n > 0
    ensures Reduce(n) == r
  {
  }

  lemma {:induction false} OnesSumReduces(ws: seq<Word16>)
    ensures OnesSum(ws) == Reduce(Sum(ws))
  {
    if |ws| == 0 {
    } else {
      var n := |ws| - 1;
      OnesSumReduces(ws[..n]);
      var s: nat, x: nat := Sum(ws[..n]), OnesSum(ws[..n]);
      if s > 0 {
        var q := (s - 1) / 65535;
        assert s == q * 65535 + x;
        if x + ws[n] > 65535 {
          ReduceIs(s + ws[n], q + 1, x + ws[n] - 65535);
        } else {
          ReduceIs(s + ws[n], q, x + ws[n]);
        }
      }
    }
  }

  lemma {:induction false} SumBound(ws: seq<Word16>)
    ensures Sum(ws) <= 65535 * |ws|
  {
    if |ws| == 0 {
    } else {
      SumBound(ws[..|ws| - 1]);
    }
  }

  /** The two folding statements, and the truncation to sixteen bits. */
  function Fold(sum: nat): Word16 {
    var once := sum / 65536 + sum % 65536;
    (once + once / 65536) % 65536
  }

  lemma TwoFoldsSuffice(sum: nat)
    requires sum < M32
    ensures Fold(sum) == Reduce(sum)
  {
    var hi, lo := sum / 65536, sum % 65536;
    var once := hi + lo;
    assert sum == hi * 65535 + once;
    if once >= 65536 {
      assert Fold(sum) == once - 65535;
      ReduceIs(sum, hi + 1, once - 65535);
    } else if once > 0 {
      ReduceIs(sum, hi, once);
    }
  }

  lemma SameReduction(m: nat, n: nat)
    requires 0 < m <= n && Reduce(m) == Reduce(n)
    ensures (n - m) % 65535 == 0
  {
    assert n - m == ((n - 1) / 65535 - (m - 1) / 65535) * 65535;
  }

  lemma Residue(x: nat, k: nat, r: nat)
    requires x == k * 65535 + r && r < 65535
    ensures x % 65535 == r
  {
  }

  /** A 32-bit accumulator that has wrapped never folds to the right sum: 2^32 is 1 modulo
      65535, and a buffer an int can measure wraps fewer than 65535 times. */
  lemma WrappedNeverAgrees(sum: nat)
    requires M32 <= sum <= 65535 * (INT_LIMIT / 2)
    ensures Reduce(sum % M32) != Reduce(sum)
  {
    var q, r := sum / M32, sum % M32;
    assert 1 <= q < 65535;
    assert sum == q * M32 + r;
    Residue(sum - r, q * 65537, q);
    if r > 0 && Reduce(r) == Reduce(sum) {
      SameReduction(r, sum);
    }
  }

  lemma SumWords(data: seq<byte>, k: nat)
    requires k < |Words(data)|
    ensures Sum(Words(data)[..k + 1]) == Sum(Words(data)[..k]) + WordAt(data, k)
  {
    assert Words(data)[..k + 1][..k] == Words(data)[..k];
  }

  lemma FoldAgrees(sum: nat)
    requires sum <= 65535 * (INT_LIMIT / 2)
    ensures Fold(sum % M32) == Reduce(sum) <==> sum < M32
  {
    TwoFoldsSuffice(sum % M32);
    hide Fold, Reduce;
    if sum >= M32 {
      WrappedNeverAgrees(sum);
    } else {
      assert sum % M32 == sum;
    }
  }

  lemma AllWords(data: seq<byte>)
    requires |data| < INT_LIMIT
    ensures 65535 - Fold(Wrap32(Sum(Words(data)))) == Rfc1071(Words(data)) <==> Sum(Words(data)) < M32
  {
    SumBound(Words(data));
    OnesSumReduces(Words(data));
    hide Words, Sum, Fold, OnesSum, Reduce;
    FoldAgrees(Sum(Words(data)));
  }

  /** Assignment to the uint32_t accumulator. */
  function Wrap32(n: nat): nat { n % M32 }

  lemma WrapAdd(s: nat, w: nat)
    ensures Wrap32(Wrap32(s) + w) == Wrap32(s + w)
  {
    var q := s / M32;
    assert s + w == q * M32 + (Wrap32(s) + w);
  }

  /** InCksum. The answer is the RFC 1071 checksum exactly when the 32-bit accumulator
      does not wrap. */
  method InCksum(data: seq<byte>) returns (answer: Word16)
    requires |data| < INT_LIMIT
    ensures answer == Rfc1071(Words(data)) <==> Sum(Words(data)) < M32
  {
    var nleft, sum, w := |data|, 0, 0;
    SumOfNone(data);
    AllWords(data);
    hide Words, WordAt, Sum, Wrap32, Fold, Rfc1071;
    while nleft > 1
      invariant nleft == |data| - 2 * w && nleft >= 0
      invariant sum == Wrap32(Sum(Words(data)[..w]))
    {
      SumWords(data, w);
      WrapAdd(Sum(Words(data)[..w]), WordAt(data, w));
      sum := Wrap32(sum + WordAt(data, w));
      w := w + 1;
      nleft := nleft - 2;
    }
    if nleft == 1 {
      SumWords(data, w);
      WrapAdd(Sum(Words(data)[..w]), WordAt(data, w));
      sum := Wrap32(sum + WordAt(data, w));
      w := w + 1;
    }
    assert Words(data)[..w] == Words(data);
    answer := 65535 - Fold(sum);
  }

  lemma SumOfNone(data: seq<byte>)
    ensures Wrap32(Sum(Words(data)[..0])) == 0
  {
  }

  /** Up to 131074 bytes the accumulator cannot wrap; two bytes more and it can. */
  lemma NoWrapUpTo131074(data: seq<byte>)
    requires |data| <= 131074
    ensures Sum(Words(data)) < M32
  {
    SumBound(Words(data));
  }

  lemma {:induction false} SumOfOnes(ws: seq<Word16>)
    requires forall k :: 0 <= k < |ws| ==> ws[k] == 65535
    ensures Sum(ws) == 65535 * |ws|
  {
    if |ws| == 0 {
    } else {
      SumOfOnes(ws[..|ws| - 1]);
    }
  }

  lemma BoundIsSharp() returns (data: seq<byte>)
    ensures |data| == 131076 && Sum(Words(data)) >= M32
  {
    data := seq(131076, _ => 0xFF);
    forall k | 0 <= k < |Words(data)|
      ensures Words(data)[k] == 65535
    {
      assert Val(data[2 * k]) == 255 && Val(data[2 * k + 1]) == 255;
    }
    SumOfOnes(Words(data));
  }

  lemma {:induction false} SumReplace(ws: seq<Word16>, i: nat, w: Word16)
    requires i < |ws|
    ensures Sum(ws[i := w]) == Sum(ws) - ws[i] + w
  {
    var n := |ws| - 1;
    if i < n {
      SumReplace(ws[..n], i, w);
      assert ws[i := w][..n] == ws[..n][i := w];
    } else {
      assert ws[i := w][..n] == ws[..n];
    }
  }

  function LowByte(w: Word16): byte { ToByte(w % 256) }

  function HighByte(w: Word16): byte { ToByte(w / 256) }

  /** A sender zeroes the checksum word, sums, and stores the answer there; the receiver's
      sum over the same bytes is then 0. */
  lemma StoredChecksumSumsToZero(data: seq<byte>, k: nat, answer: Word16)
    requires |data| <= 131074 && 2 * k + 1 < |data|
    requires Val(data[2 * k]) == 0 && Val(data[2 * k + 1]) == 0
    requires answer == Rfc1071(Words(data))
    ensures var sent := data[2 * k := LowByte(answer)][2 * k + 1 := HighByte(answer)];
            Sum(Words(sent)) < M32 && Rfc1071(Words(sent)) == 0
  {
    StoredWord(data, k, answer);
    hide Words;
    SumReplace(Words(data), k, answer);
    var sent := data[2 * k := LowByte(answer)][2 * k + 1 := HighByte(answer)];
    NoWrapUpTo131074(sent);
    StoredSum(Words(data), Words(sent), answer);
  }

  lemma StoredWord(data: seq<byte>, k: nat, w: Word16)
    requires 2 * k + 1 < |data|
    ensures Words(data[2 * k := LowByte(w)][2 * k + 1 := HighByte(w)]) == Words(data)[k := w]
  {
    ByteOfVal(w % 256);
    ByteOfVal(w / 256);
    hide ToByte;
  }

  lemma StoredSum(before: seq<Word16>, after: seq<Word16>, answer: Word16)
    requires answer == Rfc1071(before) && Sum(after) == Sum(before) + answer
    ensures Rfc1071(after) == 0
  {
    OnesSumReduces(before);
    OnesSumReduces(after);
    var s := Sum(before);
    if s > 0 {
      var q := (s - 1) / 65535;
      assert s == q * 65535 + Reduce(s);
      ReduceIs(s + answer, q, 65535);
    }
  }

  lemma {:induction false} SumConcat(a: seq<Word16>, b: seq<Word16>)
    ensures Sum(a + b) == Sum(a) + Sum(b)
  {
    if |b| == 0 {
      assert a + b == a;
    } else {
      var n := |b| - 1;
      SumConcat(a, b[..n]);
      assert (a + b)[..|a| + n] == a + b[..n];
    }
  }

  lemma ExtractSum(l: seq<Word16>, x: Word16, r: seq<Word16>)
    ensures Sum(l + [x] + r) == Sum(l + r) + x
  {
    SumConcat(l, r);
    SumConcat(l + [x], r);
    SumConcat(l, [x]);
  }

  lemma ExtractBag(l: seq<Word16>, x: Word16, r: seq<Word16>)
    ensures multiset(l + r) == multiset(l + [x] + r) - multiset{x}
  {
  }

  lemma Locate(b: seq<Word16>, x: Word16) returns (l: seq<Word16>, r: seq<Word16>)
    requires x in multiset(b)
    ensures b == l + [x] + r
  {
    var i :| 0 <= i < |b| && b[i] == x;
    l, r := b[..i], b[i + 1..];
  }

  /** RFC 1071, section 2(A): the order of the words does not matter. */
  lemma {:induction false} SumOfPermutation(a: seq<Word16>, b: seq<Word16>)
    requires multiset(a) == multiset(b)
    ensures Sum(a) == Sum(b)
    decreases |a|
  {
    if |a| == 0 {
      assert |multiset(b)| == |b|;
    } else {
      var x, rest := a[0], a[1..];
      assert a == [x] + rest;
      assert multiset(a) == multiset{x} + multiset(rest);
      var l, r := Locate(b, x);
      hide Sum;
      ExtractBag(l, x, r);
      SumOfPermutation(rest, l + r);
      SumConcat([x], rest);
      SumOfOne(x);
      ExtractSum(l, x, r);
    }
  }

  lemma SumOfOne(x: Word16)
    ensures Sum([x]) == x
  {
  }

  lemma WordOrderIrrelevant(a: seq<Word16>, b: seq<Word16>)
    requires multiset(a) == multiset(b)
    ensures Rfc1071(a) == Rfc1071(b)
  {
    SumOfPermutation(a, b);
    OnesSumReduces(a);
    OnesSumReduces(b);
  }

  function Swap(w: Word16): Word16 { w % 256 * 256 + w / 256 }

  /** The words a big-endian host would load from the same bytes. */
  function Swapped(ws: seq<Word16>): (r: seq<Word16>)
    ensures |r| == |ws|
  {
    seq(|ws|, (k: nat) requires k < |ws| => Swap(ws[k]))
  }

  lemma {:induction false} SwappedSum(ws: seq<Word16>) returns (q: nat)
    ensures Sum(Swapped(ws)) + 65535 * q == 256 * Sum(ws)
    ensures Sum(Swapped(ws)) == 0 <==> Sum(ws) == 0
  {
    if |ws| == 0 {
      q := 0;
    } else {
      var n := |ws| - 1;
      var q' := SwappedSum(ws[..n]);
      assert Swapped(ws)[..n] == Swapped(ws[..n]);
      q := q' + ws[n] / 256;
    }
  }

  /** RFC 1071, section 2(B): summing in the other byte order gives the same two bytes. */
  lemma ByteOrderIrrelevant(ws: seq<Word16>)
    ensures OnesSum(Swapped(ws)) == Swap(OnesSum(ws))
  {
    OnesSumReduces(ws);
    OnesSumReduces(Swapped(ws));
    var q := SwappedSum(ws);
    var s := Sum(ws);
    if s > 0 {
      var p, x := (s - 1) / 65535, Reduce(s);
      assert s == p * 65535 + x;
      assert 256 * x == x / 256 * 65535 + Swap(x);
      ReduceIs(Sum(Swapped(ws)), 256 * p + x / 256 - q, Swap(x));
    }
  }

  const EXAMPLE: seq<byte> := [0x00, 0x01, 0xF2, 0x03, 0xF4, 0xF5, 0xF6, 0xF7]

  lemma ExampleWords()
    ensures Words(EXAMPLE) == [0x0100, 0x03F2, 0xF5F4, 0xF7F6]
  {
    assert Val(0x00) == 0 && Val(0x01) == 1 && Val(0xF2) == 0xF2 && Val(0x03) == 3;
    assert Val(0xF4) == 0xF4 && Val(0xF5) == 0xF5 && Val(0xF6) == 0xF6 && Val(0xF7) == 0xF7;
    hide Val;
  }

  /** The example of RFC 1071, section 3: the sum of these eight bytes is DD F2, so that the
      checksum goes into the packet as 22 0D. */
  lemma Rfc1071Example()
    ensures Rfc1071(Words(EXAMPLE)) == 0x0D22
    ensures LowByte(0x0D22) == 0x22 && HighByte(0x0D22) == 0x0D
  {
    ExampleWords();
    var ws: seq<Word16> := [0x0100, 0x03F2, 0xF5F4, 0xF7F6];
    var ws3, ws2, ws1 := ws[..3], ws[..2], ws[..1];
    assert ws3[..2] == ws2 && ws2[..1] == ws1 && ws1[..0] == [];
    assert Sum(ws1) == 0x0100;
    assert Sum(ws2) == 0x04F2;
    assert Sum(ws3) == 0xFAE6;
    assert Sum(ws) == 0x1F2DC;
    OnesSumReduces(ws);
  }
}
