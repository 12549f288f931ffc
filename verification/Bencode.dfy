/** The bencoding of BEP 3, and the numerals both readers of it meet. */
module Bencode {
  const SIZE_LIMIT: nat := 0x1_0000_0000_0000_0000

  /** Bencoded text as a tree; a dictionary is the list of its pairs, in text order. */
  datatype Tree =
    | IntT(n: nat)
    | StrT(s: string)
    | ListT(items: seq<Tree>)
    | DictT(pairs: seq<Pair>)

  datatype Pair = Pair(key: string, value: Tree)

  predicate IsDigit(c: char) { '0' <= c <= '9' }

  function Digit(c: char): nat
    requires IsDigit(c)
  {
    c as int - '0' as int
  }

  function DigitChar(d: nat): (c: char)
    requires d < 10
    ensures IsDigit(c) && Digit(c) == d
  {
    ('0' as int + d) as char
  }

  predicate AllDigits(s: string) { forall k :: 0 <= k < |s| ==> IsDigit(s[k]) }

  function Numeral(s: string): nat
    requires AllDigits(s)
  {
    if |s| == 0 then 0 else 10 * Numeral(s[..|s| - 1]) + Digit(s[|s| - 1])
  }

  function Decimal(n: nat): (s: string)
    ensures |s| > 0 && AllDigits(s)
  {
    if n < 10 then [DigitChar(n)] else Decimal(n / 10) + [DigitChar(n % 10)]
  }

  lemma {:induction false} NumeralOfDecimal(n: nat)
    ensures Numeral(Decimal(n)) == n
  {
    if n >= 10 {
      NumeralOfDecimal(n / 10);
      var s := Decimal(n);
      assert s[..|s| - 1] == Decimal(n / 10);
    } else {
      assert Decimal(n)[..0] == "";
    }
  }

  /** The end of the run of digits at i: where a loop over isdigit stops. */
  function DigitsEnd(s: string, i: nat): (j: nat)
    requires i <= |s|
    ensures i <= j <= |s| && AllDigits(s[i..j])
    ensures j < |s| ==> !IsDigit(s[j])
    decreases |s| - i
  {
    if i < |s| && IsDigit(s[i]) then
      var j := DigitsEnd(s, i + 1);
      assert s[i..j] == [s[i]] + s[i + 1..j];
      j
    else i
  }

  lemma {:induction false} DigitsEndAt(s: string, i: nat, j: nat)
    requires i <= j <= |s| && AllDigits(s[i..j]) && (j < |s| ==> !IsDigit(s[j]))
    ensures DigitsEnd(s, i) == j
    decreases j - i
  {
    if i == j {
    } else {
      assert s[i] == s[i..j][0];
      assert s[i + 1..j] == s[i..j][1..];
      DigitsEndAt(s, i + 1, j);
    }
  }

  function EncodeStr(s: string): string { Decimal(|s|) + ":" + s }

  function Encode(t: Tree): (e: string)
    ensures |e| > 0 && e[0] != 'e'
    decreases t
  {
    match t
    case IntT(n) => "i" + Decimal(n) + "e"
    case StrT(s) => EncodeStr(s)
    case ListT(items) => "l" + EncodeItems(items) + "e"
    case DictT(pairs) => "d" + EncodePairs(pairs) + "e"
  }

  function EncodeItems(items: seq<Tree>): string
    decreases items
  {
    if |items| == 0 then "" else Encode(items[0]) + EncodeItems(items[1..])
  }

  function EncodePairs(pairs: seq<Pair>): string
    decreases pairs
  {
    if |pairs| == 0 then "" else EncodeStr(pairs[0].key) + Encode(pairs[0].value) + EncodePairs(pairs[1..])
  }

  /** Every integer fits the uint64_t that BInt stores. */
  predicate IntsFit(t: Tree)
    decreases t
  {
    match t
    case IntT(n) => n < SIZE_LIMIT
    case StrT(_) => true
    case ListT(items) => forall k :: 0 <= k < |items| ==> IntsFit(items[k])
    case DictT(pairs) => forall k :: 0 <= k < |pairs| ==> IntsFit(pairs[k].value)
  }

  /** No string anywhere, keys included, is empty. */
  predicate NoEmptyStr(t: Tree)
    decreases t
  {
    match t
    case IntT(_) => true
    case StrT(s) => s != ""
    case ListT(items) => forall k :: 0 <= k < |items| ==> NoEmptyStr(items[k])
    case DictT(pairs) => forall k :: 0 <= k < |pairs| ==> pairs[k].key != "" && NoEmptyStr(pairs[k].value)
  }
}
