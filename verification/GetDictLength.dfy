/** BitTorrent/CszGetDictLength.cpp: the flat scanner that finds how long a bencoded
    dictionary is by counting nesting, without decoding it. */
module GetDictLength {
  import opened Bencode
  import opened BencodeDecoder
  import opened BencodeProofs

  /** T_str[i]; the C string ends in a NUL. */
  function CharAt(s: string, i: nat): char { if i < |s| then s[i] else '\0' }

  function RunEnd(s: string, i: nat): (j: nat)
    ensures i <= j && (i <= |s| ==> j <= |s|)
  {
    if i <= |s| then DigitsEnd(s, i) else i
  }

  function RunValue(s: string, i: nat): nat {
    if i <= |s| then Numeral(s[i..DigitsEnd(s, i)]) else 0
  }

  /** What the loop returns from position i at nesting depth `count`, with `budget` tokens
      of T_len left. */
  function Scan(s: string, i: nat, count: int, budget: nat): int
    decreases budget
  {
    if count <= 0 || budget == 0 then i
    else match CharAt(s, i)
      case 'd' => Scan(s, i + 1, count + 1, budget - 1)
      case 'l' => Scan(s, i + 1, count + 1, budget - 1)
      case 'e' => Scan(s, i + 1, count - 1, budget - 1)
      case 'i' => Scan(s, RunEnd(s, i + 1) + 1, count, budget - 1)
      case _ => if RunValue(s, i) == 0 then -1
                else Scan(s, RunEnd(s, i) + RunValue(s, i) + 1, count, budget - 1)
  }

  function DictLength(s: string, len: int): int {
    if len <= 0 || CharAt(s, 0) != 'd' then -1 else Scan(s, 1, 1, len)
  }

  /** A text that ends, or is jumped over, inside the dictionary is refused. */
  lemma EndIsRefused(s: string, i: nat, count: int, budget: nat)
    requires i >= |s| && count > 0 && budget > 0
    ensures Scan(s, i, count, budget) == -1
  {
  }

  /** The inner loops over isdigit: where the run ends and what it spells. */
  method ReadRun(s: string, i: nat) returns (j: nat, num: nat)
    ensures j == RunEnd(s, i) && num == RunValue(s, i)
  {
    j, num := i, 0;
    while IsDigit(CharAt(s, j))
      invariant i <= j && (i <= |s| ==> j <= |s| && AllDigits(s[i..j]) && num == Numeral(s[i..j]))
      invariant |s| < i ==> j == i && num == 0
      invariant i <= |s| ==> DigitsEnd(s, i) == DigitsEnd(s, j)
      decreases |s| - j
    {
      num := num * 10 + Digit(s[j]);
      assert s[i..j + 1][..j - i] == s[i..j];
      j := j + 1;
    }
  }

  /** GetDictLength::operator(). */
  method Run(s: string, len: int) returns (r: int)
    ensures r == DictLength(s, len)
  {
    hide RunEnd, RunValue;
    if len <= 0 || CharAt(s, 0) != 'd' {
      return -1;
    }
    var left, ptr, count := len, 1, 1;
    while count > 0 && left != 0
      invariant left >= 0 && ptr >= 0
      invariant Scan(s, ptr, count, left) == DictLength(s, len)
      decreases left
    {
      left := left - 1;
      match CharAt(s, ptr) {
        case 'd' => count := count + 1;
        case 'l' => count := count + 1;
        case 'e' => count := count - 1;
        case 'i' =>
          var j, _ := ReadRun(s, ptr + 1);
          ptr := j;
        case _ =>
          var j, num := ReadRun(s, ptr);
          if num == 0 {
            return -1;
          }
          ptr := j + num;
      }
      ptr := ptr + 1;
    }
    r := ptr;
  }

  /** The loop turns one bencoded value takes. */
  function Tokens(t: Tree): (n: nat)
    ensures n >= 1
    decreases t
  {
    match t
    case IntT(_) => 1
    case StrT(_) => 1
    case ListT(items) => 2 + ItemTokens(items)
    case DictT(pairs) => 2 + PairTokens(pairs)
  }

  function ItemTokens(items: seq<Tree>): nat
    decreases items
  {
    if |items| == 0 then 0 else Tokens(items[0]) + ItemTokens(items[1..])
  }

  function PairTokens(pairs: seq<Pair>): nat
    decreases pairs
  {
    if |pairs| == 0 then 0 else 1 + Tokens(pairs[0].value) + PairTokens(pairs[1..])
  }

  /** A value never takes more turns than it has bytes, so the budget cannot run out first. */
  lemma {:induction false} TokensWithinBytes(t: Tree)
    ensures Tokens(t) <= |Encode(t)|
    decreases t
  {
    match t
    case IntT(_) =>
    case StrT(_) =>
    case ListT(items) => ItemTokensWithinBytes(items);
    case DictT(pairs) => PairTokensWithinBytes(pairs);
  }

  lemma {:induction false} ItemTokensWithinBytes(items: seq<Tree>)
    ensures ItemTokens(items) <= |EncodeItems(items)|
    decreases items
  {
    if |items| == 0 {
    } else {
      TokensWithinBytes(items[0]);
      ItemTokensWithinBytes(items[1..]);
    }
  }

  lemma {:induction false} PairTokensWithinBytes(pairs: seq<Pair>)
    ensures PairTokens(pairs) <= |EncodePairs(pairs)|
    decreases pairs
  {
    if |pairs| == 0 {
    } else {
      TokensWithinBytes(pairs[0].value);
      PairTokensWithinBytes(pairs[1..]);
    }
  }

  ghost predicate Holds(s: string, i: nat, e: string) { i + |e| <= |s| && s[i..i + |e|] == e }

  lemma HoldsParts(s: string, i: nat, a: string, b: string)
    requires Holds(s, i, a + b)
    ensures Holds(s, i, a) && Holds(s, i + |a|, b)
  {
    assert s[i..i + |a|] == (a + b)[..|a|];
    assert s[i + |a|..i + |a| + |b|] == (a + b)[|a|..];
  }

  lemma HoldsChar(s: string, i: nat, c: char)
    requires Holds(s, i, [c])
    ensures i < |s| && s[i] == c && CharAt(s, i) == c
  {
    assert s[i] == s[i..i + 1][0];
  }

  lemma RunIsDecimal(s: string, i: nat, n: nat, c: char)
    requires Holds(s, i, Decimal(n) + [c]) && !IsDigit(c)
    ensures RunEnd(s, i) == i + |Decimal(n)| && RunValue(s, i) == n
    ensures IsDigit(CharAt(s, i))
  {
    var d := Decimal(n);
    HoldsParts(s, i, d, [c]);
    HoldsChar(s, i + |d|, c);
    DigitsEndAt(s, i, i + |d|);
    NumeralOfDecimal(n);
    assert s[i] == s[i..i + |d|][0];
  }

  lemma ScanStr(s: string, i: nat, k: string, count: int, budget: nat)
    requires Holds(s, i, EncodeStr(k)) && count > 0 && budget > 0
    ensures Scan(s, i, count, budget) ==
      if k == "" then -1 else Scan(s, i + |EncodeStr(k)|, count, budget - 1)
  {
    HoldsParts(s, i, Decimal(|k|) + ":", k);
    RunIsDecimal(s, i, |k|, ':');
    hide RunEnd, RunValue, Decimal;
  }

  lemma ScanInt(s: string, i: nat, n: nat, count: int, budget: nat)
    requires Holds(s, i, Encode(IntT(n))) && count > 0 && budget > 0
    ensures Scan(s, i, count, budget) == Scan(s, i + |Encode(IntT(n))|, count, budget - 1)
  {
    assert "i" + Decimal(n) + "e" == "i" + (Decimal(n) + "e");
    HoldsParts(s, i, "i", Decimal(n) + "e");
    HoldsChar(s, i, 'i');
    RunIsDecimal(s, i + 1, n, 'e');
  }

  lemma ScanOpen(s: string, i: nat, count: int, budget: nat)
    requires CharAt(s, i) in {'d', 'l'} && count > 0 && budget > 0
    ensures Scan(s, i, count, budget) == Scan(s, i + 1, count + 1, budget - 1)
  {
  }

  lemma ScanClose(s: string, i: nat, count: int, budget: nat)
    requires CharAt(s, i) == 'e' && count > 0 && budget > 0
    ensures Scan(s, i, count, budget) == Scan(s, i + 1, count - 1, budget - 1)
  {
  }

  predicate NoEmptyItems(items: seq<Tree>) { forall k :: 0 <= k < |items| ==> NoEmptyStr(items[k]) }

  predicate NoEmptyPairs(pairs: seq<Pair>) {
    forall k :: 0 <= k < |pairs| ==> pairs[k].key != "" && NoEmptyStr(pairs[k].value)
  }

  lemma NoEmptyFirst(items: seq<Tree>)
    requires |items| > 0
    ensures NoEmptyItems(items) <==> NoEmptyStr(items[0]) && NoEmptyItems(items[1..])
  {
    assert forall k :: 0 < k < |items| ==> items[k] == items[1..][k - 1];
  }

  lemma NoEmptyFirstPair(pairs: seq<Pair>)
    requires |pairs| > 0
    ensures NoEmptyPairs(pairs) <==>
            pairs[0].key != "" && NoEmptyStr(pairs[0].value) && NoEmptyPairs(pairs[1..])
  {
    assert forall k :: 0 < k < |pairs| ==> pairs[k] == pairs[1..][k - 1];
  }

  /** The scanner crosses one whole value and comes back to the depth it started from. */
  lemma {:induction false} ScanCrosses(s: string, i: nat, t: Tree, count: int, budget: nat)
    requires Holds(s, i, Encode(t)) && count > 0 && budget >= Tokens(t)
    ensures Scan(s, i, count, budget) ==
      if NoEmptyStr(t) then Scan(s, i + |Encode(t)|, count, budget - Tokens(t)) else -1
    decreases t
  {
    hide Scan, Holds;
    match t
    case IntT(n) => ScanInt(s, i, n, count, budget);
    case StrT(k) => ScanStr(s, i, k, count, budget);
    case ListT(items) =>
      Bracketed(s, i, 'l', EncodeItems(items));
      ScanOpen(s, i, count, budget);
      ScanCrossesItems(s, i + 1, items, count + 1, budget - 1);
      ScanClose(s, i + 1 + |EncodeItems(items)|, count + 1, budget - 1 - ItemTokens(items));
    case DictT(pairs) =>
      Bracketed(s, i, 'd', EncodePairs(pairs));
      ScanOpen(s, i, count, budget);
      ScanCrossesPairs(s, i + 1, pairs, count + 1, budget - 1);
      ScanClose(s, i + 1 + |EncodePairs(pairs)|, count + 1, budget - 1 - PairTokens(pairs));
  }

  lemma Bracketed(s: string, i: nat, c: char, body: string)
    requires Holds(s, i, [c] + body + "e")
    ensures CharAt(s, i) == c && Holds(s, i + 1, body) && CharAt(s, i + 1 + |body|) == 'e'
  {
    HoldsParts(s, i, [c] + body, "e");
    HoldsParts(s, i, [c], body);
    HoldsChar(s, i, c);
    HoldsChar(s, i + 1 + |body|, 'e');
  }

  lemma {:induction false} ScanCrossesItems(s: string, i: nat, items: seq<Tree>, count: int, budget: nat)
    requires Holds(s, i, EncodeItems(items)) && count > 0 && budget > ItemTokens(items)
    ensures Scan(s, i, count, budget) ==
      if NoEmptyItems(items) then Scan(s, i + |EncodeItems(items)|, count, budget - ItemTokens(items)) else -1
    decreases items
  {
    hide Scan, Holds;
    if |items| == 0 {
    } else {
      var e := Encode(items[0]);
      HoldsParts(s, i, e, EncodeItems(items[1..]));
      ScanCrosses(s, i, items[0], count, budget);
      ScanCrossesItems(s, i + |e|, items[1..], count, budget - Tokens(items[0]));
      NoEmptyFirst(items);
    }
  }

  lemma {:induction false} ScanCrossesPairs(s: string, i: nat, pairs: seq<Pair>, count: int, budget: nat)
    requires Holds(s, i, EncodePairs(pairs)) && count > 0 && budget > PairTokens(pairs)
    ensures Scan(s, i, count, budget) ==
      if NoEmptyPairs(pairs) then Scan(s, i + |EncodePairs(pairs)|, count, budget - PairTokens(pairs)) else -1
    decreases pairs
  {
    hide Scan, Holds, EncodeStr;
    if |pairs| == 0 {
    } else {
      var p := pairs[0];
      var k, v := EncodeStr(p.key), Encode(p.value);
      HoldsParts(s, i, k + v, EncodePairs(pairs[1..]));
      HoldsParts(s, i, k, v);
      ScanStr(s, i, p.key, count, budget);
      NoEmptyFirstPair(pairs);
      if p.key != "" {
        ScanCrosses(s, i + |k|, p.value, count, budget - 1);
        ScanCrossesPairs(s, i + |k| + |v|, pairs[1..], count, budget - 1 - Tokens(p.value));
      }
    }
  }

  lemma ScannerMeasures(s: string, pairs: seq<Pair>)
    requires Holds(s, 0, Encode(DictT(pairs)))
    ensures DictLength(s, |s|) == if NoEmptyPairs(pairs) then |Encode(DictT(pairs))| else -1
  {
    var body := EncodePairs(pairs);
    Bracketed(s, 0, 'd', body);
    PairTokensWithinBytes(pairs);
    assert |body| + 2 <= |s|;
    hide Holds, Scan, Encode, EncodePairs, NoEmptyPairs;
    ScanCrossesPairs(s, 1, pairs, 1, |s|);
    ScanClose(s, |body| + 1, 1, |s| - PairTokens(pairs));
    ScanStops(s, |body| + 2, |s| - PairTokens(pairs) - 1);
    EncodedDictLength(pairs);
  }

  lemma EncodedDictLength(pairs: seq<Pair>)
    ensures |Encode(DictT(pairs))| == |EncodePairs(pairs)| + 2
  {
  }

  /** On an encoded dictionary, whatever follows it, the scanner returns its length exactly
      when no string in it is empty, and -1 otherwise. */
  lemma ScannerMeasuresDict(pairs: seq<Pair>, suffix: string)
    ensures var e := Encode(DictT(pairs));
            DictLength(e + suffix, |e + suffix|) == if NoEmptyStr(DictT(pairs)) then |e| else -1
  {
    var e := Encode(DictT(pairs));
    assert NoEmptyStr(DictT(pairs)) <==> NoEmptyPairs(pairs);
    hide DictLength, NoEmptyStr, NoEmptyPairs, Encode;
    assert (e + suffix)[0..|e|] == e;
    ScannerMeasures(e + suffix, pairs);
  }

  lemma ScanStops(s: string, i: nat, budget: nat)
    ensures Scan(s, i, 0, budget) == i
  {
  }

  /** So the two readers agree: what the scanner measures is what BDict::Decode consumes. */
  lemma ScannerAgreesWithDecoder(pairs: seq<Pair>, suffix: string)
    requires IntsFit(DictT(pairs)) && NoEmptyStr(DictT(pairs))
    requires |Encode(DictT(pairs)) + suffix| < SIZE_LIMIT
    ensures var s := Encode(DictT(pairs)) + suffix;
            var n := DictLength(s, |s|);
            0 <= n <= |s| && DecodeNext(s).Done? && DecodeNext(s).rest == s[n..]
  {
    ScannerMeasuresDict(pairs, suffix);
    DecodeUndoesEncode(DictT(pairs), suffix);
  }

  /** "d1:a0:e" is a dictionary of seven bytes, which the decoder reads and the scanner does not
      measure. */
  lemma EmptyStringIsNotMeasured()
    ensures DictLength("d1:a0:e", 7) == -1
    ensures DecodeNext("d1:a0:e") == Done(DictV(map["a" := StrV("")]), "")
  {
    var pairs := [Pair("a", StrT(""))];
    var e := Encode(DictT(pairs));
    assert EncodePairs(pairs) == "1:a" + "0:" by {
      assert pairs[1..] == [];
      assert Decimal(1) == "1" && Decimal(0) == "0";
    }
    assert e == "d1:a0:e";
    assert e + "" == e;
    ScannerMeasuresDict(pairs, "");
    DecodeUndoesEncode(DictT(pairs), "");
    assert !NoEmptyStr(DictT(pairs));
    hide Encode, DictLength, DecodeNext;
    assert pairs[1..] == [];
  }
}
