/** What the bencode decoders promise: they undo the encoding, and they terminate exactly
    when no string length cancels itself. */
module BencodeProofs {
  import opened Bencode
  import opened BencodeDecoder

  /** The value a bencoded tree stands for. */
  function Denote(t: Tree): Value
    decreases t
  {
    match t
    case IntT(n) => IntV(n)
    case StrT(s) => StrV(s)
    case ListT(items) => ListV(DenoteItems(items))
    case DictT(pairs) => DictV(DenotePairs(pairs, map[]))
  }

  function DenoteItems(items: seq<Tree>): (r: seq<Value>)
    ensures |r| == |items|
    ensures forall k :: 0 <= k < |items| ==> r[k] == Denote(items[k])
    decreases items
  {
    if |items| == 0 then [] else [Denote(items[0])] + DenoteItems(items[1..])
  }

  /** The pairs put into m one by one, a key that is already there being passed over. */
  function DenotePairs(pairs: seq<Pair>, m: map<string, Value>): map<string, Value>
    decreases pairs
  {
    if |pairs| == 0 then m
    else DenotePairs(pairs[1..], Emplace(m, pairs[0].key, Denote(pairs[0].value)))
  }

  predicate DistinctKeys(pairs: seq<Pair>) {
    forall i, j :: 0 <= i < j < |pairs| ==> pairs[i].key != pairs[j].key
  }

  /** No pair before it has its key. */
  predicate IsFirst(pairs: seq<Pair>, k: nat)
    requires k < |pairs|
  {
    forall j :: 0 <= j < k ==> pairs[j].key != pairs[k].key
  }

  lemma {:induction false} PairsAccumulate(pairs: seq<Pair>, m: map<string, Value>)
    ensures DenotePairs(pairs, m).Keys == m.Keys + (set k | 0 <= k < |pairs| :: pairs[k].key)
    ensures forall x :: x in m ==> x in DenotePairs(pairs, m) && DenotePairs(pairs, m)[x] == m[x]
    ensures forall k :: 0 <= k < |pairs| && pairs[k].key !in m && IsFirst(pairs, k) ==>
      pairs[k].key in DenotePairs(pairs, m) && DenotePairs(pairs, m)[pairs[k].key] == Denote(pairs[k].value)
  {
    if |pairs| == 0 {
    } else {
      var m' := Emplace(m, pairs[0].key, Denote(pairs[0].value));
      var rest := pairs[1..];
      PairsAccumulate(rest, m');
      forall k | 0 <= k < |pairs| && pairs[k].key !in m && IsFirst(pairs, k)
        ensures pairs[k].key in DenotePairs(pairs, m) && DenotePairs(pairs, m)[pairs[k].key] == Denote(pairs[k].value)
      {
        if k > 0 {
          assert rest[k - 1] == pairs[k] && IsFirst(rest, k - 1);
        } else {
          assert pairs[0].key in m';
        }
      }
      assert forall k :: 0 < k < |pairs| ==> pairs[k] == rest[k - 1];
    }
  }

  /** A decoded dictionary has every key of the text, and of equal keys the first one's value. */
  lemma FirstIsKept(pairs: seq<Pair>)
    ensures DenotePairs(pairs, map[]).Keys == set k | 0 <= k < |pairs| :: pairs[k].key
    ensures forall k :: 0 <= k < |pairs| && IsFirst(pairs, k) ==>
      pairs[k].key in DenotePairs(pairs, map[]) && DenotePairs(pairs, map[])[pairs[k].key] == Denote(pairs[k].value)
  {
    PairsAccumulate(pairs, map[]);
  }

  /** With distinct keys it has exactly the pairs of the text. */
  lemma DistinctKeysAllKept(pairs: seq<Pair>)
    requires DistinctKeys(pairs)
    ensures DenotePairs(pairs, map[]).Keys == set k | 0 <= k < |pairs| :: pairs[k].key
    ensures forall k :: 0 <= k < |pairs| ==>
      pairs[k].key in DenotePairs(pairs, map[]) && DenotePairs(pairs, map[])[pairs[k].key] == Denote(pairs[k].value)
  {
    FirstIsKept(pairs);
    assert forall k :: 0 <= k < |pairs| ==> IsFirst(pairs, k);
  }

  lemma {:induction false} FindAt(s: string, c: char, i: nat, j: nat)
    requires i <= j < |s| && s[j] == c && c !in s[i..j]
    ensures Find(s, c, i) == Some(j)
    decreases j - i
  {
    if i == j {
    } else {
      assert s[i..j] == [s[i]] + s[i + 1..j];
      FindAt(s, c, i + 1, j);
    }
  }

  lemma StrRoundTrip(k: string, suffix: string)
    requires |EncodeStr(k) + suffix| < SIZE_LIMIT
    ensures DecodeStr(EncodeStr(k) + suffix) == Done(k, suffix)
  {
    var d := Decimal(|k|);
    var s := EncodeStr(k) + suffix;
    assert s == d + (":" + k + suffix);
    assert s[..|d|] == d && s[|d|] == ':';
    FindAt(s, ':', 0, |d|);
    StoulOfDecimal(|k|);
    hide Find, Stoul, Decimal, EncodeStr;
    assert Erased(|k|, |d|) == |d| + 1 + |k|;
    StrParts(d, k, suffix, s);
  }

  lemma StrParts(d: string, k: string, suffix: string, s: string)
    requires s == d + ":" + k + suffix
    ensures s[|d| + 1..] == k + suffix && s[|d| + 1..][..|k|] == k
    ensures s[|d| + 1 + |k|..] == suffix
  {
  }

  lemma IntRoundTrip(n: nat, suffix: string)
    requires n < SIZE_LIMIT
    ensures DecodeInt(Encode(IntT(n)) + suffix) == Done(n, suffix)
  {
    var d := Decimal(n);
    var s := Encode(IntT(n)) + suffix;
    assert s == "i" + d + ("e" + suffix);
    assert s[1..|d| + 1] == d && s[|d| + 1] == 'e';
    assert s[0..|d| + 1] == "i" + d;
    FindAt(s, 'e', 0, |d| + 1);
    StoulOfDecimal(n);
    assert s[|d| + 2..] == suffix;
  }

  /** Decoding undoes encoding, for every tree and whatever follows it. */
  lemma {:induction false} DecodeUndoesEncode(t: Tree, suffix: string)
    requires IntsFit(t) && |Encode(t) + suffix| < SIZE_LIMIT
    ensures DecodeNext(Encode(t) + suffix) == Done(Denote(t), suffix)
    decreases t
  {
    var s := Encode(t) + suffix;
    hide DecodeInt, DecodeStr, DecodeItems, DecodeEntries, Decimal, EncodeItems, EncodePairs, DenoteItems, DenotePairs;
    match t
    case IntT(n) =>
      IntRoundTrip(n, suffix);
    case StrT(k) =>
      StrRoundTrip(k, suffix);
      assert IsDigit(s[0]);
    case ListT(items) =>
      assert s[1..] == EncodeItems(items) + "e" + suffix;
      ItemsUndoEncode(items, suffix, []);
      assert [] + DenoteItems(items) == DenoteItems(items);
    case DictT(pairs) =>
      assert s[1..] == EncodePairs(pairs) + "e" + suffix;
      PairsUndoEncode(pairs, suffix, map[]);
  }

  lemma {:induction false} ItemsUndoEncode(items: seq<Tree>, suffix: string, acc: seq<Value>)
    requires forall k :: 0 <= k < |items| ==> IntsFit(items[k])
    requires |EncodeItems(items) + "e" + suffix| < SIZE_LIMIT
    ensures DecodeItems(EncodeItems(items) + "e" + suffix, acc) == Done(acc + DenoteItems(items), suffix)
    decreases items
  {
    var s := EncodeItems(items) + "e" + suffix;
    if |items| == 0 {
      assert s == "e" + suffix;
      assert s[1..] == suffix;
      assert acc + [] == acc;
    } else {
      var rest := EncodeItems(items[1..]) + "e" + suffix;
      assert s == Encode(items[0]) + rest;
      DecodeUndoesEncode(items[0], rest);
      var v := Denote(items[0]);
      ItemsUndoEncode(items[1..], suffix, acc + [v]);
      assert acc + [v] + DenoteItems(items[1..]) == acc + DenoteItems(items);
    }
  }

  lemma {:induction false} PairsUndoEncode(pairs: seq<Pair>, suffix: string, m: map<string, Value>)
    requires forall k :: 0 <= k < |pairs| ==> IntsFit(pairs[k].value)
    requires |EncodePairs(pairs) + "e" + suffix| < SIZE_LIMIT
    ensures DecodeEntries(EncodePairs(pairs) + "e" + suffix, m) == Done(DenotePairs(pairs, m), suffix)
    decreases pairs
  {
    var s := EncodePairs(pairs) + "e" + suffix;
    if |pairs| == 0 {
      assert s == "e" + suffix;
      assert s[1..] == suffix;
    } else {
      var rest := EncodePairs(pairs[1..]) + "e" + suffix;
      var mid := Encode(pairs[0].value) + rest;
      assert s == EncodeStr(pairs[0].key) + mid;
      StrRoundTrip(pairs[0].key, mid);
      DecodeUndoesEncode(pairs[0].value, rest);
      PairsUndoEncode(pairs[1..], suffix, Emplace(m, pairs[0].key, Denote(pairs[0].value)));
      assert IsDigit(s[0]);
    }
  }

  /** So no encoding is a prefix of another with a different meaning. */
  lemma EncodingIsUnambiguous(t: Tree, x: string, u: Tree, y: string)
    requires IntsFit(t) && IntsFit(u) && |Encode(t) + x| < SIZE_LIMIT
    requires Encode(t) + x == Encode(u) + y
    ensures Denote(t) == Denote(u) && x == y
  {
    DecodeUndoesEncode(t, x);
    DecodeUndoesEncode(u, y);
  }

  ghost predicate Suffix(r: string, s: string) { |r| <= |s| && r == s[|s| - |r|..] }

  /** The length before the first colon, its digits and the colon add up to 2^64. */
  predicate SelfCancelling(s: string) {
    s != "" &&
    var mid := Find(s, ':', 0);
    mid.Some? &&
    var num := Stoul(s[..mid.value]);
    num.Some? && num.value + mid.value + 1 == SIZE_LIMIT
  }

  /** BStr::Decode shortens the string, or quits, exactly when the length does not cancel. */
  lemma StrProgress(s: string)
    requires 0 < |s| < SIZE_LIMIT
    ensures DecodeStr(s).Done? ==> (|DecodeStr(s).rest| < |s| <==> !SelfCancelling(s))
    ensures SelfCancelling(s) ==> DecodeStr(s).Done? && DecodeStr(s).rest == s
    ensures DecodeStr(s).Done? ==> Suffix(DecodeStr(s).rest, s)
  {
    hide Find, Stoul;
    var mid := Find(s, ':', 0);
    if mid.Some? {
      var num := Stoul(s[..mid.value]);
      if num.Some? {
        var total := num.value + mid.value + 1;
        assert total < 2 * SIZE_LIMIT;
        if total >= SIZE_LIMIT {
          assert Erased(num.value, mid.value) == total - SIZE_LIMIT;
        }
      }
    }
  }

  // The decoder comes to a length that cancels: where the loop of a container has it next, as
  // a list item or as a key, after everything before it was decoded.

  predicate MeetsNext(s: string)
    decreases |s|, 0
  {
    s != "" && ((s[0] == 'l' && MeetsItems(s[1..])) || (s[0] == 'd' && MeetsEntries(s[1..])))
  }

  predicate MeetsItems(s: string)
    decreases |s|, 1
  {
    && s != "" && s[0] != 'e'
    && (SelfCancelling(s) || MeetsNext(s) ||
        (var r := DecodeNext(s); r.Done? && |r.rest| < |s| && MeetsItems(r.rest)))
  }

  predicate MeetsEntries(s: string)
    decreases |s|, 1
  {
    && s != "" && s[0] != 'e'
    && (SelfCancelling(s) ||
        (var k := DecodeStr(s);
         k.Done? && |k.rest| < |s| &&
         (MeetsNext(k.rest) ||
          (var r := DecodeNext(k.rest); r.Done? && |r.rest| < |s| && MeetsEntries(r.rest)))))
  }

  lemma SuffixTrans(a: string, b: string, c: string)
    requires Suffix(a, b) && Suffix(b, c)
    ensures Suffix(a, c)
  {
  }

  /** A length that cancels is not that of an integer, a list or a dictionary. */
  lemma CancellingIsStr(s: string)
    requires SelfCancelling(s)
    ensures s[0] !in {'i', 'l', 'd', 'e'}
  {
    var mid := Find(s, ':', 0);
    var p := s[..mid.value];
    assert Stoul(p).Some?;
    if p != "" {
      assert p[0] == s[0];
    }
  }

  /** The decoder runs for ever if and only if it comes to a length that cancels. Where it does
      not, it leaves a suffix, and a shorter one unless the value itself is a string whose
      length cancels. */
  lemma {:induction false} NextHangsIff(s: string)
    requires |s| < SIZE_LIMIT
    ensures DecodeNext(s) == Hang <==> MeetsNext(s)
    ensures DecodeNext(s).Done? ==> Suffix(DecodeNext(s).rest, s)
    ensures DecodeNext(s).Done? && s != "" ==> (|DecodeNext(s).rest| < |s| <==> !SelfCancelling(s))
    decreases |s|, 0
  {
    if s == "" {
    } else if s[0] == 'l' {
      ItemsHangIff(s[1..], []);
      NotCancelling(s);
    } else if s[0] == 'd' {
      EntriesHangIff(s[1..], map[]);
      NotCancelling(s);
    } else if s[0] == 'i' {
      NotCancelling(s);
    } else {
      StrProgress(s);
    }
  }

  lemma NotCancelling(s: string)
    requires s != "" && s[0] in {'i', 'l', 'd', 'e'}
    ensures !SelfCancelling(s)
  {
    if SelfCancelling(s) {
      CancellingIsStr(s);
    }
  }

  lemma {:induction false} ItemsHangIff(s: string, acc: seq<Value>)
    requires |s| < SIZE_LIMIT
    ensures DecodeItems(s, acc) == Hang <==> MeetsItems(s)
    ensures DecodeItems(s, acc).Done? ==> Suffix(DecodeItems(s, acc).rest, s)
    decreases |s|, 1
  {
    if s == "" || s[0] == 'e' {
    } else {
      NextHangsIff(s);
      CancelledNext(s);
      hide SelfCancelling, MeetsNext, DecodeNext;
      var r := DecodeNext(s);
      if r.Done? && |r.rest| < |s| {
        ItemsHangIff(r.rest, acc + [r.value]);
      }
    }
  }

  /** What the switch makes of a string whose length cancels. */
  lemma CancelledNext(s: string)
    requires |s| < SIZE_LIMIT
    ensures SelfCancelling(s) ==> DecodeStr(s).Done? && DecodeStr(s).rest == s
    ensures SelfCancelling(s) ==> DecodeNext(s).Done? && DecodeNext(s).rest == s
  {
    if SelfCancelling(s) {
      CancellingIsStr(s);
      StrProgress(s);
    }
  }

  /** One turn of the loop over entries. */
  lemma EntriesTurn(s: string, m: map<string, Value>)
    requires s != "" && s[0] != 'e'
    ensures !DecodeStr(s).Done? ==> DecodeEntries(s, m) == Quit
    ensures DecodeStr(s).Done? ==>
      var k, r := DecodeStr(s), DecodeNext(DecodeStr(s).rest);
      if r.Done? then
        DecodeEntries(s, m) == if |r.rest| >= |s| then Hang else DecodeEntries(r.rest, Emplace(m, k.value, r.value))
      else
        !DecodeEntries(s, m).Done? && (DecodeEntries(s, m) == Hang <==> r == Hang)
    ensures var k := DecodeStr(s);
      MeetsEntries(s) <==>
        SelfCancelling(s) ||
        (k.Done? && |k.rest| < |s| &&
         (MeetsNext(k.rest) ||
          (DecodeNext(k.rest).Done? && |DecodeNext(k.rest).rest| < |s| && MeetsEntries(DecodeNext(k.rest).rest))))
  {
    hide DecodeStr, SelfCancelling, MeetsNext, DecodeNext, Emplace;
  }

  lemma {:induction false} EntriesHangIff(s: string, m: map<string, Value>)
    requires |s| < SIZE_LIMIT
    ensures DecodeEntries(s, m) == Hang <==> MeetsEntries(s)
    ensures DecodeEntries(s, m).Done? ==> Suffix(DecodeEntries(s, m).rest, s)
    decreases |s|, 1
  {
    if s == "" || s[0] == 'e' {
    } else {
      EntriesTurn(s, m);
      StrProgress(s);
      CancelledNext(s);
      hide DecodeStr, SelfCancelling, MeetsNext, DecodeNext, Suffix, Emplace, DecodeEntries, MeetsEntries;
      var k := DecodeStr(s);
      if k.Done? && |k.rest| < |s| {
        NextHangsIff(k.rest);
        var r := DecodeNext(k.rest);
        if r.Done? {
          SuffixShorter(r.rest, k.rest);
          SuffixTrans(r.rest, k.rest, s);
          EntriesHangIff(r.rest, Emplace(m, k.value, r.value));
          if DecodeEntries(s, m).Done? {
            SuffixTrans(DecodeEntries(s, m).rest, r.rest, s);
          }
        }
      }
    }
  }

  lemma SuffixShorter(r: string, s: string)
    requires Suffix(r, s)
    ensures |r| <= |s|
  {
  }

  /** No length cancels anywhere in the string. */
  predicate NoneCancels(s: string) {
    forall i :: 0 <= i < |s| ==> !SelfCancelling(s[i..])
  }

  lemma NoneCancelsAfter(s: string, r: string)
    requires NoneCancels(s) && Suffix(r, s)
    ensures NoneCancels(r) && (s != "" ==> !SelfCancelling(s))
  {
    var n := |s| - |r|;
    forall i | 0 <= i < |r|
      ensures !SelfCancelling(r[i..])
    {
      assert r[i..] == s[n + i..];
    }
    assert s[0..] == s;
  }

  lemma {:induction false} NoneMeetsNext(s: string)
    requires |s| < SIZE_LIMIT && NoneCancels(s)
    ensures !MeetsNext(s)
    decreases |s|, 0
  {
    if s == "" {
    } else {
      NoneCancelsAfter(s, s[1..]);
      NoneMeetsItems(s[1..]);
      NoneMeetsEntries(s[1..]);
    }
  }

  lemma {:induction false} NoneMeetsItems(s: string)
    requires |s| < SIZE_LIMIT && NoneCancels(s)
    ensures !MeetsItems(s)
    decreases |s|, 1
  {
    if s == "" {
    } else {
      NoneCancelsAfter(s, s);
      NoneMeetsNext(s);
      NextHangsIff(s);
      var r := DecodeNext(s);
      hide SelfCancelling, NoneCancels, MeetsNext, DecodeNext;
      if r.Done? && |r.rest| < |s| {
        NoneCancelsAfter(s, r.rest);
        NoneMeetsItems(r.rest);
      }
    }
  }

  lemma {:induction false} NoneMeetsEntries(s: string)
    requires |s| < SIZE_LIMIT && NoneCancels(s)
    ensures !MeetsEntries(s)
    decreases |s|, 1
  {
    if s == "" {
    } else {
      NoneCancelsAfter(s, s);
      StrProgress(s);
      var k := DecodeStr(s);
      hide SelfCancelling, NoneCancels, MeetsNext, DecodeNext, DecodeStr;
      if k.Done? && |k.rest| < |s| {
        NoneCancelsAfter(s, k.rest);
        NoneMeetsNext(k.rest);
        NextHangsIff(k.rest);
        var r := DecodeNext(k.rest);
        if r.Done? && |r.rest| < |s| {
          NoneCancelsAfter(k.rest, r.rest);
          NoneMeetsEntries(r.rest);
        }
      }
    }
  }

  /** A test that needs no decoding: with no cancelling length anywhere, payloads included,
      every decoder terminates and shortens a string that is not empty. */
  lemma NextTerminates(s: string)
    requires |s| < SIZE_LIMIT && NoneCancels(s)
    ensures DecodeNext(s) != Hang
    ensures DecodeNext(s).Done? && s != "" ==> |DecodeNext(s).rest| < |s|
  {
    NextHangsIff(s);
    NoneMeetsNext(s);
    NoneCancelsAfter(s, s);
  }

  /** "-3:e": minus three, its two characters and the colon make 2^64. */
  lemma MinusThreeCancels(x: string)
    ensures SelfCancelling("-3:" + x)
  {
    var s := "-3:" + x;
    FindAt(s, ':', 0, 2);
    var p := s[..2];
    assert p == "-3";
    DigitsEndAt(p, 1, 2);
    assert SpacesEnd(p, 0) == 0;
    assert p[1..2] == "3";
    assert Numeral("3") == 3 by {
      assert "3"[..0] == "";
    }
    assert Stoul(p) == Some(SIZE_LIMIT - 3);
  }

  /** A list and a dictionary that are decoded for ever. */
  lemma HangExample()
    ensures DecodeNext("l-3:e") == Hang && DecodeNext("d-3:e") == Hang
  {
    MinusThreeCancels("e");
    assert "-3:" + "e" == "-3:e";
    assert "l-3:e"[1..] == "-3:e" && "d-3:e"[1..] == "-3:e";
    assert MeetsItems("-3:e") && MeetsEntries("-3:e");
    NextHangsIff("l-3:e");
    NextHangsIff("d-3:e");
  }

  /** Inside a string the same characters do no harm, so that NoneCancels asks for too much. */
  lemma PayloadMayCancel()
    ensures var t := ListT([StrT("a-3:")]);
            !NoneCancels(Encode(t)) && DecodeNext(Encode(t)) == Done(Denote(t), "") && !MeetsNext(Encode(t))
  {
    var t := ListT([StrT("a-3:")]);
    var e := Encode(t);
    assert EncodeItems([StrT("a-3:")]) == EncodeStr("a-3:") by {
      assert [StrT("a-3:")][1..] == [];
    }
    assert Decimal(4) == "4";
    assert e == "l4:a-3:e";
    assert e[4..] == "-3:" + "e";
    MinusThreeCancels("e");
    DecodeUndoesEncode(t, "");
    assert e + "" == e;
    NextHangsIff(e);
  }
}
