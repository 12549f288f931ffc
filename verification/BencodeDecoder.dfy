/** BitTorrent/CszBInt.cpp, CszBStr.cpp, CszBList.cpp and CszBDict.cpp: the decoders that
    consume one shared string from the front. */
module BencodeDecoder {
  import opened Bencode

  datatype Option<T> = None | Some(value: T)

  /** A decoded value; BDict keeps its values in a map from keys. */
  datatype Value =
    | IntV(n: nat)
    | StrV(s: string)
    | ListV(items: seq<Value>)
    | DictV(entries: map<string, Value>)

  /** Done leaves `rest` in the shared string; Quit is ErrQuit, which exits the program;
      Hang is a loop that comes back to the same string for ever. */
  datatype Outcome<T> = Done(value: T, rest: string) | Quit | Hang

  function Find(s: string, c: char, i: nat): (r: Option<nat>)
    requires i <= |s|
    ensures r == None ==> c !in s[i..]
    ensures r.Some? ==> i <= r.value < |s| && s[r.value] == c && c !in s[i..r.value]
    decreases |s| - i
  {
    if i == |s| then None
    else if s[i] == c then Some(i)
    else
      var r := Find(s, c, i + 1);
      assert s[i..] == [s[i]] + s[i + 1..];
      assert r.Some? ==> s[i..r.value] == [s[i]] + s[i + 1..r.value];
      r
  }

  predicate IsSpace(c: char) { c == ' ' || '\t' <= c <= '\r' }

  function SpacesEnd(s: string, i: nat): (j: nat)
    requires i <= |s|
    ensures i <= j <= |s|
    decreases |s| - i
  {
    if i < |s| && IsSpace(s[i]) then SpacesEnd(s, i + 1) else i
  }

  /** std::stoul in base 10: leading space, a sign, digits, and anything after them; None
      for its two exceptions. A minus sign negates modulo 2^64. */
  function Stoul(s: string): (r: Option<nat>)
    ensures r.Some? ==> r.value < SIZE_LIMIT
  {
    var i := SpacesEnd(s, 0);
    var minus := i < |s| && s[i] == '-';
    var d := if minus || (i < |s| && s[i] == '+') then i + 1 else i;
    var e := DigitsEnd(s, d);
    if e == d then None
    else
      var v := Numeral(s[d..e]);
      if v >= SIZE_LIMIT then None
      else Some(if minus then (SIZE_LIMIT - v) % SIZE_LIMIT else v)
  }

  /** The six characters that isspace accepts in the C locale. */
  predicate AllSpaces(s: string) {
    forall k :: 0 <= k < |s| ==> s[k] == ' ' || s[k] == '\t' || s[k] == '\n' || s[k] as int == 11 ||
                                 s[k] as int == 12 || s[k] == '\r'
  }

  lemma {:induction false} SpacesEndAt(s: string, i: nat, j: nat)
    requires i <= j <= |s| && AllSpaces(s[i..j]) && (j < |s| ==> !IsSpace(s[j]))
    ensures SpacesEnd(s, i) == j
    decreases j - i
  {
    if i < j {
      assert s[i] == s[i..j][0] && s[i + 1..j] == s[i..j][1..];
      SpacesEndAt(s, i + 1, j);
    }
  }

  /** What stoul reads: any space, a sign or none, the whole run of digits, and no further. A minus
      sign negates modulo 2^64; a number of 2^64 or more is out of range. */
  lemma StoulReads(spaces: string, sign: string, digits: string, rest: string)
    requires AllSpaces(spaces) && sign in {"", "+", "-"} && digits != "" && AllDigits(digits)
    requires rest == "" || !IsDigit(rest[0])
    ensures Stoul(spaces + sign + digits + rest) ==
            if Numeral(digits) >= 0x1_0000_0000_0000_0000 then None
            else if sign == "-" && Numeral(digits) > 0 then Some(0x1_0000_0000_0000_0000 - Numeral(digits))
            else Some(Numeral(digits))
  {
    hide Numeral, Stoul, AllSpaces, AllDigits, IsDigit;
    FourParts(spaces, sign, digits, rest);
    var d := |spaces| + |sign|;
    StoulAt(spaces + sign + digits + rest, |spaces|, d, d + |digits|);
  }

  lemma FourParts(a: string, b: string, c: string, d: string)
    ensures var s, i, j := a + b + c + d, |a| + |b|, |a| + |b| + |c|;
            s[..|a|] == a && s[|a|..i] == b && s[i..j] == c && s[j..] == d
    ensures b != "" ==> (a + b + c + d)[|a|] == b[0]
    ensures d != "" ==> (a + b + c + d)[|a| + |b| + |c|] == d[0]
  {
  }

  lemma StoulAt(s: string, i: nat, d: nat, e: nat)
    requires i <= d <= e <= |s| && d <= i + 1 && AllSpaces(s[..i]) && AllDigits(s[d..e]) && (e < |s| ==> !IsDigit(s[e]))
    requires if d > i then s[i] in {'+', '-'} else i < e
    ensures Stoul(s) ==
            if e == d || Numeral(s[d..e]) >= SIZE_LIMIT then None
            else Some(if d > i && s[i] == '-' then (SIZE_LIMIT - Numeral(s[d..e])) % SIZE_LIMIT else Numeral(s[d..e]))
  {
    assert d == i ==> s[i] == s[d..e][0];
    assert s[0..i] == s[..i];
    SpacesEndAt(s, 0, i);
    DigitsEndAt(s, d, e);
    hide SpacesEnd, DigitsEnd, Numeral;
  }

  /** Without a digit after the space and the sign there is no number. */
  lemma StoulNeedsDigit(spaces: string, sign: string, rest: string)
    requires AllSpaces(spaces) && sign in {"", "+", "-"} && (rest == "" || !IsDigit(rest[0]))
    requires sign == "" ==> rest == "" || (rest[0] !in {'+', '-'} && !IsSpace(rest[0]))
    ensures Stoul(spaces + sign + rest) == None
  {
    var s := spaces + sign + rest;
    var i, d := |spaces|, |spaces| + |sign|;
    assert s[0..i] == spaces && s[d..d] == "";
    assert sign != "" ==> s[i] == sign[0];
    assert rest != "" ==> s[d] == rest[0];
    SpacesEndAt(s, 0, i);
    DigitsEndAt(s, d, d);
  }

  lemma StoulOfDecimal(n: nat)
    requires n < SIZE_LIMIT
    ensures Stoul(Decimal(n)) == Some(n)
  {
    var s := Decimal(n);
    assert IsDigit(s[0]);
    assert s[0..|s|] == s;
    DigitsEndAt(s, 0, |s|);
    NumeralOfDecimal(n);
  }

  function DecodeInt(s: string): Outcome<nat> {
    if s == "" || s[0] != 'i' then Quit
    else match Find(s, 'e', 0)
      case None => Quit
      case Some(stop) =>
        match Stoul(s[1..stop])
        case None => Quit
        case Some(n) => Done(n, s[stop + 1..])
  }

  /** The number of bytes BStr erases: size_t arithmetic, so it can wrap. */
  function Erased(num: nat, mid: nat): nat { (num + mid + 1) % SIZE_LIMIT }

  function DecodeStr(s: string): (r: Outcome<string>)
    ensures r.Done? ==> |r.rest| <= |s|
    ensures r != Hang
  {
    if s == "" then Done("", "")
    else match Find(s, ':', 0)
      case None => Quit
      case Some(mid) =>
        match Stoul(s[..mid])
        case None => Quit
        case Some(num) =>
          if Erased(num, mid) > |s| then Quit
          else
            var stop := if mid + 1 + num <= |s| then mid + 1 + num else |s|;
            Done(s[mid + 1..stop], s[Erased(num, mid)..])
  }

  /** The switch on the next character, in both containers. */
  function DecodeNext(s: string): Outcome<Value>
    decreases |s|, 0
  {
    if s == "" then Done(StrV(""), "")
    else if s[0] == 'i' then
      match DecodeInt(s)
      case Done(n, rest) => Done(IntV(n), rest)
      case Quit => Quit
      case Hang => Hang
    else if s[0] == 'l' then
      match DecodeItems(s[1..], [])
      case Done(items, rest) => Done(ListV(items), rest)
      case Quit => Quit
      case Hang => Hang
    else if s[0] == 'd' then
      match DecodeEntries(s[1..], map[])
      case Done(entries, rest) => Done(DictV(entries), rest)
      case Quit => Quit
      case Hang => Hang
    else
      match DecodeStr(s)
      case Done(text, rest) => Done(StrV(text), rest)
      case Quit => Quit
      case Hang => Hang
  }

  /** BList's loop. A missing final 'e' is accepted. */
  function DecodeItems(s: string, items: seq<Value>): Outcome<seq<Value>>
    decreases |s|, 1
  {
    if s == "" then Done(items, "")
    else if s[0] == 'e' then Done(items, s[1..])
    else match DecodeNext(s)
      case Done(v, rest) => if |rest| >= |s| then Hang else DecodeItems(rest, items + [v])
      case Quit => Quit
      case Hang => Hang
  }

  /** unordered_map::emplace: the first value of a key stays. */
  function Emplace(m: map<string, Value>, k: string, v: Value): map<string, Value> {
    if k in m then m else m[k := v]
  }

  /** BDict's loop. */
  function DecodeEntries(s: string, m: map<string, Value>): Outcome<map<string, Value>>
    decreases |s|, 1
  {
    if s == "" then Done(m, "")
    else if s[0] == 'e' then Done(m, s[1..])
    else match DecodeStr(s)
      case Done(key, mid) =>
        (match DecodeNext(mid)
          case Done(v, rest) => if |rest| >= |s| then Hang else DecodeEntries(rest, Emplace(m, key, v))
          case Quit => Quit
          case Hang => Hang)
      case Quit => Quit
      case Hang => Hang
  }

  // The decoders as the source runs them, on one string that all of them erase from.

  class Content {
    var text: string

    constructor (s: string)
      ensures text == s
    {
      text := s;
    }
  }

  datatype Status = Ok | Exit | Loop

  function Report<T>(st: Status, v: T, rest: string): Outcome<T> {
    match st
    case Ok => Done(v, rest)
    case Exit => Quit
    case Loop => Hang
  }

  /** BInt::Decode. */
  method BIntDecode(content: Content) returns (st: Status, data: nat)
    modifies content
    ensures Report(st, data, content.text) == DecodeInt(old(content.text))
  {
    data := 0;
    if content.text == "" || content.text[0] != 'i' {
      return Exit, 0;
    }
    var stop := Find(content.text, 'e', 0);
    if stop == None {
      return Exit, 0;
    }
    var num := Stoul(content.text[1..stop.value]);
    if num == None {
      return Exit, 0;
    }
    content.text := content.text[stop.value + 1..];
    return Ok, num.value;
  }

  /** BStr::Decode. */
  method BStrDecode(content: Content) returns (st: Status, data: string)
    modifies content
    ensures Report(st, data, content.text) == DecodeStr(old(content.text))
  {
    hide Find, Stoul;
    data := "";
    if content.text == "" {
      return Ok, "";
    }
    var mid := Find(content.text, ':', 0);
    if mid == None {
      return Exit, "";
    }
    var num := Stoul(content.text[..mid.value]);
    if num == None {
      return Exit, "";
    }
    var erased := Erased(num.value, mid.value);
    if erased > |content.text| {
      return Exit, "";
    }
    var from := mid.value + 1;
    data := content.text[from..if from + num.value <= |content.text| then from + num.value else |content.text|];
    content.text := content.text[erased..];
    st := Ok;
  }

  /** The switch of BList::Decode and BDict::Decode, and the call it leads to. */
  method NextDecode(content: Content) returns (st: Status, v: Value)
    modifies content
    ensures Report(st, v, content.text) == DecodeNext(old(content.text))
    decreases |content.text|, 0
  {
    v := StrV("");
    if content.text != "" && content.text[0] == 'i' {
      var n;
      st, n := BIntDecode(content);
      v := IntV(n);
    } else if content.text != "" && content.text[0] == 'l' {
      content.text := content.text[1..];
      var items;
      st, items := BListDecode(content);
      v := ListV(items);
    } else if content.text != "" && content.text[0] == 'd' {
      content.text := content.text[1..];
      var entries;
      st, entries := BDictDecode(content);
      v := DictV(entries);
    } else {
      var s;
      st, s := BStrDecode(content);
      v := StrV(s);
    }
  }

  /** BList::Decode after the leading 'l' is erased. */
  method BListDecode(content: Content) returns (st: Status, data: seq<Value>)
    modifies content
    ensures Report(st, data, content.text) == DecodeItems(old(content.text), [])
    decreases |content.text|, 1
  {
    data := [];
    while content.text != "" && content.text[0] != 'e'
      invariant |content.text| <= old(|content.text|)
      invariant DecodeItems(content.text, data) == DecodeItems(old(content.text), [])
      decreases |content.text|
    {
      ghost var before := content.text;
      var v;
      var length := |content.text|;
      st, v := NextDecode(content);
      if st != Ok {
        return st, data;
      }
      if |content.text| >= length {
        return Loop, data;
      }
      data := data + [v];
    }
    if content.text != "" {
      content.text := content.text[1..];
    }
    st := Ok;
  }

  /** BDict::Decode after the leading 'd' is erased. */
  method BDictDecode(content: Content) returns (st: Status, data: map<string, Value>)
    modifies content
    ensures Report(st, data, content.text) == DecodeEntries(old(content.text), map[])
    decreases |content.text|, 1
  {
    data := map[];
    while content.text != "" && content.text[0] != 'e'
      invariant |content.text| <= old(|content.text|)
      invariant DecodeEntries(content.text, data) == DecodeEntries(old(content.text), map[])
      decreases |content.text|
    {
      var length := |content.text|;
      var key, v;
      st, key := BStrDecode(content);
      if st != Ok {
        return st, data;
      }
      st, v := NextDecode(content);
      if st != Ok {
        return st, data;
      }
      if |content.text| >= length {
        return Loop, data;
      }
      data := Emplace(data, key, v);
    }
    if content.text != "" {
      content.text := content.text[1..];
    }
    st := Ok;
  }
}
