/** Web/CszCacheRegio.cpp: buffered reading of lines and counted blocks from a socket. */
module CacheRegio {
  import opened Bytes

  const CACHESIZE: nat := 1024
  const NEWLINE: byte := 10

  /** A connected socket: the bytes not yet read, delivered in pieces of any size, with
      finitely many interrupted calls in between. */
  class Stream {
    var unread: seq<byte>
    var interrupts: nat

    /** read(2): negative when interrupted, 0 at the end of the stream. */
    method Read(limit: nat) returns (code: int, chunk: seq<byte>)
      requires limit > 0
      modifies this
      ensures old(unread) == chunk + unread && |chunk| <= limit
      ensures code < 0 ==> chunk == [] && interrupts < old(interrupts)
      ensures code >= 0 ==> code == |chunk| && interrupts == old(interrupts)
      ensures code == 0 ==> unread == []
    {
      chunk := [];
      var interrupted: bool := *;
      if interrupts > 0 && interrupted {
        interrupts := interrupts - 1;
        return -1, [];
      } else if |unread| == 0 {
        code := 0;
      } else {
        var n: nat :| 0 < n <= limit && n <= |unread|;
        code, chunk, unread := n, unread[..n], unread[n..];
      }
    }
  }

  /** Where ReadLine stops: at a newline, after CACHESIZE bytes, or at the stream's end. */
  function LineEnd(p: seq<byte>, from: nat): (k: nat)
    requires from <= |p| && from <= CACHESIZE
    ensures from <= k <= |p| && k <= CACHESIZE
    ensures NEWLINE !in p[from..k]
    ensures k == |p| || k == CACHESIZE || p[k] == NEWLINE
    decreases |p| - from
  {
    if from == |p| || from == CACHESIZE || p[from] == NEWLINE then from
    else
      var k := LineEnd(p, from + 1);
      assert p[from..k] == [p[from]] + p[from + 1..k];
      k
  }

  /** A newline that ends a line is consumed with it. */
  function NextLine(p: seq<byte>): (n: nat)
    ensures n <= |p|
  {
    var k := LineEnd(p, 0);
    if k < CACHESIZE && k < |p| then k + 1 else k
  }

  /** Where the line ends, seen from byte i of it. */
  lemma LineEndStep(p: seq<byte>, i: nat)
    requires i <= |p| && i <= CACHESIZE && LineEnd(p, i) == LineEnd(p, 0)
    ensures i == |p| || i == CACHESIZE ==> LineEnd(p, 0) == NextLine(p) == i
    ensures i < |p| && i < CACHESIZE && p[i] == NEWLINE ==> LineEnd(p, 0) == i && NextLine(p) == i + 1
    ensures i < |p| && i < CACHESIZE && p[i] != NEWLINE ==> LineEnd(p, i + 1) == LineEnd(p, 0)
  {
  }

  /** A newline is byte 10, and a line without one is cut at 1024 bytes. */
  lemma LineExamples(p: seq<byte>)
    requires |p| > 1024 && forall k :: 0 <= k < |p| ==> p[k] != 10
    ensures LineEnd([65, 10, 66], 0) == 1 && NextLine([65, 10, 66]) == 2
    ensures LineEnd(p, 0) == NextLine(p) == 1024
  {
    var q: seq<byte> := [65, 10, 66];
    assert LineEnd(q, 1) == 1;
  }

  lemma TakeNext(p: seq<byte>, a: nat, k: nat)
    requires a + k <= |p|
    ensures p[a..][..k] == p[a..a + k] && p[a..][k..] == p[a + k..] && p[..a] + p[a..a + k] == p[..a + k]
    ensures k == 1 ==> p[a..a + k] == [p[a]]
  {
  }

  class Cache {
    var readBuf: array<byte>
    var readPtr: nat
    var readCnt: int

    ghost predicate Valid()
      reads this
    {
      readBuf.Length == CACHESIZE && readCnt >= 0 && readPtr + readCnt <= CACHESIZE
    }

    /** What is still to come: the buffered bytes, then the unread ones. */
    ghost function Pending(s: Stream): seq<byte>
      requires Valid()
      reads this, readBuf, s
    {
      readBuf[readPtr..readPtr + readCnt] + s.unread
    }

    constructor ()
      ensures Valid() && readCnt == 0 && fresh(readBuf)
    {
      readBuf := new byte[CACHESIZE];
      readPtr, readCnt := 0, 0;
    }

    method AddCache(s: Stream) returns (r: int)
      requires Valid()
      modifies this, readBuf, s
      ensures Valid() && readBuf == old(readBuf)
      ensures Pending(s) == old(Pending(s))
      ensures r == readCnt && (r == 0 ==> Pending(s) == [])
    {
      ghost var p := Pending(s);
      while readCnt <= 0
        invariant readBuf == old(readBuf) && readBuf.Length == CACHESIZE
        invariant readPtr <= CACHESIZE && readPtr + readCnt <= CACHESIZE
        invariant readCnt > 0 ==> Pending(s) == p
        invariant readCnt <= 0 ==> s.unread == p
        decreases s.interrupts, readCnt <= 0
      {
        var code, chunk := s.Read(CACHESIZE);
        readCnt := code;
        if code < 0 {
          continue;
        } else if code == 0 {
          return 0;
        } else {
          CopyInto(readBuf, 0, chunk);
          readPtr := 0;
          break;
        }
      }
      r := readCnt;
    }

    /** Copies k buffered bytes out and moves read_ptr and read_cnt past them. */
    method Take(s: Stream, k: nat) returns (bytes: seq<byte>)
      requires Valid() && k <= readCnt
      modifies this
      ensures Valid() && readBuf == old(readBuf) && readCnt == old(readCnt) - k
      ensures k <= old(|Pending(s)|) && bytes == old(Pending(s))[..k]
      ensures Pending(s) == old(Pending(s))[k..]
    {
      bytes := readBuf[readPtr..readPtr + k];
      readPtr, readCnt := readPtr + k, readCnt - k;
    }

    /** ReadLine returns what it would from the unbuffered stream, whatever sizes the
        pieces of that stream arrive in. */
    method ReadLine(s: Stream) returns (line: seq<byte>)
      requires Valid()
      modifies this, readBuf, s
      ensures Valid() && readBuf == old(readBuf)
      ensures line == old(Pending(s))[..LineEnd(old(Pending(s)), 0)]
      ensures Pending(s) == old(Pending(s))[NextLine(old(Pending(s)))..]
    {
      ghost var p := Pending(s);
      hide Cache.Pending, LineEnd, NextLine;
      line := [];
      for i := 0 to CACHESIZE
        invariant Valid() && readBuf == old(readBuf)
        invariant i <= |p| && line == p[..i] && Pending(s) == p[i..]
        invariant LineEnd(p, i) == LineEnd(p, 0)
      {
        LineEndStep(p, i);
        var r := AddCache(s);
        if r <= 0 {
          return;
        }
        var c := Take(s, 1);
        TakeNext(p, i, 1);
        if c[0] == NEWLINE {
          return;
        }
        line := line + c;
      }
      LineEndStep(p, CACHESIZE);
    }

    /** One turn of ReadBuf's loop: what is buffered, as far as it is needed, and a refill. */
    method ReadTurn(s: Stream, left: nat) returns (bytes: seq<byte>)
      requires Valid()
      modifies this, readBuf, s
      ensures Valid() && readBuf == old(readBuf)
      ensures |bytes| == if left > old(readCnt) then old(readCnt) else left
      ensures |bytes| <= |old(Pending(s))| && bytes == old(Pending(s))[..|bytes|]
      ensures Pending(s) == old(Pending(s))[|bytes|..]
      ensures readCnt == 0 ==> Pending(s) == []
    {
      var curr := if left > readCnt then readCnt else left;
      bytes := Take(s, curr);
      if readCnt <= 0 {
        var _ := AddCache(s);
      }
    }

    /** ReadBuf delivers exactly the next n bytes, and terminates, when the stream has them. */
    method ReadBuf(s: Stream, n: nat) returns (ret: seq<byte>)
      requires Valid() && n <= |Pending(s)|
      modifies this, readBuf, s
      ensures Valid() && readBuf == old(readBuf)
      ensures ret == old(Pending(s))[..n]
      ensures Pending(s) == old(Pending(s))[n..]
    {
      ghost var p := Pending(s);
      hide Cache.Pending;
      ret := [];
      var left: int := n;
      while left > 0
        invariant Valid() && readBuf == old(readBuf)
        invariant 0 <= left <= n && ret == p[..n - left] && Pending(s) == p[n - left..]
        decreases left, readCnt == 0
      {
        var bytes := ReadTurn(s, left);
        TakeNext(p, n - left, |bytes|);
        ret := ret + bytes;
        left := left - |bytes|;
      }
    }

    /** The same loop stopped after some number of turns: on a stream that ends before n bytes it
        is never done, whatever the number. */
    method ReadBufFor(s: Stream, n: nat, turns: nat) returns (ret: seq<byte>, done: bool)
      requires Valid()
      modifies this, readBuf, s
      ensures Valid() && readBuf == old(readBuf)
      ensures |ret| <= n && |ret| <= |old(Pending(s))| && ret == old(Pending(s))[..|ret|]
      ensures Pending(s) == old(Pending(s))[|ret|..]
      ensures done <==> |ret| == n
      ensures n > |old(Pending(s))| ==> !done
    {
      ghost var p := Pending(s);
      hide Cache.Pending;
      ret := [];
      var left: int := n;
      for turn := 0 to turns
        invariant Valid() && readBuf == old(readBuf)
        invariant 0 <= left <= n && n - left <= |p| && ret == p[..n - left] && Pending(s) == p[n - left..]
      {
        if left <= 0 {
          break;
        }
        var bytes := ReadTurn(s, left);
        TakeNext(p, n - left, |bytes|);
        ret := ret + bytes;
        left := left - |bytes|;
      }
      done := left <= 0;
    }
  }

  datatype Call = Line | Block(n: nat)

  /** The same calls on the stream as one piece. */
  function Replay(p: seq<byte>, calls: seq<Call>): seq<seq<byte>>
    requires Suffices(p, calls)
    decreases |calls|
  {
    if |calls| == 0 then []
    else match calls[0]
      case Line => [p[..LineEnd(p, 0)]] + Replay(p[NextLine(p)..], calls[1..])
      case Block(n) => [p[..n]] + Replay(p[n..], calls[1..])
  }

  predicate Suffices(p: seq<byte>, calls: seq<Call>)
    decreases |calls|
  {
    |calls| == 0 ||
    match calls[0]
      case Line => Suffices(p[NextLine(p)..], calls[1..])
      case Block(n) => n <= |p| && Suffices(p[n..], calls[1..])
  }

  lemma Regroup(a: seq<seq<byte>>, r: seq<byte>, b: seq<seq<byte>>)
    ensures a + ([r] + b) == (a + [r]) + b
  {
  }

  lemma ReplayNone(p: seq<byte>)
    ensures Suffices(p, []) && Replay(p, []) == []
  {
  }

  lemma ReplayStep(p: seq<byte>, calls: seq<Call>, i: nat)
    requires i < |calls| && Suffices(p, calls[i..])
    ensures calls[i].Block? ==> calls[i].n <= |p|
    ensures var rest := match calls[i] case Line => p[NextLine(p)..] case Block(n) => p[n..];
            var r := match calls[i] case Line => p[..LineEnd(p, 0)] case Block(n) => p[..n];
            Suffices(rest, calls[i + 1..]) && Replay(p, calls[i..]) == [r] + Replay(rest, calls[i + 1..])
  {
    hide LineEnd, NextLine;
    assert calls[i..][1..] == calls[i + 1..];
  }

  /** Any interleaving of the two readers agrees with the flat stream. */
  method Session(cache: Cache, s: Stream, calls: seq<Call>) returns (results: seq<seq<byte>>)
    requires cache.Valid() && Suffices(cache.Pending(s), calls)
    modifies cache, cache.readBuf, s
    ensures cache.Valid() && results == Replay(old(cache.Pending(s)), calls)
  {
    results := [];
    ghost var p := cache.Pending(s);
    assert calls[0..] == calls;
    hide Cache.Pending, LineEnd, NextLine, Suffices, Replay;
    for i := 0 to |calls|
      invariant cache.Valid() && cache.readBuf == old(cache.readBuf)
      invariant Suffices(cache.Pending(s), calls[i..])
      invariant Replay(p, calls) == results + Replay(cache.Pending(s), calls[i..])
    {
      var r;
      ReplayStep(cache.Pending(s), calls, i);
      match calls[i] {
        case Line => r := cache.ReadLine(s);
        case Block(n) => r := cache.ReadBuf(s, n);
      }
      Regroup(results, r, Replay(cache.Pending(s), calls[i + 1..]));
      results := results + [r];
    }
    assert calls[|calls|..] == [];
    ReplayNone(cache.Pending(s));
  }
}
