/** The example of FIPS 180-4 for a message of one block: the digest of "abc". */
module Sha1Example {
  import opened Bytes
  import opened Sha1Spec

  /** Eight words of the message schedule. */
  datatype Row = Row(a: word, b: word, c: word, d: word, e: word, f: word, g: word, h: word)

  predicate IsRow(m: seq<word>, t: nat, r: Row)
    requires |m| == 16
  {
    && W(m, t) == r.a && W(m, t + 1) == r.b && W(m, t + 2) == r.c && W(m, t + 3) == r.d
    && W(m, t + 4) == r.e && W(m, t + 5) == r.f && W(m, t + 6) == r.g && W(m, t + 7) == r.h
  }

  /** The eight words after the sixteen of x and y. */
  function NextRow(x: Row, y: Row): Row {
    var a, b, c := Mix(y.f, y.a, x.c, x.a), Mix(y.g, y.b, x.d, x.b), Mix(y.h, y.c, x.e, x.c);
    var d, e, f := Mix(a, y.d, x.f, x.d), Mix(b, y.e, x.g, x.e), Mix(c, y.f, x.h, x.f);
    Row(a, b, c, d, e, f, Mix(d, y.g, y.a, x.g), Mix(e, y.h, y.b, x.h))
  }

  lemma RowFollows(m: seq<word>, t: nat, x: Row, y: Row, z: Row)
    requires |m| == 16 && IsRow(m, t, x) && IsRow(m, t + 8, y) && z == NextRow(x, y)
    ensures IsRow(m, t + 16, z)
  {
    hide Mix;
    assert W(m, t + 16) == z.a && W(m, t + 17) == z.b && W(m, t + 18) == z.c;
    assert W(m, t + 19) == z.d && W(m, t + 20) == z.e && W(m, t + 21) == z.f;
  }

  /** Eight rounds. */
  function EightSteps(r: Regs, t: nat, w: Row): Regs {
    var r2 := Step(Step(r, t, w.a), t + 1, w.b);
    var r4 := Step(Step(r2, t + 2, w.c), t + 3, w.d);
    var r6 := Step(Step(r4, t + 4, w.e), t + 5, w.f);
    Step(Step(r6, t + 6, w.g), t + 7, w.h)
  }

  lemma EightRounds(m: seq<word>, t: nat, r: Regs, w: Row, r': Regs)
    requires |m| == 16 && Rounds(m, INITIAL, t) == r && IsRow(m, t, w) && r' == EightSteps(r, t, w)
    ensures Rounds(m, INITIAL, t + 8) == r'
  {
    hide Step, W;
    assert Rounds(m, INITIAL, t + 2) == Step(Step(r, t, w.a), t + 1, w.b);
    assert Rounds(m, INITIAL, t + 4) == Step(Step(Rounds(m, INITIAL, t + 2), t + 2, w.c), t + 3, w.d);
    assert Rounds(m, INITIAL, t + 6) == Step(Step(Rounds(m, INITIAL, t + 4), t + 4, w.e), t + 5, w.f);
  }

  const W0 := Row(0x61626380, 0x00000000, 0x00000000, 0x00000000, 0x00000000, 0x00000000, 0x00000000, 0x00000000)
  const W1 := Row(0x00000000, 0x00000000, 0x00000000, 0x00000000, 0x00000000, 0x00000000, 0x00000000, 0x00000018)
  const W2 := Row(0xC2C4C700, 0x00000000, 0x00000030, 0x85898E01, 0x00000000, 0x00000060, 0x0B131C03, 0x00000030)
  const W3 := Row(0x85898EC1, 0x16263806, 0x00000000, 0x00000180, 0x2C4C700C, 0x000000F0, 0x93AFB507, 0x5898E048)
  const W4 := Row(0x8E9A9202, 0x00000600, 0xB131C0F0, 0x16263BC6, 0x4EBED41E, 0x626380A1, 0x16263806, 0x000018C0)
  const W5 := Row(0xD2E138C4, 0x00000F00, 0x3AFB5079, 0x898E04E5, 0xE2BA3C2B, 0x000060C0, 0x053A37CD, 0x74458547)
  const W6 := Row(0xDA9415ED, 0x26380A16, 0x626383A1, 0x4EBF54DE, 0x3835B44B, 0x0000F600, 0x1E84C7A3, 0x98E04D98)
  const W7 := Row(0x651D16A0, 0x62658CA1, 0x458544D6, 0x44584CB7, 0x7BA06619, 0x6380AEA2, 0x0AE55269, 0x627B49A1)
  const W8 := Row(0x7CD45C9D, 0x000F0000, 0xFB50753A, 0xEC6765E8, 0xBA3C2BE2, 0x0060C000, 0x3A37CD05, 0x458546F4)
  const W9 := Row(0xB8599DD6, 0x380A1A26, 0x01E02203, 0xE7CC3456, 0xE6E60B69, 0x00F60A00, 0x5795EF4F, 0x822E0879)

  const R1 := Regs(0x9E8C07D4, 0x993E30C1, 0x0FF1F290, 0xB3F52677, 0xF3763846)
  const R2 := Regs(0x20BDD62F, 0x196BEE77, 0x644A3DA5, 0x1181ED99, 0x18C623F9)
  const R3 := Regs(0xD541F12D, 0x21283486, 0x0CE88EFF, 0x868DEC32, 0x7F67875F)
  const R4 := Regs(0x3B845D33, 0x1267B407, 0x717EEBD7, 0xA0DC2D4B, 0xD2AA1365)
  const R5 := Regs(0x32DE1CBA, 0x4C986405, 0xF718E5CF, 0x03D447F6, 0xF72EEC32)
  const R6 := Regs(0xBEAD02CA, 0xA01B846C, 0x8714787C, 0x503CA382, 0xFB86C6AB)
  const R7 := Regs(0x5E6456AF, 0x7B71F76D, 0x09FA7C76, 0x792410DB, 0x8E11EB59)
  const R8 := Regs(0x6B61C9E1, 0xB66C020B, 0x9523272C, 0xF5D5B051, 0x8FD4B796)
  const R9 := Regs(0x39859DE7, 0xC199F8C7, 0x8FC96230, 0x125C24F0, 0xDE37534A)
  const R10 := Regs(0x42541B35, 0x5738D5E1, 0x21834873, 0x681E6DF6, 0xD8FDF6AD)

  lemma AbcSchedule(m: seq<word>)
    requires |m| == 16 && IsRow(m, 0, W0) && IsRow(m, 8, W1)
    ensures IsRow(m, 16, W2) && IsRow(m, 24, W3) && IsRow(m, 32, W4) && IsRow(m, 40, W5)
    ensures IsRow(m, 48, W6) && IsRow(m, 56, W7) && IsRow(m, 64, W8) && IsRow(m, 72, W9)
  {
    hide IsRow;
    RowFollows(m, 0, W0, W1, W2);
    RowFollows(m, 8, W1, W2, W3);
    RowFollows(m, 16, W2, W3, W4);
    RowFollows(m, 24, W3, W4, W5);
    RowFollows(m, 32, W4, W5, W6);
    RowFollows(m, 40, W5, W6, W7);
    RowFollows(m, 48, W6, W7, W8);
    RowFollows(m, 56, W7, W8, W9);
  }

  lemma AbcFirstRounds(m: seq<word>)
    requires |m| == 16 && IsRow(m, 0, W0) && IsRow(m, 8, W1)
    requires IsRow(m, 16, W2) && IsRow(m, 24, W3) && IsRow(m, 32, W4)
    ensures Rounds(m, INITIAL, 40) == R5
  {
    assert Rounds(m, INITIAL, 0) == INITIAL;
    hide IsRow, Rounds;
    EightRounds(m, 0, INITIAL, W0, R1);
    EightRounds(m, 8, R1, W1, R2);
    EightRounds(m, 16, R2, W2, R3);
    EightRounds(m, 24, R3, W3, R4);
    EightRounds(m, 32, R4, W4, R5);
  }

  lemma AbcRounds(m: seq<word>)
    requires |m| == 16 && IsRow(m, 0, W0) && IsRow(m, 8, W1)
    ensures Rounds(m, INITIAL, 80) == R10
  {
    AbcSchedule(m);
    AbcFirstRounds(m);
    hide IsRow, Rounds;
    EightRounds(m, 40, R5, W5, R6);
    EightRounds(m, 48, R6, W6, R7);
    EightRounds(m, 56, R7, W7, R8);
    EightRounds(m, 64, R8, W8, R9);
    EightRounds(m, 72, R9, W9, R10);
  }

  const ABC: seq<byte> := [0x61, 0x62, 0x63]

  lemma NextDigit(n: nat, digit: nat)
    requires digit < 2 && 0 < 2 * n + digit < 256
    ensures ToByte(2 * n + digit) == AddDigit(ToByte(n), digit)
  {
  }

  lemma Length24()
    ensures Length64(24) == [0, 0, 0, 0, 0, 0, 0, 24]
  {
    ZeroByte();
    hide ToByte;
    NextDigit(0, 1);
    NextDigit(1, 1);
    NextDigit(3, 0);
    NextDigit(6, 0);
    NextDigit(12, 0);
  }

  lemma ZeroByte()
    ensures ToByte(0) == 0
  {
  }

  lemma AbcPadded()
    ensures var s := Pad(ABC);
            |s| == 64 && s[..4] == [0x61, 0x62, 0x63, 0x80] && s[63] == 24 && forall k :: 4 <= k < 63 ==> s[k] == 0
  {
    Length24();
    hide Length64;
  }

  /** Its last byte is the only one after the 0x80 that is not 0. */
  lemma AbcWords(s: seq<byte>)
    requires |s| == 64 && s[..4] == [0x61, 0x62, 0x63, 0x80] && s[63] == 24 && forall k :: 4 <= k < 63 ==> s[k] == 0
    ensures IsRow(BlockWords(s), 0, W0) && IsRow(BlockWords(s), 8, W1)
  {
    assert s[0] == s[..4][0] && s[1] == s[..4][1] && s[2] == s[..4][2] && s[3] == s[..4][3];
    forall k | 0 <= k < 16
      ensures BlockWords(s)[k] == if k == 0 then 0x61626380 else if k == 15 then 24 else 0
    {
      if 0 < k < 15 {
        assert s[4 * k] == 0 && s[4 * k + 1] == 0 && s[4 * k + 2] == 0 && s[4 * k + 3] == 0;
      }
    }
    hide BlockWords;
  }

  /** The digest of "abc" is A9993E36 4706816A BA3E2571 7850C26C 9CD0D89D. */
  lemma AbcDigest()
    ensures Digest(ABC) == [0xA9, 0x99, 0x3E, 0x36, 0x47, 0x06, 0x81, 0x6A, 0xBA, 0x3E, 0x25, 0x71,
                            0x78, 0x50, 0xC2, 0x6C, 0x9C, 0xD0, 0xD8, 0x9D]
  {
    AbcPadded();
    var m := BlockWords(Pad(ABC));
    AbcWords(Pad(ABC));
    AbcRounds(m);
    hide Rounds, BlockWords, Pad;
    assert Pad(ABC)[..0] == [];
    assert Pad(ABC)[0..] == Pad(ABC);
    assert Absorb(Pad(ABC)) == Compress(INITIAL, m);
    assert Compress(INITIAL, m) == Regs(0xA9993E36, 0x4706816A, 0xBA3E2571, 0x7850C26C, 0x9CD0D89D);
  }
}
