/** htonl and ntohl: 32-bit integers as four bytes, most significant first. */
module Network {
  import opened Bytes

  type int32 = x: int | -0x8000_0000 <= x < 0x8000_0000

  function Unsigned(x: int32): nat { if x < 0 then x + 0x1_0000_0000 else x }

  function ToBytes(x: int32): (s: seq<byte>)
    ensures |s| == 4
  {
    var u := Unsigned(x);
    [ToByte(u / 0x100_0000), ToByte(u / 0x1_0000 % 256), ToByte(u / 0x100 % 256), ToByte(u % 256)]
  }

  function Compose(a: nat, b: nat, c: nat, d: nat): int32
    requires a < 256 && b < 256 && c < 256 && d < 256
  {
    var u := a * 0x100_0000 + b * 0x1_0000 + c * 0x100 + d;
    if u >= 0x8000_0000 then u - 0x1_0000_0000 else u
  }

  function FromBytes(s: seq<byte>): int32
    requires |s| == 4
  {
    Compose(Val(s[0]), Val(s[1]), Val(s[2]), Val(s[3]))
  }

  lemma Digits256(u: nat)
    requires u < 0x1_0000_0000
    ensures u / 0x100_0000 < 256
    ensures u == u / 0x100_0000 * 0x100_0000 + u / 0x1_0000 % 256 * 0x1_0000 + u / 0x100 % 256 * 0x100 + u % 256
  {
    var a, b := u / 0x100, u / 0x1_0000;
    assert a == u / 0x1_0000 * 0x100 + a % 256;
    assert b == u / 0x100_0000 * 0x100 + b % 256;
  }

  lemma ComposeDigits(x: int32)
    ensures var u := Unsigned(x);
            u < 0x1_0000_0000 &&
            Compose(u / 0x100_0000, u / 0x1_0000 % 256, u / 0x100 % 256, u % 256) == x
  {
    Digits256(Unsigned(x));
  }

  /** Reading what was written gives the integer back, negative ones included. */
  lemma FromBytesOfToBytes(x: int32)
    ensures FromBytes(ToBytes(x)) == x
  {
    var u := Unsigned(x);
    ComposeDigits(x);
    hide Compose, Unsigned;
    ByteOfVal(u / 0x100_0000);
    ByteOfVal(u / 0x1_0000 % 256);
    ByteOfVal(u / 0x100 % 256);
    ByteOfVal(u % 256);
    hide ToByte, Val;
  }
}
