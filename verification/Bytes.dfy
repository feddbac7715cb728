/** Bytes, 32-bit words and C strings as the kernel lays them out in memory. */
module Bytes {

  type Byte = x: int | 0 <= x < 256
  type U32 = x: int | 0 <= x < 0x1_0000_0000

  /** A character of a C string: any byte but the terminator. */
  type Char8 = x: Byte | x != 0 witness 1
  type Str = seq<Char8>

  function CharByte(c: char): Byte { if c as int < 128 then c as int else 0 }

  /** The bytes of a text in ASCII. */
  function Ascii(s: string): Str
    requires forall i | 0 <= i < |s| :: CharByte(s[i]) != 0
  {
    seq<Char8>(|s|, i requires 0 <= i < |s| => CharByte(s[i]))
  }

  const SLASH: Char8 := 47
  const DOT: Char8 := 46

  /** `x--` and `x++` on a `uint32_t`. */
  function Dec(x: U32): U32 { if x == 0 then 0xFFFF_FFFF else x - 1 }
  function Inc(x: U32): U32 { if x == 0xFFFF_FFFF then 0 else x + 1 }

  /** Byte `k` of the little-endian form of `x`. */
  function LeByte(x: U32, k: nat): Byte
    requires k < 4
  {
    if k == 0 then x % 256
    else if k == 1 then x / 256 % 256
    else if k == 2 then x / 65536 % 256
    else x / 16777216 % 256
  }

  lemma LastDigit(q: nat, r: nat)
    requires r < 256
    ensures (256 * q + r) / 256 == q && (256 * q + r) % 256 == r
  {
  }

  lemma DivTwice(x: nat)
    ensures x / 65536 == x / 256 / 256
  {
  }

  lemma DivThrice(x: nat)
    ensures x / 16777216 == x / 256 / 256 / 256
  {
    assert x / 16777216 == x / 65536 / 256;
    DivTwice(x);
  }

  lemma LeRoundTrip(x: U32)
    ensures LeByte(x, 0) + 256 * LeByte(x, 1) + 65536 * LeByte(x, 2) + 16777216 * LeByte(x, 3) == x
  {
    DivTwice(x);
    DivThrice(x);
    var q1: nat, q2: nat, q3: nat := x / 256, x / 256 / 256, x / 256 / 256 / 256;
    assert x == 256 * q1 + x % 256 && q1 == 256 * q2 + q1 % 256 && q2 == 256 * q3 + q2 % 256;
    assert q3 < 256;
  }

  lemma FromLeRoundTrip(b0: Byte, b1: Byte, b2: Byte, b3: Byte)
    ensures var x: U32 := b0 + 256 * b1 + 65536 * b2 + 16777216 * b3;
      LeByte(x, 0) == b0 && LeByte(x, 1) == b1 && LeByte(x, 2) == b2 && LeByte(x, 3) == b3
  {
    var c0: nat, c1: nat, c2: nat, c3: nat := b0, b1, b2, b3;
    var x: nat := b0 + 256 * b1 + 65536 * b2 + 16777216 * b3;
    assert x == 256 * (256 * (256 * c3 + c2) + c1) + c0;
    DivTwice(x);
    DivThrice(x);
    LastDigit(256 * (256 * c3 + c2) + c1, c0);
    LastDigit(256 * c3 + c2, c1);
    LastDigit(c3, c2);
  }

  /** The word stored at offset `at`. */
  function Le(bs: seq<Byte>, at: nat): U32
    requires at + 4 <= |bs|
  {
    var b0: int, b1: int, b2: int, b3: int := bs[at], bs[at + 1], bs[at + 2], bs[at + 3];
    b0 + 256 * b1 + 65536 * b2 + 16777216 * b3
  }
}
