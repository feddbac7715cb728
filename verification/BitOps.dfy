/** The bit operations on `block_bitmap`, a byte array of 512 bits. */
module BitOps {
  import opened Bytes
  import opened Layout

  type BitmapBytes = s: seq<Byte> | |s| == 64 witness seq<Byte>(64, _ => 0)

  /** `x | (1 << k)` and `x & ~(1 << k)` */
  function SetBit(x: Byte, k: nat): int requires k < 8 { if TestBit(x, k) then x else x + Pow2(k) }
  function ClearBit(x: Byte, k: nat): int requires k < 8 { if TestBit(x, k) then x - Pow2(k) else x }

  /** The bits of a bitmap held in bytes, as `is_block_free` reads them. */
  function Bits(bs: BitmapBytes): Bitmap {
    seq<bool>(MAX_BLOCKS, b requires 0 <= b < MAX_BLOCKS => TestBit(bs[b / 8], b % 8))
  }

  lemma Halves(x: nat)
    requires x < 256
    ensures x == x % 2 + 2 * (x / 2 % 2) + 4 * (x / 4 % 2) + 8 * (x / 8 % 2)
              + 16 * (x / 16 % 2) + 32 * (x / 32 % 2) + 64 * (x / 64 % 2) + 128 * (x / 128 % 2)
  {
    var q1 := x / 2;
    var q2 := q1 / 2;
    var q3 := q2 / 2;
    var q4 := q3 / 2;
    var q5 := q4 / 2;
    var q6 := q5 / 2;
    var q7 := q6 / 2;
    assert x / 4 == q2 && x / 8 == q3 && x / 16 == q4;
    assert x / 32 == q5 && x / 64 == q6 && x / 128 == q7;
    assert x == 2 * q1 + x % 2 && q1 == 2 * q2 + q1 % 2 && q2 == 2 * q3 + q2 % 2 && q3 == 2 * q4 + q3 % 2;
    assert q4 == 2 * q5 + q4 % 2 && q5 == 2 * q6 + q5 % 2 && q6 == 2 * q7 + q6 % 2 && q7 == q7 % 2;
  }

  lemma Digits(x: Byte)
    ensures x == Pack(Digit(x, 0), Digit(x, 1), Digit(x, 2), Digit(x, 3), Digit(x, 4), Digit(x, 5), Digit(x, 6), Digit(x, 7))
    ensures forall k | 0 <= k < 8 :: Digit(x, k) < 2
  {
    DigitsSmall(x);
    hide Digit;
    Halves(x);
    DigitsAre(x);
  }

  lemma DigitsSmall(x: Byte)
    ensures forall k | 0 <= k < 8 :: Digit(x, k) < 2
  {
    hide Pow2;
  }

  lemma SetBitDigits(x: Byte, k: nat)
    requires k < 8
    ensures 0 <= SetBit(x, k) < 256 && forall j | 0 <= j < 8 :: TestBit(SetBit(x, k), j) == (j == k || TestBit(x, j))
  {
    hide Digit, Pow2;
    if !TestBit(x, k) {
      DigitsSmall(x);
      WithDigit(x, k, 1);
    }
  }

  lemma ClearBitDigits(x: Byte, k: nat)
    requires k < 8
    ensures 0 <= ClearBit(x, k) < 256 && forall j | 0 <= j < 8 :: TestBit(ClearBit(x, k), j) == (j != k && TestBit(x, j))
  {
    hide Digit, Pow2;
    if TestBit(x, k) {
      DigitsSmall(x);
      WithDigit(x, k, 0);
    }
  }

  type Octet = d: seq<nat> | |d| == 8 && forall i | 0 <= i < 8 :: d[i] < 2 witness seq<nat>(8, _ => 0)

  function PackAll(d: Octet): nat { Pack(d[0], d[1], d[2], d[3], d[4], d[5], d[6], d[7]) }

  function DigitsOf(x: nat): Octet { seq<nat>(8, i requires 0 <= i < 8 => Digit(x, i)) }

  lemma PackedDigits(d: Octet)
    ensures PackAll(d) < 256 && forall j | 0 <= j < 8 :: Digit(PackAll(d), j) == d[j]
  {
    hide Digit, Pack;
    BinaryDigits(d[0], d[1], d[2], d[3], d[4], d[5], d[6], d[7]);
    PackBound(d);
  }

  lemma PackBound(d: Octet)
    ensures PackAll(d) < 256
  {
  }

  lemma PackUpdate(d: Octet, k: nat, c: nat)
    requires k < 8 && c < 2
    ensures PackAll(d[k := c]) == PackAll(d) + (c - d[k]) * Pow2(k)
  {
  }

  /** Replacing binary digit `k` of `x` by `c`. */
  lemma WithDigit(x: Byte, k: nat, c: nat)
    requires k < 8 && c < 2
    ensures var y := x + (c - Digit(x, k)) * Pow2(k);
      0 <= y < 256 && forall j | 0 <= j < 8 :: Digit(y, j) == if j == k then c else Digit(x, j)
  {
    hide Digit, Pow2;
    var d := DigitsOf(x);
    assert x == PackAll(d) by { Digits(x); }
    hide PackAll;
    PackUpdate(d, k, c);
    PackedDigits(d[k := c]);
  }

  /** Setting or clearing the bit of block `b` touches no other bit. */
  lemma UpdateBits(bs: BitmapBytes, b: nat, y: Byte, x: bool)
    requires b < MAX_BLOCKS
    requires forall j | 0 <= j < 8 :: TestBit(y, j) == if j == b % 8 then x else TestBit(bs[b / 8], j)
    ensures Bits(bs[b / 8 := y]) == Bits(bs)[b := x]
  {
    hide TestBit;
    var bs' := bs[b / 8 := y];
    forall c | 0 <= c < MAX_BLOCKS
      ensures Bits(bs')[c] == Bits(bs)[b := x][c]
    {
      if c / 8 == b / 8 && c % 8 == b % 8 {
        assert c == b;
      }
    }
  }

  lemma PackedBytes(bs: BitmapBytes, k: nat)
    requires k < 64
    ensures PackByte(Bits(bs), k) == bs[k]
  {
    hide Digit, Pack;
    Digits(bs[k]);
    forall j | 0 <= j < 8
      ensures Bit(Bits(bs)[8 * k + j]) == Digit(bs[k], j)
    {
      assert (8 * k + j) / 8 == k && (8 * k + j) % 8 == j;
    }
    assert Bit(Bits(bs)[8 * k + 0]) == Digit(bs[k], 0);
  }
}
