/** The internet checksum of net/ip.c over little-endian words (sections 1 and 2 of RFC 1071). */
module InternetChecksum {
  import opened Bytes

  type U16 = x: int | 0 <= x < 0x1_0000

  /** `htons` */
  function Swap16(x: U16): U16 { x % 256 * 256 + x / 256 }

  /** The sum of the native 16-bit words; an odd last byte counts as a word of its own. */
  function Sum(data: seq<Byte>): nat
    decreases |data|
  {
    if |data| == 0 then 0
    else if |data| == 1 then data[0]
    else data[0] + 256 * data[1] + Sum(data[2..])
  }

  /** Adding the carries back in until 16 bits are left. */
  function Fold(sum: nat): U16 {
    if sum < 0x1_0000 then sum else Fold(sum % 0x1_0000 + sum / 0x1_0000)
  }

  function Checksum(data: seq<Byte>): U16 { 0xFFFF - Fold(Sum(data)) }

  /** `ip_checksum`: the 32-bit accumulator never wraps for a 16-bit length. */
  method IpChecksum(data: seq<Byte>) returns (c: U16)
    requires |data| <= 0xFFFF
    ensures c == Checksum(data)
  {
    var sum: U32 := 0;
    var at := 0;
    var length := |data|;
    SumBound(data);
    while length > 1
      invariant 0 <= at <= |data| && length == |data| - at
      invariant sum + Sum(data[at..]) == Sum(data)
    {
      assert data[at..][2..] == data[at + 2..];
      var low: int, high: int := data[at], data[at + 1];
      sum := sum + low + 256 * high;
      at := at + 2;
      length := length - 2;
    }
    if length > 0 {
      sum := sum + data[at];
    }
    while sum / 0x1_0000 != 0
      invariant Fold(sum) == Fold(Sum(data))
      decreases sum
    {
      sum := sum % 0x1_0000 + sum / 0x1_0000;
    }
    c := 0xFFFF - sum;
  }

  lemma {:induction false} SumBound(data: seq<Byte>)
    ensures Sum(data) <= (|data| + 1) / 2 * 0xFFFF
    decreases |data|
  {
    if |data| > 1 {
      SumBound(data[2..]);
    }
  }

  /** An odd number of bytes counts as if a zero byte followed (section 1 of RFC 1071). */
  lemma {:induction false} OddLength(data: seq<Byte>)
    requires |data| % 2 == 1
    ensures Sum(data + [0]) == Sum(data) && Checksum(data + [0]) == Checksum(data)
    decreases |data|
  {
    if |data| > 1 {
      OddLength(data[2..]);
      assert (data + [0])[2..] == data[2..] + [0];
    }
  }

  /** The example of section 3 of RFC 1071: the checksum bytes are 22 0d in the order of the data. */
  lemma RfcExample()
    ensures Checksum([0x00, 0x01, 0xf2, 0x03, 0xf4, 0xf5, 0xf6, 0xf7]) == 0x0d22
  {
    var data: seq<Byte> := [0x00, 0x01, 0xf2, 0x03, 0xf4, 0xf5, 0xf6, 0xf7];
    assert data[2..] == [0xf2, 0x03, 0xf4, 0xf5, 0xf6, 0xf7] && data[2..][2..] == [0xf4, 0xf5, 0xf6, 0xf7];
    assert data[2..][2..][2..] == [0xf6, 0xf7] && data[2..][2..][2..][2..] == [];
  }

  // ---------------------------------------------------------------- folding

  /** Folding keeps the residue modulo 65535 and keeps zero apart from nonzero. */
  lemma {:induction false} FoldIs(sum: nat)
    ensures Fold(sum) == if sum == 0 then 0 else (sum - 1) % 0xFFFF + 1
    decreases sum
  {
    if sum >= 0x1_0000 {
      var q, r := sum / 0x1_0000, sum % 0x1_0000;
      FoldIs(r + q);
      assert sum - 1 == (r + q - 1) + q * 0xFFFF;
      ModPlus(r + q - 1, q);
    }
  }

  lemma ModPlus(a: nat, q: nat)
    ensures (a + q * 0xFFFF) % 0xFFFF == a % 0xFFFF
  {
    var b := a + q * 0xFFFF;
    assert b == (a / 0xFFFF + q) * 0xFFFF + a % 0xFFFF;
  }

  /** A positive sum folds to all ones exactly when it is a multiple of 65535. */
  lemma FoldToOnes(sum: nat)
    requires sum > 0
    ensures Fold(sum) == 0xFFFF <==> sum % 0xFFFF == 0
  {
    FoldIs(sum);
    var q, r := (sum - 1) / 0xFFFF, (sum - 1) % 0xFFFF;
    assert sum == (r + 1) + q * 0xFFFF;
    ModPlus(r + 1, q);
  }

  // ---------------------------------------------------------------- storing the checksum

  lemma {:induction false} SumUpdate(data: seq<Byte>, k: nat, x: Byte, y: Byte)
    requires 2 * k + 1 < |data| && data[2 * k] == 0 && data[2 * k + 1] == 0
    ensures Sum(data[2 * k := x][2 * k + 1 := y]) == Sum(data) + x + 256 * y
    decreases k
  {
    var e := data[2 * k := x][2 * k + 1 := y];
    if k == 0 {
      assert e[2..] == data[2..];
    } else {
      assert e[2..] == data[2..][2 * (k - 1) := x][2 * (k - 1) + 1 := y];
      SumUpdate(data[2..], k - 1, x, y);
    }
  }

  /** Writing the checksum natively into a zeroed word makes the checksum of the whole zero. */
  lemma VerifiesToZero(data: seq<Byte>, k: nat)
    requires 2 * k + 1 < |data| && data[2 * k] == 0 && data[2 * k + 1] == 0
    ensures var c := Checksum(data);
      Checksum(data[2 * k := c % 256][2 * k + 1 := c / 256]) == 0
  {
    var c := Checksum(data);
    var s := Sum(data);
    SumUpdate(data, k, c % 256, c / 256);
    FoldIs(s);
    assert s + c > 0 && (s + c) % 0xFFFF == 0 by {
      if s > 0 {
        assert s + c == ((s - 1) / 0xFFFF + 1) * 0xFFFF;
        ModPlus(0, (s - 1) / 0xFFFF + 1);
      }
    }
    FoldToOnes(s + c);
  }

  /** Writing it byte-swapped, as `ip_send` does, verifies exactly when its two bytes are equal. */
  lemma SwappedVerifies(data: seq<Byte>, k: nat)
    requires 2 * k + 1 < |data| && data[2 * k] == 0 && data[2 * k + 1] == 0
    ensures var c := Checksum(data);
      Checksum(data[2 * k := Swap16(c) % 256][2 * k + 1 := Swap16(c) / 256]) == 0 <==> c % 256 == c / 256
  {
    var c: int, d: int := Checksum(data), Swap16(Checksum(data));
    var s := Sum(data);
    SumUpdate(data, k, d % 256, d / 256);
    FoldIs(s);
    assert s == 0 ==> c == 0xFFFF && d == 0xFFFF;
    FoldToOnes(s + d);
    var q := if s == 0 then 0 else (s - 1) / 0xFFFF + 1;
    assert s + c == (if s == 0 then 1 else q) * 0xFFFF;
    var m := if s == 0 then 1 else q;
    assert s + d == d - c + m * 0xFFFF;
    assert -0xFFFF < d - c < 0xFFFF;
    assert (s + d) % 0xFFFF == 0 <==> d == c by { NearMultiple(d - c, m); }
  }

  lemma NearMultiple(e: int, m: nat)
    requires -0xFFFF < e < 0xFFFF && e + m * 0xFFFF >= 0
    ensures (e + m * 0xFFFF) % 0xFFFF == 0 <==> e == 0
  {
    if e >= 0 {
      ModPlus(e, m);
    } else {
      assert m > 0 && e + m * 0xFFFF == (e + 0xFFFF) + (m - 1) * 0xFFFF;
      ModPlus(e + 0xFFFF, m - 1);
    }
  }

  // ---------------------------------------------------------------- byte order

  /** Every pair of bytes exchanged. */
  function SwapPairs(data: seq<Byte>): (r: seq<Byte>)
    requires |data| % 2 == 0
    ensures |r| == |data|
    decreases |data|
  {
    if data == [] then [] else [data[1], data[0]] + SwapPairs(data[2..])
  }

  /** The sums of the low and of the high bytes. */
  function Lows(data: seq<Byte>): nat decreases |data| { if |data| < 2 then 0 else data[0] + Lows(data[2..]) }
  function Highs(data: seq<Byte>): nat decreases |data| { if |data| < 2 then 0 else data[1] + Highs(data[2..]) }

  lemma {:induction false} SumsOf(data: seq<Byte>)
    requires |data| % 2 == 0
    ensures Sum(data) == Lows(data) + 256 * Highs(data)
    ensures Sum(SwapPairs(data)) == 256 * Lows(data) + Highs(data)
    decreases |data|
  {
    if data != [] {
      SumsOf(data[2..]);
      assert SwapPairs(data)[2..] == SwapPairs(data[2..]);
    }
  }

  /** The checksum does not depend on byte order: swapped data gives the swapped checksum. */
  lemma ByteOrderIndependent(data: seq<Byte>)
    requires |data| % 2 == 0
    ensures Checksum(SwapPairs(data)) == Swap16(Checksum(data))
  {
    hide Fold, Swap16, Sum, SwapPairs;
    var f := Fold(Sum(data));
    SumsOf(data);
    FoldSwapped(Lows(data), Highs(data));
    SwapComplement(f);
  }

  lemma SwapComplement(f: U16)
    ensures 0xFFFF - Swap16(f) == Swap16(0xFFFF - f)
  {
    var a: int, b: int := f % 256, f / 256;
    assert 0xFFFF - f == 256 * (255 - b) + (255 - a);
  }

  lemma FoldSwapped(l: nat, h: nat)
    ensures Fold(256 * l + h) == Swap16(Fold(l + 256 * h))
  {
    var s, t := l + 256 * h, 256 * l + h;
    var f: int := Fold(s);
    FoldIs(s);
    FoldIs(t);
    if s > 0 {
      var q := (s - 1) / 0xFFFF;
      assert s == q * 0xFFFF + f;
      // 256 * s and t differ by 65535 * h, and 256 * f and its swap by 65535 * (f / 256)
      assert t + h * 0xFFFF == 256 * s;
      assert 256 * f == Swap16(f) + f / 256 * 0xFFFF;
      var g: int := Swap16(f);
      assert t + h * 0xFFFF == g + (f / 256 + 256 * q) * 0xFFFF;
      SameResidue(t, g, h, f / 256 + 256 * q);
    }
  }

  lemma SameResidue(t: nat, g: nat, a: nat, b: nat)
    requires 1 <= t && 1 <= g <= 0xFFFF && t + a * 0xFFFF == g + b * 0xFFFF
    ensures (t - 1) % 0xFFFF + 1 == g
  {
    ModPlus(t - 1, a);
    ModPlus(g - 1, b);
  }
}
