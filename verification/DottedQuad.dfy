/** Dotted-quad text: `print_ip` of bin/ping.c, `is_ip_address` and `parse_ip` of net/dns.c. */
module DottedQuad {
  import opened Bytes

  predicate IsDigit(c: char) { '0' <= c <= '9' }

  function DigitValue(c: char): nat
    requires IsDigit(c)
  {
    c as int - '0' as int
  }

  predicate AllDigits(s: string) { forall i | 0 <= i < |s| :: IsDigit(s[i]) }

  /** The number a digit string stands for. */
  function Value(s: string): nat
    requires AllDigits(s)
  {
    if s == [] then 0 else 10 * Value(s[..|s| - 1]) + DigitValue(s[|s| - 1])
  }

  /** The decimal spelling without leading zeros. */
  function Decimal(n: nat): string {
    if n < 10 then [(n + '0' as int) as char] else Decimal(n / 10) + [(n % 10 + '0' as int) as char]
  }

  /** The dot-separated fields of `s`; there is always at least one. */
  function Fields(s: string): (fs: seq<string>)
    ensures fs != []
  {
    if s == [] then [[]]
    else
      var fs := Fields(s[..|s| - 1]);
      var c := s[|s| - 1];
      if c == '.' then fs + [[]] else fs[..|fs| - 1] + [fs[|fs| - 1] + [c]]
  }

  predicate OctetText(f: string) { 1 <= |f| <= 3 && AllDigits(f) }

  /** Four fields of one to three digits. */
  predicate IsQuad(s: string) { |Fields(s)| == 4 && forall i | 0 <= i < 4 :: OctetText(Fields(s)[i]) }

  function Weight(k: nat): nat
    requires k < 4
  {
    if k == 0 then 16777216 else if k == 1 then 65536 else if k == 2 then 256 else 1
  }

  function Octet(ip: U32, k: nat): Byte
    requires k < 4
  {
    ip / Weight(k) % 256
  }

  function Quad(ip: U32): string {
    Decimal(Octet(ip, 0)) + "." + Decimal(Octet(ip, 1)) + "." + Decimal(Octet(ip, 2)) + "." + Decimal(Octet(ip, 3))
  }

  /** What the first `k` fields contribute to the address. */
  function AddressOf(fs: seq<string>, k: nat): nat
    requires k <= |fs| && k <= 4 && forall i | 0 <= i < k :: AllDigits(fs[i])
  {
    if k == 0 then 0 else AddressOf(fs, k - 1) + Value(fs[k - 1]) * Weight(k - 1)
  }

  // ---------------------------------------------------------------- print_ip

  /** One octet: digits are taken from the right into `temp` and copied back reversed. */
  method PrintOctet(octet: Byte) returns (num: string)
    ensures num == Decimal(octet)
  {
    num := [];
    var val: nat := octet;
    if val == 0 {
      num := num + ['0'];
    } else {
      var temp := new char[4];
      var tlen := 0;
      ghost var tail: string := [];
      while val > 0
        invariant 0 <= tlen <= 3 && |tail| == tlen && val < [1000, 100, 10, 1][tlen]
        invariant forall k | 0 <= k < tlen :: temp[k] == tail[tlen - 1 - k]
        invariant (if val == 0 then [] else Decimal(val)) + tail == Decimal(octet)
      {
        var c := (val % 10 + '0' as int) as char;
        temp[tlen] := c;
        tlen := tlen + 1;
        tail := [c] + tail;
        val := val / 10;
      }
      while tlen > 0
        invariant 0 <= tlen <= |tail| <= 3
        invariant forall k | 0 <= k < |tail| :: temp[k] == tail[|tail| - 1 - k]
        invariant num == tail[..|tail| - tlen]
      {
        tlen := tlen - 1;
        num := num + [temp[tlen]];
      }
    }
  }

  /** `print_ip`: the text and its terminator always fit the 16-byte buffer. */
  method PrintIp(ip: U32) returns (buffer: string)
    ensures buffer == Quad(ip) && |buffer| <= 15
  {
    hide Decimal, Octet;
    DecimalLength(Octet(ip, 0));
    DecimalLength(Octet(ip, 1));
    DecimalLength(Octet(ip, 2));
    DecimalLength(Octet(ip, 3));
    buffer := [];
    var i := 3;
    while i >= 0
      invariant -1 <= i <= 3
      invariant i == 3 ==> buffer == []
      invariant i == 2 ==> buffer == Decimal(Octet(ip, 0)) + "."
      invariant i == 1 ==> buffer == Decimal(Octet(ip, 0)) + "." + Decimal(Octet(ip, 1)) + "."
      invariant i == 0 ==> buffer == Decimal(Octet(ip, 0)) + "." + Decimal(Octet(ip, 1)) + "." + Decimal(Octet(ip, 2)) + "."
      invariant i == -1 ==> buffer == Quad(ip)
    {
      var num := PrintOctet(Octet(ip, 3 - i));
      buffer := buffer + num;
      if i > 0 {
        buffer := buffer + ".";
      }
      i := i - 1;
    }
  }

  lemma DecimalLength(n: nat)
    requires n < 256
    ensures OctetText(Decimal(n)) && Value(Decimal(n)) == n
  {
    if n >= 10 {
      var s := Decimal(n);
      if n / 10 >= 10 {
        var t := Decimal(n / 10);
        assert t[..|t| - 1] == Decimal(n / 100);
        assert n / 10 / 10 == n / 100;
      }
      assert s[..|s| - 1] == Decimal(n / 10);
    }
  }

  /** The text of a number is the one without leading zeros. */
  lemma {:induction false} DecimalOfValue(s: string)
    requires s != [] && AllDigits(s) && (s[0] == '0' ==> |s| == 1)
    ensures Decimal(Value(s)) == s && (|s| > 1 ==> Value(s) >= 10)
    decreases |s|
  {
    var u, c := s[..|s| - 1], s[|s| - 1];
    assert IsDigit(c) && s == u + [c];
    if u == [] {
      assert Value(u) == 0 && Value(s) == DigitValue(c);
    } else {
      DecimalOfValue(u);
      if |u| == 1 {
        OneDigit(u);
      }
      assert Value(s) == 10 * Value(u) + DigitValue(c) && Value(s) / 10 == Value(u) && Value(s) % 10 == DigitValue(c);
    }
  }

  lemma OneDigit(u: string)
    requires AllDigits(u) && |u| == 1
    ensures Value(u) == DigitValue(u[0]) && (u[0] != '0' ==> Value(u) >= 1)
  {
    assert u[..0] == [];
  }

  lemma {:induction false} DecimalIs(n: nat)
    ensures var s := Decimal(n); s != [] && AllDigits(s) && (s[0] == '0' ==> n == 0 && |s| == 1) && Value(s) == n
  {
    var s := Decimal(n);
    if n < 10 {
      assert s[..0] == [];
    } else {
      DecimalIs(n / 10);
      assert s[..|s| - 1] == Decimal(n / 10);
    }
  }

  // ---------------------------------------------------------------- is_ip_address

  lemma FieldsSnoc(s: string, c: char)
    ensures var fs := Fields(s);
      Fields(s + [c]) == if c == '.' then fs + [[]] else fs[..|fs| - 1] + [fs[|fs| - 1] + [c]]
  {
    assert (s + [c])[..|s|] == s;
  }

  /** Once a finished field is bad, or a character is neither digit nor dot, no continuation is a quad. */
  lemma {:induction false} FieldsGrow(s: string, t: string)
    ensures var fs, gs := Fields(s), Fields(s + t);
      && |fs| <= |gs| && (forall i | 0 <= i < |fs| - 1 :: gs[i] == fs[i])
      && |fs[|fs| - 1]| <= |gs[|fs| - 1]| && gs[|fs| - 1][..|fs[|fs| - 1]|] == fs[|fs| - 1]
  {
    if t == [] {
      assert s + t == s;
    } else {
      var u, c := t[..|t| - 1], t[|t| - 1];
      assert s + t == (s + u) + [c];
      FieldsGrow(s, u);
      FieldsSnoc(s + u, c);
    }
  }

  method IsIpAddress(str: string) returns (yes: bool)
    ensures yes <==> IsQuad(str)
  {
    hide Fields, Scanned, IsQuad;
    var dots, digits := 0, 0;
    var i := 0;
    assert Scanned(Fields(str[..0]), 0, 0) by { ScanStart(str); }
    while i < |str|
      invariant 0 <= i <= |str| && Scanned(Fields(str[..i]), dots, digits)
    {
      ScanChar(str, i, dots, digits);
      if str[i] == '.' {
        if digits == 0 || digits > 3 {
          return false;
        }
        dots := dots + 1;
        digits := 0;
      } else if '0' <= str[i] <= '9' {
        digits := digits + 1;
      } else {
        return false;
      }
      i := i + 1;
    }
    ScanEnd(str, dots, digits);
    yes := dots == 3 && digits > 0 && digits <= 3;
  }

  /** What the scan knows: complete fields are octets, and the last one has so many digits. */
  ghost predicate Scanned(fs: seq<string>, dots: nat, digits: nat) {
    dots == |fs| - 1 && digits == |fs[dots]| && AllDigits(fs[dots]) && forall k | 0 <= k < dots :: OctetText(fs[k])
  }

  lemma ScanStart(str: string)
    ensures Scanned(Fields(str[..0]), 0, 0)
  {
    assert str[..0] == [];
    NoText();
  }

  lemma ScanChar(str: string, i: nat, dots: nat, digits: nat)
    requires i < |str| && Scanned(Fields(str[..i]), dots, digits)
    ensures str[i] == '.' && 1 <= digits <= 3 ==> Scanned(Fields(str[..i + 1]), dots + 1, 0)
    ensures IsDigit(str[i]) ==> Scanned(Fields(str[..i + 1]), dots, digits + 1)
    ensures (str[i] == '.' && !(1 <= digits <= 3)) || (str[i] != '.' && !IsDigit(str[i])) ==> !IsQuad(str)
  {
    hide Fields, IsQuad;
    assert str[..i + 1] == str[..i] + [str[i]];
    FieldsSnoc(str[..i], str[i]);
    if str[i] == '.' && !(1 <= digits <= 3) {
      assert !OctetText(Fields(str[..i + 1])[dots]);
      NotQuad(str, i + 1);
    } else if str[i] != '.' && !IsDigit(str[i]) {
      assert !IsDigit(Fields(str[..i + 1])[dots][digits]);
      NotQuad(str, i + 1);
    }
  }

  lemma ScanEnd(str: string, dots: nat, digits: nat)
    requires Scanned(Fields(str[..|str|]), dots, digits)
    ensures IsQuad(str) <==> dots == 3 && 1 <= digits <= 3
  {
    hide Fields;
    assert str[..|str|] == str;
  }

  lemma NoText()
    ensures Fields([]) == [[]]
  {
  }

  /** A prefix that already has a bad finished field, or a character other than digits and dots. */
  lemma NotQuad(str: string, i: nat)
    requires i <= |str|
    requires var fs := Fields(str[..i]);
      (exists k :: 0 <= k < |fs| - 1 && !OctetText(fs[k])) || !AllDigits(fs[|fs| - 1])
    ensures !IsQuad(str)
  {
    hide Fields;
    var fs, gs := Fields(str[..i]), Fields(str);
    assert str == str[..i] + str[i..];
    FieldsGrow(str[..i], str[i..]);
    var m := |fs| - 1;
    if !AllDigits(fs[m]) {
      var q :| 0 <= q < |fs[m]| && !IsDigit(fs[m][q]);
      assert gs[m][q] == fs[m][q];
    }
  }

  /** One to three of the ten digits. */
  predicate ShortNumber(f: string) { 1 <= |f| <= 3 && forall i | 0 <= i < |f| :: '0' <= f[i] <= '9' }

  function Dotted(a: string, b: string, c: string, d: string): string { a + "." + b + "." + c + "." + d }

  /** The accepted texts are exactly four short numbers with a dot between each two. */
  lemma QuadExactly(s: string)
    ensures IsQuad(s) <==> exists a, b, c, d :: ShortNumber(a) && ShortNumber(b) && ShortNumber(c) && ShortNumber(d) && s == Dotted(a, b, c, d)
  {
    hide Fields;
    if IsQuad(s) {
      var fs := Fields(s);
      FieldsJoined(s);
      FourJoined(fs);
      assert ShortNumber(fs[0]) && ShortNumber(fs[1]) && ShortNumber(fs[2]) && ShortNumber(fs[3]) && s == Dotted(fs[0], fs[1], fs[2], fs[3]);
    }
    if a, b, c, d :| ShortNumber(a) && ShortNumber(b) && ShortNumber(c) && ShortNumber(d) && s == Dotted(a, b, c, d) {
      FieldsOfQuad(a, b, c, d);
    }
  }

  /** Fields with dots in between. */
  function WithDots(fs: seq<string>): string
    requires fs != []
  {
    if |fs| == 1 then fs[0] else WithDots(fs[..|fs| - 1]) + "." + fs[|fs| - 1]
  }

  /** A text is its fields with dots in between. */
  lemma {:induction false} FieldsJoined(s: string)
    ensures WithDots(Fields(s)) == s
    decreases |s|
  {
    if s != [] {
      var t, c := s[..|s| - 1], s[|s| - 1];
      var fs := Fields(t);
      FieldsJoined(t);
      assert s == t + [c];
      if c == '.' {
        assert (fs + [[]])[..|fs|] == fs;
      } else {
        var last := fs[|fs| - 1] + [c];
        assert (fs[..|fs| - 1] + [last])[..|fs| - 1] == fs[..|fs| - 1];
      }
    }
  }

  lemma FourJoined(fs: seq<string>)
    requires |fs| == 4
    ensures WithDots(fs) == Dotted(fs[0], fs[1], fs[2], fs[3])
  {
    assert fs[..3][..2] == fs[..2] && fs[..2][..1] == fs[..1];
    assert WithDots(fs[..1]) == fs[0] && WithDots(fs[..2]) == fs[0] + "." + fs[1] && WithDots(fs[..3]) == fs[0] + "." + fs[1] + "." + fs[2];
  }

  // ---------------------------------------------------------------- parse_ip

  /** `a | b` */
  function Or(a: nat, b: nat): nat
    decreases a + b
  {
    if a == 0 then b else if b == 0 then a
    else (if a % 2 == 1 || b % 2 == 1 then 1 else 0) + 2 * Or(a / 2, b / 2)
  }

  /** A power of two. */
  predicate PowerOfTwo(p: nat)
    decreases p
  {
    p == 1 || (p > 1 && p % 2 == 0 && PowerOfTwo(p / 2))
  }

  lemma {:induction false} OrBound(a: nat, b: nat, p: nat)
    requires PowerOfTwo(p) && a < p && b < p
    ensures Or(a, b) < p
    decreases p
  {
    if a != 0 && b != 0 {
      OrBound(a / 2, b / 2, p / 2);
    }
  }

  /** Or adds where the bits are disjoint. */
  lemma {:induction false} OrDisjoint(h: nat, p: nat, y: nat)
    requires PowerOfTwo(p) && y < p
    ensures Or(h * p, y) == h * p + y
    decreases p
  {
    if p > 1 && h != 0 && y != 0 {
      var q := p / 2;
      HalfProduct(h, q);
      assert p == 2 * q;
      OrDisjoint(h, q, y / 2);
    }
  }

  lemma HalfProduct(h: nat, q: nat)
    ensures h * (2 * q) % 2 == 0 && h * (2 * q) / 2 == h * q
  {
    assert h * (2 * q) == 2 * (h * q);
  }

  /** The place of the field that is shifted by so much. */
  function Place(shift: nat): (w: nat)
    requires shift == 0 || shift == 8 || shift == 16 || shift == 24
  {
    if shift == 24 then 16777216 else if shift == 16 then 65536 else if shift == 8 then 256 else 1
  }

  /** The 32 bits of `octet << shift`. */
  function Shifted(octet: nat, shift: nat): U32
    requires shift == 0 || shift == 8 || shift == 16 || shift == 24
  {
    octet * Place(shift) % 0x1_0000_0000
  }

  lemma Double(p: nat)
    requires PowerOfTwo(p)
    ensures PowerOfTwo(2 * p)
  {
  }

  lemma Times256(p: nat)
    requires PowerOfTwo(p)
    ensures PowerOfTwo(256 * p)
  {
    hide PowerOfTwo;
    Double(p);
    Double(2 * p);
    Double(4 * p);
    Double(8 * p);
    Double(16 * p);
    Double(32 * p);
    Double(64 * p);
    Double(128 * p);
  }

  lemma One()
    ensures PowerOfTwo(1)
  {
  }

  lemma Powers()
    ensures PowerOfTwo(0x1_0000_0000) && PowerOfTwo(0x100_0000) && PowerOfTwo(0x1_0000) && PowerOfTwo(0x100)
  {
    hide PowerOfTwo;
    One();
    Times256(1);
    Times256(0x100);
    Times256(0x1_0000);
    Times256(0x100_0000);
  }

  /** What the first `k` fields leave in the word: shifted, cut off at 32 bits, and or-ed together. */
  function Joined(fs: seq<string>, k: nat): nat
    requires k <= |fs| && k <= 4 && forall i | 0 <= i < k :: AllDigits(fs[i])
  {
    if k == 0 then 0 else Or(Joined(fs, k - 1), Shifted(Value(fs[k - 1]), 24 - 8 * (k - 1)))
  }

  lemma {:induction false} JoinedBound(fs: seq<string>, k: nat)
    requires k <= |fs| && k <= 4 && forall i | 0 <= i < k :: AllDigits(fs[i])
    ensures Joined(fs, k) < 0x1_0000_0000
    decreases k
  {
    hide Value, Shifted, Or, PowerOfTwo;
    if k > 0 {
      JoinedBound(fs, k - 1);
      Powers();
      OrBound(Joined(fs, k - 1), Shifted(Value(fs[k - 1]), 24 - 8 * (k - 1)), 0x1_0000_0000);
    }
  }

  /** The fields of an address in range. */
  ghost predicate InRange(s: string) { IsQuad(s) && forall i | 0 <= i < 4 :: Value(Fields(s)[i]) < 256 }

  /** The first `k` fields as digits of base 256. */
  function Leading(fs: seq<string>, k: nat): nat
    requires k <= |fs| && forall i | 0 <= i < k :: AllDigits(fs[i])
  {
    if k == 0 then 0 else 256 * Leading(fs, k - 1) + Value(fs[k - 1])
  }

  /** The word is the address, with the first field most significant, when no field is above 255. */
  lemma {:induction false} JoinedIsAddress(fs: seq<string>, k: nat)
    requires k <= 4 && |fs| == 4 && forall i | 0 <= i < 4 :: AllDigits(fs[i]) && Value(fs[i]) < 256
    ensures Joined(fs, k) == AddressOf(fs, k)
    ensures k > 0 ==> AddressOf(fs, k) == Leading(fs, k) * Weight(k - 1)
    decreases k
  {
    hide Value, Or, PowerOfTwo, Joined, AddressOf, Leading, Shifted;
    JoinedStep(fs, k);
    if k > 0 {
      JoinedIsAddress(fs, k - 1);
      JoinedStep(fs, k - 1);
      JoinField(AddressOf(fs, k - 1), if k > 1 then Leading(fs, k - 1) else 0, Value(fs[k - 1]), k);
    }
  }

  lemma JoinedStep(fs: seq<string>, k: nat)
    requires k <= 4 && |fs| == 4 && forall i | 0 <= i < 4 :: AllDigits(fs[i])
    ensures k == 0 ==> Joined(fs, k) == 0 && AddressOf(fs, k) == 0 && Leading(fs, k) == 0
    ensures k > 0 ==>
      && Joined(fs, k) == Or(Joined(fs, k - 1), Shifted(Value(fs[k - 1]), 24 - 8 * (k - 1)))
      && AddressOf(fs, k) == AddressOf(fs, k - 1) + Value(fs[k - 1]) * Weight(k - 1)
      && Leading(fs, k) == (if k > 1 then 256 * Leading(fs, k - 1) else 0) + Value(fs[k - 1])
  {
    hide Value, Or, Shifted;
    assert Leading(fs, 0) == 0;
  }

  /** One field joined to the `h` in front of it. */
  lemma JoinField(word: nat, h: nat, octet: nat, k: nat)
    requires 1 <= k <= 4 && octet < 256
    requires if k == 1 then h == 0 && word == 0 else word == h * Weight(k - 2)
    ensures var w := Weight(k - 1);
      Or(word, Shifted(octet, 24 - 8 * (k - 1))) == word + octet * w == (256 * h + octet) * w
  {
    hide Or, PowerOfTwo;
    Powers();
    var w := Weight(k - 1);
    assert Shifted(octet, 24 - 8 * (k - 1)) == octet * w;
    MoreSignificant(h, w, octet);
    if k == 1 {
      OrNothing(octet * w);
    } else {
      assert Weight(k - 2) == 256 * w;
      OrDisjoint(h, 256 * w, octet * w);
    }
  }

  lemma OrNothing(y: nat)
    ensures Or(0, y) == y
  {
  }

  lemma MoreSignificant(h: nat, w: nat, octet: nat)
    ensures 256 * h * w + octet * w == (256 * h + octet) * w && 256 * h * w == h * (256 * w)
  {
  }

  /** A field above 255 is accepted, too, and its upper bits fall into the field before it: `1.256.0.0` is read as the
      address of `1.0.0.0`. */
  lemma FieldAbove255(a: string, b: string, c: string)
    requires a == "1" && b == "256" && c == "0"
    ensures var s, t := a + "." + b + "." + c + "." + c, a + "." + c + "." + c + "." + c;
      IsQuad(s) && !InRange(s) && InRange(t) && Joined(Fields(s), 4) == Joined(Fields(t), 4) == 0x0100_0000
  {
    hide Fields, Or, Value;
    DigitTexts();
    FieldsOfQuad(a, b, c, c);
    FieldsOfQuad(a, c, c, c);
    OneAndOver([a, b, c, c]);
    OneAndOver([a, c, c, c]);
  }

  lemma OneAndOver(fs: seq<string>)
    requires |fs| == 4 && forall i | 0 <= i < 4 :: AllDigits(fs[i])
    requires Value(fs[0]) == 1 && Value(fs[1]) in {0, 256} && Value(fs[2]) == 0 && Value(fs[3]) == 0
    ensures Joined(fs, 4) == 0x0100_0000
  {
    hide Or, Value, Joined, AddressOf, Leading, Shifted;
    OrNothing(0x0100_0000);
    OrItself(0x0100_0000);
    OrZero(0x0100_0000);
    OneShifted();
    JoinedStep(fs, 0);
    JoinedStep(fs, 1);
    JoinedStep(fs, 2);
    JoinedStep(fs, 3);
    JoinedStep(fs, 4);
  }

  lemma OneShifted()
    ensures Shifted(1, 24) == 0x0100_0000 && Shifted(256, 16) == 0x0100_0000
    ensures Shifted(0, 16) == 0 && Shifted(0, 8) == 0 && Shifted(0, 0) == 0
  {
  }

  lemma DigitTexts()
    ensures AllDigits("0") && AllDigits("1") && AllDigits("256") && Value("0") == 0 && Value("1") == 1 && Value("256") == 256
  {
    assert "256"[..2] == "25" && "25"[..1] == "2" && "2"[..0] == [] && "0"[..0] == [] && "1"[..0] == [];
    assert Value("2") == 2 && Value("25") == 25;
  }

  lemma OrZero(a: nat)
    ensures Or(a, 0) == a
  {
  }

  lemma {:induction false} OrItself(a: nat)
    ensures Or(a, a) == a
    decreases a
  {
    if a > 0 {
      OrItself(a / 2);
    }
  }

  /** `parse_ip`, on every text that `is_ip_address` accepts. */
  method ParseIp(str: string) returns (ip: U32)
    requires IsQuad(str)
    ensures ip == Joined(Fields(str), 4)
    ensures InRange(str) ==> ip == AddressOf(Fields(str), 4)
  {
    hide Fields, Value, AddressOf, Shifted, Parsed, IsQuad, Joined, Or;
    var word: nat := 0;
    var octet: nat, shift: int := 0, 24;
    var i := 0;
    ParseStart(str);
    while i < |str|
      invariant 0 <= i <= |str| && Parsed(str, i, word, octet, shift)
    {
      ParseChar(str, i, word, octet, shift);
      if str[i] == '.' {
        word := Or(word, Shifted(octet, shift));
        shift := shift - 8;
        octet := 0;
      } else {
        octet := octet * 10 + (str[i] as int - '0' as int);
      }
      i := i + 1;
    }
    ParseEnd(str, word, octet, shift);
    ip := Or(word, Shifted(octet, shift));
  }

  /** After `i` characters the complete fields are in the word and the last one is in `octet`. */
  ghost predicate Parsed(str: string, i: nat, word: nat, octet: nat, shift: int)
    requires i <= |str|
  {
    var fs, gs := Fields(str[..i]), Fields(str);
    && IsQuad(str) && |fs| <= 4 && shift == 24 - 8 * (|fs| - 1)
    && (forall k | 0 <= k < |fs| - 1 :: fs[k] == gs[k])
    && AllDigits(fs[|fs| - 1]) && octet == Value(fs[|fs| - 1])
    && word == Joined(gs, |fs| - 1)
  }

  lemma ParseStart(str: string)
    requires IsQuad(str)
    ensures Parsed(str, 0, 0, 0, 24)
  {
    hide Fields, Or;
    assert str[..0] == [];
    NoText();
  }

  lemma ParseChar(str: string, i: nat, word: nat, octet: nat, shift: int)
    requires i < |str| && Parsed(str, i, word, octet, shift)
    ensures shift == 0 || shift == 8 || shift == 16 || shift == 24
    ensures str[i] == '.' ==> Parsed(str, i + 1, Or(word, Shifted(octet, shift)), 0, shift - 8)
    ensures str[i] != '.' ==> IsDigit(str[i]) && Parsed(str, i + 1, word, octet * 10 + DigitValue(str[i]), shift)
  {
    hide Fields, Value, Joined, Shifted, Parsed, Or;
    ParsedShift(str, i, word, octet, shift);
    if str[i] == '.' {
      ParseDot(str, i, word, octet, shift);
    } else {
      ParseDigit(str, i, word, octet, shift);
    }
  }

  lemma ParsedShift(str: string, i: nat, word: nat, octet: nat, shift: int)
    requires i <= |str| && Parsed(str, i, word, octet, shift)
    ensures shift == 0 || shift == 8 || shift == 16 || shift == 24
  {
    hide Fields, Value, Joined, IsQuad;
    var fs := Fields(str[..i]);
    assert |fs| == 1 || |fs| == 2 || |fs| == 3 || |fs| == 4;
  }

  lemma ParseDot(str: string, i: nat, word: nat, octet: nat, shift: int)
    requires i < |str| && Parsed(str, i, word, octet, shift) && str[i] == '.'
    requires shift == 0 || shift == 8 || shift == 16 || shift == 24
    ensures Parsed(str, i + 1, Or(word, Shifted(octet, shift)), 0, shift - 8)
  {
    hide Fields, Shifted, Or;
    var fs, gs := Fields(str[..i]), Fields(str);
    PrefixFields(str, i + 1);
    assert str[..i + 1] == str[..i] + [str[i]];
    FieldsSnoc(str[..i], str[i]);
    assert (fs + [[]])[|fs| - 1] == fs[|fs| - 1] == gs[|fs| - 1];
  }

  lemma ParseDigit(str: string, i: nat, word: nat, octet: nat, shift: int)
    requires i < |str| && Parsed(str, i, word, octet, shift) && str[i] != '.'
    ensures IsDigit(str[i]) && Parsed(str, i + 1, word, octet * 10 + DigitValue(str[i]), shift)
  {
    hide Fields, Value, Joined, IsQuad;
    var fs := Fields(str[..i]);
    PrefixFields(str, i + 1) by { assert Parsed(str, i, word, octet, shift); }
    assert str[..i + 1] == str[..i] + [str[i]];
    FieldsSnoc(str[..i], str[i]);
    assert IsDigit((fs[|fs| - 1] + [str[i]])[|fs[|fs| - 1]|]);
    ValueSnoc(fs[|fs| - 1], str[i]);
  }

  lemma ParseEnd(str: string, word: nat, octet: nat, shift: int)
    requires Parsed(str, |str|, word, octet, shift)
    ensures shift == 0 && IsQuad(str) && Or(word, Shifted(octet, 0)) == Joined(Fields(str), 4) < 0x1_0000_0000
    ensures InRange(str) ==> Joined(Fields(str), 4) == AddressOf(Fields(str), 4)
  {
    hide Fields, Value, AddressOf, Shifted, Or;
    assert str[..|str|] == str;
    JoinedBound(Fields(str), 4);
    if InRange(str) {
      JoinedIsAddress(Fields(str), 4);
    }
  }

  lemma ValueSnoc(f: string, c: char)
    requires AllDigits(f) && IsDigit(c)
    ensures AllDigits(f + [c]) && Value(f + [c]) == 10 * Value(f) + DigitValue(c)
  {
    assert (f + [c])[..|f|] == f;
  }

  /** Every prefix of a quad has at most four fields, finished ones as in the whole and an unfinished one of digits. */
  lemma PrefixFields(str: string, i: nat)
    requires i <= |str| && IsQuad(str)
    ensures var fs, gs := Fields(str[..i]), Fields(str);
      |fs| <= 4 && (forall k | 0 <= k < |fs| - 1 :: fs[k] == gs[k]) && AllDigits(fs[|fs| - 1])
  {
    hide Fields;
    var fs, gs := Fields(str[..i]), Fields(str);
    assert str == str[..i] + str[i..];
    FieldsGrow(str[..i], str[i..]);
    var m := |fs| - 1;
    assert OctetText(gs[m]);
    assert forall q | 0 <= q < |fs[m]| :: fs[m][q] == gs[m][..|fs[m]|][q] == gs[m][q];
  }

  // ---------------------------------------------------------------- round trip

  lemma {:induction false} FieldsAppend(s: string, w: string)
    requires AllDigits(w)
    ensures var fs := Fields(s); Fields(s + w) == fs[..|fs| - 1] + [fs[|fs| - 1] + w]
  {
    if w == [] {
      var fs := Fields(s);
      assert s + w == s && fs[|fs| - 1] + w == fs[|fs| - 1];
      assert fs == fs[..|fs| - 1] + [fs[|fs| - 1] + w];
    } else {
      var u, c := w[..|w| - 1], w[|w| - 1];
      assert AllDigits(u) && IsDigit(c) by { assert IsDigit(w[|w| - 1]); }
      assert w == u + [c];
      assert s + w == (s + u) + [c];
      FieldsAppend(s, u);
      FieldsSnoc(s + u, c);
      var fs := Fields(s);
      assert fs[|fs| - 1] + w == fs[|fs| - 1] + u + [c];
    }
  }

  lemma FieldsJoin(s: string, w: string)
    requires AllDigits(w)
    ensures Fields(s + "." + w) == Fields(s) + [w]
  {
    hide Fields;
    FieldsSnoc(s, '.');
    FieldsAppend(s + ".", w);
    assert (Fields(s) + [[]])[..|Fields(s)|] == Fields(s) && [] + w == w;
  }

  lemma FieldsOfQuad(a: string, b: string, c: string, d: string)
    requires AllDigits(a) && AllDigits(b) && AllDigits(c) && AllDigits(d)
    ensures Fields(a + "." + b + "." + c + "." + d) == [a, b, c, d]
  {
    hide Fields;
    NoText();
    FieldsAppend([], a);
    assert [] + a == a;
    FieldsJoin(a, b);
    FieldsJoin(a + "." + b, c);
    FieldsJoin(a + "." + b + "." + c, d);
  }

  lemma OctetsRebuild(ip: U32)
    ensures ip == Octet(ip, 0) * 16777216 + Octet(ip, 1) * 65536 + Octet(ip, 2) * 256 + Octet(ip, 3)
  {
    var q1: nat := ip / 256;
    var q2: nat := q1 / 256;
    var q3: nat := q2 / 256;
    assert ip / 65536 == q2 && ip / 16777216 == q3;
  }

  /** Every address survives printing and parsing. */
  lemma QuadRoundTrip(ip: U32)
    ensures InRange(Quad(ip)) && AddressOf(Fields(Quad(ip)), 4) == ip
  {
    hide Decimal, Fields, Value, Octet;
    var a, b, c, d := Octet(ip, 0), Octet(ip, 1), Octet(ip, 2), Octet(ip, 3);
    DecimalLength(a);
    DecimalLength(b);
    DecimalLength(c);
    DecimalLength(d);
    FieldsOfQuad(Decimal(a), Decimal(b), Decimal(c), Decimal(d));
    OctetsRebuild(ip);
    var fs := Fields(Quad(ip));
    assert AddressOf(fs, 1) == AddressOf(fs, 0) + Value(fs[0]) * Weight(0);
    assert AddressOf(fs, 2) == AddressOf(fs, 1) + Value(fs[1]) * Weight(1);
    assert AddressOf(fs, 3) == AddressOf(fs, 2) + Value(fs[2]) * Weight(2);
    assert AddressOf(fs, 4) == AddressOf(fs, 3) + Value(fs[3]) * Weight(3);
  }
}
