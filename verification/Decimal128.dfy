/** Decimal128 values in binary integer decimal encoding, section 3.5.2 of IEEE 754-2008, and their text. */
module Decimal128 {
  import opened CInt
  import opened LittleEndian
  import opened Decimal

  const EXPONENT_MAX := 6111
  const EXPONENT_MIN := -6176
  const EXPONENT_BIAS := 6176
  const MAX_DIGITS := 34
  const TEXT_SIZE := 43

  const TWO_46 := 0x4000_0000_0000
  const TWO_47 := 0x8000_0000_0000
  const TWO_49 := 0x2_0000_0000_0000
  const TWO_58 := 0x400_0000_0000_0000
  const TWO_63 := 0x8000_0000_0000_0000
  const TWO_113 := TWO_49 * TWO_64

  const NAN_HIGH := 0x7C00_0000_0000_0000
  const INFINITY_HIGH := 0x7800_0000_0000_0000

  type word = x: int | 0 <= x < TWO_64

  datatype Bits = Bits(high: word, low: word)

  // ---------------------------------------------------------------------------------------------------------
  // The fields
  // ---------------------------------------------------------------------------------------------------------

  predicate Negative(d: Bits) {
    d.high >= TWO_63
  }

  /** The five bits after the sign. */
  function Combination(d: Bits): (c: nat)
    ensures c < 32
  {
    d.high / TWO_58 % 32
  }

  predicate IsInfinite(d: Bits) {
    Combination(d) == 30
  }

  predicate IsNaN(d: Bits) {
    Combination(d) == 31
  }

  function Exponent(d: Bits): int {
    (if Combination(d) / 8 == 3 then d.high / TWO_47 % 0x4000 else d.high / TWO_49 % 0x4000) - EXPONENT_BIAS
  }

  /** The coefficient as it is stored; the longer form of the combination adds bits no valid coefficient has. */
  function Stored(d: Bits): nat {
    var top := if Combination(d) / 8 == 3 then 8 + d.high / TWO_46 % 2 else d.high / TWO_46 % 8;
    (top * TWO_46 + d.high % TWO_46) * TWO_64 + d.low
  }

  /** What is printed: coefficients of 2^113 and above count as zero. */
  function Coefficient(d: Bits): (c: nat)
    ensures c < TWO_113
  {
    if Stored(d) < TWO_113 then Stored(d) else 0
  }

  predicate Canonical(d: Bits) {
    !IsInfinite(d) && !IsNaN(d) && Stored(d) < Pow10(MAX_DIGITS)
  }

  /** The bits of sign, coefficient and exponent; bit 49 of the high word selects the longer form. */
  function Pack(negative: bool, c: nat, e: int): (d: Bits)
    requires c < Pow10(MAX_DIGITS) && EXPONENT_MIN <= e <= EXPONENT_MAX
  {
    CoefficientFits();
    Bits(c / TWO_64 + (e + EXPONENT_BIAS) * TWO_49 + (if negative then TWO_63 else 0), c % TWO_64)
  }

  lemma PowTable()
    ensures Pow10(8) == 100_000_000 && Pow10(9) == 1_000_000_000 && Pow10(17) == 100_000_000_000_000_000
    ensures Pow10(34) == Pow10(17) * Pow10(17)
  {
    assert Pow10(4) == 10000;
    PowSplit(4, 4);
    PowSplit(8, 9);
    PowSplit(17, 17);
  }

  lemma CoefficientFits()
    ensures Pow10(MAX_DIGITS) < TWO_113 < Pow10(MAX_DIGITS + 1)
  {
    PowTable();
  }

  lemma DivMod(q: int, m: int, r: int)
    requires 0 <= r < m
    ensures (q * m + r) / m == q && (q * m + r) % m == r
  {
    var n := q * m + r;
    var k := q - n / m;
    assert k * m == n % m - r;
    Multiple(k, m);
  }

  lemma Multiple(k: int, m: int)
    requires m > 0
    ensures (k >= 1 ==> k * m >= m) && (k <= -1 ==> k * m <= -m)
  {
  }

  /** A high word from its sign, its 14 exponent bits, and the 49 bits below, read back by shifting. */
  lemma HighFields(s: int, b: int, h: int)
    requires 0 <= s <= 1 && 0 <= b < 0x4000 && 0 <= h < TWO_49
    ensures var high := s * TWO_63 + b * TWO_49 + h;
            && high / TWO_58 % 32 == b / 512 && high / TWO_49 % 0x4000 == b
            && high / TWO_46 % 8 == h / TWO_46 && high % TWO_46 == h % TWO_46
  {
    var high := s * TWO_63 + b * TWO_49 + h;
    var low := b % 512 * TWO_49 + h;
    assert high == (s * 32 + b / 512) * TWO_58 + low;
    DivMod(s * 32 + b / 512, TWO_58, low);
    DivMod(s, 32, b / 512);
    assert high == (s * 0x4000 + b) * TWO_49 + h;
    DivMod(s * 0x4000 + b, TWO_49, h);
    DivMod(s, 0x4000, b);
    var (t, r) := (h / TWO_46, h % TWO_46);
    assert high == ((s * 0x4000 + b) * 8 + t) * TWO_46 + r;
    DivMod((s * 0x4000 + b) * 8 + t, TWO_46, r);
    DivMod(s * 0x4000 + b, 8, t);
  }

  lemma PackFields(negative: bool, c: nat, e: int)
    requires c < Pow10(MAX_DIGITS) && EXPONENT_MIN <= e <= EXPONENT_MAX
    ensures var d := Pack(negative, c, e);
            Negative(d) == negative && Combination(d) < 24 && Exponent(d) == e && Stored(d) == c && Canonical(d)
  {
    CoefficientFits();
    hide Pow10;
    var (b, h) := (e + EXPONENT_BIAS, c / TWO_64);
    assert c == h * TWO_64 + c % TWO_64;
    HighFields(if negative then 1 else 0, b, h);
    assert h / TWO_46 * TWO_46 + h % TWO_46 == h;
  }

  /** A canonical value is the packing of its fields. */
  lemma PackUnpacked(d: Bits)
    requires Canonical(d)
    ensures EXPONENT_MIN <= Exponent(d) <= EXPONENT_MAX
    ensures Pack(Negative(d), Stored(d), Exponent(d)) == d
  {
    CoefficientFits();
    hide Pow10;
    LongForm(d);
    var (s, b, h) := (d.high / TWO_63, d.high / TWO_49 % 0x4000, d.high % TWO_49);
    HighParts(d.high);
    HighFields(s, b, h);
    assert h / TWO_46 * TWO_46 + h % TWO_46 == h;
    DivMod(h, TWO_64, d.low);
  }

  lemma HighParts(high: word)
    ensures high == high / TWO_63 * TWO_63 + high / TWO_49 % 0x4000 * TWO_49 + high % TWO_49
  {
    var q := high / TWO_49;
    assert q / 0x4000 == high / TWO_63;
    assert high == q * TWO_49 + high % TWO_49 && q == q / 0x4000 * 0x4000 + q % 0x4000;
  }

  lemma LongForm(d: Bits)
    ensures Combination(d) / 8 == 3 ==> Stored(d) >= TWO_113
  {
    var x := 8 + d.high / TWO_46 % 2;
    assert x * TWO_46 + d.high % TWO_46 >= TWO_49;
  }

  // ---------------------------------------------------------------------------------------------------------
  // The text
  // ---------------------------------------------------------------------------------------------------------

  const MINUS: byte := 45
  const PLUS: byte := 43
  const POINT: byte := 46

  function Chars(d: seq<digit>): (r: bytes)
    ensures |r| == |d|
  {
    seq(|d|, i requires 0 <= i < |d| => 48 + d[i] as int)
  }

  /** printf's %+d. */
  function SignedDecimal(n: int): (r: bytes)
    ensures |r| > 1
  {
    [if n < 0 then MINUS else PLUS] + Chars(Digits(if n < 0 then -n else n))
  }

  function Sign(d: Bits): (r: bytes)
    ensures |r| <= 1
  {
    if Negative(d) then [MINUS] else []
  }

  const NAN_TEXT: bytes := [78, 97, 78] // "NaN"
  const INFINITY_TEXT: bytes := [73, 110, 102, 105, 110, 105, 116, 121] // "Infinity"

  function ScientificText(sign: bytes, d: seq<digit>, e: int): bytes
    requires 1 <= |d| <= 35 && |sign| <= 1
  {
    var head := sign + Chars(d[..1]) + if |d| > 1 then [POINT] else [];
    var room := 36 - |head|;
    head + Chars(d[1..if |d| - 1 <= room then |d| else 1 + room]) + [69] + SignedDecimal(|d| - 1 + e)
  }

  function PlainText(sign: bytes, d: seq<digit>, e: int): bytes
    requires 1 <= |d| <= 35 && |sign| <= 1 && e <= 0 && |d| - 1 + e >= -6
  {
    var r := |d| + e;
    if e == 0 then sign + Chars(d)
    else if r > 0 then sign + Chars(d[..r]) + [POINT] + Chars(d[r..])
    else
      var all := sign + [48, POINT] + Chars(Zeros(-r)) + Chars(d);
      if |all| < TEXT_SIZE then all else all[..TEXT_SIZE - 1]
  }

  function FiniteText(sign: bytes, d: seq<digit>, e: int): bytes
    requires 1 <= |d| <= 35 && |sign| <= 1
  {
    if |d| - 1 + e < -6 || e > 0 then ScientificText(sign, d, e) else PlainText(sign, d, e)
  }

  function Text(d: Bits): bytes {
    if IsNaN(d) then NAN_TEXT
    else if IsInfinite(d) then Sign(d) + INFINITY_TEXT
    else
      CoefficientDigits(Coefficient(d));
      FiniteText(Sign(d), Digits(Coefficient(d)), Exponent(d))
  }

  lemma CoefficientDigits(c: nat)
    requires c < TWO_113
    ensures 1 <= |Digits(c)| <= 35 && (c < Pow10(MAX_DIGITS) ==> |Digits(c)| <= 34)
  {
    CoefficientFits();
    FewDigits(c, 35);
    if c < Pow10(34) { FewDigits(c, 34); }
  }

  lemma {:induction false} FewDigits(c: nat, k: nat)
    requires c < Pow10(k) && k > 0
    ensures |Digits(c)| <= k
  {
    if c >= 10 {
      assert k > 1 by { assert Pow10(1) == 10; }
      FewDigits(c / 10, k - 1);
    }
  }

  lemma SmallExponent(d: Bits)
    requires !IsNaN(d) && !IsInfinite(d)
    ensures EXPONENT_MIN <= Exponent(d) <= EXPONENT_MAX
  {
    var h := d.high;
    var c := Combination(d);
    if c / 8 == 3 {
      LongExponent(h);
    } else {
      ShortExponent(h);
    }
  }

  lemma ShortExponent(h: nat)
    ensures h / TWO_49 % 0x4000 / 512 == h / TWO_58 % 32
  {
    var (q, r) := (h / TWO_49, h % TWO_49);
    var (u, v) := (q / 512, q % 512);
    var (w, t) := (u / 32, u % 32);
    assert h == u * TWO_58 + (v * TWO_49 + r);
    DivMod(u, TWO_58, v * TWO_49 + r);
    assert q == w * 0x4000 + (t * 512 + v);
    DivMod(w, 0x4000, t * 512 + v);
    DivMod(t, 512, v);
  }

  lemma Mod32(u: nat)
    ensures u % 32 % 8 == u % 8
  {
    var (x, y) := (u / 32, u % 32);
    assert u == 8 * (4 * x + y / 8) + y % 8;
  }

  /** In the longer form the exponent starts two bits further down. */
  lemma LongExponent(h: nat)
    ensures h / TWO_47 % 0x4000 / 2048 == h / TWO_58 % 32 % 8
  {
    var (q, r) := (h / TWO_47, h % TWO_47);
    var (u, v) := (q / 2048, q % 2048);
    var (w, t) := (u / 8, u % 8);
    assert h == u * TWO_58 + (v * TWO_47 + r);
    DivMod(u, TWO_58, v * TWO_47 + r);
    assert q == w * 0x4000 + (t * 2048 + v);
    DivMod(w, 0x4000, t * 2048 + v);
    DivMod(t, 2048, v);
    Mod32(u);
  }

  /** Whatever the 128 bits are, the text and its NUL fit in 43 bytes. */
  lemma TextFits(d: Bits)
    ensures |Text(d)| < TEXT_SIZE
  {
    hide Digits, Chars, Combination, Exponent, Coefficient;
    if !IsNaN(d) && !IsInfinite(d) {
      SmallExponent(d);
      CoefficientDigits(Coefficient(d));
      var n := |Digits(Coefficient(d))| - 1 + Exponent(d);
      FourDigits(if n < 0 then -n else n);
    }
  }

  lemma FourDigits(n: nat)
    requires n < 10000
    ensures |Digits(n)| <= 4
  {
    assert Pow10(4) == 10000;
    FewDigits(n, 4);
  }
}
