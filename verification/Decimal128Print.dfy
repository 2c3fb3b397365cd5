/** bson_decimal128_to_string and the division it takes its digits from. */
module Decimal128Print {
  import opened CInt
  import opened LittleEndian
  import opened Decimal
  import opened Decimal128

  const BILLION := 1_000_000_000

  /** A 128-bit number as four 32-bit words, highest first. */
  datatype Words = Words(a: uint32, b: uint32, c: uint32, d: uint32)

  function WordsValue(w: Words): nat {
    ((w.a * TWO_32 + w.b) * TWO_32 + w.c) * TWO_32 + w.d
  }

  /** Long division by a billion, a word at a time: quotient and remainder are exact. */
  method Divide1B(value: Words) returns (quotient: Words, rem: nat)
    ensures WordsValue(quotient) * BILLION + rem == WordsValue(value) && rem < BILLION
  {
    hide Joined;
    rem := 0;
    JoinedNone();
    if value.a == 0 && value.b == 0 && value.c == 0 && value.d == 0 {
      return value, 0;
    }
    var words := [value.a, value.b, value.c, value.d];
    var done: seq<uint32> := [];
    var i := 0;
    assert words[..0] == [];
    while i <= 3
      invariant 0 <= i <= 4 && |done| == i && rem < BILLION
      invariant Joined(done) * BILLION + rem == Joined(words[..i])
    {
      var n := rem * TWO_32 + words[i];
      var q := n / BILLION;
      assert n == q * BILLION + n % BILLION && q < TWO_32;
      JoinedSnoc(done, q);
      assert words[..i + 1] == words[..i] + [words[i]];
      JoinedSnoc(words[..i], words[i]);
      Carry(Joined(done), rem, words[i], q, n % BILLION);
      done := done + [q];
      rem := n % BILLION;
      i := i + 1;
    }
    assert words[..4] == words;
    FourWords(words);
    FourWords(done);
    quotient := Words(done[0], done[1], done[2], done[3]);
  }

  function Joined(w: seq<uint32>): nat {
    if w == [] then 0 else Joined(w[..|w| - 1]) * TWO_32 + w[|w| - 1]
  }

  lemma JoinedNone()
    ensures Joined([]) == 0
  {
  }

  lemma JoinedSnoc(w: seq<uint32>, x: uint32)
    ensures Joined(w + [x]) == Joined(w) * TWO_32 + x
  {
    assert (w + [x])[..|w|] == w;
  }

  lemma Carry(j: nat, rem: nat, part: nat, q: nat, r: nat)
    requires rem * TWO_32 + part == q * BILLION + r
    ensures (j * TWO_32 + q) * BILLION + r == (j * BILLION + rem) * TWO_32 + part
  {
  }

  lemma FourWords(w: seq<uint32>)
    requires |w| == 4
    ensures Joined(w) == WordsValue(Words(w[0], w[1], w[2], w[3]))
  {
    assert w == [] + [w[0]] + [w[1]] + [w[2]] + [w[3]];
    JoinedSnoc([], w[0]);
    JoinedSnoc([] + [w[0]], w[1]);
    JoinedSnoc([] + [w[0]] + [w[1]], w[2]);
    JoinedSnoc([] + [w[0]] + [w[1]] + [w[2]], w[3]);
  }

  /** The last n decimal digits of a number, written into d from the end of the n places before `end`. */
  method PutDigits(d: array<digit>, start: nat, n: nat, value: nat)
    requires start + n <= d.Length && value < Pow10(n)
    modifies d
    ensures Num(d[start..start + n]) == value
    ensures d[..start] == old(d[..start]) && d[start + n..] == old(d[start + n..])
  {
    hide Num, Pow10;
    var rest: nat := value;
    var j := n;
    PutStart(d[start + n..start + n], value);
    while j > 0
      invariant 0 <= j <= n && rest < Pow10(j)
      invariant rest * Pow10(n - j) + Num(d[start + j..start + n]) == value
      invariant d[..start] == old(d[..start]) && d[start + n..] == old(d[start + n..])
    {
      j := j - 1;
      ghost var tail := d[start + j + 1..start + n];
      d[start + j] := rest % 10;
      assert d[start + j..start + n] == [rest % 10] + tail;
      PutStep(rest, j, tail);
      rest := rest / 10;
    }
    PutEnd(rest, Pow10(n));
  }

  lemma PutStart(none: seq<digit>, value: nat)
    requires none == []
    ensures value * Pow10(0) + Num(none) == value
  {
  }

  lemma PutStep(rest: nat, j: nat, tail: seq<digit>)
    requires rest < Pow10(j + 1)
    ensures rest / 10 < Pow10(j)
    ensures rest / 10 * Pow10(|tail| + 1) + Num([rest % 10] + tail) == rest * Pow10(|tail|) + Num(tail)
  {
    NumSplit([rest % 10], tail);
    assert [rest % 10][..0] == [];
    Quotient(rest, Pow10(|tail|), Num(tail));
  }

  lemma PutEnd(rest: nat, p: nat)
    requires rest < Pow10(0)
    ensures rest == 0 && rest * p == 0
  {
  }

  lemma Quotient(rest: nat, p: nat, tail: nat)
    ensures rest * p + tail == rest / 10 * (10 * p) + (rest % 10 * p + tail)
  {
    assert rest == rest / 10 * 10 + rest % 10;
    QuotientParts(rest / 10, rest % 10, p);
  }

  lemma QuotientParts(q: nat, r: nat, p: nat)
    ensures (q * 10 + r) * p == q * (10 * p) + r * p
  {
  }

  /** The 36 decimal digits of a coefficient, nine at a time. */
  method SignificandDigits(value: Words) returns (d: array<digit>)
    requires WordsValue(value) < TWO_113
    ensures fresh(d) && d.Length == 36 && Num(d[..]) == WordsValue(value)
  {
    hide Num, Pow10, WordsValue;
    d := new digit[36](_ => 0);
    var rest := value;
    var k := 4;
    PutStart(d[36..], WordsValue(rest));
    while k > 0
      invariant 0 <= k <= 4 && WordsValue(rest) * Pow10(36 - 9 * k) + Num(d[9 * k..]) == WordsValue(value)
      invariant forall i :: 0 <= i < 9 * k ==> d[i] == 0
    {
      k := k - 1;
      var least;
      ghost var was, tail := WordsValue(rest), d[9 * (k + 1)..];
      rest, least := Divide1B(rest);
      NineDigits(k);
      if least != 0 {
        PutDigits(d, 9 * k, 9, least);
        assert d[9 * k + 9..] == tail;
        forall i | 0 <= i < 9 * k ensures d[i] == 0 { assert d[i] == d[..9 * k][i]; }
      } else {
        ghost var part := d[9 * k..9 * k + 9];
        forall i | 0 <= i < 9 ensures part[i] == 0 { assert part[i] == d[9 * k + i]; }
        NoDigits(part);
      }
      TwoParts(d, 9 * k, 9 * k + 9);
      NumSplit(d[9 * k..9 * k + 9], tail);
      Regroup(WordsValue(rest), BILLION, least, Pow10(|tail|));
    }
    assert d[9 * k..] == d[..];
    Exhausted(WordsValue(rest), Num(d[..]), WordsValue(value));
  }

  lemma TwoParts(d: array<digit>, i: nat, m: nat)
    requires i <= m <= d.Length
    ensures d[i..] == d[i..m] + d[m..]
  {
    var (whole, joined) := (d[i..], d[i..m] + d[m..]);
    assert |whole| == d.Length - i == |joined|;
    forall j | 0 <= j < |whole| ensures whole[j] == joined[j] {
      assert whole[j] == d[i + j];
      if j < m - i { assert joined[j] == d[i..m][j]; } else { assert joined[j] == d[m..][j - (m - i)]; }
    }
  }

  lemma NineDigits(k: nat)
    requires k < 4
    ensures Pow10(9) == BILLION && Pow10(36 - 9 * k) == BILLION * Pow10(36 - 9 * (k + 1))
  {
    PowTable();
    PowSplit(9, 36 - 9 * (k + 1));
  }

  lemma NoDigits(d: seq<digit>)
    requires forall i :: 0 <= i < |d| ==> d[i] == 0
    ensures Num(d) == 0
  {
    NumZeros(|d|);
    assert d == Zeros(|d|);
  }

  lemma Regroup(q: nat, b: nat, r: nat, p: nat)
    ensures (q * b + r) * p == q * (b * p) + r * p
  {
  }

  lemma Exhausted(q: nat, digits: nat, value: nat)
    requires q * Pow10(36) + digits == value < TWO_113
    ensures q == 0 && digits == value
  {
    hide Pow10;
    TwoMoreDigits();
    Multiple(q, Pow10(36));
  }

  lemma TwoMoreDigits()
    ensures TWO_113 < Pow10(36)
  {
    hide Pow10;
    CoefficientFits();
    OneMoreDigit(35);
  }

  lemma OneMoreDigit(n: nat)
    ensures Pow10(n + 1) == 10 * Pow10(n)
  {
  }

  // ---------------------------------------------------------------------------------------------------------
  // Taking the fields apart
  // ---------------------------------------------------------------------------------------------------------

  /** The high 32 bits hold the fields the 64-bit word does. */
  lemma HighWord(high: word)
    ensures var h := high / TWO_32;
            && h / 0x400_0000 % 32 == high / TWO_58 % 32
            && h / 0x8000 % 0x4000 == high / TWO_47 % 0x4000 && h / 0x2_0000 % 0x4000 == high / TWO_49 % 0x4000
            && h / 0x4000 == high / TWO_46
            && high % TWO_46 == h % 0x4000 * TWO_32 + high % TWO_32
  {
    HighShift(high, 0x400_0000, TWO_58);
    HighShift(high, 0x8000, TWO_47);
    HighShift(high, 0x2_0000, TWO_49);
    HighShift(high, 0x4000, TWO_46);
    var (h, l) := (high / TWO_32, high % TWO_32);
    var (q, r) := (h / 0x4000, h % 0x4000);
    assert high == q * TWO_46 + (r * TWO_32 + l);
    DivMod(q, TWO_46, r * TWO_32 + l);
  }

  lemma HighShift(high: nat, k: nat, m: nat)
    requires m == k * TWO_32 && k > 0
    ensures high / TWO_32 / k == high / m
  {
    var (h, l) := (high / TWO_32, high % TWO_32);
    var (q, r) := (h / k, h % k);
    assert h == q * k + r && high == h * TWO_32 + l;
    ShiftParts(q, k, r, l);
    DivMod(q, m, r * TWO_32 + l);
  }

  lemma ShiftParts(q: nat, k: nat, r: nat, l: nat)
    requires r < k && l < TWO_32
    ensures (q * k + r) * TWO_32 + l == q * (k * TWO_32) + (r * TWO_32 + l) && r * TWO_32 + l < k * TWO_32
  {
  }

  /** The exponent and the coefficient words of a finite value. */
  method Unpack(dec: Bits) returns (combination: nat, exponent: int, value: Words)
    ensures combination == Combination(dec)
    ensures !IsNaN(dec) && !IsInfinite(dec) ==> exponent == Exponent(dec) && WordsValue(value) == Stored(dec)
  {
    var low, midl, midh, high := dec.low % TWO_32, dec.low / TWO_32, dec.high % TWO_32, dec.high / TWO_32;
    HighWord(dec.high);
    combination := high / 0x400_0000 % 32;
    var biased, top;
    if combination / 8 == 3 {
      biased, top := high / 0x8000 % 0x4000, 8 + high / 0x4000 % 2;
    } else {
      biased, top := high / 0x2_0000 % 0x4000, high / 0x4000 % 8;
    }
    exponent := biased - EXPONENT_BIAS;
    value := Words(high % 0x4000 + top * 0x4000, midh, midl, low);
    StoredWords(top, high % 0x4000, midh, midl, low);
  }

  lemma StoredWords(top: nat, h: nat, midh: nat, midl: nat, low: nat)
    requires midl < TWO_32 && low < TWO_32
    ensures (((h + top * 0x4000) * TWO_32 + midh) * TWO_32 + midl) * TWO_32 + low
         == (top * TWO_46 + (h * TWO_32 + midh)) * TWO_64 + (midl * TWO_32 + low)
  {
  }

  /** The digits of the coefficient, from the first nonzero one; a single zero for none. */
  method CoefficientDigitsFrom(value: Words, ghost dec: Bits) returns (d: array<digit>, first: nat, count: nat)
    requires WordsValue(value) == Stored(dec)
    ensures fresh(d) && d.Length == 36 && first + count <= 36 && d[first..first + count] == Digits(Coefficient(dec))
  {
    hide Digits, Num, Stored;
    if (value.a == 0 && value.b == 0 && value.c == 0 && value.d == 0) || value.a >= 0x2_0000 {
      d := new digit[36](_ => 0);
      ZeroCoefficient(value, dec);
      assert d[0..1] == [0];
      return d, 0, 1;
    }
    SmallCoefficient(value, dec);
    d := SignificandDigits(value);
    first, count := 0, 36;
    ghost var all := d[..];
    assert d[0..] == all;
    while d[first] == 0
      invariant first + count == 36 && count > 0 && d[..] == all && Num(d[first..]) == Num(all) > 0
      decreases count
    {
      DropZero(d[first..]);
      assert d[first..][1..] == d[first + 1..];
      first, count := first + 1, count - 1;
    }
    DigitsNum(d[first..]);
    assert d[first..first + count] == d[first..];
  }

  lemma DropZero(d: seq<digit>)
    requires d != [] && d[0] == 0
    ensures Num(d[1..]) == Num(d) && (Num(d) > 0 ==> |d| > 1)
  {
    assert d == Zeros(1) + d[1..];
    LeadingZeros(1, d[1..]);
    if |d| == 1 { assert d[1..] == []; }
  }

  lemma ZeroCoefficient(value: Words, dec: Bits)
    requires WordsValue(value) == Stored(dec)
    requires (value.a == 0 && value.b == 0 && value.c == 0 && value.d == 0) || value.a >= 0x2_0000
    ensures Coefficient(dec) == 0 && Digits(0) == [0]
  {
    hide Stored;
  }

  lemma SmallCoefficient(value: Words, dec: Bits)
    requires WordsValue(value) == Stored(dec) && value.a < 0x2_0000
    ensures WordsValue(value) < TWO_113 && Coefficient(dec) == WordsValue(value)
    ensures value.a != 0 || value.b != 0 || value.c != 0 || value.d != 0 ==> WordsValue(value) > 0
  {
    hide Stored;
  }

  // ---------------------------------------------------------------------------------------------------------
  // Writing the text
  // ---------------------------------------------------------------------------------------------------------

  /** Writes digits until there are none left or the output has reached the limit. */
  method WriteDigits(str: array<byte>, at: nat, d: array<digit>, first: nat, n: nat, limit: nat) returns (out: nat)
    requires limit <= str.Length && at <= str.Length && first + n <= d.Length
    modifies str
    ensures var m := if at + n <= limit then n else if at <= limit then limit - at else 0;
            out == at + m && str[..out] == old(str[..at]) + Chars(d[first..first + m])
  {
    hide Chars;
    out := at;
    var i := 0;
    CharsNone(d[first..first]);
    while i < n && out < limit
      invariant 0 <= i <= n && out == at + i <= str.Length
      invariant i > 0 ==> out <= limit
      invariant str[..out] == old(str[..at]) + Chars(d[first..first + i])
    {
      str[out] := 48 + d[first + i] as int;
      CharsSnoc(d[first..first + i], d[first + i]);
      assert d[first..first + i + 1] == d[first..first + i] + [d[first + i]];
      assert str[..out + 1] == str[..out] + [48 + d[first + i] as int];
      out, i := out + 1, i + 1;
    }
  }

  lemma CharsNone(d: seq<digit>)
    requires d == []
    ensures Chars(d) == []
  {
  }

  lemma CharsSnoc(d: seq<digit>, x: digit)
    ensures Chars(d + [x]) == Chars(d) + [48 + x as int]
  {
  }

  /** Writes a fixed text. */
  method WriteText(str: array<byte>, at: nat, text: bytes) returns (out: nat)
    requires at + |text| <= str.Length
    modifies str
    ensures out == at + |text| && str[..out] == old(str[..at]) + text
  {
    out := at;
    while out < at + |text|
      invariant at <= out <= at + |text| && str[..out] == old(str[..at]) + text[..out - at]
    {
      str[out] := text[out - at];
      assert text[..out + 1 - at] == text[..out - at] + [text[out - at]];
      out := out + 1;
    }
    assert text[..|text|] == text;
  }

  lemma Joined3(a: bytes, b: bytes, c: bytes)
    ensures a + (b + c) == a + b + c
  {
  }

  lemma CutJoined(a: bytes, b: bytes, m: nat)
    requires m <= |b|
    ensures (a + b)[..|a| + m] == a + b[..m]
  {
    var (l, r) := ((a + b)[..|a| + m], a + b[..m]);
    assert |l| == |r|;
    forall i | 0 <= i < |l| ensures l[i] == r[i] {
      assert l[i] == (a + b)[i];
    }
  }

  /** A part of the digits is a part of the array. */
  lemma PartOf(d: array<digit>, first: nat, count: nat, i: nat, j: nat)
    requires i <= j <= count && first + count <= d.Length
    ensures var digits := d[first..first + count];
            d[first + i..first + j] == digits[i..j] && digits[..j] == digits[0..j] && digits[i..count] == digits[i..]
  {
    var (digits, part) := (d[first..first + count], d[first + i..first + j]);
    assert |part| == j - i == |digits[i..j]|;
    forall k | 0 <= k < j - i ensures part[k] == digits[i..j][k] {
      assert part[k] == d[first + i + k] == digits[i + k];
    }
  }

  /** The first digit and, if more follow, the point. */
  method WriteLeadingDigit(str: array<byte>, sign: bytes, d: array<digit>, first: nat, count: nat) returns (out: nat)
    requires str.Length >= TEXT_SIZE && |sign| <= 1 && str[..|sign|] == sign && first + count <= d.Length && 1 <= count
    modifies str
    ensures out <= 3 && str[..out] == sign + Chars(d[first..first + count][..1]) + if count > 1 then [POINT] else []
  {
    hide Chars;
    out := WriteDigits(str, |sign|, d, first, 1, str.Length);
    PartOf(d, first, count, 0, 1);
    if count > 1 {
      out := WriteText(str, out, [POINT]);
    }
  }

  method WriteScientific(str: array<byte>, sign: bytes, d: array<digit>, first: nat, count: nat, exponent: int) returns (n: nat)
    requires str.Length >= TEXT_SIZE && |sign| <= 1 && str[..|sign|] == sign
    requires first + count <= d.Length && 1 <= count <= 35 && |SignedDecimal(count - 1 + exponent)| <= 5
    modifies str
    ensures n == |ScientificText(sign, d[first..first + count], exponent)| < TEXT_SIZE
    ensures str[..n] == ScientificText(sign, d[first..first + count], exponent) && str[n] == 0
  {
    hide Chars, SignedDecimal;
    ghost var digits := d[first..first + count];
    var out := WriteLeadingDigit(str, sign, d, first, count);
    ghost var head := str[..out];
    out := WriteDigits(str, out, d, first + 1, count - 1, 36);
    ghost var last := if count - 1 <= 36 - |head| then count else 1 + (36 - |head|);
    PartOf(d, first, count, 1, last);
    out := WriteText(str, out, [69] + SignedDecimal(count - 1 + exponent));
    Joined3(head + Chars(digits[1..last]), [69], SignedDecimal(count - 1 + exponent));
    str[out] := 0;
    return out;
  }

  method WritePlain(str: array<byte>, sign: bytes, d: array<digit>, first: nat, count: nat, exponent: int) returns (n: nat)
    requires str.Length >= TEXT_SIZE && |sign| <= 1 && str[..|sign|] == sign
    requires first + count <= d.Length && 1 <= count <= 35 && exponent <= 0 && count - 1 + exponent >= -6
    modifies str
    ensures n == |PlainText(sign, d[first..first + count], exponent)| < TEXT_SIZE
    ensures str[..n] == PlainText(sign, d[first..first + count], exponent) && str[n] == 0
  {
    hide Chars;
    ghost var digits := d[first..first + count];
    var out := |sign|;
    if exponent >= 0 {
      out := WriteDigits(str, out, d, first, count, 36);
      str[out] := 0;
      return out;
    }
    var radix := count + exponent;
    if radix > 0 {
      out := WriteAround(str, out, d, first, count, radix);
    } else {
      out := WriteBehind(str, out, d, first, count, -radix);
    }
    str[out] := 0;
    return out;
  }

  /** Digits on both sides of the point. */
  method WriteAround(str: array<byte>, at: nat, d: array<digit>, first: nat, count: nat, radix: nat) returns (out: nat)
    requires str.Length >= TEXT_SIZE && at <= 1 && first + count <= d.Length && 1 <= radix <= count <= 35
    modifies str
    ensures out == at + count + 1
    ensures var digits := d[first..first + count];
            str[..out] == old(str[..at]) + Chars(digits[..radix]) + [POINT] + Chars(digits[radix..])
  {
    hide Chars;
    ghost var digits := d[first..first + count];
    PartOf(d, first, count, 0, radix);
    PartOf(d, first, count, radix, count);
    out := WriteDigits(str, at, d, first, radix, TEXT_SIZE - 1);
    out := WriteText(str, out, [POINT]);
    out := WriteDigits(str, out, d, first + radix, count - radix, TEXT_SIZE - 1);
  }

  /** All digits behind the point and some zeros, as far as there is room. */
  method WriteBehind(str: array<byte>, at: nat, d: array<digit>, first: nat, count: nat, zeros: nat) returns (out: nat)
    requires str.Length >= TEXT_SIZE && at <= 1 && first + count <= d.Length && count <= 35 && zeros <= 6
    modifies str
    ensures out < TEXT_SIZE
    ensures var all := old(str[..at]) + [48, POINT] + Chars(Zeros(zeros)) + Chars(d[first..first + count]);
            str[..out] == if |all| < TEXT_SIZE then all else all[..TEXT_SIZE - 1]
  {
    hide Chars;
    ghost var digits := d[first..first + count];
    out := WriteText(str, at, [48, POINT]);
    out := WriteZeros(str, out, zeros);
    ghost var head := str[..out];
    ghost var m := if |head| + count < TEXT_SIZE then count else TEXT_SIZE - 1 - |head|;
    PartOf(d, first, count, 0, m);
    CharsPrefix(digits, m);
    out := WriteDigits(str, out, d, first, count, TEXT_SIZE - 1);
    CutJoined(head, Chars(digits), m);
  }

  /** The zeros between the point and the first digit. */
  method WriteZeros(str: array<byte>, at: nat, n: nat) returns (out: nat)
    requires at + n < str.Length
    modifies str
    ensures out == at + n && str[..out] == old(str[..at]) + Chars(Zeros(n))
  {
    out := at;
    var radix := -(n as int);
    while radix < 0
      invariant -(n as int) <= radix <= 0 && out == at + n + radix
      invariant str[..out] == old(str[..at]) + Chars(Zeros(n + radix))
    {
      str[out] := 48;
      assert Chars(Zeros(n + radix + 1)) == Chars(Zeros(n + radix)) + [48];
      out, radix := out + 1, radix + 1;
    }
  }

  lemma CharsPrefix(d: seq<digit>, m: nat)
    requires m <= |d|
    ensures Chars(d)[..m] == Chars(d[..m])
  {
  }

  method ToString(dec: Bits, str: array<byte>) returns (n: nat)
    requires str.Length >= TEXT_SIZE
    modifies str
    ensures n == |Text(dec)| < TEXT_SIZE && str[..n] == Text(dec) && str[n] == 0
  {
    hide Chars, Combination, Exponent, Stored, Coefficient, Digits, ScientificText, PlainText, SignedDecimal;
    var sign: bytes := [];
    if dec.high >= TWO_63 {
      sign := [MINUS];
      str[0] := MINUS;
    }
    assert str[..|sign|] == sign;
    var combination, exponent, value := Unpack(dec);
    if combination / 8 == 3 && combination == 30 {
      n := WriteText(str, |sign|, INFINITY_TEXT);
      str[n] := 0;
      return;
    } else if combination / 8 == 3 && combination == 31 {
      n := WriteText(str, 0, NAN_TEXT);
      str[n] := 0;
      return;
    }
    var d, first, count := CoefficientDigitsFrom(value, dec);
    CoefficientDigits(Coefficient(dec));
    SmallExponent(dec);
    if count - 1 + exponent < -6 || exponent > 0 {
      ShortExponentText(count - 1 + exponent);
      n := WriteScientific(str, sign, d, first, count, exponent);
    } else {
      n := WritePlain(str, sign, d, first, count, exponent);
    }
  }

  lemma ShortExponentText(n: int)
    requires -10000 < n < 10000
    ensures |SignedDecimal(n)| <= 5
  {
    hide Digits;
    FourDigits(if n < 0 then -n else n);
  }
}
