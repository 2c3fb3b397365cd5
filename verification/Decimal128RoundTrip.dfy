/** Printing a Decimal128 and parsing the text, and what the parser's accepted numbers are worth. */
module Decimal128RoundTrip {
  import opened CInt
  import opened LittleEndian
  import opened Decimal
  import opened Decimal128
  import opened Decimal128Scan
  import opened JsonText
  import opened Decimal128Parse
  import Printer = Decimal128Print
  import Grammar = Decimal128Grammar

  // ---------------------------------------------------------------------------------------------------------
  // Reading what was written
  // ---------------------------------------------------------------------------------------------------------

  /** A numeral as the printer writes it: digits, perhaps a point and more digits, perhaps an exponent. */
  datatype Written = Written(negative: bool, whole: seq<digit>, point: bool, fraction: seq<digit>, exponent: Option<int>) {
    ghost predicate Valid() {
      whole != [] && (!point ==> fraction == []) && (exponent.Some? ==> INT_MIN <= exponent.value <= INT_MAX)
    }

    function Head(): bytes {
      (if negative then [MINUS] else []) + Chars(whole) + (if point then [POINT] else []) + Chars(fraction)
    }

    function Tail(): bytes {
      if exponent.Some? then [69] + SignedDecimal(exponent.value) else []
    }

    function Numeral(): (n: Numeral)
      ensures n.after <= |n.digits|
    {
      Decimal128Scan.Numeral(whole + fraction, |fraction|, point, |Head()|)
    }

    function Power(): int {
      if exponent.Some? then exponent.value else 0
    }
  }

  /** The spelling of a written numeral. */
  function Spelled(w: Written): Grammar.Spelling {
    Grammar.Spelling(
      if w.negative then Grammar.Minus else Grammar.Unsigned, w.whole, w.point, w.fraction,
      if w.exponent == None then None else Some(SignedExponent(w.exponent.value)))
  }

  lemma TailSpelled(w: Written)
    requires w.Valid()
    ensures Spelled(w).Tail() == w.Tail()
    ensures w.exponent.Some? ==> Spelled(w).exponent.value.Valid() && Spelled(w).exponent.value.Value() == w.exponent.value
  {
    hide Chars, Digits, Num, Grammar.Exponent.Value, Grammar.Exponent.Text;
    if w.exponent.Some? {
      ExponentText(w.exponent.value);
      ExponentValue(w.exponent.value);
    }
  }

  /** The exponent of a numeral as the printer writes it. */
  function SignedExponent(k: int): Grammar.Exponent {
    Grammar.Exponent(true, [], if k < 0 then Grammar.Minus else Grammar.Plus, Digits(if k < 0 then -k else k))
  }

  lemma ExponentText(k: int)
    ensures SignedExponent(k).Text() == [69] + SignedDecimal(k)
  {
    hide Chars, Digits;
  }

  lemma ExponentValue(k: int)
    ensures SignedExponent(k).Value() == k
  {
    hide Num, Digits;
    NumDigits(if k < 0 then -k else k);
  }

  lemma HeadSpelled(w: Written)
    ensures Spelled(w).Head() == w.Head()
  {
    hide Chars, Digits, Num;
  }

  lemma WrittenSpelled(w: Written)
    requires w.Valid()
    ensures Spelled(w).Valid() && Spelled(w).Text() == w.Head() + w.Tail()
    ensures Spelled(w).Number() == Number(w.negative, w.Numeral(), w.Power())
  {
    hide Chars, Digits, Num, Written.Head, Written.Tail, Grammar.Spelling.Head, Grammar.Spelling.Tail, Grammar.Exponent.Value,
      Grammar.Exponent.Valid;
    TailSpelled(w);
    HeadSpelled(w);
  }

  /** The parser reads a written numeral as the number it was written from. */
  lemma WrittenParses(w: Written)
    requires w.Valid()
    ensures Parse(w.Head() + w.Tail()) == Number(w.negative, w.Numeral(), w.Power())
  {
    hide Parse, Written.Head, Written.Tail;
    WrittenSpelled(w);
    Grammar.SpellingParses(Spelled(w));
  }

  // ---------------------------------------------------------------------------------------------------------
  // The printed text is a written numeral
  // ---------------------------------------------------------------------------------------------------------

  function ScientificForm(negative: bool, d: seq<digit>, e: int): Written
    requires d != []
  {
    Written(negative, d[..1], |d| > 1, d[1..], Some(|d| - 1 + e))
  }

  function PlainForm(negative: bool, d: seq<digit>, e: int): Written
    requires d != [] && e <= 0
  {
    var r := |d| + e;
    if e == 0 then Written(negative, d, false, [], None)
    else if r > 0 then Written(negative, d[..r], true, d[r..], None)
    else Written(negative, [0], true, Zeros(-r) + d, None)
  }

  function Form(negative: bool, d: seq<digit>, e: int): Written
    requires d != []
  {
    if |d| - 1 + e < -6 || e > 0 then ScientificForm(negative, d, e) else PlainForm(negative, d, e)
  }

  lemma NoChars()
    ensures Chars([]) == []
  {
  }

  lemma CharsJoin(a: seq<digit>, b: seq<digit>)
    ensures Chars(a + b) == Chars(a) + Chars(b)
  {
  }

  lemma ZeroChar()
    ensures Chars([0]) == [48]
  {
  }

  lemma FormIsText(negative: bool, d: seq<digit>, e: int)
    requires 1 <= |d| <= MAX_DIGITS
    ensures var w := Form(negative, d, e);
            w.Head() + w.Tail() == FiniteText(if negative then [MINUS] else [], d, e)
  {
    hide SignedDecimal, Chars, Zeros;
    NoChars();
    var sign := if negative then [MINUS] else [];
    var w := Form(negative, d, e);
    if |d| - 1 + e < -6 || e > 0 {
      assert d[1..|d|] == d[1..];
      assert w.Head() + w.Tail() == ScientificText(sign, d, e);
    } else if e == 0 {
      assert w.Head() + w.Tail() == sign + Chars(d);
    } else if |d| + e > 0 {
      assert w.Head() + w.Tail() == PlainText(sign, d, e);
    } else {
      CharsJoin(Zeros(-(|d| + e)), d);
      ZeroChar();
      assert w.Head() + w.Tail() == sign + [48, POINT] + Chars(Zeros(-(|d| + e))) + Chars(d);
    }
  }

  /** The written digits are worth as much as the printed ones, and their last one has the printed exponent. */
  lemma FormIsNumber(negative: bool, d: seq<digit>, e: int)
    requires 1 <= |d| <= MAX_DIGITS && EXPONENT_MIN <= e <= EXPONENT_MAX
    ensures var w := Form(negative, d, e);
            && w.Valid() && Num(w.whole + w.fraction) == Num(d)
            && LastExponent(w.Power(), |w.fraction|) == e && w.negative == negative
  {
    hide Num, Zeros;
    FormDigits(negative, d, e);
    if |d| + e <= 0 {
      LeadingZeros(1 - (|d| + e), d);
    }
  }

  lemma FormDigits(negative: bool, d: seq<digit>, e: int)
    requires d != []
    ensures var w := Form(negative, d, e);
            w.whole + w.fraction == if e < 0 && |d| - 1 + e >= -6 && |d| + e <= 0 then Zeros(1 - (|d| + e)) + d else d
  {
  }

  lemma SignificandIs(d: seq<digit>, c: nat)
    requires Num(d) == c
    ensures Significand(d) == if c == 0 then [] else Digits(c)
  {
    hide Leading, Digits;
    var s := Significand(d);
    NumSignificand(d);
    if s != [] {
      NumLower(s);
      DigitsNum(s);
    }
  }

  // ---------------------------------------------------------------------------------------------------------
  // The round trip
  // ---------------------------------------------------------------------------------------------------------

  /** The parser's own encodings: numbers with a coefficient of at most 34 digits, the two infinities, one NaN. */
  predicate FixedBits(d: Bits) {
    Canonical(d) || d == InfinityBits(false) || d == InfinityBits(true) || d == NAN_BITS
  }

  lemma FiniteReturns(d: Bits, ok: bool, back: Bits)
    requires Canonical(d) && Converted(Parse(Text(d)), ok, back)
    ensures ok && back == d
  {
    hide Parse, Significand, Num, Pow10, Digits, Stored, Negative, Exponent, Combination, FiniteText, Form, Pack, LastExponent;
    var (c, e, negative) := (Stored(d), Exponent(d), Negative(d));
    CoefficientFits();
    CoefficientDigits(c);
    PackUnpacked(d);
    var w := Form(negative, Digits(c), e);
    FormIsText(negative, Digits(c), e);
    FormIsNumber(negative, Digits(c), e);
    NumDigits(c);
    WrittenParses(w);
    SignificandIs(w.Numeral().digits, c);
    PackUnpacked(back);
  }

  lemma SpecialReturns(negative: bool)
    ensures Parse(Text(InfinityBits(negative))) == Infinity(negative) && Parse(Text(NAN_BITS)) == NotANumber
  {
    var d := InfinityBits(negative);
    assert IsInfinite(d) && Negative(d) == negative;
    var text := Text(d);
    assert text[StartOf(text)..] == INFINITY_TEXT;
    SpecialLetters();
    assert IsNaN(NAN_BITS) && Text(NAN_BITS)[0..] == NAN_TEXT;
  }

  /** Infinity and NaN are printed in the letters the parser looks for, but for their case. */
  lemma SpecialLetters()
    ensures SameLetters(INFINITY_TEXT, INFINITY) && SameLetters(NAN_TEXT, NAN)
    ensures !SameLetters(INFINITY_TEXT, NAN) && !SameLetters(NAN_TEXT, INF) && !SameLetters(NAN_TEXT, INFINITY)
  {
    var (a, b) := (INFINITY_TEXT, INFINITY);
    assert |a| == 8 == |b| && |NAN_TEXT| == 3 == |NAN| && |INF| == 3 && NAN_TEXT[0] == 78;
    assert Lower(a[0]) == b[0] && Lower(a[1]) == b[1] && Lower(a[2]) == b[2] && Lower(a[3]) == b[3];
    assert Lower(a[4]) == b[4] && Lower(a[5]) == b[5] && Lower(a[6]) == b[6] && Lower(a[7]) == b[7];
    assert Lower(NAN_TEXT[0]) == NAN[0] && Lower(NAN_TEXT[1]) == NAN[1] && Lower(NAN_TEXT[2]) == NAN[2];
  }

  /**
   * Parsing the printed text gives back the same 128 bits exactly for canonical numbers, zeros of every exponent
   * among them, for the two infinities, and for the one NaN the parser knows.
   */
  lemma RoundTrip(d: Bits, ok: bool, back: Bits)
    requires Converted(Parse(Text(d)), ok, back)
    ensures ok && back == d <==> FixedBits(d)
  {
    hide Parse, Text, Stores, Canonical;
    if d == InfinityBits(false) || d == InfinityBits(true) || d == NAN_BITS {
      SpecialReturns(d == InfinityBits(true));
    } else if Canonical(d) {
      FiniteReturns(d, ok, back);
    } else if ok {
      ParsedIsFixed(Parse(Text(d)), back);
    }
  }

  lemma ParsedIsFixed(p: Parsed, dec: Bits)
    requires Converted(p, true, dec)
    ensures FixedBits(dec)
  {
    hide Significand, LastExponent, Exact, Canonical;
  }

  method PrintAndParse(d: Bits) returns (ok: bool, back: Bits)
    ensures FixedBits(d) <==> ok && back == d
  {
    hide Parse, Text, Converted, FixedBits;
    var str := new byte[TEXT_SIZE](_ => 0);
    var n := Printer.ToString(d, str);
    TextIsAscii(d);
    ok, back := FromString(str[..n]);
    RoundTrip(d, ok, back);
  }

  predicate PlainAscii(s: bytes) {
    forall i :: 0 <= i < |s| ==> 0 < s[i] < 128
  }

  /** The printed text is ASCII and holds no NUL of its own, so it is a C string and valid UTF-8. */
  lemma TextIsAscii(d: Bits)
    ensures PlainAscii(Text(d))
  {
    hide Digits, Combination, Exponent, Coefficient, Chars, SignedDecimal, ScientificText, PlainText;
    if !IsNaN(d) && !IsInfinite(d) {
      CoefficientDigits(Coefficient(d));
      FiniteIsAscii(Sign(d), Digits(Coefficient(d)), Exponent(d));
    }
  }

  lemma FiniteIsAscii(sign: bytes, d: seq<digit>, e: int)
    requires 1 <= |d| <= 35 && |sign| <= 1 && PlainAscii(sign)
    ensures PlainAscii(FiniteText(sign, d, e))
  {
    hide Digits, Chars, Zeros, SignedDecimal, PlainAscii;
    AsciiLiterals();
    forall a: seq<digit> ensures PlainAscii(Chars(a)) { CharsAscii(a); }
    forall a: bytes, b: bytes | PlainAscii(a) && PlainAscii(b) ensures PlainAscii(a + b) { AsciiJoin(a, b); }
    forall a: bytes, n: nat | n <= |a| && PlainAscii(a) ensures PlainAscii(a[..n]) { AsciiPrefix(a, n); }
    forall k: int ensures PlainAscii(SignedDecimal(k)) { SignedAscii(k); }
  }

  lemma AsciiLiterals()
    ensures PlainAscii([]) && PlainAscii([POINT]) && PlainAscii([69]) && PlainAscii([48, POINT])
  {
  }

  lemma AsciiJoin(a: bytes, b: bytes)
    requires PlainAscii(a) && PlainAscii(b)
    ensures PlainAscii(a + b)
  {
  }

  lemma AsciiPrefix(a: bytes, n: nat)
    requires n <= |a| && PlainAscii(a)
    ensures PlainAscii(a[..n])
  {
  }

  lemma SignedAscii(k: int)
    ensures PlainAscii(SignedDecimal(k))
  {
    hide Digits;
  }

  lemma CharsAscii(d: seq<digit>)
    ensures PlainAscii(Chars(d))
  {
  }

  // ---------------------------------------------------------------------------------------------------------
  // Exactness
  // ---------------------------------------------------------------------------------------------------------

  /** A number with at most 34 digits between its first and its last nonzero one. */
  predicate FewSignificant(n: Numeral) {
    SignificantCount(Significand(n.digits)) <= MAX_DIGITS
  }

  /**
   * An accepted number is stored exactly if and only if it is zero, or it has at most 34 significant digits and the
   * branch that keeps the exponent from overflowing was not taken.
   */
  lemma AcceptedIsExact(text: bytes, negative: bool, n: Numeral, exponent: int, dec: Bits)
    requires Parse(text) == Number(negative, n, exponent) && Converted(Parse(text), true, dec)
    ensures Negative(dec) == negative
    ensures SameValue(Stored(dec), Exponent(dec), Num(n.digits), exponent - n.after) <==>
            Num(n.digits) == 0 || (FewSignificant(n) && !ExponentLost(exponent, n.after))
  {
    hide Parse, Significand, Num, Pow10, Stored, Negative, Exponent, Combination, SameValue, SignificantCount;
    var v := Num(n.digits);
    var (c, e) := (Stored(dec), Exponent(dec));
    SignificandIs(n.digits, v);
    NumSignificand(n.digits);
    if v == 0 {
      ZeroIsZero(e, exponent - n.after);
    } else if !FewSignificant(n) {
      TooManyDigits(Significand(n.digits), c, e, exponent - n.after);
    } else if ExponentLost(exponent, n.after) {
      TwoExponents(c, e, v, EXPONENT_MIN, exponent - n.after);
    }
  }

  /** More than 34 significant digits make a number that no coefficient of 34 digits stands for, at any exponent. */
  lemma TooManyDigits(d: seq<digit>, c: nat, e: int, y: int)
    requires d != [] && d[0] > 0 && SignificantCount(d) > MAX_DIGITS && c < Pow10(MAX_DIGITS)
    ensures !SameValue(c, e, Num(d), y)
  {
    hide Num, Pow10, SignificantCount;
    var k := SignificantCount(d);
    var t := |d| - k;
    assert d == d[..k] + Zeros(t);
    TrailingZeros(d[..k], t);
    var w := Num(d[..k]);
    NumLower(d[..k]);
    MorePower(MAX_DIGITS, k - 1);
    LastDigit(d[..k]);
    if e >= y {
      NotMultiple(c, e - y, w, t);
    } else {
      Times(w, Pow10(t));
      Times(w * Pow10(t), Pow10(y - e));
    }
  }

  lemma LastDigit(d: seq<digit>)
    requires d != []
    ensures Num(d) % 10 == d[|d| - 1]
  {
    assert d == d[..|d| - 1] + [d[|d| - 1]];
    NumSnoc(d[..|d| - 1], d[|d| - 1]);
  }

  lemma {:induction false} NotMultiple(c: nat, a: nat, w: nat, t: nat)
    requires c < w && w % 10 != 0
    ensures c * Pow10(a) != w * Pow10(t)
    decreases t
  {
    hide Pow10;
    Tenfold(c, a);
    Tenfold(w, t);
    if a == 0 {
      Times(w, Pow10(t));
    } else if t > 0 {
      NotMultiple(c, a - 1, w, t - 1);
    }
  }

  lemma Tenfold(c: nat, a: nat)
    ensures c * Pow10(a) == if a == 0 then c else 10 * (c * Pow10(a - 1))
  {
    if a > 0 { Product(c, 10, Pow10(a - 1)); }
  }

  /** A number that a Decimal128 can stand for. */
  ghost predicate Storable(v: nat, x: int) {
    exists c: nat, e: int :: SameValue(c, e, v, x) && c < Pow10(MAX_DIGITS) && EXPONENT_MIN <= e <= EXPONENT_MAX
  }

  lemma StorableIff(d: seq<digit>, x: int)
    requires d != [] && d[0] > 0
    ensures Storable(Num(d), x) <==> Fitting(d, x)
  {
    hide Num, Pow10, SignificantCount, Fitting;
    if Storable(Num(d), x) {
      var c: nat, e: int :| SameValue(c, e, Num(d), x) && c < Pow10(MAX_DIGITS) && EXPONENT_MIN <= e <= EXPONENT_MAX;
      StoredFits(d, c, e, x);
    }
    if Fitting(d, x) { FittingStorable(d, x); }
  }

  /** The digits up to the last one that is not zero, and the zeros behind. */
  lemma Stripped(d: seq<digit>)
    requires d != [] && d[0] > 0
    ensures var s := SignificantCount(d); s > 0 && Num(d) == Num(d[..s]) * Pow10(|d| - s) && Num(d[..s]) % 10 != 0
  {
    hide Num, Pow10, SignificantCount;
    var s := SignificantCount(d);
    FirstSignificant(d);
    assert d == d[..s] + Zeros(|d| - s);
    TrailingZeros(d[..s], |d| - s);
    LastDigit(d[..s]);
  }

  lemma StoredFits(d: seq<digit>, c: nat, e: int, x: int)
    requires d != [] && d[0] > 0 && SameValue(c, e, Num(d), x) && c < Pow10(MAX_DIGITS)
    requires EXPONENT_MIN <= e <= EXPONENT_MAX
    ensures Fitting(d, x)
  {
    hide Num, Pow10, SignificantCount;
    if SignificantCount(d) > MAX_DIGITS { TooManyDigits(d, c, e, x); }
    Stripped(d);
    NumLower(d);
    var s := SignificantCount(d);
    if e >= x {
      FewerTens(c, e - x, Num(d[..s]), |d| - s);
      NotLonger(c, e - x, |d| - 1);
    } else {
      MoreTens(Num(d), |d| - 1, x - e);
    }
  }

  lemma {:induction false} FewerTens(c: nat, a: nat, w: nat, t: nat)
    requires c * Pow10(a) == w * Pow10(t) && w % 10 != 0
    ensures a <= t
    decreases t
  {
    hide Pow10;
    Tenfold(c, a);
    Tenfold(w, t);
    if a > 0 && t > 0 { FewerTens(c, a - 1, w, t - 1); }
  }

  /** A coefficient of 34 digits with a zeros behind has at most 34 + a digits. */
  lemma NotLonger(c: nat, a: nat, m: nat)
    requires c < Pow10(MAX_DIGITS) && Pow10(m) <= c * Pow10(a)
    ensures m < MAX_DIGITS + a
  {
    hide Pow10;
    if MAX_DIGITS + a <= m {
      MorePower(MAX_DIGITS + a, m);
      PowSplit(MAX_DIGITS, a);
      Smaller(c, Pow10(MAX_DIGITS), Pow10(a));
    }
  }

  lemma Smaller(a: nat, b: nat, p: nat)
    requires a < b && p > 0
    ensures a * p < b * p
  {
  }

  /** A number of more than m digits with a zeros behind has at most 34 digits only if m + a does not reach that. */
  lemma MoreTens(v: nat, m: nat, a: nat)
    requires Pow10(m) <= v && v * Pow10(a) < Pow10(MAX_DIGITS)
    ensures m + a < MAX_DIGITS
  {
    hide Pow10;
    PowSplit(m, a);
    if Pow10(m) < v { Smaller(Pow10(m), v, Pow10(a)); }
    if MAX_DIGITS <= m + a { MorePower(MAX_DIGITS, m + a); }
  }

  /** As many zeros are put behind the significant digits as bring the exponent down into range. */
  lemma FittingStorable(d: seq<digit>, x: int)
    requires d != [] && d[0] > 0 && Fitting(d, x)
    ensures Storable(Num(d), x)
  {
    hide Num, Pow10, SignificantCount;
    Stripped(d);
    var s := SignificantCount(d);
    var (w, top) := (Num(d[..s]), x + (|d| - s));
    var t := if top > EXPONENT_MAX then top - EXPONENT_MAX else 0;
    var (c, e) := (w * Pow10(t), top - t);
    NumBound(d[..s]);
    PowSplit(s, t);
    MorePower(s + t, MAX_DIGITS);
    Smaller(w, Pow10(s), Pow10(t));
    if e >= x {
      PowSplit(t, e - x);
      Product(w, Pow10(t), Pow10(e - x));
    } else {
      PowSplit(|d| - s, x - e);
      Product(w, Pow10(|d| - s), Pow10(x - e));
    }
    assert SameValue(c, e, Num(d), x);
  }

  /**
   * A text is converted to the number it says if and only if that is zero, or can be stored at all and neither its
   * exponent is lost nor, unless that is above the range, the point is in the way or digits are taken for others.
   */
  lemma ConvertsIff(text: bytes, negative: bool, n: Numeral, exponent: int, ok: bool, dec: Bits)
    requires Parse(text) == Number(negative, n, exponent) && Converted(Parse(text), ok, dec)
    ensures var (v, x) := (Num(n.digits), exponent - n.after);
            ok && SameValue(Stored(dec), Exponent(dec), v, x) <==>
            v == 0
            || (Storable(v, x) && !ExponentLost(exponent, n.after)
                && (x > EXPONENT_MAX || (!PointInTheWay(n, x) && ZerosToTheLeft(n))))
  {
    hide Parse, Significand, Num, Pow10, Stored, Negative, Exponent, Combination, SameValue, SignificantCount, Canonical;
    hide Accepts, Fitting, PointInTheWay, ZerosToTheLeft, Storable, Exact;
    var v := Num(n.digits);
    var x := exponent - n.after;
    var d := Significand(n.digits);
    SignificandIs(n.digits, v);
    NumSignificand(n.digits);
    if ok { AcceptedIsExact(text, negative, n, exponent, dec); }
    if v == 0 {
      NothingAccepted(n, LastExponent(exponent, n.after));
    } else {
      StorableIff(d, x);
      if Fitting(d, x) {
        FewFit(d, x);
        AcceptsFitting(n, x);
      } else if ok && FewSignificant(n) && !ExponentLost(exponent, n.after) {
        AcceptedFits(n, x);
      }
    }
  }

  lemma FewFit(d: seq<digit>, x: int)
    requires Fitting(d, x)
    ensures SignificantCount(d) <= MAX_DIGITS
  {
  }

  lemma NothingAccepted(n: Numeral, x: int)
    requires n.after <= |n.digits| && Significand(n.digits) == []
    ensures Accepts(n, x)
  {
  }

  lemma ZeroIsZero(e: int, x: int)
    ensures SameValue(0, e, 0, x)
  {
  }

  /** A nonzero number is the same at one exponent only. */
  lemma TwoExponents(c: nat, e: int, v: nat, x: int, y: int)
    requires SameValue(c, e, v, x) && v > 0 && y < x <= e
    ensures !SameValue(c, e, v, y)
  {
    hide Pow10;
    PowSplit(e - x, x - y);
    Product(c, Pow10(e - x), Pow10(x - y));
    SameCoefficient(v, x, y);
    assert SameValue(v, x, v, y) <==> v * Pow10(x - y) == v;
  }

  lemma Product(a: nat, b: nat, c: nat)
    ensures a * (b * c) == a * b * c
  {
  }

  /** 1E-20000 is nowhere near 1E-6176, but that is what it is stored as. */
  lemma ExponentIsLost(ok: bool, dec: Bits)
    requires Converted(Parse(TINY), ok, dec)
    ensures ok && dec == Pack(false, 1, EXPONENT_MIN)
  {
    hide Parse, Pack, Stored, Negative, Exponent, Combination, SameValue, Canonical, Pow10;
    var w := Written(false, [1], false, [], Some(-20000));
    TinyText();
    WrittenParses(w);
    OneDigitOnly(1);
    PackUnpacked(dec);
  }

  const TINY: bytes := [49, 69, 45, 50, 48, 48, 48, 48] // "1E-20000"

  lemma TinyText()
    ensures var w := Written(false, [1], false, [], Some(-20000)); w.Head() + w.Tail() == TINY
  {
    hide Digits;
    DigitsOfExponents();
    assert SignedDecimal(-20000) == [45, 50, 48, 48, 48, 48];
  }

  lemma DigitsOfExponents()
    ensures Digits(20000) == [2, 0, 0, 0, 0] && Digits(6177) == [6, 1, 7, 7]
  {
    assert Digits(2) == [2] && Digits(20) == [2, 0] && Digits(200) == [2, 0, 0] && Digits(2000) == [2, 0, 0, 0];
    assert Digits(6) == [6] && Digits(61) == [6, 1] && Digits(617) == [6, 1, 7];
  }

  lemma OneDigitOnly(x: digit)
    requires x > 0
    ensures [x] + [] == [x] && Significand([x]) == [x] && Num([x]) == x
  {
    assert [x][..0] == [];
  }

  const LONG: seq<digit> := [0, 1] + Zeros(34) + [5]

  /** The last of these digits is lost: with a zero in front, other digits are looked at than those dropped. */
  lemma DigitIsLost(ok: bool, dec: Bits)
    requires Converted(Parse(Chars(LONG)), ok, dec)
    ensures ok && dec == Pack(false, Pow10(33), 2) && !SameValue(Pow10(33), 2, Num(LONG), 0)
  {
    hide Parse, Pack, Stored, Negative, Exponent, Combination, SameValue, Canonical, Pow10, Num, Leading, Chars, SignificantCount;
    var w := Written(false, LONG, false, [], None);
    assert w.Head() + w.Tail() == Chars(LONG) by { assert Chars([]) == [] by { NoChars(); } }
    WrittenParses(w);
    assert LONG + [] == LONG;
    LongDigits();
    AcceptsLong(w.Numeral());
    TooManyDigits(Significand(LONG), Pow10(33), 2, 0);
    NumSignificand(LONG);
    PackUnpacked(dec);
  }

  lemma LongDigits()
    ensures Leading(LONG) == 1 && Significand(LONG) == [1] + Zeros(34) + [5] && SignificantCount(Significand(LONG)) == 36
    ensures Num(Significand(LONG)[..34]) == Pow10(33) < Pow10(MAX_DIGITS)
  {
    hide Pow10, Num, SignificantCount;
    var d := [1] + Zeros(34) + [5];
    assert LONG[0] == 0 && LONG[1..] == d && Leading(d) == 0 && Leading(LONG) == 1 && Significand(LONG) == d;
    CountStops(d, 36);
    assert d[..34] == [1] + Zeros(33);
    TrailingZeros([1], 33);
    OneDigitOnly(1);
    Tenfold(1, MAX_DIGITS);
  }

  lemma AcceptsLong(n: Numeral)
    requires n.digits == LONG && n.after == 0 && !n.point
    requires Leading(LONG) == 1 && Significand(LONG) == [1] + Zeros(34) + [5] && SignificantCount(Significand(LONG)) == 36
    ensures Accepts(n, 0)
  {
    hide Leading, Significand, SignificantCount;
  }

  const TRIPPED: bytes := [49, 49, 48, 46, 69, 45, 54, 49, 55, 55] // "110.E-6177"

  /** 110.E-6177 is 11E-6176, which can be stored, but it is rejected. */
  lemma PointTrips(ok: bool, dec: Bits)
    requires Converted(Parse(TRIPPED), ok, dec)
    ensures !ok && SameValue(11, EXPONENT_MIN, 110, -6177)
    ensures Converted(Number(false, Numeral([1, 1], 0, false, 2), -6176), true, Pack(false, 11, EXPONENT_MIN))
  {
    hide Parse, Pack, Stored, Negative, Exponent, Combination, Canonical, Pow10;
    var w := Written(false, [1, 1, 0], true, [], Some(-6177));
    TrippedText();
    WrittenParses(w);
    TrippedDigits();
    PowerOne();
    PackFields(false, 11, EXPONENT_MIN);
  }

  const FAR: seq<digit> := [1] + Zeros(39)

  /** 1E39 written out is accepted, but not with a point behind it. */
  lemma FarPointTrips(ok: bool, dec: Bits, ok': bool, dec': Bits)
    requires Converted(Parse(Chars(FAR)), ok, dec) && Converted(Parse(Chars(FAR) + [POINT]), ok', dec')
    ensures ok && SameValue(Stored(dec), Exponent(dec), Num(FAR), 0) && !ok'
  {
    hide Parse, Stored, Negative, Exponent, Combination, SameValue, Canonical, Pow10, Num, Leading, Chars, SignificantCount;
    hide Significand, Accepts;
    var (w, w') := (Written(false, FAR, false, [], None), Written(false, FAR, true, [], None));
    WholeText(w);
    WholeText(w');
    FarDigits(w.Numeral(), w'.Numeral());
    AcceptedIsExact(Chars(FAR), false, w.Numeral(), 0, dec);
  }

  /** A text of digits before the point alone. */
  lemma WholeText(w: Written)
    requires w.Valid() && !w.negative && w.fraction == [] && w.exponent == None
    ensures Parse(if w.point then Chars(w.whole) + [POINT] else Chars(w.whole)) == Number(false, w.Numeral(), 0)
    ensures w.Numeral().digits == w.whole && w.Numeral().after == 0
  {
    hide Parse, Chars;
    NoChars();
    assert w.Head() + w.Tail() == if w.point then Chars(w.whole) + [POINT] else Chars(w.whole);
    assert w.whole + [] == w.whole;
    WrittenParses(w);
  }

  lemma FarDigits(n: Numeral, n': Numeral)
    requires n.digits == n'.digits == FAR && n.after == n'.after == 0 && !n.point && n'.point
    ensures Accepts(n, 0) && !Accepts(n', 0) && FewSignificant(n)
  {
    hide SignificantCount, Seen;
    assert Leading(FAR) == 0 && Significand(FAR) == FAR;
    CountStops(FAR, 1);
    assert Fitting(FAR, 0);
    AcceptsFitting(n, 0);
    AcceptsFitting(n', 0);
    assert PointInTheWay(n', 0);
  }

  const ONES: seq<digit> := seq(34, _ => 1)

  /** Thirty-four ones and a zero are accepted, but not with another zero in front. */
  lemma ZeroInFrontTrips(ok: bool, dec: Bits, ok': bool, dec': Bits)
    requires Converted(Parse(Chars(ONES + [0])), ok, dec) && Converted(Parse(Chars([0] + (ONES + [0]))), ok', dec')
    ensures ok && SameValue(Stored(dec), Exponent(dec), Num(ONES + [0]), 0) && !ok'
  {
    hide Parse, Stored, Negative, Exponent, Combination, SameValue, Canonical, Pow10, Num, Leading, Chars, SignificantCount;
    hide Significand, Accepts;
    var (w, w') := (Written(false, ONES + [0], false, [], None), Written(false, [0] + (ONES + [0]), false, [], None));
    WholeText(w);
    WholeText(w');
    OnesDigits(w.Numeral(), w'.Numeral());
    AcceptedIsExact(Chars(ONES + [0]), false, w.Numeral(), 0, dec);
  }

  lemma OnesDigits(n: Numeral, n': Numeral)
    requires n.digits == ONES + [0] && n'.digits == [0] + (ONES + [0]) && n.after == n'.after == 0 && !n.point && !n'.point
    ensures Accepts(n, 0) && !Accepts(n', 0) && FewSignificant(n)
  {
    hide SignificantCount, Seen;
    var d := ONES + [0];
    assert Leading(d) == 0 && Significand(d) == d;
    assert n'.digits[1..] == d && Leading(n'.digits) == 1 && Significand(n'.digits) == d;
    CountStops(d, 34);
    assert Fitting(d, 0);
    AcceptsFitting(n, 0);
    AcceptsFitting(n', 0);
    assert d[33] == 1 && 33 + TooFarLeft(n') == 34;
  }

  lemma PowerOne()
    ensures Pow10(0) == 1 && Pow10(1) == 10 && 11 < Pow10(MAX_DIGITS)
  {
    PowTable();
  }

  lemma TrippedText()
    ensures var w := Written(false, [1, 1, 0], true, [], Some(-6177)); w.Head() + w.Tail() == TRIPPED
  {
    hide Digits;
    DigitsOfExponents();
    assert SignedDecimal(-6177) == [45, 54, 49, 55, 55];
  }

  lemma TrippedDigits()
    ensures [1, 1, 0] + [] == [1, 1, 0] && Significand([1, 1, 0]) == [1, 1, 0] && Leading([1, 1, 0]) == 0
    ensures SignificantCount([1, 1, 0]) == 2
    ensures Significand([1, 1]) == [1, 1] && Num([1, 1]) == 11
  {
    assert [1, 1, 0][..2] == [1, 1] && [1, 1][..1] == [1] && [1][..0] == [];
    CountStops([1, 1, 0], 2);
  }
}
