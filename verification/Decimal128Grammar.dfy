/** The numbers the decimal parser reads, as a grammar: every spelling is read as it is written, and nothing else is a number. */
module Decimal128Grammar {
  import opened CInt
  import opened LittleEndian
  import opened Decimal
  import opened Decimal128
  import opened Decimal128Scan
  import opened JsonText

  datatype Sign = Unsigned | Plus | Minus {
    function Text(): (r: bytes)
      ensures |r| <= 1
    {
      match this
      case Unsigned => []
      case Plus => ['+' as int]
      case Minus => ['-' as int]
    }
  }

  /** The letter e of either case, space as the C library skips it, and a signed integer. */
  datatype Exponent = Exponent(upper: bool, space: bytes, sign: Sign, digits: seq<digit>) {
    function Text(): bytes {
      [if upper then 'E' as int else 'e' as int] + space + sign.Text() + Chars(digits)
    }

    function Value(): int {
      var magnitude: int := Num(digits);
      if sign == Minus then -magnitude else magnitude
    }

    predicate Valid() {
      digits != [] && -2147483648 <= Value() <= 2147483647 && forall c <- space :: c == ' ' as int || 9 <= c <= 13
    }
  }

  /** Digits before and behind a point that may be missing; at least one digit; perhaps an exponent. */
  datatype Spelling = Spelling(sign: Sign, whole: seq<digit>, point: bool, fraction: seq<digit>, exponent: Option<Exponent>) {
    predicate Valid() {
      whole + fraction != [] && (!point ==> fraction == []) && (exponent.Some? ==> exponent.value.Valid())
    }

    function Head(): bytes {
      sign.Text() + Chars(whole) + (if point then ['.' as int] else []) + Chars(fraction)
    }

    function Tail(): bytes {
      if exponent.Some? then exponent.value.Text() else []
    }

    function Text(): bytes {
      Head() + Tail()
    }

    function Number(): Parsed {
      Parsed.Number(sign == Minus, Numeral(whole + fraction, |fraction|, point, |Head()|),
                    if exponent.Some? then exponent.value.Value() else 0)
    }
  }

  ghost predicate StandsAt(text: bytes, i: nat, part: bytes) {
    i + |part| <= |text| && forall j :: 0 <= j < |part| ==> text[i + j] == part[j]
  }

  // ---------------------------------------------------------------------------------------------------------
  // Reading what is spelled
  // ---------------------------------------------------------------------------------------------------------

  lemma {:induction false} ReadRun(text: bytes, i: nat, d: seq<digit>, n: Numeral)
    requires StandsAt(text, i, Chars(d)) && n.after <= |n.digits| && n.end == i
    ensures var m := Numeral(n.digits + d, if n.point then n.after + |d| else n.after, n.point, i + |d|);
            ReadDigits(text, i, n) == ReadDigits(text, i + |d|, m)
    decreases |d|
  {
    if d == [] {
      assert n.digits + d == n.digits;
    } else {
      assert text[i + 0] == Chars(d)[0] == 48 + d[0] as int;
      var m := Numeral(n.digits + [d[0]], if n.point then n.after + 1 else n.after, n.point, i + 1);
      forall j | 0 <= j < |d| - 1 ensures text[i + 1 + j] == Chars(d[1..])[j] {
        assert text[i + (j + 1)] == Chars(d)[j + 1];
      }
      ReadRun(text, i + 1, d[1..], m);
      assert n.digits + [d[0]] + d[1..] == n.digits + d;
    }
  }

  lemma {:induction false} DigitRunReads(text: bytes, i: nat, d: seq<digit>, before: seq<digit>)
    requires StandsAt(text, i, Chars(d)) && i + |d| == |text|
    ensures DigitRun(text, i, before) == (before + d, |text|)
    decreases |d|
  {
    if d == [] {
      assert before + d == before;
    } else {
      assert text[i + 0] == Chars(d)[0] == 48 + d[0] as int;
      forall j | 0 <= j < |d| - 1 ensures text[i + 1 + j] == Chars(d[1..])[j] {
        assert text[i + (j + 1)] == Chars(d)[j + 1];
      }
      DigitRunReads(text, i + 1, d[1..], before + [d[0]]);
      assert before + [d[0]] + d[1..] == before + d;
    }
  }

  lemma {:induction false} SpaceSkipped(text: bytes, i: nat, space: bytes)
    requires StandsAt(text, i, space) && (forall c <- space :: IsBlank(c)) && !IsBlank(At(text, i + |space|))
    ensures Decimal128Scan.SkipBlanks(text, i) == i + |space|
    decreases |space|
  {
    if space != [] {
      assert text[i + 0] == space[0];
      forall j | 0 <= j < |space| - 1 ensures text[i + 1 + j] == space[1..][j] {
        assert text[i + (j + 1)] == space[j + 1];
      }
      SpaceSkipped(text, i + 1, space[1..]);
    }
  }

  lemma Behind(front: bytes, rest: bytes)
    ensures At(front + rest, |front|) == At(rest, 0)
  {
  }

  lemma TailStart(w: Spelling)
    requires w.Valid()
    ensures At(w.Tail(), 0) == if w.exponent == None then 0 else if w.exponent.value.upper then 69 else 101
  {
  }

  lemma FourParts(s: bytes, a: bytes, p: bytes, b: bytes, e: bytes)
    ensures var (text, i) := (s + a + p + b + e, |s|);
            && StandsAt(text, i, a) && (p != [] ==> At(text, i + |a|) == p[0]) && StandsAt(text, i + |a| + |p|, b)
            && At(text, i + |a| + |p| + |b|) == At(e, 0)
  {
  }

  lemma DigitsRead(text: bytes, i: nat, a: seq<digit>, point: bool, b: seq<digit>)
    requires StandsAt(text, i, Chars(a)) && (point ==> At(text, i + |a|) == POINT) && (!point ==> b == [])
    requires var j := i + |a| + if point then 1 else 0;
             StandsAt(text, j, Chars(b)) && At(text, j + |b|) != POINT && !IsDigit(At(text, j + |b|))
    ensures ReadDigits(text, i, Numeral([], 0, false, i))
         == Some(Numeral(a + b, |b|, point, i + |a| + (if point then 1 else 0) + |b|))
  {
    hide ReadDigits, StandsAt, Chars;
    Inside(text, i, Chars(a));
    ReadRun(text, i, a, Numeral([], 0, false, i));
    assert [] + a == a;
    var n := Numeral(a, 0, false, i + |a|);
    if point {
      var m := Numeral(a, 0, true, n.end + 1);
      Inside(text, n.end + 1, Chars(b));
      ReadStep(text, n.end, n);
      ReadRun(text, n.end + 1, b, m);
      ReadStep(text, n.end + 1 + |b|, Numeral(a + b, |b|, true, n.end + 1 + |b|));
    } else {
      assert a + b == a;
      ReadStep(text, n.end, n);
    }
  }

  lemma Inside(text: bytes, i: nat, part: bytes)
    requires StandsAt(text, i, part)
    ensures i + |part| <= |text|
  {
  }

  lemma HeadRead(w: Spelling)
    requires w.Valid()
    ensures var (text, i) := (w.Text(), |w.sign.Text()|);
            && StartOf(text) == i && (At(text, 0) == MINUS <==> w.sign == Minus)
            && (IsDigit(At(text, i)) || At(text, i) == POINT)
            && ReadDigits(text, i, Numeral([], 0, false, i)) == Some(w.Number().numeral)
  {
    hide ReadDigits, Spelling.Tail, StandsAt, Chars, Sign.Text;
    FourParts(w.sign.Text(), Chars(w.whole), if w.point then ['.' as int] else [], Chars(w.fraction), w.Tail());
    StartSpelled(w);
    TailStart(w);
    DigitsRead(w.Text(), |w.sign.Text()|, w.whole, w.point, w.fraction);
  }

  lemma StartSpelled(w: Spelling)
    requires w.Valid()
    ensures var (text, i) := (w.Text(), |w.sign.Text()|);
            StartOf(text) == i && (At(text, 0) == MINUS <==> w.sign == Minus) && (IsDigit(At(text, i)) || At(text, i) == POINT)
  {
    hide Spelling.Tail;
    var (text, i) := (w.Text(), |w.sign.Text()|);
    if w.whole != [] {
      assert text[i] == Chars(w.whole)[0];
    } else if w.point {
      assert text[i] == '.' as int;
    }
  }

  lemma TailRead(w: Spelling)
    requires w.Valid()
    ensures ExponentAt(w.Text(), |w.Head()|) == Some((w.Number().exponent, |w.Text()|))
  {
    hide ScanInteger, Chars, StandsAt, Spelling.Head, Spelling.Tail, Exponent.Text;
    TailStart(w);
    var (text, at) := (w.Text(), |w.Head()|);
    Behind(w.Head(), w.Tail());
    if w.exponent.Some? {
      ExponentText(w.Head(), w);
      ScanSpelled(w.Head() + w.Tail()[..1], w.exponent.value);
    } else {
      NoTail(w);
    }
  }

  lemma NoTail(w: Spelling)
    requires w.exponent == None
    ensures w.Text() == w.Head()
  {
  }

  lemma ExponentText(head: bytes, w: Spelling)
    requires w.exponent.Some?
    ensures var e := w.exponent.value;
            w.Tail() != [] && head + w.Tail() == head + w.Tail()[..1] + (e.space + e.sign.Text() + Chars(e.digits))
  {
    hide Chars, Sign.Text;
  }

  lemma ThreeParts(front: bytes, a: bytes, b: bytes, c: bytes)
    ensures var text := front + (a + b + c);
            && StandsAt(text, |front|, a) && StandsAt(text, |front| + |a|, b) && StandsAt(text, |front| + |a| + |b|, c)
            && At(text, |front| + |a|) == if b != [] then b[0] else At(c, 0)
  {
  }

  lemma ScanSpelled(front: bytes, e: Exponent)
    requires e.Valid()
    ensures var text := front + (e.space + e.sign.Text() + Chars(e.digits));
            ScanInteger(text, |front|) == Some((e.Value(), |text|))
  {
    hide Chars, DigitRun, Num, StandsAt;
    var (s, d) := (e.sign.Text(), Chars(e.digits));
    var text := front + (e.space + s + d);
    ThreeParts(front, e.space, s, d);
    FirstDigit(e.digits);
    var j := |front| + |e.space|;
    SpaceSkipped(text, |front|, e.space);
    DigitRunReads(text, j + |s|, e.digits, []);
    assert [] + e.digits == e.digits;
  }

  lemma FirstDigit(d: seq<digit>)
    requires d != []
    ensures At(Chars(d), 0) == 48 + d[0] as int
  {
  }

  /** Every spelling is read as the number spelled. */
  lemma SpellingParses(w: Spelling)
    requires w.Valid()
    ensures Parse(w.Text()) == w.Number()
  {
    hide ReadDigits, ExponentAt, SameLetters, StartOf, IsDigit, Chars, Spelling.Head, Spelling.Tail;
    HeadRead(w);
    TailRead(w);
  }

  // ---------------------------------------------------------------------------------------------------------
  // Whatever is read is spelled
  // ---------------------------------------------------------------------------------------------------------

  lemma {:induction false} RunSpelled(text: bytes, i: nat, before: seq<digit>)
    requires i <= |text|
    ensures var r := DigitRun(text, i, before); before <= r.0 && text[i..r.1] == Chars(r.0[|before|..])
    decreases |text| - i
  {
    if IsDigit(At(text, i)) {
      var x: digit := At(text, i) as int - 48;
      RunSpelled(text, i + 1, before + [x]);
      var r := DigitRun(text, i, before);
      assert r.0[|before|..] == [x] + r.0[|before| + 1..];
      assert text[i..r.1] == [text[i]] + text[i + 1..r.1];
      CharsAgain(x, r.0[|before| + 1..]);
    }
  }

  lemma CharsAgain(x: digit, d: seq<digit>)
    ensures Chars([x] + d) == [48 + x as int] + Chars(d)
  {
  }

  lemma {:induction false} BlanksSkipped(text: bytes, i: nat)
    requires i <= |text|
    ensures var j := Decimal128Scan.SkipBlanks(text, i); forall k :: i <= k < j ==> IsBlank(text[k])
    decreases |text| - i
  {
    if IsBlank(At(text, i)) { BlanksSkipped(text, i + 1); }
  }

  lemma SignSpelled(text: bytes, i: nat) returns (s: Sign)
    requires i <= |text|
    ensures var k := if At(text, i) == MINUS || At(text, i) == PLUS then i + 1 else i;
            k <= |text| && text[i..k] == s.Text() && (s == Minus <==> At(text, i) == MINUS)
  {
    s := if At(text, i) == MINUS then Minus else if At(text, i) == PLUS then Plus else Unsigned;
  }

  lemma IntegerSpelled(text: bytes, i: nat, upper: bool) returns (e: Exponent)
    requires i <= |text| && ScanInteger(text, i).Some? && ScanInteger(text, i).value.1 == |text|
    requires INT_MIN <= ScanInteger(text, i).value.0 <= INT_MAX
    ensures e.Valid() && e.upper == upper && text[i..] == e.space + e.sign.Text() + Chars(e.digits)
    ensures e.Value() == ScanInteger(text, i).value.0
  {
    hide Chars, Num, DigitRun, Sign.Text;
    var j := Decimal128Scan.SkipBlanks(text, i);
    BlanksSkipped(text, i);
    var s := SignSpelled(text, j);
    var k := if At(text, j) == MINUS || At(text, j) == PLUS then j + 1 else j;
    RunSpelled(text, k, []);
    var d := DigitRun(text, k, []).0;
    assert d[0..] == d && text[k..|text|] == text[k..];
    e := Exponent(upper, text[i..j], s, d);
    Cut(text, i, j, k);
  }

  lemma Cut(text: bytes, i: nat, j: nat, k: nat)
    requires i <= j <= k <= |text|
    ensures text[i..] == text[i..j] + text[j..k] + text[k..]
    ensures forall c <- text[i..j] :: exists m :: i <= m < j && text[m] == c
  {
  }

  lemma ExponentSpelled(text: bytes, at: nat) returns (e: Option<Exponent>)
    requires at <= |text| && ExponentAt(text, at).Some? && ExponentAt(text, at).value.1 == |text|
    ensures text[at..] == if e.Some? then e.value.Text() else []
    ensures e.Some? ==> e.value.Valid() && e.value.Value() == ExponentAt(text, at).value.0
    ensures e == None ==> ExponentAt(text, at).value.0 == 0
  {
    hide Chars, ScanInteger, Sign.Text, Exponent.Valid, Num;
    e := None;
    if At(text, at) == 69 || At(text, at) == 101 {
      var x := IntegerSpelled(text, at + 1, At(text, at) == 69);
      assert text[at..] == [text[at]] + text[at + 1..];
      Prefixed(text[at], x.space, x.sign.Text(), Chars(x.digits));
      e := Some(x);
    }
  }

  lemma Prefixed(c: byte, x: bytes, y: bytes, z: bytes)
    ensures [c] + (x + y + z) == [c] + x + y + z
  {
  }

  lemma Assembled(text: bytes, i: nat, j: nat, x: bytes, y: bytes, z: bytes)
    requires i <= j <= |text| && text[i..j] == x + y + z
    ensures text == text[..i] + x + y + z + text[j..]
  {
    assert text == text[..i] + text[i..j] + text[j..];
  }

  /** The digits and the point laid in a text. */
  lemma LaidText(text: bytes, i: nat, n: Numeral)
    requires Laid(text, i, n)
    ensures var (m, p) := (|n.digits| - n.after, if n.point then ['.' as int] else []);
            text[i..n.end] == Chars(n.digits[..m]) + p + Chars(n.digits[m..])
  {
    var m := |n.digits| - n.after;
    var p: bytes := if n.point then ['.' as int] else [];
    var t := Chars(n.digits[..m]) + p + Chars(n.digits[m..]);
    forall k | 0 <= k < |t| ensures text[i + k] == t[k] {
      if k < m {
        assert At(text, Place(i, n, k)) == 48 + n.digits[k] as int;
      } else if k > m {
        assert At(text, Place(i, n, k - 1)) == 48 + n.digits[k - 1] as int;
      }
    }
  }

  lemma NumberSpelled(text: bytes) returns (w: Spelling)
    requires Parse(text).Number?
    ensures w.Valid() && text == w.Text()
  {
    hide ReadDigits, ExponentAt, SameLetters, Chars, Laid, Exponent.Text, Exponent.Valid, Sign.Text, IsDigit;
    var i := StartOf(text);
    var start := Numeral([], 0, false, i);
    var n := ReadDigits(text, i, start).value;
    StartLaid(text, i);
    ReadLaid(text, i, i, start);
    var m := |n.digits| - n.after;
    LaidPoint(text, i, n);
    LaidText(text, i, n);
    var s := SignSpelled(text, 0);
    var e := ExponentSpelled(text, n.end);
    w := Spelling(s, n.digits[..m], n.point, n.digits[m..], e);
    assert n.digits[..m] + n.digits[m..] == n.digits;
    Assembled(text, i, n.end, Chars(n.digits[..m]), if n.point then ['.' as int] else [], Chars(n.digits[m..]));
    SomeDigit(text, i);
  }

  lemma StartLaid(text: bytes, i: nat)
    requires i <= |text|
    ensures Laid(text, i, Numeral([], 0, false, i))
  {
  }

  lemma LaidPoint(text: bytes, i: nat, n: Numeral)
    requires Laid(text, i, n)
    ensures i <= n.end <= |text| && (!n.point ==> n.after == 0)
  {
  }

  lemma {:induction false} ReadsOn(text: bytes, i: nat, n: Numeral)
    requires i <= |text| && n.after <= |n.digits|
    ensures var r := ReadDigits(text, i, n); r.Some? ==> |r.value.digits| >= |n.digits| && (n.point ==> r.value.point)
    decreases |text| - i
  {
    if At(text, i) == POINT && !n.point {
      ReadsOn(text, i + 1, Numeral(n.digits, n.after, true, i + 1));
    } else if IsDigit(At(text, i)) {
      var x := At(text, i) as int - 48;
      ReadsOn(text, i + 1, Numeral(n.digits + [x], if n.point then n.after + 1 else n.after, n.point, i + 1));
    }
  }

  /** A digit or a point at the start is read. */
  lemma SomeDigit(text: bytes, i: nat)
    requires i <= |text| && (IsDigit(At(text, i)) || At(text, i) == POINT)
    ensures var r := ReadDigits(text, i, Numeral([], 0, false, i)); r.Some? ==> r.value.point || r.value.digits != []
  {
    hide ReadDigits;
    ReadStep(text, i, Numeral([], 0, false, i));
    if At(text, i) == POINT {
      ReadsOn(text, i + 1, Numeral([], 0, true, i + 1));
    } else {
      ReadsOn(text, i + 1, Numeral([] + [At(text, i) as int - 48], 0, false, i + 1));
    }
  }

  predicate Spells(w: Spelling, text: bytes, p: Parsed) {
    w.Valid() && text == w.Text() && p == w.Number()
  }

  /** The numbers are exactly the spellings, each read as the number spelled. */
  lemma NumberIff(text: bytes, p: Parsed)
    ensures p.Number? && Parse(text) == p <==> exists w :: Spells(w, text, p)
  {
    hide Parse, Spelling.Valid, Spelling.Text, Spelling.Number;
    if p.Number? && Parse(text) == p {
      var w := NumberSpelled(text);
      SpellingParses(w);
      assert Spells(w, text, p);
    }
    forall w | Spells(w, text, p) ensures p.Number? && Parse(text) == p {
      SpellingParses(w);
      SpelledNumber(w);
    }
  }

  lemma SpelledNumber(w: Spelling)
    ensures w.Number().Number?
  {
  }

  /** Behind an optional sign, "inf" and "infinity" in letters of either case are infinities and "nan" is not a number. */
  lemma NamesIff(text: bytes)
    ensures var i := if text != [] && (text[0] == '+' as int || text[0] == '-' as int) then 1 else 0;
            && (Parse(text) == NotANumber <==> IsName(text[i..], "nan"))
            && (Parse(text).Infinity? <==> IsName(text[i..], "inf") || IsName(text[i..], "infinity"))
            && (Parse(text).Infinity? ==> (Parse(text).negative <==> text[0] == '-' as int))
  {
    hide ReadDigits, ExponentAt, IsName;
    var i := StartOf(text);
    Names(text[i..]);
    if IsName(text[i..], "nan") || IsName(text[i..], "inf") || IsName(text[i..], "infinity") { NotNumeral(text[i..]); }
  }

  /** The letters of a name, each in either case. */
  predicate IsName(s: bytes, name: string) {
    |s| == |name| && forall i :: 0 <= i < |s| ==> s[i] == name[i] as int || s[i] == name[i] as int - 32
  }

  lemma Names(s: bytes)
    ensures SameLetters(s, NAN) <==> IsName(s, "nan")
    ensures SameLetters(s, INF) <==> IsName(s, "inf")
    ensures SameLetters(s, INFINITY) <==> IsName(s, "infinity")
  {
  }

  lemma NotNumeral(s: bytes)
    requires IsName(s, "nan") || IsName(s, "inf") || IsName(s, "infinity")
    ensures !IsDigit(s[0]) && s[0] != POINT
  {
  }
}
