/** The scalars that extended JSON carries inside strings: integers and bytes in decimal and hexadecimal. */
module JsonText {
  import opened CInt
  import opened LittleEndian

  /** The bytes of an ASCII literal. */
  function Ascii(s: string): (r: bytes)
    ensures |r| == |s|
  {
    seq(|s|, i requires 0 <= i < |s| => s[i] as int % 256)
  }

  predicate IsDigit(c: byte) {
    48 <= c <= 57
  }

  function Decimal(n: nat): (r: bytes)
    ensures |r| > 0 && forall c <- r :: IsDigit(c)
  {
    if n < 10 then [48 + n] else Decimal(n / 10) + [48 + n % 10]
  }

  function DecimalInt(i: int): (r: bytes)
    ensures |r| > 0
  {
    if i < 0 then [45] + Decimal(-i) else Decimal(i)
  }

  function DigitsValue(s: bytes): nat
    requires forall c <- s :: IsDigit(c)
  {
    if s == [] then 0
    else
      var c: int := s[|s| - 1];
      assert s[|s| - 1] in s && IsDigit(s[|s| - 1]);
      DigitsValue(s[..|s| - 1]) * 10 + (c - 48)
  }

  predicate IsBlank(c: byte) {
    9 <= c <= 13 || c == 32
  }

  function SkipBlanks(s: bytes): bytes {
    if s != [] && IsBlank(s[0]) then SkipBlanks(s[1..]) else s
  }

  /** What bson_ascii_strtoll in base ten makes of the whole of a text: none when it stops early or overflows. */
  function ParseInt(text: bytes): (r: Option<int>)
    ensures r.Some? ==> INT64_MIN <= r.value <= INT64_MAX
  {
    var s := SkipBlanks(text);
    if s == [] || !(s[0] == 45 || s[0] == 43 || IsDigit(s[0])) then None
    else
      var digits := if IsDigit(s[0]) then s else s[1..];
      if digits == [] || exists c <- digits :: !IsDigit(c) then None
      else
        var magnitude: int := DigitsValue(digits);
        var value := if s[0] == 45 then -magnitude else magnitude;
        if INT64_MIN <= value <= INT64_MAX then Some(value) else None
  }

  lemma {:induction false} DecimalValue(n: nat)
    ensures DigitsValue(Decimal(n)) == n
  {
    if n >= 10 {
      DecimalValue(n / 10);
      var s := Decimal(n);
      assert s[..|s| - 1] == Decimal(n / 10);
    } else {
      assert Decimal(n)[..0] == [];
    }
  }

  const DIGITS: string := "0123456789"

  /** Decimal texts end with the letter of the last digit, and have no zero in front. */
  lemma DecimalText(n: nat)
    ensures Decimal(n) == (if n < 10 then [] else Decimal(n / 10)) + [DIGITS[n % 10] as int]
    ensures DecimalInt(0 - n) == if n == 0 then ['0' as int] else ['-' as int] + Decimal(n)
  {
    DigitLetter(n % 10);
  }

  lemma DigitLetter(x: nat)
    requires x < 10
    ensures DIGITS[x] as int == 48 + x
  {
  }

  /** Every 64-bit integer is read back from its decimal text. */
  lemma ParseDecimalInt(i: int64)
    ensures ParseInt(DecimalInt(i)) == Some(i)
  {
    hide Decimal, DigitsValue;
    var n := if i < 0 then -(i as int) else i as int;
    var s := DecimalInt(i);
    DecimalValue(n);
    assert i >= 0 ==> s[0] in Decimal(n) && IsDigit(s[0]);
    assert SkipBlanks(s) == s;
    assert i < 0 ==> s[1..] == Decimal(n);
  }

  function HexDigit(n: nat): (c: byte)
    requires n < 16
  {
    if n < 10 then 48 + n else 97 + (n - 10)
  }

  /** An integer as the C library reads it: space, perhaps a sign, digits. */
  datatype IntegerText = IntegerText(space: bytes, sign: string, digits: bytes) {
    predicate Valid() {
      && (forall c <- space :: c == ' ' as int || 9 <= c <= 13) && (sign == "" || sign == "+" || sign == "-")
      && digits != [] && forall c <- digits :: '0' as int <= c <= '9' as int
    }

    function Text(): bytes {
      space + Ascii(sign) + digits
    }

    function Value(): int
      requires Valid()
    {
      var magnitude: int := DigitsValue(digits);
      if sign == "-" then -magnitude else magnitude
    }
  }

  ghost predicate SaysInteger(t: IntegerText, text: bytes, n: int) {
    t.Valid() && text == t.Text() && n == t.Value()
  }

  /** A text is read as an integer exactly when it says one that fits 64 bits, and as that one. */
  lemma ParseIntIff(text: bytes, n: int)
    ensures ParseInt(text) == Some(n) <==>
            -9223372036854775808 <= n <= 9223372036854775807 && exists t :: SaysInteger(t, text, n)
  {
    hide ParseInt, DigitsValue, IntegerText.Valid, IntegerText.Text, IntegerText.Value;
    if ParseInt(text) == Some(n) {
      var t := ReadIsSaid(text);
      assert SaysInteger(t, text, n);
    }
    forall t | SaysInteger(t, text, n) && INT64_MIN <= n <= INT64_MAX ensures ParseInt(text) == Some(n) {
      SaidIsRead(t);
    }
  }

  lemma DigitsRead(text: bytes)
    requires ParseInt(text).Some?
    ensures var s := SkipBlanks(text);
            && s != [] && (s[0] == 45 || s[0] == 43 || IsDigit(s[0]))
            && var digits := if IsDigit(s[0]) then s else s[1..];
            && |digits| > 0 && (forall c <- digits :: '0' as int <= c <= '9' as int)
            && ParseInt(text).value == if s[0] == 45 then 0 - DigitsValue(digits) else DigitsValue(digits)
  {
    hide DigitsValue, SkipBlanks;
    var s := SkipBlanks(text);
    var digits := if IsDigit(s[0]) then s else s[1..];
    forall c | c in digits ensures '0' as int <= c <= '9' as int { assert IsDigit(c); }
  }

  lemma ReadIsSaid(text: bytes) returns (t: IntegerText)
    requires ParseInt(text).Some?
    ensures SaysInteger(t, text, ParseInt(text).value)
  {
    hide DigitsValue, SkipBlanks, IsBlank, Ascii, ParseInt;
    var s := SkipBlanks(text);
    BlanksSplit(text);
    DigitsRead(text);
    var sign := if s[0] == 45 then "-" else if s[0] == 43 then "+" else "";
    var space := text[..|text| - |s|];
    t := IntegerText(space, sign, if IsDigit(s[0]) then s else s[1..]);
    SignOf(s, sign);
    Blanks(space);
    Joined(space, Ascii(sign), t.digits);
    assert t.space == space && t.Valid();
    assert text == t.Text();
  }

  lemma Blanks(space: bytes)
    requires forall c <- space :: IsBlank(c)
    ensures forall c <- space :: c == ' ' as int || 9 <= c <= 13
  {
    forall c | c in space ensures c == ' ' as int || 9 <= c <= 13 { assert IsBlank(c); }
  }

  lemma Joined(a: bytes, b: bytes, c: bytes)
    ensures a + (b + c) == a + b + c
  {
  }

  lemma SignOf(s: bytes, sign: string)
    requires s != [] && (s[0] == 45 || s[0] == 43 || IsDigit(s[0]))
    requires sign == if s[0] == 45 then "-" else if s[0] == 43 then "+" else ""
    ensures s == Ascii(sign) + if IsDigit(s[0]) then s else s[1..]
  {
    if sign != "" { assert Ascii(sign) == [s[0]]; }
  }

  lemma {:induction false} BlanksSplit(text: bytes)
    ensures var s := SkipBlanks(text);
            |s| <= |text| && text == text[..|text| - |s|] + s && forall c <- text[..|text| - |s|] :: IsBlank(c)
  {
    if text != [] && IsBlank(text[0]) {
      BlanksSplit(text[1..]);
      var s := SkipBlanks(text);
      assert text[..|text| - |s|] == [text[0]] + text[1..][..|text| - 1 - |s|];
    }
  }

  lemma {:induction false} BlanksBefore(space: bytes, rest: bytes)
    requires (forall c <- space :: IsBlank(c)) && rest != [] && !IsBlank(rest[0])
    ensures SkipBlanks(space + rest) == rest
  {
    if space == [] {
      assert space + rest == rest;
    } else {
      BlanksBefore(space[1..], rest);
      assert (space + rest)[1..] == space[1..] + rest;
    }
  }

  lemma SaidIsRead(t: IntegerText)
    requires t.Valid() && INT64_MIN <= t.Value() <= INT64_MAX
    ensures ParseInt(t.Text()) == Some(t.Value())
  {
    hide DigitsValue, SkipBlanks;
    var (sign, d) := (Ascii(t.sign), t.digits);
    assert t.Text() == t.space + (sign + d);
    assert d[0] in d;
    BlanksBefore(t.space, sign + d);
    assert t.sign != "" ==> (sign + d)[1..] == d;
    assert t.sign == "" ==> sign + d == d;
  }

  const HEX_LETTERS: string := "0123456789abcdef"

  function HexLetter(n: nat): (c: byte)
    requires n < 16
  {
    HEX_LETTERS[n] as int % 256
  }

  lemma HexLetters(n: nat)
    requires n < 16
    ensures HexDigit(n) == HexLetter(n) && HexLetter(0) == '0' as int
  {
  }

  /** Byte i is written as the letters of its upper and its lower half. */
  lemma {:induction false} HexText(b: bytes, i: nat)
    requires i < |b|
    ensures Hex(b)[2 * i] == HexLetter(b[i] / 16) && Hex(b)[2 * i + 1] == HexLetter(b[i] % 16)
  {
    hide HexDigit, HexLetter;
    if i == 0 {
      HexLetters(b[0] / 16);
      HexLetters(b[0] % 16);
    } else {
      HexText(b[1..], i - 1);
      assert Hex(b)[2..] == Hex(b[1..]);
    }
  }

  /** bson_oid_parse_hex_char: anything but a hexadecimal digit counts as zero. */
  function HexValue(c: byte): (n: nat)
    ensures n < 16
  {
    if IsDigit(c) then c - 48 else if 97 <= c <= 102 then c - 87 else if 65 <= c <= 70 then c - 55 else 0
  }

  predicate IsHex(c: byte) {
    IsDigit(c) || 97 <= c <= 102 || 65 <= c <= 70
  }

  function Hex(b: bytes): (r: bytes)
    ensures |r| == 2 * |b|
  {
    if b == [] then [] else [HexDigit(b[0] / 16), HexDigit(b[0] % 16)] + Hex(b[1..])
  }

  function FromHex(s: bytes): (r: bytes)
    requires |s| % 2 == 0
    ensures |r| == |s| / 2
  {
    if s == [] then [] else [HexValue(s[0]) * 16 + HexValue(s[1])] + FromHex(s[2..])
  }

  lemma {:induction false} HexRoundTrip(b: bytes)
    ensures FromHex(Hex(b)) == b
    ensures forall c <- Hex(b) :: IsHex(c)
  {
    if b != [] {
      HexRoundTrip(b[1..]);
      var x: int := b[0];
      assert Hex(b)[2..] == Hex(b[1..]);
      assert HexValue(HexDigit(x / 16)) * 16 + HexValue(HexDigit(x % 16)) == x;
      assert b == [b[0]] + b[1..];
    }
  }

  /** A C string ends at its first NUL. */
  function CString(s: bytes): (r: bytes)
    ensures 0 !in r && (0 !in s ==> r == s)
  {
    if s == [] || s[0] == 0 then [] else [s[0]] + CString(s[1..])
  }
}
