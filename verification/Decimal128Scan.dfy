/** What a decimal text says, before any of it is rounded or packed. */
module Decimal128Scan {
  import opened CInt
  import opened LittleEndian
  import opened Decimal
  import opened Decimal128
  import opened JsonText

  /** C strings end with a NUL. */
  function At(text: bytes, i: nat): byte {
    if i < |text| then text[i] else 0
  }

  /** The digits of a numeral, how many of them stand after the point, and where reading stopped. */
  datatype Numeral = Numeral(digits: seq<digit>, after: nat, point: bool, end: nat)

  /** Reading on from i with the digits so far; None for a second point. */
  function ReadDigits(text: bytes, i: nat, n: Numeral): (r: Option<Numeral>)
    requires i <= |text| && n.after <= |n.digits|
    ensures r.Some? ==> i <= r.value.end <= |text| && r.value.after <= |r.value.digits|
    decreases |text| - i
  {
    if At(text, i) == POINT then
      if n.point then None else ReadDigits(text, i + 1, Numeral(n.digits, n.after, true, i + 1))
    else if IsDigit(At(text, i)) then
      var x := At(text, i) as int - 48;
      ReadDigits(text, i + 1, Numeral(n.digits + [x], if n.point then n.after + 1 else n.after, n.point, i + 1))
    else Some(n.(end := i))
  }

  lemma ReadStep(text: bytes, i: nat, n: Numeral)
    requires i <= |text| && n.after <= |n.digits|
    ensures At(text, i) == POINT ==>
            var r := if n.point then None else ReadDigits(text, i + 1, Numeral(n.digits, n.after, true, i + 1));
            ReadDigits(text, i, n) == r
    ensures IsDigit(At(text, i)) ==>
            var x := At(text, i) as int - 48;
            var m := Numeral(n.digits + [x], if n.point then n.after + 1 else n.after, n.point, i + 1);
            ReadDigits(text, i, n) == ReadDigits(text, i + 1, m)
    ensures At(text, i) != POINT && !IsDigit(At(text, i)) ==> ReadDigits(text, i, n) == Some(n.(end := i))
  {
  }

  /** Digit j of a numeral that starts at start: one further on behind the point. */
  function Place(start: nat, n: Numeral, j: int): int {
    start + j + if n.point && j >= |n.digits| - n.after then 1 else 0
  }

  /** Where the digits and the point of a numeral stand in the text. */
  ghost predicate Laid(text: bytes, start: nat, n: Numeral) {
    && n.after <= |n.digits| && n.end == start + |n.digits| + (if n.point then 1 else 0) <= |text|
    && (forall j :: 0 <= j < |n.digits| ==> At(text, Place(start, n, j)) == 48 + n.digits[j] as int)
    && (n.point ==> At(text, start + |n.digits| - n.after) == POINT)
    && (!n.point ==> n.after == 0)
  }

  lemma {:induction false} ReadLaid(text: bytes, start: nat, i: nat, n: Numeral)
    requires i <= |text| && Laid(text, start, n) && n.end == i
    ensures var r := ReadDigits(text, i, n); r.Some? ==> Laid(text, start, r.value)
    decreases |text| - i
  {
    if At(text, i) == POINT {
      if !n.point {
        var n' := Numeral(n.digits, n.after, true, i + 1);
        forall j | 0 <= j < |n.digits| ensures At(text, Place(start, n', j)) == 48 + n.digits[j] as int {
          assert Place(start, n', j) == Place(start, n, j);
        }
        ReadLaid(text, start, i + 1, n');
      }
    } else if IsDigit(At(text, i)) {
      var x := At(text, i) as int - 48;
      var n' := Numeral(n.digits + [x], if n.point then n.after + 1 else n.after, n.point, i + 1);
      forall j | 0 <= j < |n'.digits| ensures At(text, Place(start, n', j)) == 48 + n'.digits[j] as int {
        assert j < |n.digits| ==> Place(start, n', j) == Place(start, n, j);
      }
      ReadLaid(text, start, i + 1, n');
    }
  }

  function SkipBlanks(text: bytes, i: nat): (j: nat)
    requires i <= |text|
    ensures i <= j <= |text|
    decreases |text| - i
  {
    if IsBlank(At(text, i)) then SkipBlanks(text, i + 1) else i
  }

  function DigitRun(text: bytes, i: nat, d: seq<digit>): (r: (seq<digit>, nat))
    requires i <= |text|
    ensures i <= r.1 <= |text| && |r.0| == |d| + (r.1 - i)
    decreases |text| - i
  {
    if IsDigit(At(text, i)) then DigitRun(text, i + 1, d + [At(text, i) as int - 48]) else (d, i)
  }

  /** sscanf's %lld: blanks, a sign, at least one digit. */
  function ScanInteger(text: bytes, i: nat): (r: Option<(int, nat)>)
    requires i <= |text|
    ensures r.Some? ==> r.value.1 <= |text|
  {
    var j := SkipBlanks(text, i);
    var signed := At(text, j) == MINUS || At(text, j) == PLUS;
    var run := DigitRun(text, if signed then j + 1 else j, []);
    if run.0 == [] then None
    else
      var magnitude: int := Num(run.0);
      Some((if At(text, j) == MINUS then -magnitude else magnitude, run.1))
  }

  datatype Parsed =
    | Malformed
    | Infinity(negative: bool)
    | NotANumber
    | Number(negative: bool, numeral: Numeral, exponent: int)

  function Lower(c: byte): byte {
    if 65 <= c <= 90 then c + 32 else c
  }

  predicate SameLetters(a: bytes, b: bytes) {
    |a| == |b| && forall i :: 0 <= i < |a| ==> Lower(a[i]) == Lower(b[i])
  }

  const INF: bytes := [105, 110, 102] // "inf"
  const INFINITY: bytes := [105, 110, 102, 105, 110, 105, 116, 121] // "infinity"
  const NAN: bytes := [110, 97, 110] // "nan"

  function StartOf(text: bytes): (i: nat)
    ensures i <= |text| && i <= 1
  {
    if At(text, 0) == MINUS || At(text, 0) == PLUS then 1 else 0
  }

  /** The exponent behind a numeral, if there is one, and where it ends. */
  function ExponentAt(text: bytes, i: nat): (r: Option<(int, nat)>)
    requires i <= |text|
    ensures r.Some? ==> r.value.1 <= |text| && INT_MIN <= r.value.0 <= INT_MAX
  {
    if At(text, i) == 69 || At(text, i) == 101 then
      var e := ScanInteger(text, i + 1);
      if e.Some? && INT_MIN <= e.value.0 <= INT_MAX then e else None
    else Some((0, i))
  }

  /** The whole text, which is one number, an infinity or not-a-number. */
  function Parse(text: bytes): Parsed {
    var i := StartOf(text);
    var negative := At(text, 0) == MINUS;
    if !IsDigit(At(text, i)) && At(text, i) != POINT then
      var rest := text[i..];
      if SameLetters(rest, INF) || SameLetters(rest, INFINITY) then Infinity(negative)
      else if SameLetters(rest, NAN) then NotANumber
      else Malformed
    else
      var n := ReadDigits(text, i, Numeral([], 0, false, i));
      if n == None || (n.value.point && n.value.digits == []) then Malformed
      else
        var e := ExponentAt(text, n.value.end);
        if e == None || e.value.1 < |text| then Malformed else Number(negative, n.value, e.value.0)
  }
}
