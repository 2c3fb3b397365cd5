/** Date texts in the formats of section 4.3.2 of ISO 8601:2004 that the library reads, and what they denote. */
module Iso8601 {
  import opened CInt
  import opened Calendar
  import opened LittleEndian
  import opened JsonText
  import Ten = Decimal

  const DASH: byte := 45
  const PLUS: byte := 43
  const POINT: byte := 46
  const COLON: byte := 58
  const TEE: byte := 84
  const ZULU: byte := 90

  // ---------------------------------------------------------------------------------------------------------
  // Dates and their text
  // ---------------------------------------------------------------------------------------------------------

  datatype Zone = Utc | Offset(west: bool, hours: nat, minutes: nat, colon: bool)

  /** What a date text says; fraction is the digits behind the seconds. */
  datatype Date = Date(year: nat, month: nat, day: nat, hour: nat, minute: nat, second: Option<nat>, fraction: bytes, zone: Zone)

  predicate AllDigits(s: bytes) {
    forall i :: 0 <= i < |s| ==> IsDigit(s[i])
  }

  predicate ZoneInRange(z: Zone) {
    z.Offset? ==> z.hours <= 23 && z.minutes <= 59
  }

  predicate InRange(d: Date) {
    && d.year <= 9999 && 1 <= d.month <= 12 && 1 <= d.day <= 31 && d.hour <= 23 && d.minute <= 59
    && (d.second.Some? ==> d.second.value <= 60) && (d.fraction != [] ==> d.second.Some?)
    && |d.fraction| <= 3 && AllDigits(d.fraction) && ZoneInRange(d.zone)
  }

  /** A number in w decimal digits. */
  function Pad(n: nat, w: nat): (r: bytes)
    ensures |r| == w && AllDigits(r)
  {
    if w == 0 then [] else Pad(n / 10, w - 1) + [48 + n % 10]
  }

  function ZoneText(z: Zone): (r: bytes)
    ensures |r| > 0
  {
    match z
    case Utc => [ZULU]
    case Offset(west, hours, minutes, colon) =>
      [if west then DASH else PLUS] + Pad(hours, 2) + (if colon then [COLON] else []) + Pad(minutes, 2)
  }

  /** A date text cut at its separators; seconds and fraction are empty when they are left out. */
  datatype Tokens = Tokens(year: bytes, month: bytes, day: bytes, hour: bytes, minute: bytes, second: bytes,
                           fraction: bytes, zone: bytes)

  function TokensOf(d: Date): Tokens {
    Tokens(Pad(d.year, 4), Pad(d.month, 2), Pad(d.day, 2), Pad(d.hour, 2), Pad(d.minute, 2),
           if d.second.Some? then Pad(d.second.value, 2) else [], d.fraction, ZoneText(d.zone))
  }

  /** A token, the separator behind it, and the rest. */
  function Then(s: bytes, c: byte, rest: bytes): bytes {
    s + [c] + rest
  }

  function Seconds(second: bytes, fraction: bytes, zone: bytes): bytes {
    if fraction == [] then second + zone else Then(second, POINT, fraction + zone)
  }

  function Clock(t: Tokens): bytes {
    if t.second == [] then t.minute + t.zone else Then(t.minute, COLON, Seconds(t.second, t.fraction, t.zone))
  }

  function Join(t: Tokens): bytes {
    Then(t.year, DASH, Then(t.month, DASH, Then(t.day, TEE, Then(t.hour, COLON, Clock(t)))))
  }

  function Text(d: Date): bytes {
    Join(TokensOf(d))
  }

  // ---------------------------------------------------------------------------------------------------------
  // Numbers
  // ---------------------------------------------------------------------------------------------------------

  lemma {:induction false} ValuePad(n: nat, w: nat)
    requires n < Ten.Pow10(w)
    ensures DigitsValue(Pad(n, w)) == n
  {
    if w > 0 {
      ValuePad(n / 10, w - 1);
      assert Pad(n, w)[..w - 1] == Pad(n / 10, w - 1);
    }
  }

  lemma {:induction false} PadValue(s: bytes)
    requires AllDigits(s)
    ensures Pad(DigitsValue(s), |s|) == s && DigitsValue(s) < Ten.Pow10(|s|)
  {
    if s != [] {
      var (front, x) := (s[..|s| - 1], s[|s| - 1] as int - 48);
      PadValue(front);
      assert DigitsValue(s) / 10 == DigitsValue(front) && DigitsValue(s) % 10 == x;
      assert s == front + [48 + x];
    }
  }

  lemma {:induction false} ValueFront(c: byte, s: bytes)
    requires IsDigit(c) && AllDigits(s)
    ensures AllDigits([c] + s) && DigitsValue([c] + s) == (c as int - 48) * Ten.Pow10(|s|) + DigitsValue(s)
  {
    if s == [] {
      assert [c] + s == [c] && [c][..0] == [];
    } else {
      var front := s[..|s| - 1];
      ValueFront(c, front);
      assert ([c] + s)[..|s|] == [c] + front;
      assert DigitsValue([c] + s) == DigitsValue([c] + front) * 10 + (s[|s| - 1] as int - 48);
      TimesTen(c as int - 48, Ten.Pow10(|front|), DigitsValue(front));
    }
  }

  lemma TimesTen(a: int, p: nat, v: nat)
    ensures (a * p + v) * 10 == a * (10 * p) + v * 10
  {
  }

  lemma Powers()
    ensures Ten.Pow10(1) == 10 && Ten.Pow10(2) == 100 && Ten.Pow10(4) == 10000
  {
    assert Ten.Pow10(2) == 100;
  }

  // ---------------------------------------------------------------------------------------------------------
  // Cutting a text
  // ---------------------------------------------------------------------------------------------------------

  /** How long a token is, where reading goes on, and whether a terminal ended it. */
  datatype Token = Token(length: nat, next: nat, found: bool)

  function Tok(text: bytes, i: nat, terminals: bytes): (t: Token)
    requires i <= |text|
    ensures i + t.length <= t.next <= |text|
    ensures if t.found then t.next == i + t.length + 1 && text[i + t.length] in terminals else t.next == i + t.length == |text|
    decreases |text| - i
  {
    if i == |text| then Token(0, i, false)
    else if text[i] in terminals then Token(0, i + 1, true)
    else
      var t := Tok(text, i + 1, terminals);
      Token(t.length + 1, t.next, t.found)
  }

  const DATE_END: bytes := [DASH]
  const DAY_END: bytes := [TEE]
  const HOUR_END: bytes := [COLON]
  const MINUTE_END: bytes := [COLON, PLUS, DASH, ZULU]
  const SECOND_END: bytes := [POINT, PLUS, DASH, ZULU]
  const FRACTION_END: bytes := [PLUS, DASH, ZULU]

  function Cut(text: bytes, i: nat, t: Token): bytes
    requires i + t.length <= |text|
  {
    text[i..i + t.length]
  }

  /** Second, fraction and zone. */
  function SplitSeconds(text: bytes, at: nat): (r: Option<(bytes, bytes, bytes)>)
    requires at <= |text|
    ensures r.Some? ==> r.value.0 != []
  {
    var s := Tok(text, at, SECOND_END);
    if s.length == 0 then None
    else if s.found && text[at + s.length] == POINT then
      if |text| - s.next < 2 then None
      else
        var f := Tok(text, s.next, FRACTION_END);
        if f.length == 0 then None else Some((Cut(text, at, s), Cut(text, s.next, f), text[f.next - 1..]))
    else Some((Cut(text, at, s), [], text[s.next - 1..]))
  }

  /** The tokens behind the hour: minute, second, fraction and zone. */
  function SplitClock(text: bytes, at: nat): (r: Option<(bytes, bytes, bytes, bytes)>)
    requires at <= |text|
  {
    var m := Tok(text, at, MINUTE_END);
    if !m.found then None
    else if text[at + m.length] != COLON then Some((Cut(text, at, m), [], [], text[m.next - 1..]))
    else if |text| - m.next < 2 then None
    else
      var s := SplitSeconds(text, m.next);
      if s == None then None else Some((Cut(text, at, m), s.value.0, s.value.1, s.value.2))
  }

  function Split(text: bytes): Option<Tokens> {
    var y := Tok(text, 0, DATE_END);
    var o := Tok(text, y.next, DATE_END);
    var d := Tok(text, o.next, DAY_END);
    var h := Tok(text, d.next, HOUR_END);
    if !(y.found && o.found && d.found && h.found) then None
    else
      var c := SplitClock(text, h.next);
      if c == None then None
      else
        Some(Tokens(Cut(text, 0, y), Cut(text, y.next, o), Cut(text, o.next, d), Cut(text, d.next, h),
                    c.value.0, c.value.1, c.value.2, c.value.3))
  }

  // ---------------------------------------------------------------------------------------------------------
  // Reading the tokens
  // ---------------------------------------------------------------------------------------------------------

  function Number(s: bytes, digits: nat, lo: nat, hi: nat): Option<nat> {
    if |s| == digits && AllDigits(s) && lo <= DigitsValue(s) <= hi then Some(DigitsValue(s)) else None
  }

  function ZoneOf(z: bytes): Option<Zone> {
    if z == [ZULU] then Some(Utc)
    else if z == [] || (z[0] != PLUS && z[0] != DASH) then None
    else
      var colon := |z| == 6 && z[3] == COLON;
      if |z| != 5 && !colon then None
      else
        var (h, m) := (Number(z[1..3], 2, 0, 23), Number(z[if colon then 4 else 3..], 2, 0, 59));
        if h == None || m == None then None else Some(Offset(z[0] == DASH, h.value, m.value, colon))
  }

  function Fields(t: Tokens): Option<Date> {
    var (y, o, d) := (Number(t.year, 4, 0, 9999), Number(t.month, 2, 1, 12), Number(t.day, 2, 1, 31));
    var (h, m, s) := (Number(t.hour, 2, 0, 23), Number(t.minute, 2, 0, 59), Number(t.second, 2, 0, 60));
    var z := ZoneOf(t.zone);
    if y == None || o == None || d == None || h == None || m == None || (t.second != [] && s == None) || z == None
       || |t.fraction| > 3 || !AllDigits(t.fraction) then None
    else
      Some(Date(y.value, o.value, d.value, h.value, m.value, if t.second == [] then None else s, t.fraction, z.value))
  }

  /** What the parser makes of a text. */
  function ReadDate(text: bytes): Option<Date> {
    var t := Split(text);
    if t == None then None else Fields(t.value)
  }

  // ---------------------------------------------------------------------------------------------------------
  // Exactly the texts of dates are read, and as those dates
  // ---------------------------------------------------------------------------------------------------------

  lemma NumberIff(s: bytes, digits: nat, lo: nat, hi: nat, n: nat)
    requires hi < Ten.Pow10(digits)
    ensures Number(s, digits, lo, hi) == Some(n) <==> lo <= n <= hi && s == Pad(n, digits)
  {
    hide Pad, DigitsValue;
    if AllDigits(s) { PadValue(s); }
    if n <= hi { ValuePad(n, digits); }
  }

  lemma ZoneIff(s: bytes, z: Zone)
    ensures ZoneOf(s) == Some(z) <==> ZoneInRange(z) && s == ZoneText(z)
  {
    hide Pad, Number, Ten.Pow10;
    Powers();
    match z
    case Utc =>
    case Offset(west, hours, minutes, colon) =>
      if |s| == 5 || (|s| == 6 && s[3] == COLON) {
        var c := |s| == 6;
        NumberIff(s[1..3], 2, 0, 23, hours);
        NumberIff(s[if c then 4 else 3..], 2, 0, 59, minutes);
        assert s == [s[0]] + s[1..3] + (if c then [s[3]] else []) + s[if c then 4 else 3..];
        if s == ZoneText(z) {
          OffsetParts(west, hours, minutes, colon);
        }
      }
  }

  lemma OffsetParts(west: bool, hours: nat, minutes: nat, colon: bool)
    ensures var s := ZoneText(Offset(west, hours, minutes, colon));
            && |s| == (if colon then 6 else 5) && s[0] == (if west then DASH else PLUS) && s[1..3] == Pad(hours, 2)
            && s[if colon then 4 else 3..] == Pad(minutes, 2) && (if colon then s[3] == COLON else IsDigit(s[3]))
  {
    hide Pad;
    var s := ZoneText(Offset(west, hours, minutes, colon));
    assert s[if colon then 4 else 3..] == Pad(minutes, 2);
    assert !colon ==> s[3] == s[3..][0];
  }

  lemma FieldsIff(t: Tokens, d: Date)
    requires t.fraction != [] ==> t.second != []
    ensures Fields(t) == Some(d) <==> InRange(d) && t == TokensOf(d)
  {
    hide Pad, Number, ZoneOf, Ten.Pow10, AllDigits, ZoneText;
    Powers();
    NumberIff(t.year, 4, 0, 9999, d.year);
    NumberIff(t.month, 2, 1, 12, d.month);
    NumberIff(t.day, 2, 1, 31, d.day);
    NumberIff(t.hour, 2, 0, 23, d.hour);
    NumberIff(t.minute, 2, 0, 59, d.minute);
    if d.second.Some? { NumberIff(t.second, 2, 0, 60, d.second.value); }
    ZoneIff(t.zone, d.zone);
  }

  ghost predicate Free(s: bytes, terminals: bytes) {
    forall i :: 0 <= i < |s| ==> s[i] !in terminals
  }

  /** A token free of terminals, with a terminal behind it, is cut off as it is. */
  lemma {:induction false} TokFinds(text: bytes, i: nat, s: bytes, terminals: bytes)
    requires i + |s| < |text| && text[i..i + |s|] == s && Free(s, terminals) && text[i + |s|] in terminals
    ensures Tok(text, i, terminals) == Token(|s|, i + |s| + 1, true)
    decreases |s|
  {
    if s != [] {
      assert text[i] == s[0];
      assert text[i + 1..i + 1 + |s[1..]|] == s[1..];
      TokFinds(text, i + 1, s[1..], terminals);
    }
  }

  lemma TokThen(text: bytes, i: nat, s: bytes, c: byte, rest: bytes, terminals: bytes)
    requires i <= |text| && text[i..] == Then(s, c, rest) && Free(s, terminals) && c in terminals
    ensures var t := Tok(text, i, terminals);
            && t == Token(|s|, i + |s| + 1, true) && t.next <= |text| && Cut(text, i, t) == s
            && text[i + |s|] == c && text[t.next..] == rest
  {
    hide Tok, Free;
    assert text[i..i + |s|] == text[i..][..|s|] == s;
    assert text[i + |s|] == text[i..][|s|];
    assert text[i + |s| + 1..] == text[i..][|s| + 1..];
    TokFinds(text, i, s, terminals);
  }

  lemma TokZone(text: bytes, i: nat, s: bytes, zone: bytes, terminals: bytes)
    requires i <= |text| && text[i..] == s + zone && Free(s, terminals) && zone != [] && zone[0] in terminals
    ensures var t := Tok(text, i, terminals);
            && t == Token(|s|, i + |s| + 1, true) && t.next <= |text| && Cut(text, i, t) == s
            && text[i + |s|] == zone[0] && text[t.next - 1..] == zone
  {
    hide Tok, Free;
    assert text[i..i + |s|] == text[i..][..|s|] == s;
    assert text[i + |s|] == text[i..][|s|];
    assert text[i + |s|..] == text[i..][|s|..] == zone;
    TokFinds(text, i, s, terminals);
  }

  /** The other way round: the text is the token, its terminal and the rest. */
  lemma ThenTok(text: bytes, i: nat, terminals: bytes)
    requires i <= |text|
    ensures var t := Tok(text, i, terminals);
            t.found ==> text[i..] == Then(Cut(text, i, t), text[i + t.length], text[t.next..]) && text[i + t.length] in terminals
  {
    hide Tok;
  }

  lemma ZoneTok(text: bytes, i: nat, terminals: bytes)
    requires i <= |text|
    ensures var t := Tok(text, i, terminals); t.found ==> text[i..] == Cut(text, i, t) + text[t.next - 1..]
  {
    hide Tok;
  }

  predicate ZoneStarts(z: bytes) {
    z != [] && (z[0] == PLUS || z[0] == DASH || z[0] == ZULU)
  }

  ghost predicate Separable(t: Tokens) {
    && Free(t.year, DATE_END) && Free(t.month, DATE_END) && Free(t.day, DAY_END) && Free(t.hour, HOUR_END)
    && Free(t.minute, MINUTE_END) && Free(t.second, SECOND_END) && Free(t.fraction, FRACTION_END)
    && (t.fraction != [] ==> t.second != []) && ZoneStarts(t.zone)
  }

  lemma SplitSecondsJoin(text: bytes, at: nat, second: bytes, fraction: bytes, zone: bytes)
    requires at <= |text| && text[at..] == Seconds(second, fraction, zone) && second != [] && ZoneStarts(zone)
    requires Free(second, SECOND_END) && Free(fraction, FRACTION_END)
    ensures SplitSeconds(text, at) == Some((second, fraction, zone)) && |text| - at >= 2
  {
    hide Tok, Free, Then, Cut;
    if fraction == [] {
      TokZone(text, at, second, zone, SECOND_END);
    } else {
      TokThen(text, at, second, POINT, fraction + zone, SECOND_END);
      TokZone(text, at + |second| + 1, fraction, zone, FRACTION_END);
    }
  }

  lemma SplitClockJoin(text: bytes, at: nat, t: Tokens)
    requires Separable(t) && at <= |text| && text[at..] == Clock(t)
    ensures SplitClock(text, at) == Some((t.minute, t.second, t.fraction, t.zone))
  {
    hide Tok, Free, Then, Cut, Seconds, SplitSeconds;
    if t.second == [] {
      TokZone(text, at, t.minute, t.zone, MINUTE_END);
    } else {
      TokThen(text, at, t.minute, COLON, Seconds(t.second, t.fraction, t.zone), MINUTE_END);
      SplitSecondsJoin(text, at + |t.minute| + 1, t.second, t.fraction, t.zone);
    }
  }

  lemma SplitJoin(t: Tokens)
    requires Separable(t)
    ensures Split(Join(t)) == Some(t)
  {
    hide Tok, Free, Clock, SplitClock, Then, Cut;
    var text := Join(t);
    assert text[0..] == text;
    var h := Then(t.hour, COLON, Clock(t));
    var d := Then(t.day, TEE, h);
    var o := Then(t.month, DASH, d);
    TokThen(text, 0, t.year, DASH, o, DATE_END);
    var i := |t.year| + 1;
    TokThen(text, i, t.month, DASH, d, DATE_END);
    i := i + |t.month| + 1;
    TokThen(text, i, t.day, TEE, h, DAY_END);
    i := i + |t.day| + 1;
    TokThen(text, i, t.hour, COLON, Clock(t), HOUR_END);
    i := i + |t.hour| + 1;
    SplitClockJoin(text, i, t);
  }

  lemma JoinSplitSeconds(text: bytes, at: nat)
    requires at <= |text| && SplitSeconds(text, at).Some? && ZoneStarts(SplitSeconds(text, at).value.2)
    ensures var (second, fraction, zone) := SplitSeconds(text, at).value; Seconds(second, fraction, zone) == text[at..]
  {
    hide Tok, Then, Cut;
    var s := Tok(text, at, SECOND_END);
    ThenTok(text, at, SECOND_END);
    ZoneTok(text, at, SECOND_END);
    NoZoneInside(text, at, SECOND_END);
    if s.found && text[at + s.length] == POINT {
      ZoneTok(text, s.next, FRACTION_END);
      NoZoneInside(text, s.next, FRACTION_END);
    }
  }

  lemma JoinSplitClock(text: bytes, at: nat, t: Tokens)
    requires at <= |text| && SplitClock(text, at) == Some((t.minute, t.second, t.fraction, t.zone)) && ZoneStarts(t.zone)
    ensures Clock(t) == text[at..] && (t.fraction != [] ==> t.second != [])
  {
    hide Tok, Then, Cut, Seconds, SplitSeconds;
    var m := Tok(text, at, MINUTE_END);
    ThenTok(text, at, MINUTE_END);
    ZoneTok(text, at, MINUTE_END);
    if text[at + m.length] == COLON {
      JoinSplitSeconds(text, m.next);
    }
  }

  /** A token that runs to the end does not end in anything that starts a zone. */
  lemma {:induction false} NoZoneInside(text: bytes, i: nat, terminals: bytes)
    requires i <= |text| && PLUS in terminals && DASH in terminals && ZULU in terminals
    ensures var t := Tok(text, i, terminals); !t.found && t.length > 0 ==> !ZoneStarts(text[|text| - 1..])
    decreases |text| - i
  {
    if i < |text| && text[i] !in terminals {
      NoZoneInside(text, i + 1, terminals);
    }
  }

  lemma JoinSplit(text: bytes)
    requires Split(text).Some? && ZoneStarts(Split(text).value.zone)
    ensures Join(Split(text).value) == text
    ensures Split(text).value.fraction != [] ==> Split(text).value.second != []
  {
    hide Tok, SplitClock, Clock, Then, Cut;
    var y := Tok(text, 0, DATE_END);
    var o := Tok(text, y.next, DATE_END);
    var d := Tok(text, o.next, DAY_END);
    var h := Tok(text, d.next, HOUR_END);
    ThenTok(text, 0, DATE_END);
    ThenTok(text, y.next, DATE_END);
    ThenTok(text, o.next, DAY_END);
    ThenTok(text, d.next, HOUR_END);
    var t := Split(text).value;
    JoinSplitClock(text, h.next, t);
    assert text[0..] == text;
    assert text[d.next..] == Then(t.hour, COLON, Clock(t));
    assert text[o.next..] == Then(t.day, TEE, text[d.next..]);
    assert text[y.next..] == Then(t.month, DASH, text[o.next..]);
  }

  lemma TokensSeparable(d: Date)
    requires InRange(d)
    ensures Separable(TokensOf(d))
  {
    hide Pad;
  }

  /** The parser accepts exactly the texts of dates with every field in range, and reads those fields. */
  lemma ReadDateIff(text: bytes, d: Date)
    ensures ReadDate(text) == Some(d) <==> InRange(d) && Text(d) == text
  {
    hide Split, Fields, Join, TokensOf, InRange;
    if ReadDate(text) == Some(d) {
      var t := Split(text).value;
      ZoneRead(t, d);
      JoinSplit(text);
      FieldsIff(t, d);
    }
    if InRange(d) && Text(d) == text {
      TokensSeparable(d);
      SplitJoin(TokensOf(d));
      FieldsIff(TokensOf(d), d);
    }
  }

  /** The numbers of a date fit the digits they are written in. */
  predicate Writable(d: Date) {
    && d.year <= 9999 && d.month <= 99 && d.day <= 99 && d.hour <= 99 && d.minute <= 99
    && (d.second.Some? ==> d.second.value <= 99) && (d.fraction != [] ==> d.second.Some?) && AllDigits(d.fraction)
    && (d.zone.Offset? ==> d.zone.hours <= 99 && d.zone.minutes <= 99)
  }

  /** Of all texts of that form those are accepted whose numbers are in range; a leap second is, and no year is not. */
  lemma AcceptedIff(d: Date)
    requires Writable(d)
    ensures ReadDate(Text(d)).Some? <==>
            && 1 <= d.month <= 12 && 1 <= d.day <= 31 && d.hour <= 23 && d.minute <= 59
            && (d.second.Some? ==> d.second.value <= 60) && |d.fraction| <= 3
            && (d.zone.Offset? ==> d.zone.hours <= 23 && d.zone.minutes <= 59)
  {
    hide Pad, Number, Split, Join, ZoneOf, DigitsValue, Ten.Pow10, ZoneText;
    var t := TokensOf(d);
    WritableSeparable(d);
    SplitJoin(t);
    Powers();
    PadRange(d.year, 4, 0, 9999);
    PadRange(d.month, 2, 1, 12);
    PadRange(d.day, 2, 1, 31);
    PadRange(d.hour, 2, 0, 23);
    PadRange(d.minute, 2, 0, 59);
    if d.second.Some? { PadRange(d.second.value, 2, 0, 60); }
    ZoneAccepted(d.zone);
  }

  lemma WritableSeparable(d: Date)
    requires Writable(d)
    ensures Separable(TokensOf(d))
  {
    hide Pad;
  }

  lemma PadRange(n: nat, w: nat, lo: nat, hi: nat)
    requires n < Ten.Pow10(w)
    ensures Number(Pad(n, w), w, lo, hi).Some? <==> lo <= n <= hi
  {
    hide Pad, DigitsValue;
    ValuePad(n, w);
  }

  lemma ZoneAccepted(z: Zone)
    requires z.Offset? ==> z.hours <= 99 && z.minutes <= 99
    ensures ZoneOf(ZoneText(z)).Some? <==> (z.Offset? ==> z.hours <= 23 && z.minutes <= 59)
  {
    hide Pad, Number, Ten.Pow10;
    Powers();
    if z.Offset? {
      OffsetParts(z.west, z.hours, z.minutes, z.colon);
      PadRange(z.hours, 2, 0, 23);
      PadRange(z.minutes, 2, 0, 59);
    }
  }

  lemma ZoneRead(t: Tokens, d: Date)
    requires Fields(t) == Some(d)
    ensures ZoneStarts(t.zone)
  {
    hide Number;
  }

  // ---------------------------------------------------------------------------------------------------------
  // The instant
  // ---------------------------------------------------------------------------------------------------------

  /** The fraction in thousandths. */
  function Thousandths(fraction: bytes): nat
    requires AllDigits(fraction) && |fraction| <= 3
  {
    DigitsValue(fraction) * Ten.Pow10(3 - |fraction|)
  }

  /** Seconds to add to the local time; east of Greenwich they are taken away. */
  function Adjustment(z: Zone): int {
    match z
    case Utc => 0
    case Offset(west, hours, minutes, _) =>
      var s: int := 3600 * hours + 60 * minutes;
      if west then s else -s
  }

  /** Milliseconds since the epoch; days past the end of a short month run on into the next. */
  ghost function Millis(d: Date): int
    requires InRange(d)
  {
    var seconds := 86400 * DayNumber(d.year, d.month - 1, d.day) + 3600 * d.hour + 60 * d.minute
                   + if d.second.Some? then d.second.value else 0;
    1000 * (seconds + Adjustment(d.zone)) + Thousandths(d.fraction)
  }
}
