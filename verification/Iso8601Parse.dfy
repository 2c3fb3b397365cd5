/** The parser of date texts, and the printer whose texts it reads back. */
module Iso8601Parse {
  import opened CInt
  import opened Calendar
  import opened LittleEndian
  import opened JsonText
  import opened Iso8601
  import opened Timegm
  import Ten = Decimal

  /** get_tok: moves over the text up to and past the first terminal. */
  method GetTok(terminals: bytes, text: bytes, at: nat) returns (found: bool, length: nat, ptr: nat)
    requires at <= |text|
    ensures Token(length, ptr, found) == Tok(text, at, terminals)
  {
    found, ptr := false, at;
    var outLength: int := -1;
    while ptr < |text| && !found
      invariant at <= ptr <= |text| && outLength == ptr - at - 1 && (found ==> ptr > at)
      invariant if found then Tok(text, at, terminals) == Token(ptr - 1 - at, ptr, true)
                else var t := Tok(text, ptr, terminals); Tok(text, at, terminals) == Token(ptr - at + t.length, t.next, t.found)
      decreases |text| - ptr
    {
      for terminal := 0 to |terminals|
        invariant !found && text[ptr] !in terminals[..terminal]
      {
        if text[ptr] == terminals[terminal] {
          found := true;
          break;
        }
        assert terminals[..terminal + 1] == terminals[..terminal] + [terminals[terminal]];
      }
      assert terminals[..|terminals|] == terminals;
      ptr, outLength := ptr + 1, outLength + 1;
    }
    if !found {
      outLength := outLength + 1;
    }
    length := outLength;
  }

  method DigitsOnly(s: bytes) returns (only: bool)
    ensures only == AllDigits(s)
  {
    for i := 0 to |s|
      invariant AllDigits(s[..i])
    {
      if !IsDigit(s[i]) {
        return false;
      }
    }
    assert s[..|s|] == s;
    return true;
  }

  /** The digits from the last one on, each times its power of ten. */
  method Digits(s: bytes) returns (value: nat)
    requires AllDigits(s)
    ensures value == DigitsValue(s)
  {
    hide DigitsValue, Ten.Pow10, AllDigits;
    value := 0;
    var magnitude := 1;
    Nothing(s);
    for i := 1 to |s| + 1
      invariant magnitude == Ten.Pow10(i - 1)
      invariant Suffix(s, |s| - i + 1) && value == DigitsValue(s[|s| - i + 1..])
    {
      DigitAt(s, |s| - i);
      assert s[|s| - i..] == [s[|s| - i]] + s[|s| - i + 1..];
      ValueFront(s[|s| - i], s[|s| - i + 1..]);
      NextPower(i - 1);
      value := value + (s[|s| - i] as int - 48) * magnitude;
      magnitude := magnitude * 10;
    }
    assert s[0..] == s;
  }

  /** The digits from i on are digits. */
  ghost predicate Suffix(s: bytes, i: int) {
    0 <= i <= |s| && AllDigits(s[i..]) && forall c <- s[i..] :: IsDigit(c)
  }

  lemma Nothing(s: bytes)
    ensures Ten.Pow10(0) == 1 && AllDigits(s[|s|..]) && DigitsValue(s[|s|..]) == 0
  {
  }

  lemma DigitAt(s: bytes, i: nat)
    requires AllDigits(s) && i < |s|
    ensures IsDigit(s[i])
  {
  }

  lemma NextPower(n: nat)
    ensures Ten.Pow10(n + 1) == 10 * Ten.Pow10(n)
  {
  }

  /** parse_num; a negative number of digits stands for any. */
  method ParseNum(s: bytes, digits: int, lo: int, hi: int) returns (n: Option<nat>)
    ensures n.Some? <==> (digits < 0 || |s| == digits) && AllDigits(s) && lo <= DigitsValue(s) <= hi
    ensures n.Some? ==> n.value == DigitsValue(s)
  {
    if digits >= 0 && |s| != digits {
      return None;
    }
    var only := DigitsOnly(s);
    if !only {
      return None;
    }
    var value := Digits(s);
    if value < lo || value > hi {
      return None;
    }
    return Some(value);
  }

  // ---------------------------------------------------------------------------------------------------------
  // The parser
  // ---------------------------------------------------------------------------------------------------------

  method CutClock(text: bytes, at: nat) returns (r: Option<(bytes, bytes, bytes, bytes)>)
    requires at <= |text|
    ensures r == SplitClock(text, at)
  {
    hide Tok;
    var second, fraction := [], [];
    var found, minuteLength, ptr := GetTok(MINUTE_END, text, at);
    if !found {
      return None;
    }
    var minute := text[at..at + minuteLength];
    if text[at + minuteLength] == COLON {
      if |text| - ptr < 2 {
        return None;
      }
      var secondAt, secondLength := ptr, 0;
      found, secondLength, ptr := GetTok(SECOND_END, text, ptr);
      if secondLength == 0 {
        return None;
      }
      second := text[secondAt..secondAt + secondLength];
      if found && text[secondAt + secondLength] == POINT {
        if |text| - ptr < 2 {
          return None;
        }
        var fractionAt, fractionLength := ptr, 0;
        found, fractionLength, ptr := GetTok(FRACTION_END, text, ptr);
        if fractionLength == 0 {
          return None;
        }
        fraction := text[fractionAt..fractionAt + fractionLength];
      }
    }
    ptr := ptr - 1;
    return Some((minute, second, fraction, text[ptr..]));
  }

  method CutText(text: bytes) returns (t: Option<Tokens>)
    ensures t == Split(text)
  {
    hide Tok, SplitClock;
    var found, yearLength, monthAt := GetTok(DATE_END, text, 0);
    if !found {
      return None;
    }
    var monthLength, dayAt, dayLength, hourAt, hourLength, minuteAt;
    found, monthLength, dayAt := GetTok(DATE_END, text, monthAt);
    if !found {
      return None;
    }
    found, dayLength, hourAt := GetTok(DAY_END, text, dayAt);
    if !found {
      return None;
    }
    found, hourLength, minuteAt := GetTok(HOUR_END, text, hourAt);
    if !found {
      return None;
    }
    var clock := CutClock(text, minuteAt);
    if clock == None {
      return None;
    }
    return Some(Tokens(text[0..yearLength], text[monthAt..monthAt + monthLength], text[dayAt..dayAt + dayLength],
                       text[hourAt..hourAt + hourLength], clock.value.0, clock.value.1, clock.value.2, clock.value.3));
  }

  /** The time zone: the seconds it adds to the local time. */
  method ParseZone(z: bytes) returns (adjustment: Option<int>)
    ensures adjustment.Some? == ZoneOf(z).Some?
    ensures adjustment.Some? ==> adjustment.value == Adjustment(ZoneOf(z).value) && -86400 < adjustment.value < 86400
  {
    hide DigitsValue;
    if |z| == 1 && z[0] == ZULU {
      return Some(0);
    }
    if |z| > 0 && (z[0] == PLUS || z[0] == DASH) {
      var four, two, minutes := false, false, false;
      if |z| == 5 {
        four := DigitsOnly(z[1..5]);
      } else if |z| == 6 {
        two := DigitsOnly(z[1..3]);
        minutes := DigitsOnly(z[4..6]);
      }
      if !four && !(two && z[3] == COLON && minutes) {
        NotAllDigits(z);
        return None;
      }
      SomeDigits(z, four);
      var hour := ParseNum(z[1..3], -1, -23, 23);
      if hour == None {
        return None;
      }
      var offset := if z[3] == COLON then 1 else 0;
      var minute := ParseNum(z[3 + offset..5 + offset], -1, 0, 59);
      if minute == None {
        return None;
      }
      return Some((if z[0] == DASH then 1 else -1) * (minute.value * 60 + hour.value * 60 * 60));
    }
    return None;
  }

  lemma NotAllDigits(z: bytes)
    requires |z| > 0 && (z[0] == PLUS || z[0] == DASH)
    requires |z| == 5 ==> !AllDigits(z[1..5])
    requires |z| == 6 ==> !(AllDigits(z[1..3]) && z[3] == COLON && AllDigits(z[4..6]))
    ensures ZoneOf(z) == None
  {
    if |z| == 5 {
      assert z[1..5] == z[1..3] + z[3..];
    } else if |z| == 6 {
      assert z[4..6] == z[4..];
    }
  }

  lemma SomeDigits(z: bytes, four: bool)
    requires if four then |z| == 5 && AllDigits(z[1..5]) else |z| == 6 && AllDigits(z[1..3]) && z[3] == COLON && AllDigits(z[4..6])
    ensures AllDigits(z[1..3]) && z[if four then 3 else 4..] == (if four then z[3..5] else z[4..6]) && (four ==> z[3] != COLON)
  {
    if four {
      assert z[1..5][..2] == z[1..3] && z[1..5][2] == z[3];
    }
  }

  /** The milliseconds a fraction of a second stands for. */
  method ParseFraction(fraction: bytes) returns (millis: Option<nat>)
    ensures millis.Some? <==> |fraction| <= 3 && AllDigits(fraction)
    ensures millis.Some? ==> millis.value == Thousandths(fraction) <= 999
  {
    var value := 0;
    if |fraction| > 0 {
      var only := DigitsOnly(fraction);
      if |fraction| > 3 || !only {
        return None;
      }
      value := Digits(fraction);
      if |fraction| == 1 {
        value := value * 100;
      } else if |fraction| == 2 {
        value := value * 10;
      }
      FractionFits(fraction);
      if value < 0 || value > 1000 {
        return None;
      }
    }
    FractionFits(fraction);
    return Some(value);
  }

  lemma FractionFits(fraction: bytes)
    requires |fraction| <= 3 && AllDigits(fraction)
    ensures Thousandths(fraction) <= 999
    ensures Thousandths(fraction) == DigitsValue(fraction) * if |fraction| == 1 then 100 else if |fraction| == 2 then 10 else 1
    ensures |fraction| == 0 ==> Thousandths(fraction) == 0
  {
    hide DigitsValue;
    PadValue(fraction);
    assert Ten.Pow10(2) == 100 && Ten.Pow10(3) == 1000 && Ten.Pow10(0) == 1 && Ten.Pow10(1) == 10;
    if |fraction| == 0 { Nothing(fraction); }
  }

  method ParseDay(t: Tokens) returns (r: Option<(nat, nat, nat)>)
    ensures r.Some? == (Number(t.year, 4, 0, 9999).Some? && Number(t.month, 2, 1, 12).Some? && Number(t.day, 2, 1, 31).Some?)
    ensures r.Some? ==> r.value == (DigitsValue(t.year), DigitsValue(t.month), DigitsValue(t.day))
  {
    hide DigitsValue;
    var year := ParseNum(t.year, 4, -9999, 9999);
    if year == None { return None; }
    var month := ParseNum(t.month, 2, 1, 12);
    if month == None { return None; }
    var day := ParseNum(t.day, 2, 1, 31);
    if day == None { return None; }
    return Some((year.value, month.value, day.value));
  }

  method ParseClock(t: Tokens) returns (r: Option<(nat, nat, nat)>)
    ensures r.Some? == (Number(t.hour, 2, 0, 23).Some? && Number(t.minute, 2, 0, 59).Some?
                        && (t.second != [] ==> Number(t.second, 2, 0, 60).Some?))
    ensures r.Some? ==> r.value == (DigitsValue(t.hour), DigitsValue(t.minute), if t.second != [] then DigitsValue(t.second) else 0)
  {
    hide DigitsValue;
    var hour := ParseNum(t.hour, 2, 0, 23);
    if hour == None { return None; }
    var minute := ParseNum(t.minute, 2, 0, 59);
    if minute == None { return None; }
    var second := Some(0);
    if |t.second| > 0 {
      second := ParseNum(t.second, 2, 0, 60);
      if second == None { return None; }
    }
    return Some((hour.value, minute.value, second.value));
  }

  /** _bson_iso8601_date_parse. */
  method DateParse(text: bytes) returns (millis: Option<int>)
    ensures millis.Some? == ReadDate(text).Some?
    ensures ReadDate(text).Some? ==> InRange(ReadDate(text).value) && millis.value == Millis(ReadDate(text).value)
  {
    hide DigitsValue, Ten.Pow10, Split, ZoneOf, DaysBeforeYear, DaysBeforeMonth, IsLeap, Thousandths, Number;
    hide TotalSeconds, Millis, InRange;
    var t := CutText(text);
    if t == None {
      return None;
    }
    var day := ParseDay(t.value);
    if day == None { return None; }
    var clock := ParseClock(t.value);
    if clock == None { return None; }
    var adjustment := ParseZone(t.value.zone);
    if adjustment == None { return None; }
    var fraction := ParseFraction(t.value.fraction);
    if fraction == None { return None; }
    ghost var d := ReadDate(text).value;
    ReadDateIff(text, d);
    NumberValue(t.value);
    InRangeSmall(d);
    var (year: int, month: int, mday: int) := day.value;
    var posixDate := Tm(clock.value.2, clock.value.1, clock.value.0, mday, month - 1, year - 1900, 0, 0);
    var ok, seconds, out := TimegmInternal(posixDate);
    FieldsInstant(d, posixDate);
    return Some(1000 * seconds + fraction.value + adjustment.value * 1000);
  }

  lemma NumberValue(t: Tokens)
    requires Fields(t).Some?
    ensures var d := Fields(t).value;
            && AllDigits(t.year) && d.year == DigitsValue(t.year) && AllDigits(t.month) && d.month == DigitsValue(t.month)
            && AllDigits(t.day) && d.day == DigitsValue(t.day) && AllDigits(t.hour) && d.hour == DigitsValue(t.hour)
            && AllDigits(t.minute) && d.minute == DigitsValue(t.minute)
            && (t.second != [] ==> AllDigits(t.second) && d.second == Some(DigitsValue(t.second)))
            && (t.second == [] ==> d.second == None)
  {
    hide DigitsValue, ZoneOf;
  }

  lemma InRangeSmall(d: Date)
    requires InRange(d)
    ensures d.year <= 9999 && 1 <= d.month <= 12 && d.day <= 31 && d.hour <= 23 && d.minute <= 59
    ensures (d.second.Some? ==> d.second.value <= 60) && |d.fraction| <= 3 && AllDigits(d.fraction)
  {
  }

  lemma FieldsInstant(d: Date, tm: Tm)
    requires InRange(d) && tm.year == d.year - 1900 && tm.mon == d.month - 1 && tm.mday == d.day && tm.hour == d.hour
    requires tm.min == d.minute && tm.sec == if d.second.Some? then d.second.value else 0
    ensures Millis(d) == 1000 * TotalSeconds(tm) + 1000 * Adjustment(d.zone) + Thousandths(d.fraction)
  {
    hide DayNumber, Thousandths;
  }

  /** A text is accepted exactly when it is the text of a date with its fields in range, as that date's instant. */
  method DateParseIff(text: bytes, ghost d: Date) returns (millis: Option<int>)
    ensures InRange(d) && Text(d) == text ==> millis == Some(Millis(d))
    ensures millis.Some? ==> exists e :: InRange(e) && Text(e) == text && millis == Some(Millis(e))
  {
    hide ReadDate, Text, InRange;
    millis := DateParse(text);
    ReadDateIff(text, d);
    if millis.Some? { ReadDateIff(text, ReadDate(text).value); }
  }

  /** The instant of a date in closed form: local time less the offset, which is positive east of Greenwich. */
  lemma MillisClosed(d: Date)
    requires InRange(d)
    ensures var offset: int := match d.zone
              case Utc => 0
              case Offset(west, hours, minutes, _) =>
                var o: int := 3600 * hours + 60 * minutes;
                if west then -o else o;
            var second := if d.second.Some? then d.second.value else 0;
            Millis(d) == 1000 * (86400 * GregorianDay(d.year, d.month - 1, d.day) + 3600 * d.hour + 60 * d.minute + second - offset)
                         + Thousandths(d.fraction)
    ensures Thousandths(d.fraction)
         == (if |d.fraction| > 0 then 100 * (d.fraction[0] as int - 48) else 0)
            + (if |d.fraction| > 1 then 10 * (d.fraction[1] as int - 48) else 0)
            + (if |d.fraction| > 2 then d.fraction[2] as int - 48 else 0)
  {
    hide DayNumber, GregorianDay;
    DayNumberClosed(d.year, d.month - 1, d.day);
    ThousandthsDigits(d.fraction);
  }

  lemma ThousandthsDigits(f: bytes)
    requires |f| <= 3 && AllDigits(f)
    ensures Thousandths(f) == (if |f| > 0 then 100 * (f[0] as int - 48) else 0)
                              + (if |f| > 1 then 10 * (f[1] as int - 48) else 0)
                              + (if |f| > 2 then f[2] as int - 48 else 0)
  {
    hide DigitsValue;
    FractionFits(f);
    DigitsUpTo3(f);
  }

  lemma DigitsUpTo3(f: bytes)
    requires |f| <= 3 && AllDigits(f)
    ensures DigitsValue(f) == if |f| == 0 then 0 else if |f| == 1 then f[0] as int - 48
                              else if |f| == 2 then 10 * (f[0] as int - 48) + (f[1] as int - 48)
                              else 100 * (f[0] as int - 48) + 10 * (f[1] as int - 48) + (f[2] as int - 48)
  {
    if |f| > 0 {
      var g := f[..|f| - 1];
      DigitsUpTo3(g);
    }
  }

  /** The text of a date, character by character, up to the hour. */
  lemma DayLiteral(d: Date)
    requires InRange(d)
    ensures Text(d)
         == [48 + d.year / 1000, 48 + d.year / 100 % 10, 48 + d.year / 10 % 10, 48 + d.year % 10, '-' as int,
             48 + d.month / 10, 48 + d.month % 10, '-' as int, 48 + d.day / 10, 48 + d.day % 10, 'T' as int,
             48 + d.hour / 10, 48 + d.hour % 10, ':' as int]
            + Clock(TokensOf(d))
  {
    hide Pad, Clock;
    Pad4(d.year);
    Pad2(d.month);
    Pad2(d.day);
    Pad2(d.hour);
  }

  /** What follows the hour; the seconds and their fraction may be left out. */
  lemma ClockLiteral(d: Date)
    requires InRange(d)
    ensures Clock(TokensOf(d))
         == [48 + d.minute / 10, 48 + d.minute % 10]
            + (if d.second.Some? then [':' as int, 48 + d.second.value / 10, 48 + d.second.value % 10] else [])
            + (if d.fraction != [] then ['.' as int] + d.fraction else [])
            + ZoneText(d.zone)
  {
    hide Pad, ZoneText;
    Pad2(d.minute);
    if d.second.Some? { Pad2(d.second.value); }
  }

  lemma ZoneLiteral(z: Zone)
    requires ZoneInRange(z)
    ensures ZoneText(z)
         == match z
            case Utc => ['Z' as int]
            case Offset(west, hours, minutes, colon) =>
              [if west then '-' as int else '+' as int, 48 + hours / 10, 48 + hours % 10]
              + (if colon then [':' as int] else []) + [48 + minutes / 10, 48 + minutes % 10]
  {
    hide Pad;
    if z.Offset? { Pad2(z.hours); Pad2(z.minutes); }
  }

  lemma Pad2(n: nat)
    ensures n < 100 ==> Pad(n, 2) == [48 + n / 10, 48 + n % 10]
  {
  }

  lemma Pad4(n: nat)
    ensures n < 10000 ==> Pad(n, 4) == [48 + n / 1000, 48 + n / 100 % 10, 48 + n / 10 % 10, 48 + n % 10]
  {
    if n < 10000 {
      Pad2(n / 100);
      PadTwice(n);
      assert n / 100 / 10 == n / 1000;
    }
  }

  lemma PadTwice(n: nat)
    ensures Pad(n, 4) == Pad(n / 100, 2) + [48 + n / 10 % 10, 48 + n % 10]
  {
    assert n / 10 / 10 == n / 100;
    var (m, two) := (n / 10, Pad(n / 100, 2));
    assert Pad(m, 3) == two + [48 + m % 10];
  }

  lemma ThenAppend(s: bytes, c: byte, a: bytes, b: bytes)
    ensures Then(s, c, a + b) == Then(s, c, a) + b
  {
  }

  lemma ZoneLast(t: Tokens, zone: bytes)
    ensures Join(t.(zone := zone)) == Join(t.(zone := [])) + zone
  {
    hide Then;
    assert forall a: bytes :: a + [] + zone == a + zone;
    if t.second != [] {
      if t.fraction != [] { ThenAppend(t.second, POINT, t.fraction + [], zone); }
      ThenAppend(t.minute, COLON, Seconds(t.second, t.fraction, []), zone);
    }
    var clock := Clock(t.(zone := []));
    ThenAppend(t.hour, COLON, clock, zone);
    ThenAppend(t.day, TEE, Then(t.hour, COLON, clock), zone);
    ThenAppend(t.month, DASH, Then(t.day, TEE, Then(t.hour, COLON, clock)), zone);
    ThenAppend(t.year, DASH, Then(t.month, DASH, Then(t.day, TEE, Then(t.hour, COLON, clock))), zone);
  }

  /** Replacing Z by an offset shifts the instant by exactly that offset. */
  lemma ZoneShifts(d: Date, z: Zone)
    requires InRange(d) && d.zone == Utc && ZoneInRange(z)
    ensures var (s, e) := (Text(d), d.(zone := z));
            && s != [] && s[|s| - 1] == ZULU && InRange(e) && Text(e) == s[..|s| - 1] + ZoneText(z)
            && ReadDate(Text(e)) == Some(e) && Millis(e) == Millis(d) + 1000 * Adjustment(z)
  {
    hide ReadDate, Pad, Thousandths, DayNumber, Join;
    ReadDateIff(Text(d.(zone := z)), d.(zone := z));
    ZoneLast(TokensOf(d), [ZULU]);
    ZoneLast(TokensOf(d), ZoneText(z));
    assert TokensOf(d).(zone := [ZULU]) == TokensOf(d) && TokensOf(d.(zone := z)) == TokensOf(d).(zone := ZoneText(z));
    assert Text(d)[..|Text(d)| - 1] == Join(TokensOf(d).(zone := []));
  }

  // ---------------------------------------------------------------------------------------------------------
  // The printer
  // ---------------------------------------------------------------------------------------------------------

  /** strftime with %Y-%m-%dT%H:%M:%S, for years of four digits. */
  function Strftime(tm: Tm): bytes
    requires tm.year >= -1900 && tm.mon >= 0 && tm.mday >= 0 && tm.hour >= 0 && tm.min >= 0 && tm.sec >= 0
  {
    Pad(TM_YEAR_BASE + tm.year, 4) + [DASH] + Pad(tm.mon + 1, 2) + [DASH] + Pad(tm.mday, 2) + [TEE]
    + Pad(tm.hour, 2) + [COLON] + Pad(tm.min, 2) + [COLON] + Pad(tm.sec, 2)
  }

  /** The date of a civil time; a fraction of zero is left out. */
  function DateOf(tm: Tm, msec: nat): Date
    requires tm.year >= -1900 && tm.mon >= 0 && tm.mday >= 0 && tm.hour >= 0 && tm.min >= 0 && tm.sec >= 0
  {
    Date(1900 + tm.year, tm.mon + 1, tm.mday, tm.hour, tm.min, Some(tm.sec), if msec != 0 then Pad(msec, 3) else [], Utc)
  }

  /** A date is that of an instant, by its civil time. */
  ghost predicate IsDateAt(d: Date, tm: Tm, millis: int) {
    && tm.year >= -1900 && tm.mon >= 0 && tm.mday >= 0 && tm.hour >= 0 && tm.min >= 0 && tm.sec >= 0
    && Civil(tm, millis / 1000) && d == DateOf(tm, millis % 1000)
  }

  /** The first instant of the year 10000. */
  lemma Year10000()
    ensures 86_400_000 * DaysBeforeYear(10000) == 253_402_300_800_000
  {
    hide DaysBeforeYear;
    FirstOfMonth(10000, 0);
  }

  /**
   * mcommon_iso8601_string_append: the text of the civil date of the instant, which gmtime_r gives, with the
   * milliseconds if there are any.
   */
  method Print(millis: int64) returns (text: bytes)
    requires 0 <= millis < 253_402_300_800_000
    ensures exists d, tm :: InRange(d) && IsDateAt(d, tm, millis) && text == Text(d) && Millis(d) == millis
  {
    hide DaysBeforeYear, DaysBeforeMonth, Strftime, Text, InRange, Millis, Civil;
    Year10000();
    var msecPart, t := millis % 1000, millis / 1000;
    SmallYear(t);
    var tm := Timesub(t);
    CivilYear(tm.value, t);
    text := Strftime(tm.value);
    if msecPart != 0 {
      text := text + [POINT] + Pad(msecPart, 3) + [ZULU];
    } else {
      text := text + [ZULU];
    }
    PrintedIsText(tm.value, t, msecPart);
    assert IsDateAt(DateOf(tm.value, msecPart), tm.value, millis);
  }

  lemma SmallYear(t: int)
    requires 0 <= t < 86_400 * DaysBeforeYear(10000)
    ensures Representable(t)
  {
    YearsMonotone(INT_MIN + TM_YEAR_BASE, 1970);
    YearsMonotone(10000, INT_MAX + 1);
  }

  lemma CivilYear(tm: Tm, t: int)
    requires Civil(tm, t) && 0 <= t < 86_400 * DaysBeforeYear(10000)
    ensures 1970 <= TM_YEAR_BASE + tm.year <= 9999
    ensures 0 <= tm.mon < 12 && 1 <= tm.mday <= 31 && 0 <= tm.hour < 24 && 0 <= tm.min < 60 && 0 <= tm.sec < 60
  {
    hide DaysBeforeYear, DaysBeforeMonth, IsLeap;
    var y := TM_YEAR_BASE + tm.year;
    ValidDateInYear(y, tm.mon, tm.mday);
    DaysOf(t, DayNumber(y, tm.mon, tm.mday), tm);
    if y < 1970 {
      YearsMonotone(y + 1, 1970);
      EpochDay();
    } else if y > 9999 {
      YearsMonotone(10000, y);
    }
  }

  lemma EpochDay()
    ensures DaysBeforeYear(1970) == 0
  {
  }

  lemma DaysOf(t: int, n: int, tm: Tm)
    requires t == 86400 * n + 3600 * tm.hour + 60 * tm.min + tm.sec
    requires 0 <= tm.hour < 24 && 0 <= tm.min < 60 && 0 <= tm.sec < 60
    ensures 86400 * n <= t < 86400 * (n + 1)
  {
  }

  lemma PrintedIsText(tm: Tm, t: int, msec: nat)
    requires Civil(tm, t) && 0 <= t < 86_400 * DaysBeforeYear(10000) && msec < 1000
    ensures 1970 <= TM_YEAR_BASE + tm.year && tm.mon >= 0 && tm.mday >= 0 && tm.hour >= 0 && tm.min >= 0 && tm.sec >= 0
    ensures var d := DateOf(tm, msec);
            InRange(d) && Millis(d) == 1000 * t + msec
            && Text(d) == Strftime(tm) + (if msec != 0 then [POINT] + Pad(msec, 3) else []) + [ZULU]
  {
    hide Pad, DaysBeforeYear, DaysBeforeMonth, IsLeap;
    CivilYear(tm, t);
    var fraction := if msec != 0 then Pad(msec, 3) else [];
    var d := DateOf(tm, msec);
    FractionPad(msec);
    assert Text(d) == Strftime(tm) + (if msec != 0 then [POINT] + Pad(msec, 3) else []) + [ZULU];
  }

  lemma FractionPad(msec: nat)
    requires msec < 1000
    ensures AllDigits([]) && Thousandths([]) == 0 && Thousandths(Pad(msec, 3)) == msec
  {
    hide Pad, DigitsValue;
    assert Ten.Pow10(3) == 1000;
    ValuePad(msec, 3);
    var none: bytes := [];
    Nothing(none);
    assert none[|none|..] == none;
  }

  /** Every instant from the epoch up to the year 10000 is parsed back from its printed text. */
  method PrintAndParse(millis: int64) returns (back: Option<int>)
    requires 0 <= millis < 253_402_300_800_000
    ensures back == Some(millis)
  {
    hide DaysBeforeYear, Text, InRange, Millis, IsDateAt;
    var text := Print(millis);
    ghost var d, tm :| InRange(d) && IsDateAt(d, tm, millis) && text == Text(d) && Millis(d) == millis;
    back := DateParseIff(text, d);
  }
}
