/** Other ways to write a value that the reader knows: plain numbers, date texts, and the legacy forms of the wrappers. */
module JsonForms {
  import opened CInt
  import opened LittleEndian
  import opened BsonTree
  import opened BsonArguments
  import opened Utf8
  import opened Base64
  import opened JsonText
  import opened JsonMachine
  import opened JsonPrint
  import opened JsonScalars
  import opened JsonRoundTrip

  /** A value as it is written; Canonical is what the canonical printer writes. */
  datatype Form =
    | Canonical(value: Value)
    | PlainInteger(n: int)
    | PlainDouble(bits: int)
    | DateText(text: bytes, millis: int)
    | DateNumber(millis: int)
    | LegacyRegex(pattern: bytes, options: bytes, optionsFirst: bool)
    | LegacyBinary(data: bytes, subtype: byte, subtypeFirst: bool)
    | Uuid(text: bytes, data: bytes)
    | ScopedCode(js: bytes, scope: Forms)
    | Map(members: Forms)
    | List(items: Forms)

  /** The members of a map; those of a list are written without their keys. */
  datatype Forms = NoForms | More(key: bytes, form: Form, rest: Forms)

  function FormEvents(f: Form, p: Printers): seq<Event>
    decreases f, 0
  {
    match f
    case Canonical(v) => ValueEvents(v, p)
    case PlainInteger(n) => [Integer(if n < 0 then -n else n, if n < 0 then -1 else 1)]
    case PlainDouble(bits) => [Float(bits)]
    case DateText(text, _) => Wrapped("$date", [Text(text)])
    case DateNumber(ms) => Wrapped("$date", [Integer(if ms < 0 then -ms else ms, if ms < 0 then -1 else 1)])
    case LegacyRegex(pattern, options, optionsFirst) =>
      if optionsFirst then Wrapped("$options", [Text(options), Key(Ascii("$regex")), Text(pattern)])
      else Wrapped("$regex", [Text(pattern), Key(Ascii("$options")), Text(options)])
    case LegacyBinary(data, subtype, subtypeFirst) =>
      if subtypeFirst then Wrapped("$type", [Text(Hex([subtype])), Key(Ascii("$binary")), Text(Encode(data))])
      else Wrapped("$binary", [Text(Encode(data)), Key(Ascii("$type")), Text(Hex([subtype]))])
    case Uuid(text, _) => Wrapped("$uuid", [Text(text)])
    case ScopedCode(js, scope) =>
      Wrapped("$code", [Text(js), Key(Ascii("$scope"))] + ([StartMap] + FormMembers(scope, p) + [EndMap]))
    case Map(members) => [StartMap] + FormMembers(members, p) + [EndMap]
    case List(items) => [StartArray] + FormItems(items, p) + [EndArray]
  }

  function FormMembers(fs: Forms, p: Printers): seq<Event>
    decreases fs, 0
  {
    match fs
    case NoForms => []
    case More(k, f, rest) => [Key(k)] + FormEvents(f, p) + FormMembers(rest, p)
  }

  function FormItems(fs: Forms, p: Printers): seq<Event>
    decreases fs, 0
  {
    match fs
    case NoForms => []
    case More(_, f, rest) => FormEvents(f, p) + FormItems(rest, p)
  }

  /** What the form stands for. */
  function FormValue(f: Form): Value
    decreases f
  {
    match f
    case Canonical(v) => v
    case PlainInteger(n) => if -2147483648 <= n <= 2147483647 then Int32(n) else Int64(n)
    case PlainDouble(bits) => Double(bits)
    case DateText(_, ms) => DateTime(ms)
    case DateNumber(ms) => DateTime(ms)
    case LegacyRegex(pattern, options, _) => Regex(pattern, SelectedChars(REGEX_OPTIONS_SORTED, options))
    case LegacyBinary(data, subtype, _) => Binary(subtype, data)
    case Uuid(_, data) => Binary(4, data)
    case ScopedCode(js, scope) => CodeWithScope(js, 0, FormsDoc(scope))
    case Map(members) => Document(FormsDoc(members))
    case List(items) => Array(FormsDoc(items))
  }

  function FormsDoc(fs: Forms): Doc
    decreases fs
  {
    match fs
    case NoForms => Nil
    case More(k, f, rest) => Cons(k, FormValue(f), FormsDoc(rest))
  }

  /** The forms that are read: their numbers fit, and their texts are the texts of what they stand for. */
  ghost predicate Written(f: Form, inScope: bool, c: Conversions, p: Printers)
    decreases f
  {
    match f
    case Canonical(v) => Readable(v, inScope, c, p)
    case PlainInteger(n) => INT64_MIN <= n <= INT64_MAX
    case PlainDouble(_) => true
    case DateText(text, ms) => Utf8Valid(text, true) && c.parseDate(text) == Some(ms)
    case DateNumber(ms) => INT64_MIN <= ms <= INT64_MAX
    case LegacyRegex(pattern, options, _) =>
      Utf8Valid(pattern, false) && 0 !in pattern && Utf8Valid(options, false) && 0 !in options
    case LegacyBinary(_, _, _) => true
    case Uuid(text, data) => Utf8Valid(text, true) && 0 !in text && c.scanUuid(text) == Some(data)
    case ScopedCode(js, scope) => !inScope && Utf8Valid(js, true) && 0 !in js && WrittenAll(scope, true, c, p)
    case Map(members) => (members.More? ==> SpecialKey(members.key) == Ordinary) && WrittenAll(members, inScope, c, p)
    case List(items) => FormIndexKeys(items, 0) && WrittenAll(items, inScope, c, p)
  }

  ghost predicate WrittenAll(fs: Forms, inScope: bool, c: Conversions, p: Printers)
    decreases fs
  {
    fs.More? ==> Utf8Valid(fs.key, false) && Written(fs.form, inScope, c, p) && WrittenAll(fs.rest, inScope, c, p)
  }

  predicate FormIndexKeys(fs: Forms, i: nat) {
    fs.More? ==> fs.key == Decimal(i) && FormIndexKeys(fs.rest, i + 1)
  }

  /** Frames a form takes on the reader's stack. */
  function FormDepth(f: Form): nat
    decreases f
  {
    match f
    case Canonical(v) => Depth(v)
    case ScopedCode(_, scope) => 1 + FormsDepth(scope)
    case Map(members) => 1 + FormsDepth(members)
    case List(items) => 1 + FormsDepth(items)
    case _ => 0
  }

  function FormsDepth(fs: Forms): nat
    decreases fs
  {
    match fs
    case NoForms => 0
    case More(_, f, rest) => if FormDepth(f) > FormsDepth(rest) then FormDepth(f) else FormsDepth(rest)
  }

  // ---------------------------------------------------------------------------------------------------------
  // Plain numbers
  // ---------------------------------------------------------------------------------------------------------

  /** A plain integer becomes the smallest type that holds it, sign included; beyond 64 bits it fails. */
  lemma ReadPlainInteger(s: Machine, k: bytes, n: int, c: Conversions)
    requires Ready(s) && FixupKey(s).key == Some(k)
    ensures var t := Run(s, [Integer(if n < 0 then -n else n, if n < 0 then -1 else 1)], c);
            && (t.failed <==> n < -9223372036854775808 || n > 9223372036854775807)
            && (!t.failed ==>
                  Extended(FixupKey(s), t, Cons(k, if -2147483648 <= n <= 2147483647 then Int32(n) else Int64(n), Nil)))
  {
    hide Run, FixupKey, AppendTo, Extended, StepText, StepEndMap, StepStartMap, StepFloat, StepStartArray, StepEndArray,
      StepBoolean, StepNull, StepKey;
    var e := Integer(if n < 0 then -n else n, if n < 0 then -1 else 1);
    var v := if -2147483648 <= n <= 2147483647 then Int32(n) else Int64(n);
    FixupReady(s);
    RunOne(s, e, c);
    AppendExtends(FixupKey(s), FixupKey(s), k, v);
    AppendKeeps(FixupKey(s), k, v);
  }

  lemma ReadPlainDouble(s: Machine, k: bytes, bits: int, c: Conversions)
    requires Ready(s) && FixupKey(s).key == Some(k)
    ensures Extended(FixupKey(s), Run(s, [Float(bits)], c), Cons(k, Double(bits), Nil))
  {
    hide Run, FixupKey, AppendTo, Extended, StepText, StepEndMap, StepStartMap, StepInteger, StepStartArray, StepEndArray,
      StepBoolean, StepNull, StepKey;
    FixupReady(s);
    RunOne(s, Float(bits), c);
    AppendExtends(FixupKey(s), FixupKey(s), k, Double(bits));
  }

  // ---------------------------------------------------------------------------------------------------------
  // Dates
  // ---------------------------------------------------------------------------------------------------------

  lemma ReadDateText(s: Machine, k: bytes, text: bytes, ms: int, c: Conversions)
    requires Ready(s) && FixupKey(s).key == Some(k) && Utf8Valid(text, true) && c.parseDate(text) == Some(ms)
    ensures Extended(FixupKey(s), Run(s, Wrapped("$date", [Text(text)]), c), Cons(k, DateTime(ms), Nil))
  {
    hide Run, SpecialKey, Ascii, Utf8Valid, Step, FixupKey, AppendTo, Extended, ParseBinary, AppendCode, AppendRegex,
      AppendBinary, TypeKey, Ready;
    SpecialKeys();
    LiteralValid("$date");
    var a := Announced(FixupKey(s), (DateType, SeekDate));
    TextStep(a, text, c);
    CollectedRun(s, "$date", (DateType, SeekDate), Text(text), a.(collected := a.collected.(date := ms)), k, DateTime(ms), c);
  }

  lemma ReadDateNumber(s: Machine, k: bytes, ms: int, c: Conversions)
    requires Ready(s) && FixupKey(s).key == Some(k) && INT64_MIN <= ms <= INT64_MAX
    ensures var e := Integer(if ms < 0 then -ms else ms, if ms < 0 then -1 else 1);
            Extended(FixupKey(s), Run(s, Wrapped("$date", [e]), c), Cons(k, DateTime(ms), Nil))
  {
    hide Run, SpecialKey, Ascii, Utf8Valid, Step, FixupKey, AppendTo, Extended, ParseBinary, AppendCode, AppendRegex,
      AppendBinary, TypeKey, Ready;
    SpecialKeys();
    LiteralValid("$date");
    var e := Integer(if ms < 0 then -ms else ms, if ms < 0 then -1 else 1);
    var a := Announced(FixupKey(s), (DateType, SeekDate));
    DateNumberStep(a, ms, c);
    CollectedRun(s, "$date", (DateType, SeekDate), e, a.(collected := a.collected.(date := ms)), k, DateTime(ms), c);
  }

  lemma DateNumberStep(a: Machine, ms: int, c: Conversions)
    requires a.read == InBsonType && a.sought == SeekDate && INT64_MIN <= ms <= INT64_MAX
    ensures Step(a, Integer(if ms < 0 then -ms else ms, if ms < 0 then -1 else 1), c) == a.(collected := a.collected.(date := ms))
  {
    hide StepText, StepStartMap, StepEndMap, StepKey, StepNull, StepFloat, StepStartArray, StepEndArray, StepBoolean,
      AppendRegular;
    FixupIdle(a);
  }

  // ---------------------------------------------------------------------------------------------------------
  // Wrappers with two keys of their own
  // ---------------------------------------------------------------------------------------------------------

  /** A second key that announces the same type. */
  lemma KeyAgain(a: Machine, k: bytes, sought: Sought, c: Conversions)
    requires a.read == InBsonType && Utf8Valid(k, false) && Announces(SpecialKey(k)) == Some((a.wrapper, sought))
    ensures Step(a, Key(k), c) == a.(sought := sought)
  {
    hide StepText, StepEndMap, StepStartMap, StepNull, StepFloat, StepStartArray, StepEndArray, StepInteger, StepBoolean,
      Push, Utf8Valid, Ascii, SpecialKey, CodeOrScopeKey;
  }

  /** The events e, a second key and f; the machine is at a1 after e and at a3 in the end, and appends v. */
  lemma TwoKeys(s: Machine, first: string, second: string, w: Wrapper, one: Sought, two: Sought, e: Event, f: Event,
                a1: Machine, a3: Machine, k: bytes, v: Value, c: Conversions)
    requires Ready(s) && FixupKey(s).key == Some(k)
    requires Announces(SpecialKey(Ascii(first))) == Some((w, one)) && Utf8Valid(Ascii(first), false)
    requires Announces(SpecialKey(Ascii(second))) == Some((w, two)) && Utf8Valid(Ascii(second), false)
    requires Step(Announced(FixupKey(s), (w, one)), e, c) == a1 && !a1.failed && a1.read == InBsonType && a1.wrapper == w
    requires Step(a1.(sought := two), f, c) == a3 && !a3.failed && a3.read == InBsonType
    requires a3.stack == FixupKey(s).stack && a3.n == FixupKey(s).n && a3.key == FixupKey(s).key && a3.code == FixupKey(s).code
    requires AppendWrapped(a3.(read := Regular)) == AppendTo(a3.(read := Regular), k, v)
    ensures var t := Run(s, Wrapped(first, [e, Key(Ascii(second)), f]), c);
            Extended(FixupKey(s), t, Cons(k, v, Nil)) && t.buf1 == a3.buf1
  {
    hide Run, TypeKey, SpecialKey, Ascii, Utf8Valid, AppendWrapped, FixupKey, AppendTo, Step, Wrapped;
    var s1 := FixupKey(s);
    var a := Announced(s1, (w, one));
    var inner := [e, Key(Ascii(second)), f];
    FixupReady(s);
    AnnounceKey(s1, Ascii(first));
    WrapperRun(s, first, inner, c);
    KeyAgain(a1, Ascii(second), two, c);
    RunPath([a, a1, a1.(sought := two), a3], inner, c);
    RunOne(a3, EndMap, c);
    WrapperEnds(a3, c);
    AppendExtends(s1, a3.(read := Regular), k, v);
    AppendBuffer(a3.(read := Regular), k, v);
  }

  lemma AppendBuffer(s: Machine, k: bytes, v: Value)
    ensures AppendTo(s, k, v).buf1 == s.buf1
  {
  }

  lemma WrapperEnds(a: Machine, c: Conversions)
    requires a.read == InBsonType && a.key.Some?
    ensures Step(a, EndMap, c) == AppendWrapped(a.(read := Regular))
  {
    hide StepText, StepStartMap, StepNull, StepFloat, StepStartArray, StepEndArray, StepInteger, StepBoolean, StepKey,
      AppendWrapped;
  }

  lemma LegacyRegexText(a: Machine, text: bytes, c: Conversions)
    requires a.read == InBsonType && (a.sought == SeekRegex || a.sought == SeekOptions) && Utf8Valid(text, false)
    ensures Step(a, Text(text), c)
         == if a.sought == SeekRegex then a.(buf0 := text, collected := a.collected.(legacyRegex := true, hasPattern := true))
            else a.(buf1 := text, collected := a.collected.(legacyRegex := true, hasOptions := true))
  {
    hide StepEndMap, StepStartMap, StepNull, StepFloat, StepStartArray, StepEndArray, StepInteger, StepBoolean, StepKey,
      ParseBinary, Utf8Valid, ParseInt, FixupKey, AppendRegular;
    FixupIdle(a);
  }

  /** The two keys of a legacy regular expression, in either order. */
  lemma ReadLegacyRegex(s: Machine, k: bytes, pattern: bytes, options: bytes, optionsFirst: bool, c: Conversions, p: Printers)
    requires Ready(s) && FixupKey(s).key == Some(k)
    requires Utf8Valid(pattern, false) && 0 !in pattern && Utf8Valid(options, false) && 0 !in options
    ensures Extended(FixupKey(s), Run(s, FormEvents(LegacyRegex(pattern, options, optionsFirst), p), c),
                     Cons(k, Regex(pattern, SelectedChars(REGEX_OPTIONS_SORTED, options)), Nil))
  {
    hide Run, SpecialKey, Ascii, Utf8Valid, FixupKey, Extended, SelectedChars, Wrapped, Ready;
    if optionsFirst { OptionsThenRegex(s, k, pattern, options, c); } else { RegexThenOptions(s, k, pattern, options, c); }
  }

  lemma RegexThenOptions(s: Machine, k: bytes, pattern: bytes, options: bytes, c: Conversions)
    requires Ready(s) && FixupKey(s).key == Some(k)
    requires Utf8Valid(pattern, false) && 0 !in pattern && Utf8Valid(options, false) && 0 !in options
    ensures var t := Run(s, Wrapped("$regex", [Text(pattern), Key(Ascii("$options")), Text(options)]), c);
            && Extended(FixupKey(s), t, Cons(k, Regex(pattern, SelectedChars(REGEX_OPTIONS_SORTED, options)), Nil))
            && t.buf1 == options
  {
    hide Run, SpecialKey, Ascii, Utf8Valid, Step, FixupKey, AppendTo, Extended, TypeKey, SelectedChars, Wrapped, CString,
      AppendBinary, AppendCode;
    FixupReady(s);
    SpecialKeys4();
    LiteralValid("$regex");
    LiteralValid("$options");
    PatternKept(pattern);
    PatternKept(options);
    var a := Announced(FixupKey(s), (RegexType, SeekRegex));
    LegacyRegexText(a, pattern, c);
    var a1 := a.(buf0 := pattern, collected := a.collected.(legacyRegex := true, hasPattern := true));
    LegacyRegexText(a1.(sought := SeekOptions), options, c);
    var a3 := a1.(sought := SeekOptions, buf1 := options, collected := a1.collected.(hasOptions := true));
    TwoKeys(s, "$regex", "$options", RegexType, SeekRegex, SeekOptions, Text(pattern), Text(options), a1, a3, k,
            Regex(pattern, SelectedChars(REGEX_OPTIONS_SORTED, options)), c);
  }

  lemma OptionsThenRegex(s: Machine, k: bytes, pattern: bytes, options: bytes, c: Conversions)
    requires Ready(s) && FixupKey(s).key == Some(k)
    requires Utf8Valid(pattern, false) && 0 !in pattern && Utf8Valid(options, false) && 0 !in options
    ensures Extended(FixupKey(s), Run(s, Wrapped("$options", [Text(options), Key(Ascii("$regex")), Text(pattern)]), c),
                     Cons(k, Regex(pattern, SelectedChars(REGEX_OPTIONS_SORTED, options)), Nil))
  {
    hide Run, SpecialKey, Ascii, Utf8Valid, Step, FixupKey, AppendTo, Extended, TypeKey, SelectedChars, Wrapped, CString,
      AppendBinary, AppendCode;
    FixupReady(s);
    SpecialKeys4();
    LiteralValid("$regex");
    LiteralValid("$options");
    PatternKept(pattern);
    PatternKept(options);
    var a := Announced(FixupKey(s), (RegexType, SeekOptions));
    LegacyRegexText(a, options, c);
    var a1 := a.(buf1 := options, collected := a.collected.(legacyRegex := true, hasOptions := true));
    LegacyRegexText(a1.(sought := SeekRegex), pattern, c);
    var a3 := a1.(sought := SeekRegex, buf0 := pattern, collected := a1.collected.(hasPattern := true));
    TwoKeys(s, "$options", "$regex", RegexType, SeekOptions, SeekRegex, Text(options), Text(pattern), a1, a3, k,
            Regex(pattern, SelectedChars(REGEX_OPTIONS_SORTED, options)), c);
  }

  /**
   * A regular expression written without options gets those of the last one read: the buffer is not cleared. It has none
   * exactly when none of the known letters is left there.
   */
  lemma ReadRegexAlone(s: Machine, k: bytes, pattern: bytes, c: Conversions)
    requires Ready(s) && FixupKey(s).key == Some(k) && Utf8Valid(pattern, false) && 0 !in pattern
    ensures Extended(FixupKey(s), Run(s, Wrapped("$regex", [Text(pattern)]), c),
                     Cons(k, Regex(pattern, SelectedChars(REGEX_OPTIONS_SORTED, CString(s.buf1))), Nil))
    ensures SelectedChars(REGEX_OPTIONS_SORTED, CString(s.buf1)) == [] <==>
            forall x <- CString(s.buf1) :: x != 'i' as int && x != 'l' as int && x != 'm' as int && x != 's' as int
                                           && x != 'u' as int && x != 'x' as int
  {
    hide Run, SpecialKey, Ascii, Utf8Valid, Step, FixupKey, AppendTo, Extended, TypeKey, SelectedChars, Wrapped, CString;
    FixupReady(s);
    SpecialKeys4();
    LiteralValid("$regex");
    var options := SelectedChars(REGEX_OPTIONS_SORTED, CString(s.buf1));
    var w := (RegexType, SeekRegex);
    var a := Announced(FixupKey(s), w);
    FixupBuffer(s);
    LegacyRegexText(a, pattern, c);
    var b := a.(buf0 := pattern, collected := a.collected.(legacyRegex := true, hasPattern := true));
    PatternKept(pattern);
    BufferedRun(s, "$regex", w, Text(pattern), b, k, Regex(pattern, options), c);
    NoLetters(CString(s.buf1));
  }

  lemma FixupBuffer(s: Machine)
    ensures FixupKey(s).buf1 == s.buf1
  {
  }

  lemma PatternKept(pattern: bytes)
    requires 0 !in pattern
    ensures CString(pattern) == pattern
  {
  }

  lemma NoLetters(given: bytes)
    ensures SelectedChars(REGEX_OPTIONS_SORTED, given) == [] <==>
            forall x <- given :: x != 'i' as int && x != 'l' as int && x != 'm' as int && x != 's' as int
                                 && x != 'u' as int && x != 'x' as int
  {
    hide SelectedChars;
    var r := SelectedChars(REGEX_OPTIONS_SORTED, given);
    if r != [] { assert r[0] in r; }
    assert r == [] ==> forall x :: x !in r;
  }

  /** As CollectedRun, for a scalar that also goes into a buffer. */
  lemma BufferedRun(s: Machine, name: string, w: (Wrapper, Sought), e: Event, b: Machine, k: bytes, v: Value, c: Conversions)
    requires Ready(s) && FixupKey(s).key == Some(k)
    requires Announces(SpecialKey(Ascii(name))) == Some(w) && Utf8Valid(Ascii(name), false)
    requires Step(Announced(FixupKey(s), w), e, c) == b && !b.failed && b.read == InBsonType
    requires b.stack == FixupKey(s).stack && b.n == FixupKey(s).n && b.key == FixupKey(s).key && b.code == FixupKey(s).code
    requires AppendWrapped(b.(read := Regular)) == AppendTo(b.(read := Regular), k, v)
    ensures Extended(FixupKey(s), Run(s, Wrapped(name, [e]), c), Cons(k, v, Nil))
  {
    hide Run, TypeKey, SpecialKey, Ascii, Utf8Valid, AppendWrapped, FixupKey, AppendTo, Step;
    FixupReady(s);
    AnnounceKey(FixupKey(s), Ascii(name));
    ScalarRun(s, name, e, c);
    AppendExtends(FixupKey(s), b.(read := Regular), k, v);
  }

  // Binaries

  lemma LegacyBinaryText(a: Machine, text: bytes, c: Conversions)
    requires a.read == InBsonType && (a.sought == SeekBinary || a.sought == SeekType || a.sought == SeekUuid)
    requires Utf8Valid(text, true) && 0 !in text
    ensures Step(a, Text(text), c)
         == ParseBinary(if a.sought == SeekUuid then a else a.(collected := a.collected.(legacyBinary := true)), text, c)
  {
    hide StepEndMap, StepStartMap, StepNull, StepFloat, StepStartArray, StepEndArray, StepInteger, StepBoolean, StepKey,
      ParseBinary, Utf8Valid, FixupKey, CString;
    FixupIdle(a);
  }

  lemma LegacyData(a: Machine, data: bytes, c: Conversions)
    requires a.read == InBsonType && a.sought == SeekBinary
    ensures Step(a, Text(Encode(data)), c) == a.(buf0 := data, collected := a.collected.(legacyBinary := true, hasBinary := true))
  {
    hide Step, Encode, Utf8Valid, Decode, Strip, FromHex;
    EncodedText(data);
    LegacyBinaryText(a, Encode(data), c);
  }

  lemma LegacySubtype(a: Machine, sub: byte, c: Conversions)
    requires a.read == InBsonType && a.sought == SeekType
    ensures Step(a, Text(Hex([sub])), c)
         == a.(collected := a.collected.(legacyBinary := true, hasSubtype := true, subtype := sub))
  {
    hide Step, Utf8Valid, Decode, Strip, FromHex, Hex, AppendTo, Push, Ascii;
    var text := Hex([sub]);
    HexAscii([sub]);
    HexRoundTrip([sub]);
    assert |text| == 2 && text[0] in text && text[1] in text;
    assert FromHex(text)[0] == sub;
    LegacyBinaryText(a, text, c);
  }

  /** The two keys of a legacy binary, in either order. */
  lemma ReadLegacyBinary(s: Machine, k: bytes, data: bytes, sub: byte, subtypeFirst: bool, c: Conversions, p: Printers)
    requires Ready(s) && FixupKey(s).key == Some(k)
    ensures Extended(FixupKey(s), Run(s, FormEvents(LegacyBinary(data, sub, subtypeFirst), p), c), Cons(k, Binary(sub, data), Nil))
  {
    hide Run, SpecialKey, Ascii, Utf8Valid, FixupKey, Extended, Wrapped, Ready, Encode, Hex;
    if subtypeFirst { TypeThenBinary(s, k, data, sub, c); } else { BinaryThenType(s, k, data, sub, c); }
  }

  lemma BinaryThenType(s: Machine, k: bytes, data: bytes, sub: byte, c: Conversions)
    requires Ready(s) && FixupKey(s).key == Some(k)
    ensures Extended(FixupKey(s), Run(s, Wrapped("$binary", [Text(Encode(data)), Key(Ascii("$type")), Text(Hex([sub]))]), c),
                     Cons(k, Binary(sub, data), Nil))
  {
    hide Run, SpecialKey, Ascii, Utf8Valid, Step, FixupKey, AppendTo, Extended, TypeKey, Wrapped, Encode, Hex, AppendRegex,
      AppendCode;
    FixupReady(s);
    SpecialKeys();
    SpecialKeys4();
    LiteralValid("$binary");
    LiteralValid("$type");
    var a := Announced(FixupKey(s), (BinaryType, SeekBinary));
    LegacyData(a, data, c);
    var a1 := a.(buf0 := data, collected := a.collected.(legacyBinary := true, hasBinary := true));
    LegacySubtype(a1.(sought := SeekType), sub, c);
    var a3 := a1.(sought := SeekType, collected := a1.collected.(hasSubtype := true, subtype := sub));
    TwoKeys(s, "$binary", "$type", BinaryType, SeekBinary, SeekType, Text(Encode(data)), Text(Hex([sub])), a1, a3, k,
            Binary(sub, data), c);
  }

  lemma TypeThenBinary(s: Machine, k: bytes, data: bytes, sub: byte, c: Conversions)
    requires Ready(s) && FixupKey(s).key == Some(k)
    ensures Extended(FixupKey(s), Run(s, Wrapped("$type", [Text(Hex([sub])), Key(Ascii("$binary")), Text(Encode(data))]), c),
                     Cons(k, Binary(sub, data), Nil))
  {
    hide Run, SpecialKey, Ascii, Utf8Valid, Step, FixupKey, AppendTo, Extended, TypeKey, Wrapped, Encode, Hex, AppendRegex,
      AppendCode;
    FixupReady(s);
    SpecialKeys();
    SpecialKeys4();
    LiteralValid("$binary");
    LiteralValid("$type");
    var a := Announced(FixupKey(s), (BinaryType, SeekType));
    LegacySubtype(a, sub, c);
    var a1 := a.(collected := a.collected.(legacyBinary := true, hasSubtype := true, subtype := sub));
    LegacyData(a1.(sought := SeekBinary), data, c);
    var a3 := a1.(sought := SeekBinary, buf0 := data, collected := a1.collected.(hasBinary := true));
    TwoKeys(s, "$type", "$binary", BinaryType, SeekType, SeekBinary, Text(Hex([sub])), Text(Encode(data)), a1, a3, k,
            Binary(sub, data), c);
  }

  lemma ReadUuid(s: Machine, k: bytes, text: bytes, data: bytes, c: Conversions)
    requires Ready(s) && FixupKey(s).key == Some(k) && Utf8Valid(text, true) && 0 !in text && c.scanUuid(text) == Some(data)
    ensures Extended(FixupKey(s), Run(s, Wrapped("$uuid", [Text(text)]), c), Cons(k, Binary(4, data), Nil))
  {
    hide Run, SpecialKey, Ascii, Utf8Valid, Step, FixupKey, AppendTo, Extended, TypeKey, Wrapped, AppendRegex, AppendCode;
    FixupReady(s);
    SpecialKeys4();
    LiteralValid("$uuid");
    var w := (BinaryType, SeekUuid);
    var a := Announced(FixupKey(s), w);
    UuidStep(a, text, data, c);
    var b := a.(buf0 := data, collected := a.collected.(hasBinary := true, hasSubtype := true, subtype := 4));
    BufferedRun(s, "$uuid", w, Text(text), b, k, Binary(4, data), c);
  }

  lemma UuidStep(a: Machine, text: bytes, data: bytes, c: Conversions)
    requires a.read == InBsonType && a.sought == SeekUuid && Utf8Valid(text, true) && 0 !in text && c.scanUuid(text) == Some(data)
    ensures Step(a, Text(text), c)
         == a.(buf0 := data, collected := a.collected.(hasBinary := true, hasSubtype := true, subtype := 4))
  {
    hide Step, Utf8Valid, Decode, Strip, FromHex, AppendTo, Push, Ascii;
    LegacyBinaryText(a, text, c);
  }

  // ---------------------------------------------------------------------------------------------------------
  // Maps and lists of forms
  // ---------------------------------------------------------------------------------------------------------

  /** Whether a map is a document shows at its first key or at its end; from then on its frame is there. */
  lemma MapOpens(a: Machine, fs: Forms, c: Conversions, p: Printers)
    requires !a.failed && a.read == InStartMap && CanPush(a) && (fs.More? ==> Utf8Valid(fs.key, false))
    requires a.n >= 0 && fs.More? ==> SpecialKey(fs.key) == Ordinary
    ensures var u := Push(a.(read := Regular), DocFrame, KeyOf(a));
            Run(a, FormMembers(fs, p) + [EndMap], c) == Run(u, FormMembers(fs, p) + [EndMap], c)
  {
    hide Run, Utf8Valid, Step, SpecialKey, FormEvents;
    var u := Push(a.(read := Regular), DocFrame, KeyOf(a));
    FirstEvent(a, u, FormsDoc(fs), c);
    OpensSame(a, u, fs, c, p);
  }

  lemma OpensSame(a: Machine, u: Machine, fs: Forms, c: Conversions, p: Printers)
    requires !a.failed && !u.failed
    requires var e := if fs.NoForms? then EndMap else Key(fs.key); Step(a, e, c) == Step(u, e, c)
    ensures Run(a, FormMembers(fs, p) + [EndMap], c) == Run(u, FormMembers(fs, p) + [EndMap], c)
  {
    hide Run, Step, FormEvents;
    match fs
    case NoForms =>
      assert FormMembers(fs, p) + [EndMap] == [EndMap];
      RunOne(a, EndMap, c);
      RunOne(u, EndMap, c);
    case More(k, f, rest) =>
      var tail := FormEvents(f, p) + FormMembers(rest, p) + [EndMap];
      assert FormMembers(fs, p) + [EndMap] == [Key(k)] + tail;
      RunCons(a, Key(k), tail, c);
      RunCons(u, Key(k), tail, c);
  }

  lemma ReadMap(s: Machine, k: bytes, fs: Forms, c: Conversions, p: Printers)
    requires Ready(s) && FixupKey(s).key == Some(k) && CanPush(s) && Written(Map(fs), s.code.inScope, c, p)
    requires var u := Push(FixupKey(s), DocFrame, k); Extended(u, Run(u, FormMembers(fs, p), c), FormsDoc(fs))
    ensures Extended(FixupKey(s), Run(s, FormEvents(Map(fs), p), c), Cons(k, Document(FormsDoc(fs)), Nil))
  {
    hide Run, Utf8Valid, Step, SpecialKey, FixupKey, FormMembers;
    var s1 := FixupKey(s);
    var a := s1.(read := InStartMap);
    var u := Push(s1, DocFrame, k);
    var t := Run(u, FormMembers(fs, p), c);
    FixupReady(s);
    StartMapStep(s, c);
    assert FormEvents(Map(fs), p) == [StartMap] + (FormMembers(fs, p) + [EndMap]);
    RunCons(s, StartMap, FormMembers(fs, p) + [EndMap], c);
    MapOpens(a, fs, c, p);
    RunSplit(u, FormMembers(fs, p), [EndMap], c);
    RunOne(t, EndMap, c);
    ExtendedFills(s1, u, t, DocFrame, k, FormsDoc(fs));
    DocCloses(s1, t, k, FormsDoc(fs), false, c);
  }

  lemma ReadList(s: Machine, k: bytes, fs: Forms, c: Conversions, p: Printers)
    requires Ready(s) && FixupKey(s).key == Some(k) && CanPush(s)
    requires var u := Push(FixupKey(s), ArrayFrame, k); Indexed(u, Run(u, FormItems(fs, p), c), FormsDoc(fs))
    ensures Extended(FixupKey(s), Run(s, FormEvents(List(fs), p), c), Cons(k, Array(FormsDoc(fs)), Nil))
  {
    hide Run, Utf8Valid, Step, SpecialKey, FixupKey, FormItems;
    var s1 := FixupKey(s);
    var u := Push(s1, ArrayFrame, k);
    var t := Run(u, FormItems(fs, p), c);
    FixupReady(s);
    StartArrayStep(s, c);
    assert FormEvents(List(fs), p) == [StartArray] + (FormItems(fs, p) + [EndArray]);
    RunCons(s, StartArray, FormItems(fs, p) + [EndArray], c);
    RunSplit(u, FormItems(fs, p), [EndArray], c);
    RunOne(t, EndArray, c);
    Pushed(s1, ArrayFrame, k);
    DocCloses(s1, t, k, FormsDoc(fs), true, c);
  }

  lemma ReadScopedCode(s: Machine, k: bytes, js: bytes, scope: Forms, c: Conversions, p: Printers)
    requires Ready(s) && FixupKey(s).key == Some(k) && CanPush(s) && !s.code.inScope && Utf8Valid(js, true) && 0 !in js
    requires scope.More? ==> Utf8Valid(scope.key, false)
    requires var u := InsideScope(FixupKey(s), k, js); Extended(u, Run(u, FormMembers(scope, p), c), FormsDoc(scope))
    ensures Extended(FixupKey(s), Run(s, FormEvents(ScopedCode(js, scope), p), c),
                     Cons(k, CodeWithScope(js, 0, FormsDoc(scope)), Nil))
  {
    hide Run, SpecialKey, Ascii, Utf8Valid, Step, FixupKey, Extended, TypeKey, FormMembers;
    SpecialKeys3();
    LiteralValid("$code");
    var s1 := FixupKey(s);
    FixupReady(s);
    CodeKey(s1, k, Ascii("$code"), js, c);
    var inner := [Text(js), Key(Ascii("$scope"))] + ([StartMap] + FormMembers(scope, p) + [EndMap]);
    WrapperRun(s, "$code", inner, c);
    ScopedInside(s1, TypeKey(InWrapper(s1), Ascii("$code")), k, js, scope, c, p);
  }

  lemma ScopedInside(s: Machine, a: Machine, k: bytes, js: bytes, scope: Forms, c: Conversions, p: Printers)
    requires Ready(s) && s.key == Some(k) && CanPush(s) && !s.code.inScope && 0 !in js
    requires scope.More? ==> Utf8Valid(scope.key, false)
    requires !a.failed && Step(a, Text(js), c) == CodeRead(s, k, js)
    requires var u := InsideScope(s, k, js); Extended(u, Run(u, FormMembers(scope, p), c), FormsDoc(scope))
    ensures var inner := [Text(js), Key(Ascii("$scope"))] + ([StartMap] + FormMembers(scope, p) + [EndMap]);
            Extended(s, Run(Run(a, inner, c), [EndMap], c), Cons(k, CodeWithScope(js, 0, FormsDoc(scope)), Nil))
  {
    hide Run, Ascii, Utf8Valid, Step, FormMembers, FormsDoc, Extended, InsideScope, CodeRead, Ready;
    var members := FormMembers(scope, p) + [EndMap];
    var first := [Text(js), Key(Ascii("$scope")), StartMap];
    Regrouped(Text(js), Key(Ascii("$scope")), StartMap, FormMembers(scope, p), EndMap);
    RunSplit(a, first, members, c);
    ScopedStarts(s, a, k, js, scope, c);
    OpensSame(ScopeDue(s, k, js).(read := InScope), InsideScope(s, k, js), scope, c, p);
    ScopedEnds(s, k, js, scope, c, p);
  }

  lemma Regrouped(x: Event, y: Event, z: Event, m: seq<Event>, e: Event)
    ensures [x, y] + ([z] + m + [e]) == [x, y, z] + (m + [e])
  {
  }

  lemma ScopedStarts(s: Machine, a: Machine, k: bytes, js: bytes, scope: Forms, c: Conversions)
    requires Ready(s) && s.key == Some(k) && CanPush(s) && !s.code.inScope && !a.failed
    requires scope.More? ==> Utf8Valid(scope.key, false)
    requires Step(a, Text(js), c) == CodeRead(s, k, js)
    ensures var b := ScopeDue(s, k, js).(read := InScope);
            var u := InsideScope(s, k, js);
            var e := if scope.NoForms? then EndMap else Key(scope.key);
            Run(a, [Text(js), Key(Ascii("$scope")), StartMap], c) == b && Step(b, e, c) == Step(u, e, c) && !b.failed && !u.failed
  {
    hide Run, SpecialKey, Ascii, Utf8Valid, Step, TypeKey, Push;
    SpecialKeys3();
    LiteralValid("$scope");
    var due := ScopeDue(s, k, js);
    var b := due.(read := InScope);
    ScopeKey(s, k, js, Ascii("$scope"), c);
    StartInside(due, c);
    RunPath([a, CodeRead(s, k, js), due, b], [Text(js), Key(Ascii("$scope")), StartMap], c);
    FirstEvent(b, InsideScope(s, k, js), if scope.NoForms? then Nil else Cons(scope.key, Null, Nil), c);
  }

  lemma ScopedEnds(s: Machine, k: bytes, js: bytes, scope: Forms, c: Conversions, p: Printers)
    requires Ready(s) && s.key == Some(k) && CanPush(s) && !s.code.inScope && 0 !in js
    requires var u := InsideScope(s, k, js); Extended(u, Run(u, FormMembers(scope, p), c), FormsDoc(scope))
    ensures var u := InsideScope(s, k, js);
            Extended(s, Run(Run(u, FormMembers(scope, p) + [EndMap], c), [EndMap], c),
                     Cons(k, CodeWithScope(js, 0, FormsDoc(scope)), Nil))
  {
    hide Run, Step, FormMembers;
    var due := ScopeDue(s, k, js);
    var u := InsideScope(s, k, js);
    var t := Run(u, FormMembers(scope, p), c);
    RunSplit(u, FormMembers(scope, p), [EndMap], c);
    RunOne(t, EndMap, c);
    Pushed(due.(read := Regular, code := CodeData(true, true, true, k, js)), ScopeFrame, []);
    ScopeFills(s, u, t, FormsDoc(scope));
    ScopeCloses(s, t, k, js, FormsDoc(scope), c);
    RunOne(Step(t, EndMap, c), EndMap, c);
  }

  lemma ReadPlainForm(s: Machine, k: bytes, f: Form, c: Conversions, p: Printers)
    requires Ready(s) && FixupKey(s).key == Some(k) && Written(f, s.code.inScope, c, p) && s.n + FormDepth(f) < STACK_MAX
    requires !f.Map? && !f.List? && !f.ScopedCode?
    ensures Extended(FixupKey(s), Run(s, FormEvents(f, p), c), Cons(k, FormValue(f), Nil))
  {
    hide Run, Utf8Valid, Step, SpecialKey, FixupKey, Extended, Ready, Push, SelectedChars, Hex, Ascii, TypeKey, Wrapped,
      Readable, Depth, ValueEvents, Encode;
    match f
    case Canonical(v) => ReadValue(s, k, v, c, p);
    case PlainInteger(n) => ReadPlainInteger(s, k, n, c);
    case PlainDouble(bits) => ReadPlainDouble(s, k, bits, c);
    case DateText(text, ms) => ReadDateText(s, k, text, ms, c);
    case DateNumber(ms) => ReadDateNumber(s, k, ms, c);
    case LegacyRegex(pattern, options, first) => ReadLegacyRegex(s, k, pattern, options, first, c, p);
    case LegacyBinary(data, sub, first) => ReadLegacyBinary(s, k, data, sub, first, c, p);
    case Uuid(text, data) => ReadUuid(s, k, text, data, c);
    case _ =>
  }

  lemma {:induction false} ReadForm(s: Machine, k: bytes, f: Form, c: Conversions, p: Printers)
    requires Ready(s) && FixupKey(s).key == Some(k) && Written(f, s.code.inScope, c, p) && s.n + FormDepth(f) < STACK_MAX
    ensures Extended(FixupKey(s), Run(s, FormEvents(f, p), c), Cons(k, FormValue(f), Nil))
    decreases f, 0
  {
    hide Run, Utf8Valid, Step, SpecialKey, FixupKey, FormEvents, FormMembers, FormItems, Extended, Ready, Push;
    match f
    case Map(fs) =>
      NestedReady(s, DocFrame, k);
      ReadFormMembers(Push(FixupKey(s), DocFrame, k), fs, c, p);
      ReadMap(s, k, fs, c, p);
    case List(fs) =>
      NestedReady(s, ArrayFrame, k);
      ReadFormItems(Push(FixupKey(s), ArrayFrame, k), fs, 0, c, p);
      ReadList(s, k, fs, c, p);
    case ScopedCode(js, scope) =>
      ScopeReady(s, k, js);
      ReadFormMembers(InsideScope(FixupKey(s), k, js), scope, c, p);
      ReadScopedCode(s, k, js, scope, c, p);
    case _ => ReadPlainForm(s, k, f, c, p);
  }

  lemma {:induction false} ReadFormMembers(s: Machine, fs: Forms, c: Conversions, p: Printers)
    requires Ready(s) && Kind(s) != ArrayFrame && WrittenAll(fs, s.code.inScope, c, p) && s.n + FormsDepth(fs) < STACK_MAX
    ensures Extended(s, Run(s, FormMembers(fs, p), c), FormsDoc(fs))
    decreases fs, 0
  {
    hide Run, Utf8Valid, Step, SpecialKey, FixupKey, FormEvents, Written, FormDepth, Push, FormValue;
    match fs
    case NoForms =>
      EmptyRun(s, c);
    case More(k, f, rest) =>
      var s1 := s.(key := Some(k));
      RegularKey(s, k, c);
      RegularIdle(s1);
      ReadForm(s1, k, f, c, p);
      var t := Run(s1, FormEvents(f, p), c);
      KindKept(s1, t, Cons(k, FormValue(f), Nil));
      ReadFormMembers(t, rest, c, p);
      ExtendedTwice(s1, t, Run(t, FormMembers(rest, p), c), Cons(k, FormValue(f), Nil), FormsDoc(rest));
      assert Append(Cons(k, FormValue(f), Nil), FormsDoc(rest)) == FormsDoc(fs);
      assert FormMembers(fs, p) == [Key(k)] + (FormEvents(f, p) + FormMembers(rest, p));
      RunCons(s, Key(k), FormEvents(f, p) + FormMembers(rest, p), c);
      RunSplit(s1, FormEvents(f, p), FormMembers(rest, p), c);
  }

  lemma {:induction false} ReadFormItems(s: Machine, fs: Forms, i: nat, c: Conversions, p: Printers)
    requires Ready(s) && Kind(s) == ArrayFrame && s.stack[s.n].i == i && FormIndexKeys(fs, i)
    requires WrittenAll(fs, s.code.inScope, c, p) && s.n + FormsDepth(fs) < STACK_MAX
    ensures Indexed(s, Run(s, FormItems(fs, p), c), FormsDoc(fs))
    decreases fs, 0
  {
    hide Run, Utf8Valid, Step, SpecialKey, FixupKey, FormEvents, Written, FormDepth, Push, Decimal, FormValue;
    match fs
    case NoForms =>
      EmptyRun(s, c);
    case More(k, f, rest) =>
      NextIndex(s);
      var s1 := FixupKey(s);
      ReadForm(s, k, f, c, p);
      var t := Run(s, FormEvents(f, p), c);
      KindKept(s1, t, Cons(k, FormValue(f), Nil));
      ReadFormItems(t, rest, i + 1, c, p);
      IndexedNext(s, s1, t, Run(t, FormItems(rest, p), c), k, FormValue(f), FormsDoc(rest));
      RunSplit(s, FormEvents(f, p), FormItems(rest, p), c);
  }

  /** A document written in any of the forms, at any depth, is read as what the forms stand for. */
  lemma ReadForms(fs: Forms, target: Doc, c: Conversions, p: Printers)
    requires WrittenAll(fs, false, c, p) && FormsDepth(fs) < 100
    ensures Finished(Run(Start(target), [StartMap] + FormMembers(fs, p) + [EndMap], c), Append(target, FormsDoc(fs)))
  {
    hide Run, Step, FormMembers, Push, SpecialKey, Utf8Valid, Finished, Start, FormsDepth;
    var s := Start(target);
    AtStart(target);
    var u := Push(s, DocFrame, []);
    RootReady(target, DocFrame);
    RootStarts(target, c);
    assert [StartMap] + FormMembers(fs, p) + [EndMap] == [StartMap] + (FormMembers(fs, p) + [EndMap]);
    RunCons(s, StartMap, FormMembers(fs, p) + [EndMap], c);
    MapOpens(s.(read := InStartMap), fs, c, p);
    ReadFormMembers(u, fs, c, p);
    var t := Run(u, FormMembers(fs, p), c);
    KindKept(u, t, FormsDoc(fs));
    RunSplit(u, FormMembers(fs, p), [EndMap], c);
    RunOne(t, EndMap, c);
    RootCloses(t, false, c);
  }

  // ---------------------------------------------------------------------------------------------------------
  // Whole texts
  // ---------------------------------------------------------------------------------------------------------

  /** Behind the first key of the outermost map. */
  function AtFirstKey(target: Doc, k: bytes): Machine {
    Push(Start(target), DocFrame, []).(key := Some(k))
  }

  lemma FirstKey(target: Doc, k: bytes, rest: seq<Event>, c: Conversions)
    requires Utf8Valid(k, false)
    ensures var u := AtFirstKey(target, k);
            && Run(Start(target), [StartMap, Key(k)] + rest, c) == Run(u, rest, c)
            && Ready(u) && u.n == 0 && Kind(u) == DocFrame && u.stack[0].doc == target && FixupKey(u) == u
  {
    hide Run, Step, Push, SpecialKey, Utf8Valid;
    var (s, u) := (Start(target), Push(Start(target), DocFrame, []));
    AtStart(target);
    RootReady(target, DocFrame);
    RootStarts(target, c);
    assert [StartMap, Key(k)] + rest == [StartMap] + ([Key(k)] + rest);
    RunCons(s, StartMap, [Key(k)] + rest, c);
    RunCons(s.(read := InStartMap), Key(k), rest, c);
    FirstEvent(s.(read := InStartMap), u, Cons(k, Null, Nil), c);
    RegularKey(u, k, c);
    RegularIdle(AtFirstKey(target, k));
  }

  lemma LastEnd(target: Doc, k: bytes, t: Machine, d: Doc, c: Conversions)
    requires Extended(AtFirstKey(target, k), t, d)
    ensures Finished(Run(t, [EndMap], c), Append(target, d))
  {
    hide Run, Step, Push, Finished;
    RootReady(target, DocFrame);
    KindKept(AtFirstKey(target, k), t, d);
    RunOne(t, EndMap, c);
    RootCloses(t, false, c);
  }

  /** A plain integer under any key: read with its sign in the smallest type, or refused beyond 64 bits. */
  lemma PlainIntegerText(target: Doc, k: bytes, n: int, c: Conversions)
    requires Utf8Valid(k, false)
    ensures var t := Run(Start(target), [StartMap, Key(k), Integer(if n < 0 then -n else n, if n < 0 then -1 else 1), EndMap], c);
            var v := if -2147483648 <= n <= 2147483647 then Int32(n) else Int64(n);
            if -9223372036854775808 <= n <= 9223372036854775807 then Finished(t, Append(target, Cons(k, v, Nil)))
            else t.failed
  {
    hide Run, Step, Push, SpecialKey, Utf8Valid, Finished, Start, Extended, FixupKey;
    var e := Integer(if n < 0 then -n else n, if n < 0 then -1 else 1);
    var v := if -2147483648 <= n <= 2147483647 then Int32(n) else Int64(n);
    var u := AtFirstKey(target, k);
    FirstKey(target, k, [e] + [EndMap], c);
    assert [StartMap, Key(k), e, EndMap] == [StartMap, Key(k)] + ([e] + [EndMap]);
    RunSplit(u, [e], [EndMap], c);
    ReadPlainInteger(u, k, n, c);
    var t := Run(u, [e], c);
    if t.failed { FailedStays(t, [EndMap], c); } else { LastEnd(target, k, t, Cons(k, v, Nil), c); }
  }

  /** Of two regular expressions in a document the second is written without options: it is read with those of the first. */
  lemma OptionsLinger(k1: bytes, k2: bytes, first: bytes, options: bytes, second: bytes, c: Conversions)
    requires Utf8Valid(k1, false) && Utf8Valid(k2, false)
    requires Utf8Valid(first, false) && 0 !in first && Utf8Valid(second, false) && 0 !in second
    requires Utf8Valid(options, false) && 0 !in options
    ensures var chars := SelectedChars(REGEX_OPTIONS_SORTED, options);
            var x := Wrapped("$regex", [Text(first), Key(Ascii("$options")), Text(options)]);
            var y := Wrapped("$regex", [Text(second)]);
            Finished(Run(Start(Nil), [StartMap, Key(k1)] + (x + ([Key(k2)] + (y + [EndMap]))), c),
                     Cons(k1, Regex(first, chars), Cons(k2, Regex(second, chars), Nil)))
  {
    hide Run, Step, Push, SpecialKey, Utf8Valid, Finished, Start, Wrapped, SelectedChars, Ascii, FixupKey, CString;
    var x := Wrapped("$regex", [Text(first), Key(Ascii("$options")), Text(options)]);
    var y := Wrapped("$regex", [Text(second)]);
    var chars := SelectedChars(REGEX_OPTIONS_SORTED, options);
    var (one, two) := (Cons(k1, Regex(first, chars), Nil), Cons(k2, Regex(second, chars), Nil));
    var u := AtFirstKey(Nil, k1);
    FirstKey(Nil, k1, x + ([Key(k2)] + (y + [EndMap])), c);
    RunSplit(u, x, [Key(k2)] + (y + [EndMap]), c);
    RegexThenOptions(u, k1, first, options, c);
    var t := Run(u, x, c);
    KindKept(u, t, one);
    RunCons(t, Key(k2), y + [EndMap], c);
    RegularKey(t, k2, c);
    var w := t.(key := Some(k2));
    RegularIdle(w);
    RunSplit(w, y, [EndMap], c);
    PatternKept(options);
    ReadRegexAlone(w, k2, second, c);
    ExtendedTwice(u, w, Run(w, y, c), one, two);
    assert Append(one, two) == Cons(k1, Regex(first, chars), two);
    LastEnd(Nil, k1, Run(w, y, c), Append(one, two), c);
    AppendToNil(Append(one, two));
  }

  lemma AppendToNil(d: Doc)
    ensures Append(Nil, d) == d
  {
  }
}
