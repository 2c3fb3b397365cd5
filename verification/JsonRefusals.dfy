/** Wrappers the canonical printer does not write: those that are refused, and those that are read all the same. */
module JsonRefusals {
  import opened CInt
  import opened LittleEndian
  import opened BsonTree
  import opened BsonArguments
  import opened Utf8
  import opened Base64
  import opened JsonText
  import opened JsonMachine
  import opened JsonPrint
  import opened JsonScalars
  import opened JsonRoundTrip
  import opened JsonForms

  // ---------------------------------------------------------------------------------------------------------
  // Scalars of any text
  // ---------------------------------------------------------------------------------------------------------

  /** A text that fails inside a wrapper. */
  lemma RefusedText(s: Machine, name: string, w: (Wrapper, Sought), e: Event, c: Conversions)
    requires Ready(s) && Announces(SpecialKey(Ascii(name))) == Some(w) && Utf8Valid(Ascii(name), false)
    requires Step(Announced(FixupKey(s), w), e, c).failed
    ensures Run(s, Wrapped(name, [e]), c).failed
  {
    hide Run, TypeKey, SpecialKey, Ascii, Utf8Valid, FixupKey, Step;
    FixupReady(s);
    AnnounceKey(FixupKey(s), Ascii(name));
    WrapperRun(s, name, [e], c);
    var a := Announced(FixupKey(s), w);
    RunOne(a, e, c);
    FailedStays(Step(a, e, c), [EndMap], c);
  }

  /** The text of a 32-bit integer: read as what it says, or refused. */
  lemma ReadInt32Text(s: Machine, k: bytes, text: bytes, c: Conversions)
    requires Ready(s) && FixupKey(s).key == Some(k) && Utf8Valid(text, true)
    ensures var (t, i) := (Run(s, Wrapped("$numberInt", [Text(text)]), c), ParseInt(text));
            if i.Some? && -2147483648 <= i.value <= 2147483647 then Extended(FixupKey(s), t, Cons(k, Int32(i.value), Nil))
            else t.failed
  {
    hide Run, SpecialKey, Ascii, Utf8Valid, ParseInt, Step, FixupKey, AppendTo, Extended, ParseBinary,
      AppendCode, AppendRegex, AppendBinary, TypeKey, Ready, Wrapped;
    SpecialKeys();
    LiteralValid("$numberInt");
    var w := (Int32Type, SeekInt32);
    var (a, i) := (Announced(FixupKey(s), w), ParseInt(text));
    TextStep(a, text, c);
    if i.Some? && -2147483648 <= i.value <= 2147483647 {
      CollectedRun(s, "$numberInt", w, Text(text), a.(collected := a.collected.(int32 := i.value)), k, Int32(i.value), c);
    } else {
      RefusedText(s, "$numberInt", w, Text(text), c);
    }
  }

  lemma ReadInt64Text(s: Machine, k: bytes, text: bytes, c: Conversions)
    requires Ready(s) && FixupKey(s).key == Some(k) && Utf8Valid(text, true)
    ensures var (t, i) := (Run(s, Wrapped("$numberLong", [Text(text)]), c), ParseInt(text));
            if i.Some? then Extended(FixupKey(s), t, Cons(k, Int64(i.value), Nil)) else t.failed
  {
    hide Run, SpecialKey, Ascii, Utf8Valid, ParseInt, Step, FixupKey, AppendTo, Extended, ParseBinary,
      AppendCode, AppendRegex, AppendBinary, TypeKey, Ready, Wrapped;
    SpecialKeys();
    LiteralValid("$numberLong");
    var w := (Int64Type, SeekInt64);
    var (a, i) := (Announced(FixupKey(s), w), ParseInt(text));
    TextStep(a, text, c);
    if i.Some? {
      CollectedRun(s, "$numberLong", w, Text(text), a.(collected := a.collected.(int64 := i.value)), k, Int64(i.value), c);
    } else {
      RefusedText(s, "$numberLong", w, Text(text), c);
    }
  }

  /** Any text of 24 bytes is taken for an object id; it is the id's own text exactly when it is hexadecimal. */
  lemma ReadOidText(s: Machine, k: bytes, text: bytes, c: Conversions)
    requires Ready(s) && FixupKey(s).key == Some(k) && Utf8Valid(text, true)
    ensures var t := Run(s, Wrapped("$oid", [Text(text)]), c);
            if |text| == 24 then Extended(FixupKey(s), t, Cons(k, Oid(FromHex(text)), Nil)) else t.failed
  {
    hide Run, SpecialKey, Ascii, Utf8Valid, FromHex, Step, FixupKey, AppendTo, Extended, ParseBinary, AppendCode,
      AppendRegex, AppendBinary, TypeKey, Ready, Wrapped;
    SpecialKeys();
    LiteralValid("$oid");
    var w := (OidType, SeekOid);
    var a := Announced(FixupKey(s), w);
    TextStep(a, text, c);
    if |text| == 24 {
      CollectedRun(s, "$oid", w, Text(text), a.(collected := a.collected.(oid := FromHex(text))), k, Oid(FromHex(text)), c);
    } else {
      RefusedText(s, "$oid", w, Text(text), c);
    }
  }

  /** The text of the bytes read from a text is that text in small letters exactly when it is hexadecimal. */
  lemma {:induction false} HexIff(text: bytes)
    requires |text| % 2 == 0
    ensures Hex(FromHex(text)) == Small(text) <==> forall x <- text :: IsHex(x)
    decreases |text|
  {
    hide HexDigit, HexValue;
    if text != [] {
      HexIff(text[2..]);
      HexPair(text[0], text[1]);
      assert Small(text) == [Small1(text[0]), Small1(text[1])] + Small(text[2..]);
      assert text == [text[0], text[1]] + text[2..];
      var h := Hex(FromHex(text));
      assert h == h[..2] + Hex(FromHex(text[2..]));
    }
  }

  function Small1(c: byte): byte {
    if 'A' as int <= c <= 'F' as int then c + 32 else c
  }

  function Small(s: bytes): bytes {
    seq(|s|, i requires 0 <= i < |s| => Small1(s[i]))
  }

  lemma HexPair(x: byte, y: byte)
    ensures var b := HexValue(x) * 16 + HexValue(y);
            HexDigit(b / 16) == Small1(x) && HexDigit(b % 16) == Small1(y) <==> IsHex(x) && IsHex(y)
  {
    assert (HexValue(x) * 16 + HexValue(y)) / 16 == HexValue(x) && (HexValue(x) * 16 + HexValue(y)) % 16 == HexValue(y);
    HexOne(x);
    HexOne(y);
  }

  lemma HexOne(x: byte)
    ensures HexDigit(HexValue(x)) == Small1(x) <==> IsHex(x)
  {
  }

  // ---------------------------------------------------------------------------------------------------------
  // Maps with a part missing, or in the other order
  // ---------------------------------------------------------------------------------------------------------

  /** A wrapper that fails inside. */
  lemma FailsInside(s: Machine, name: string, a: Machine, inner: seq<Event>, c: Conversions)
    requires Ready(s) && SpecialKey(Ascii(name)) != Ordinary && Utf8Valid(Ascii(name), false)
    requires TypeKey(InWrapper(FixupKey(s)), Ascii(name)) == a && Run(a, inner, c).failed
    ensures Run(s, Wrapped(name, inner), c).failed
  {
    hide Run, TypeKey, SpecialKey, Ascii, Utf8Valid, FixupKey, Step;
    WrapperRun(s, name, inner, c);
    FailedStays(Run(a, inner, c), [EndMap], c);
  }

  /** A map with one key and one scalar that fails at its end. */
  lemma OnePart(a: Machine, s1: Machine, s2: Machine, x: Machine, k: bytes, e: Event, c: Conversions)
    requires !a.failed && !s1.failed && !s2.failed && !x.failed
    requires Step(a, StartMap, c) == s1 && Step(s1, Key(k), c) == s2 && Step(s2, e, c) == x && Step(x, EndMap, c).failed
    ensures Run(a, [StartMap, Key(k), e, EndMap], c).failed
  {
    hide Run, Step;
    var y := Step(x, EndMap, c);
    RunPath([a, s1, s2, x, y], [StartMap, Key(k), e, EndMap], c);
  }

  /** A binary needs its subtype. */
  lemma BinaryNeedsSubtype(s: Machine, data: bytes, c: Conversions)
    requires Ready(s) && FixupKey(s).key.Some?
    ensures Run(s, Wrapped("$binary", [StartMap, Key(Ascii("base64")), Text(Encode(data)), EndMap]), c).failed
  {
    hide Run, SpecialKey, Ascii, Utf8Valid, Step, FixupKey, TypeKey, Encode, Wrapped;
    SpecialKeys();
    LiteralValid("$binary");
    FixupReady(s);
    AnnounceKey(FixupKey(s), Ascii("$binary"));
    var a := Announced(FixupKey(s), (BinaryType, SeekBinary));
    DataAlone(a, data, c);
    FailsInside(s, "$binary", a, [StartMap, Key(Ascii("base64")), Text(Encode(data)), EndMap], c);
  }

  lemma DataAlone(a: Machine, data: bytes, c: Conversions)
    requires !a.failed && a.read == InBsonType && a.sought == SeekBinary && a.wrapper == BinaryType && a.key.Some?
    requires !a.collected.hasSubtype
    ensures Run(a, [StartMap, Key(Ascii("base64")), Text(Encode(data)), EndMap], c).failed
  {
    hide Run, Ascii, Utf8Valid, Step, Encode;
    LiteralValid("base64");
    var s1 := a.(read := BinaryValues);
    var x := s1.(buf0 := data, collected := s1.collected.(hasBinary := true));
    StartInside(a, c);
    KeyInside(s1, Ascii("base64"), BinaryType, SeekBinary, c);
    BinaryData(s1, data, c);
    NoBinary(x, c);
    OnePart(a, s1, s1, x, Ascii("base64"), Text(Encode(data)), c);
  }

  /** A binary needs its data. */
  lemma BinaryNeedsData(s: Machine, sub: byte, c: Conversions)
    requires Ready(s) && FixupKey(s).key.Some?
    ensures Run(s, Wrapped("$binary", [StartMap, Key(Ascii("subType")), Text(Hex([sub])), EndMap]), c).failed
  {
    hide Run, SpecialKey, Ascii, Utf8Valid, Step, FixupKey, TypeKey, Hex, Wrapped;
    SpecialKeys();
    LiteralValid("$binary");
    FixupReady(s);
    AnnounceKey(FixupKey(s), Ascii("$binary"));
    var a := Announced(FixupKey(s), (BinaryType, SeekBinary));
    SubtypeAlone(a, sub, c);
    FailsInside(s, "$binary", a, [StartMap, Key(Ascii("subType")), Text(Hex([sub])), EndMap], c);
  }

  lemma SubtypeAlone(a: Machine, sub: byte, c: Conversions)
    requires !a.failed && a.read == InBsonType && a.sought == SeekBinary && a.wrapper == BinaryType && a.key.Some?
    requires !a.collected.hasBinary
    ensures Run(a, [StartMap, Key(Ascii("subType")), Text(Hex([sub])), EndMap], c).failed
  {
    hide Run, Ascii, Utf8Valid, Step, Hex;
    LiteralValid("base64");
    LiteralValid("subType");
    var s1 := a.(read := BinaryValues);
    var s2 := s1.(sought := SeekType);
    var x := s2.(collected := s2.collected.(hasSubtype := true, subtype := sub));
    StartInside(a, c);
    KeyInside(s1, Ascii("subType"), BinaryType, SeekType, c);
    BinarySubtype(s2, sub, c);
    NoBinary(x, c);
    OnePart(a, s1, s2, x, Ascii("subType"), Text(Hex([sub])), c);
  }

  lemma NoBinary(a: Machine, c: Conversions)
    requires a.read == BinaryValues && a.key.Some? && !(a.collected.hasBinary && a.collected.hasSubtype)
    ensures Step(a, EndMap, c).failed
  {
    hide StepText, StepStartMap, StepNull, StepFloat, StepStartArray, StepEndArray, StepInteger, StepBoolean, StepKey,
      AppendWrapped, EndContainer, AppendTimestamp, AppendRegex, AppendDbPointer;
  }

  /** A timestamp needs both its parts. */
  lemma TimestampNeedsBoth(s: Machine, isT: bool, n: int, c: Conversions)
    requires Ready(s) && FixupKey(s).key.Some? && 0 <= n < 0x1_0000_0000
    ensures var inner := [StartMap, Key(Ascii(if isT then "t" else "i")), Integer(n, 1), EndMap];
            Run(s, Wrapped("$timestamp", inner), c).failed
  {
    hide Run, SpecialKey, Ascii, Utf8Valid, Step, FixupKey, TypeKey, Wrapped;
    SpecialKeys2();
    LiteralValid("$timestamp");
    FixupReady(s);
    MapKey(FixupKey(s), Ascii("$timestamp"));
    var a := InWrapper(FixupKey(s)).(wrapper := TimestampType, read := TimestampStartMap);
    PartAlone(a, isT, n, c);
    FailsInside(s, "$timestamp", a, [StartMap, Key(Ascii(if isT then "t" else "i")), Integer(n, 1), EndMap], c);
  }

  lemma PartStep(a: Machine, x: int, c: Conversions)
    requires a.read == TimestampValues && (a.sought == SeekT || a.sought == SeekI) && 0 <= x < TWO_32
    ensures Step(a, Integer(x, 1), c)
         == a.(collected := if a.sought == SeekT then a.collected.(hasT := true, t := x) else a.collected.(hasI := true, i := x))
  {
    hide Step;
    assert x % TWO_32 == x;
    TimestampPart(a, x, c);
  }

  /** The two keys of a timestamp. */
  lemma PartNames()
    ensures Ascii("t") != Ascii("i") && Utf8Valid(Ascii("t"), false) && Utf8Valid(Ascii("i"), false)
  {
    hide Utf8Valid;
    LiteralValid("t");
    LiteralValid("i");
    At("t", 0, 't');
    At("i", 0, 'i');
  }

  lemma PartAlone(a: Machine, isT: bool, n: int, c: Conversions)
    requires !a.failed && a.read == TimestampStartMap && a.wrapper == TimestampType && a.key.Some?
    requires !a.collected.hasT && !a.collected.hasI && 0 <= n < 0x1_0000_0000
    ensures Run(a, [StartMap, Key(Ascii(if isT then "t" else "i")), Integer(n, 1), EndMap], c).failed
  {
    hide Run, Ascii, Utf8Valid, Step;
    var (k, sought) := (Ascii(if isT then "t" else "i"), if isT then SeekT else SeekI);
    PartNames();
    var s1 := a.(read := TimestampValues);
    var s2 := s1.(sought := sought);
    var x := s2.(collected := if isT then s2.collected.(hasT := true, t := n) else s2.collected.(hasI := true, i := n));
    StartInside(a, c);
    KeyInside(s1, k, TimestampType, sought, c);
    PartStep(s2, n, c);
    NoTimestamp(x, c);
    OnePart(a, s1, s2, x, k, Integer(n, 1), c);
  }

  lemma NoTimestamp(a: Machine, c: Conversions)
    requires a.read == TimestampValues && a.key.Some? && !(a.collected.hasT && a.collected.hasI)
    ensures Step(a, EndMap, c).failed
  {
    hide StepText, StepStartMap, StepNull, StepFloat, StepStartArray, StepEndArray, StepInteger, StepBoolean, StepKey,
      AppendWrapped, EndContainer, AppendBinary, AppendRegex, AppendDbPointer;
  }

  /** A regular expression needs both its parts. */
  lemma RegexNeedsBoth(s: Machine, isPattern: bool, text: bytes, c: Conversions)
    requires Ready(s) && FixupKey(s).key.Some? && Utf8Valid(text, false)
    ensures var inner := [StartMap, Key(Ascii(if isPattern then "pattern" else "options")), Text(text), EndMap];
            Run(s, Wrapped("$regularExpression", inner), c).failed
  {
    hide Run, SpecialKey, Ascii, Utf8Valid, Step, FixupKey, TypeKey, Wrapped;
    SpecialKeys3();
    LiteralValid("$regularExpression");
    FixupReady(s);
    MapKey(FixupKey(s), Ascii("$regularExpression"));
    var a := InWrapper(FixupKey(s)).(wrapper := RegexType, read := RegexStartMap);
    TextAlone(a, isPattern, text, c);
    var inner := [StartMap, Key(Ascii(if isPattern then "pattern" else "options")), Text(text), EndMap];
    FailsInside(s, "$regularExpression", a, inner, c);
  }

  lemma TextAlone(a: Machine, isPattern: bool, text: bytes, c: Conversions)
    requires !a.failed && a.read == RegexStartMap && a.wrapper == RegexType && a.key.Some? && Utf8Valid(text, false)
    requires !a.collected.hasPattern && !a.collected.hasOptions && !a.collected.legacyRegex
    ensures Run(a, [StartMap, Key(Ascii(if isPattern then "pattern" else "options")), Text(text), EndMap], c).failed
  {
    hide Run, Ascii, Utf8Valid, Step;
    var name := if isPattern then "pattern" else "options";
    var (k, sought) := (Ascii(name), if isPattern then SeekPattern else SeekPatternOptions);
    LiteralValid(name);
    At("pattern", 0, 'p');
    At("options", 0, 'o');
    var s1 := a.(read := RegexValues);
    var s2 := s1.(sought := sought);
    var x := if isPattern then s2.(buf0 := text, collected := s2.collected.(hasPattern := true))
             else s2.(buf1 := text, collected := s2.collected.(hasOptions := true));
    StartInside(a, c);
    KeyInside(s1, k, RegexType, sought, c);
    RegexText(s2, text, c);
    NoRegex(x, c);
    OnePart(a, s1, s2, x, k, Text(text), c);
  }

  lemma NoRegex(a: Machine, c: Conversions)
    requires a.read == RegexValues && a.key.Some? && !a.collected.legacyRegex
    requires !(a.collected.hasPattern && a.collected.hasOptions)
    ensures Step(a, EndMap, c).failed
  {
    hide StepText, StepStartMap, StepNull, StepFloat, StepStartArray, StepEndArray, StepInteger, StepBoolean, StepKey,
      AppendWrapped, EndContainer, AppendBinary, AppendTimestamp, AppendDbPointer, CString, SelectedChars;
  }

  /** A date with an empty map is read as 1970. */
  lemma ReadEmptyDate(s: Machine, k: bytes, c: Conversions)
    requires Ready(s) && FixupKey(s).key == Some(k)
    ensures Extended(FixupKey(s), Run(s, Wrapped("$date", [StartMap, EndMap]), c), Cons(k, DateTime(0), Nil))
  {
    hide Run, SpecialKey, Ascii, Utf8Valid, Step, FixupKey, AppendTo, Extended, TypeKey, Wrapped;
    SpecialKeys();
    LiteralValid("$date");
    FixupReady(s);
    AnnounceKey(FixupKey(s), Ascii("$date"));
    var a := Announced(FixupKey(s), (DateType, SeekDate));
    NothingInside(a, k, c);
    AppendedInside(s, "$date", [StartMap, EndMap], a, k, DateTime(0), c);
  }

  lemma NothingInside(a: Machine, k: bytes, c: Conversions)
    requires !a.failed && a.read == InBsonType && a.sought == SeekDate && a.key == Some(k) && a.collected.date == 0
    ensures Run(Run(a, [StartMap, EndMap], c), [EndMap], c) == AppendTo(a.(read := Regular), k, DateTime(0))
  {
    hide Run, Step, AppendTo;
    var s1 := a.(read := DateNumberLong);
    var s2 := AppendTo(s1.(read := DateEndMap), k, DateTime(0));
    StartInside(a, c);
    DateEnds(s1, k, 0, c);
    RunPath([a, s1, s2], [StartMap, EndMap], c);
    RunOne(s2, EndMap, c);
  }

  /** A map with two keys, each with one scalar. */
  lemma TwoParts(a: Machine, s: seq<Machine>, k: bytes, e: Event, k': bytes, e': Event, c: Conversions)
    requires |s| == 6 && !a.failed && forall i :: 0 <= i < 5 ==> !s[i].failed
    requires Step(a, StartMap, c) == s[0] && Step(s[0], Key(k), c) == s[1] && Step(s[1], e, c) == s[2]
    requires Step(s[2], Key(k'), c) == s[3] && Step(s[3], e', c) == s[4] && Step(s[4], EndMap, c) == s[5]
    ensures Run(a, [StartMap, Key(k), e, Key(k'), e', EndMap], c) == s[5]
  {
    hide Run, Step;
    RunPath([a] + s, [StartMap, Key(k), e, Key(k'), e', EndMap], c);
  }

  /** The parts of a binary in the other order. */
  lemma ReadBinarySwapped(s: Machine, k: bytes, sub: byte, data: bytes, c: Conversions)
    requires Ready(s) && FixupKey(s).key == Some(k)
    ensures Extended(FixupKey(s), Run(s, Wrapped("$binary", BinarySwapped(sub, data)), c), Cons(k, Binary(sub, data), Nil))
  {
    hide Run, SpecialKey, Ascii, Utf8Valid, Step, FixupKey, AppendTo, Extended, TypeKey, BinarySwapped, Wrapped;
    SpecialKeys();
    LiteralValid("$binary");
    FixupReady(s);
    AnnounceKey(FixupKey(s), Ascii("$binary"));
    var a := Announced(FixupKey(s), (BinaryType, SeekBinary));
    SubtypeThenData(a, k, sub, data, c);
    var b := a.(buf0 := data, collected := a.collected.(hasBinary := true, hasSubtype := true, subtype := sub));
    AppendedInside(s, "$binary", BinarySwapped(sub, data), b, k, Binary(sub, data), c);
  }

  function BinarySwapped(sub: byte, data: bytes): seq<Event> {
    [StartMap, Key(Ascii("subType")), Text(Hex([sub])), Key(Ascii("base64")), Text(Encode(data)), EndMap]
  }

  lemma SubtypeThenData(a: Machine, k: bytes, sub: byte, data: bytes, c: Conversions)
    requires !a.failed && a.read == InBsonType && a.sought == SeekBinary && a.wrapper == BinaryType && a.key == Some(k)
    ensures var b := a.(buf0 := data, collected := a.collected.(hasBinary := true, hasSubtype := true, subtype := sub));
            Run(Run(a, BinarySwapped(sub, data), c), [EndMap], c) == AppendTo(b.(read := Regular), k, Binary(sub, data))
  {
    hide Run, Ascii, Utf8Valid, Step, AppendTo, Encode, Hex;
    LiteralValid("base64");
    LiteralValid("subType");
    var s1 := a.(read := BinaryValues);
    var s2 := s1.(sought := SeekType);
    var s3 := s2.(collected := s2.collected.(hasSubtype := true, subtype := sub));
    var s4 := s3.(sought := SeekBinary);
    var s5 := s4.(buf0 := data, collected := s4.collected.(hasBinary := true));
    var s6 := AppendTo(s5.(read := BinaryEndMap), k, Binary(sub, data));
    StartInside(a, c);
    KeyInside(s1, Ascii("subType"), BinaryType, SeekType, c);
    BinarySubtype(s2, sub, c);
    KeyInside(s3, Ascii("base64"), BinaryType, SeekBinary, c);
    BinaryData(s4, data, c);
    BinaryEnds(s5, k, c);
    TwoParts(a, [s1, s2, s3, s4, s5, s6], Ascii("subType"), Text(Hex([sub])), Ascii("base64"), Text(Encode(data)), c);
    RunOne(s6, EndMap, c);
  }

  /** The parts of a timestamp in the other order. */
  lemma ReadTimestampSwapped(s: Machine, k: bytes, t: int, i: int, c: Conversions)
    requires Ready(s) && FixupKey(s).key == Some(k) && 0 <= t < 0x1_0000_0000 && 0 <= i < 0x1_0000_0000
    ensures var inner := [StartMap, Key(Ascii("i")), Integer(i, 1), Key(Ascii("t")), Integer(t, 1), EndMap];
            Extended(FixupKey(s), Run(s, Wrapped("$timestamp", inner), c), Cons(k, Timestamp(t, i), Nil))
  {
    hide Run, SpecialKey, Ascii, Utf8Valid, Step, FixupKey, AppendTo, Extended, TypeKey, Wrapped;
    SpecialKeys2();
    LiteralValid("$timestamp");
    FixupReady(s);
    MapKey(FixupKey(s), Ascii("$timestamp"));
    var a := InWrapper(FixupKey(s)).(wrapper := TimestampType, read := TimestampStartMap);
    var inner := [StartMap, Key(Ascii("i")), Integer(i, 1), Key(Ascii("t")), Integer(t, 1), EndMap];
    IncrementThenTime(a, k, t, i, c);
    var b := a.(sought := SeekT, collected := a.collected.(hasT := true, t := t, hasI := true, i := i));
    AppendedInside(s, "$timestamp", inner, b, k, Timestamp(t, i), c);
  }

  lemma IncrementThenTime(a: Machine, k: bytes, t: int, i: int, c: Conversions)
    requires !a.failed && a.read == TimestampStartMap && a.wrapper == TimestampType && a.key == Some(k)
    requires 0 <= t < 0x1_0000_0000 && 0 <= i < 0x1_0000_0000
    ensures var inner := [StartMap, Key(Ascii("i")), Integer(i, 1), Key(Ascii("t")), Integer(t, 1), EndMap];
            var b := a.(sought := SeekT, collected := a.collected.(hasT := true, t := t, hasI := true, i := i));
            Run(Run(a, inner, c), [EndMap], c) == AppendTo(b.(read := Regular), k, Timestamp(t, i))
  {
    hide Run, Ascii, Utf8Valid, Step, AppendTo;
    var events := [StartMap, Key(Ascii("i")), Integer(i, 1), Key(Ascii("t")), Integer(t, 1)];
    var b := a.(read := TimestampValues, sought := SeekT,
                collected := a.collected.(hasT := true, t := t, hasI := true, i := i));
    BothParts(a, t, i, c);
    TimestampEnds(b, k, c);
    assert events + [EndMap] == [StartMap, Key(Ascii("i")), Integer(i, 1), Key(Ascii("t")), Integer(t, 1), EndMap];
    RunSplit(a, events, [EndMap], c);
    RunOne(b, EndMap, c);
    RunOne(Step(b, EndMap, c), EndMap, c);
  }

  lemma BothParts(a: Machine, t: int, i: int, c: Conversions)
    requires !a.failed && a.read == TimestampStartMap && a.wrapper == TimestampType
    requires 0 <= t < 0x1_0000_0000 && 0 <= i < 0x1_0000_0000
    ensures var events := [StartMap, Key(Ascii("i")), Integer(i, 1), Key(Ascii("t")), Integer(t, 1)];
            Run(a, events, c) == a.(read := TimestampValues, sought := SeekT,
                                    collected := a.collected.(hasT := true, t := t, hasI := true, i := i))
  {
    hide Run, Ascii, Utf8Valid, Step;
    PartNames();
    var s1 := a.(read := TimestampValues);
    var s2 := s1.(sought := SeekI);
    var s3 := s2.(collected := s2.collected.(hasI := true, i := i));
    var s4 := s3.(sought := SeekT);
    var s5 := s4.(collected := s4.collected.(hasT := true, t := t));
    StartInside(a, c);
    KeyInside(s1, Ascii("i"), TimestampType, SeekI, c);
    PartStep(s2, i, c);
    KeyInside(s3, Ascii("t"), TimestampType, SeekT, c);
    PartStep(s4, t, c);
    RunPath([a, s1, s2, s3, s4, s5], [StartMap, Key(Ascii("i")), Integer(i, 1), Key(Ascii("t")), Integer(t, 1)], c);
  }

  /** The parts of a regular expression in the other order; unknown options are dropped and the rest sorted. */
  lemma ReadRegexSwapped(s: Machine, k: bytes, pattern: bytes, options: bytes, c: Conversions)
    requires Ready(s) && FixupKey(s).key == Some(k) && Utf8Valid(pattern, false) && Utf8Valid(options, false)
    requires 0 !in pattern && 0 !in options
    ensures var inner := [StartMap, Key(Ascii("options")), Text(options), Key(Ascii("pattern")), Text(pattern), EndMap];
            Extended(FixupKey(s), Run(s, Wrapped("$regularExpression", inner), c),
                     Cons(k, Regex(pattern, SelectedChars(REGEX_OPTIONS_SORTED, options)), Nil))
  {
    hide Run, SpecialKey, Ascii, Utf8Valid, Step, FixupKey, AppendTo, Extended, TypeKey, Wrapped, SelectedChars;
    SpecialKeys3();
    LiteralValid("$regularExpression");
    FixupReady(s);
    MapKey(FixupKey(s), Ascii("$regularExpression"));
    var a := InWrapper(FixupKey(s)).(wrapper := RegexType, read := RegexStartMap);
    var inner := [StartMap, Key(Ascii("options")), Text(options), Key(Ascii("pattern")), Text(pattern), EndMap];
    OptionsThenPattern(a, k, pattern, options, c);
    var b := a.(sought := SeekPattern, buf0 := pattern, buf1 := options,
                collected := a.collected.(hasPattern := true, hasOptions := true));
    AppendedInside(s, "$regularExpression", inner, b, k, Regex(pattern, SelectedChars(REGEX_OPTIONS_SORTED, options)), c);
  }

  lemma OptionsThenPattern(a: Machine, k: bytes, pattern: bytes, options: bytes, c: Conversions)
    requires !a.failed && a.read == RegexStartMap && a.wrapper == RegexType && a.key == Some(k)
    requires Utf8Valid(pattern, false) && Utf8Valid(options, false) && 0 !in pattern && 0 !in options
    ensures var inner := [StartMap, Key(Ascii("options")), Text(options), Key(Ascii("pattern")), Text(pattern), EndMap];
            var b := a.(sought := SeekPattern, buf0 := pattern, buf1 := options,
                        collected := a.collected.(hasPattern := true, hasOptions := true));
            Run(Run(a, inner, c), [EndMap], c)
            == AppendTo(b.(read := Regular), k, Regex(pattern, SelectedChars(REGEX_OPTIONS_SORTED, options)))
  {
    hide Run, Ascii, Utf8Valid, Step, AppendTo, SelectedChars, CString;
    var events := [StartMap, Key(Ascii("options")), Text(options), Key(Ascii("pattern")), Text(pattern)];
    var b := a.(read := RegexValues, sought := SeekPattern, buf0 := pattern, buf1 := options,
                collected := a.collected.(hasPattern := true, hasOptions := true));
    BothTexts(a, pattern, options, c);
    BothEnd(b, k, pattern, options, c);
    assert events + [EndMap]
        == [StartMap, Key(Ascii("options")), Text(options), Key(Ascii("pattern")), Text(pattern), EndMap];
    RunSplit(a, events, [EndMap], c);
    RunOne(b, EndMap, c);
    RunOne(Step(b, EndMap, c), EndMap, c);
  }

  lemma BothTexts(a: Machine, pattern: bytes, options: bytes, c: Conversions)
    requires !a.failed && a.read == RegexStartMap && a.wrapper == RegexType
    requires Utf8Valid(pattern, false) && Utf8Valid(options, false)
    ensures var events := [StartMap, Key(Ascii("options")), Text(options), Key(Ascii("pattern")), Text(pattern)];
            Run(a, events, c) == a.(read := RegexValues, sought := SeekPattern, buf0 := pattern, buf1 := options,
                                    collected := a.collected.(hasPattern := true, hasOptions := true))
  {
    hide Run, Ascii, Utf8Valid, Step;
    LiteralValid("pattern");
    LiteralValid("options");
    At("pattern", 0, 'p');
    At("options", 0, 'o');
    var s1 := a.(read := RegexValues);
    var s2 := s1.(sought := SeekPatternOptions);
    var s3 := s2.(buf1 := options, collected := s2.collected.(hasOptions := true));
    var s4 := s3.(sought := SeekPattern);
    var s5 := s4.(buf0 := pattern, collected := s4.collected.(hasPattern := true));
    StartInside(a, c);
    KeyInside(s1, Ascii("options"), RegexType, SeekPatternOptions, c);
    RegexText(s2, options, c);
    KeyInside(s3, Ascii("pattern"), RegexType, SeekPattern, c);
    RegexText(s4, pattern, c);
    RunPath([a, s1, s2, s3, s4, s5],
            [StartMap, Key(Ascii("options")), Text(options), Key(Ascii("pattern")), Text(pattern)], c);
  }

  lemma BothEnd(a: Machine, k: bytes, pattern: bytes, options: bytes, c: Conversions)
    requires !a.failed && a.read == RegexValues && a.key == Some(k) && a.collected.hasPattern && a.collected.hasOptions
    requires a.buf0 == pattern && a.buf1 == options && 0 !in pattern && 0 !in options
    ensures var v := Regex(pattern, SelectedChars(REGEX_OPTIONS_SORTED, options));
            var b := AppendTo(a.(read := RegexEndMap), k, v);
            && !b.failed && Step(a, EndMap, c) == b && Step(b, EndMap, c) == AppendTo(a.(read := Regular), k, v)
  {
    hide StepText, StepStartMap, StepNull, StepFloat, StepStartArray, StepEndArray, StepInteger, StepBoolean, StepKey,
      AppendWrapped, EndContainer, AppendBinary, AppendTimestamp, AppendDbPointer, CString, SelectedChars;
    PatternKept(pattern);
    PatternKept(options);
  }

  // ---------------------------------------------------------------------------------------------------------
  // Code inside a scope
  // ---------------------------------------------------------------------------------------------------------

  /** Inside a scope there is no code: what is written as code is read as a document with the key "$code". */
  lemma ReadCodeInScope(s: Machine, k: bytes, js: bytes, c: Conversions)
    requires Ready(s) && FixupKey(s).key == Some(k) && s.code.inScope && CanPush(s) && Utf8Valid(js, true)
    ensures Extended(FixupKey(s), Run(s, Wrapped("$code", [Text(js)]), c),
                     Cons(k, Document(Cons(Ascii("$code"), Utf8(js), Nil)), Nil))
  {
    hide Run, SpecialKey, Ascii, Utf8Valid, Step, FixupKey, AppendTo, Extended, TypeKey, Wrapped;
    SpecialKeys3();
    LiteralValid("$code");
    FixupReady(s);
    WrapperRun(s, "$code", [Text(js)], c);
    var s1 := InWrapper(FixupKey(s)).(read := Regular);
    CodeKeyInScope(FixupKey(s), k, Ascii("$code"));
    DocumentOfText(s1, k, Ascii("$code"), js, c);
    SameStack(FixupKey(s), s1, Run(Run(Keyed(s1, k, Ascii("$code")), [Text(js)], c), [EndMap], c),
              Cons(k, Document(Cons(Ascii("$code"), Utf8(js), Nil)), Nil));
  }

  /** In a document just begun, behind its first key. */
  function Keyed(s: Machine, k: bytes, name: bytes): Machine
    requires CanPush(s)
  {
    Push(s, DocFrame, k).(key := Some(name))
  }

  lemma CodeKeyInScope(s: Machine, k: bytes, name: bytes)
    requires Ready(s) && s.key == Some(k) && s.code.inScope && CanPush(s) && SpecialKey(name) == KCode
    ensures TypeKey(InWrapper(s), name) == Keyed(InWrapper(s).(read := Regular), k, name)
  {
    hide SpecialKey;
  }

  lemma SameStack(s: Machine, s1: Machine, t: Machine, d: Doc)
    requires Ready(s) && s1 == InWrapper(s).(read := Regular) && Extended(s1, t, d)
    ensures Extended(s, t, d)
  {
  }

  lemma DocumentOfText(s: Machine, k: bytes, name: bytes, text: bytes, c: Conversions)
    requires Ready(s) && s.key == Some(k) && CanPush(s) && Utf8Valid(text, true)
    ensures Extended(s, Run(Run(Keyed(s, k, name), [Text(text)], c), [EndMap], c),
                     Cons(k, Document(Cons(name, Utf8(text), Nil)), Nil))
  {
    hide Run, Utf8Valid, Step, AppendTo, Extended, FixupKey, Push;
    var (u, d) := (Keyed(s, k, name), Cons(name, Utf8(text), Nil));
    KeyedReady(s, k, name);
    RegularIdle(u);
    ReadText(u, name, text, c);
    var t := Run(u, [Text(text)], c);
    KeyedFills(s, t, k, name, d);
    RunOne(t, EndMap, c);
    DocCloses(s, t, k, d, false, c);
  }

  lemma KeyedReady(s: Machine, k: bytes, name: bytes)
    requires Ready(s) && CanPush(s)
    ensures Ready(Keyed(s, k, name)) && Kind(Keyed(s, k, name)) == DocFrame && Keyed(s, k, name).key == Some(name)
  {
    Pushed(s, DocFrame, k);
  }

  lemma KeyedFills(s: Machine, t: Machine, k: bytes, name: bytes, d: Doc)
    requires Ready(s) && s.key.Some? && CanPush(s) && Extended(Keyed(s, k, name), t, d)
    ensures Filled(s, t, DocFrame, k, d) && CodeKept(s, t) && t.key.Some? && !t.failed
  {
    Pushed(s, DocFrame, k);
    hide Push;
  }
}
