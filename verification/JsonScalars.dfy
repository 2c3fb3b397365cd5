/** Reading the values that are not containers: every type wrapper of canonical extended JSON. */
module JsonScalars {
  import opened CInt
  import opened LittleEndian
  import opened BsonTree
  import opened BsonArguments
  import opened Utf8
  import opened Base64
  import opened JsonText
  import opened JsonMachine
  import opened JsonPrint

  predicate IsAscii(s: bytes) {
    forall i :: 0 <= i < |s| ==> 0 < s[i] < 0x80
  }

  lemma {:induction false} AsciiValid(s: bytes, allowNull: bool)
    requires IsAscii(s)
    ensures Utf8Valid(s, allowNull)
    decreases |s|
  {
    if s != [] {
      AsciiValid(s[1..], allowNull);
      assert s[1..1] == [];
    }
  }

  lemma At(s: string, i: nat, c: char)
    requires i < |s| && s[i] == c && c as int < 256
    ensures Ascii(s)[i] == c as int
  {
  }

  /** No two of the special keys are the same: those of one length differ in an early character. */
  lemma SpecialKeys()
    ensures SpecialKey(Ascii("$oid")) == KOid && SpecialKey(Ascii("$binary")) == KBinary
    ensures SpecialKey(Ascii("$date")) == KDate && SpecialKey(Ascii("$undefined")) == KUndefined
    ensures SpecialKey(Ascii("$minKey")) == KMinKey && SpecialKey(Ascii("$maxKey")) == KMaxKey
    ensures SpecialKey(Ascii("$numberInt")) == KNumberInt && SpecialKey(Ascii("$numberLong")) == KNumberLong
  {
    hide Ascii;
    ShortKeys();
    At("$binary", 1, 'b'); At("$minKey", 1, 'm'); At("$maxKey", 1, 'm'); At("$symbol", 1, 's');
    At("$minKey", 2, 'i'); At("$maxKey", 2, 'a');
    At("$undefined", 1, 'u'); At("$numberInt", 1, 'n'); At("$timestamp", 1, 't'); At("$dbPointer", 1, 'd');
  }

  lemma SpecialKeys2()
    ensures SpecialKey(Ascii("$numberDouble")) == KNumberDouble && SpecialKey(Ascii("$symbol")) == KSymbol
    ensures SpecialKey(Ascii("$numberDecimal")) == KNumberDecimal && SpecialKey(Ascii("$timestamp")) == KTimestamp
  {
    hide Ascii;
    At("$binary", 1, 'b'); At("$minKey", 1, 'm'); At("$maxKey", 1, 'm'); At("$symbol", 1, 's');
    At("$undefined", 1, 'u'); At("$numberInt", 1, 'n'); At("$timestamp", 1, 't');
  }

  lemma SpecialKeys3()
    ensures SpecialKey(Ascii("$regularExpression")) == KRegularExpression && SpecialKey(Ascii("$dbPointer")) == KDbPointer
    ensures SpecialKey(Ascii("$code")) == KCode && SpecialKey(Ascii("$scope")) == KScope
  {
    hide Ascii;
    ShortKeys();
    At("$undefined", 1, 'u'); At("$numberInt", 1, 'n'); At("$timestamp", 1, 't'); At("$dbPointer", 1, 'd');
  }

  lemma SpecialKeys4()
    ensures SpecialKey(Ascii("$regex")) == KRegex && SpecialKey(Ascii("$options")) == KOptions
    ensures SpecialKey(Ascii("$type")) == KType && SpecialKey(Ascii("$uuid")) == KUuid
  {
    hide Ascii;
    At("$type", 1, 't'); At("$uuid", 1, 'u');
  }

  lemma ShortKeys()
    ensures Ascii("$date") != Ascii("$type") && Ascii("$date") != Ascii("$uuid")
    ensures Ascii("$code") != Ascii("$type") && Ascii("$code") != Ascii("$uuid") && Ascii("$code") != Ascii("$date")
    ensures Ascii("$scope") != Ascii("$regex")
  {
    hide Ascii;
    At("$type", 1, 't'); At("$uuid", 1, 'u'); At("$date", 1, 'd'); At("$code", 1, 'c');
    At("$regex", 1, 'r'); At("$scope", 1, 's');
  }

  /** A printable literal is a text the reader accepts as a key. */
  lemma LiteralValid(s: string)
    requires forall i :: 0 <= i < |s| ==> 0 < s[i] as int < 0x80
    ensures Utf8Valid(Ascii(s), false)
  {
    hide Utf8Valid;
    AsciiValid(Ascii(s), false);
  }

  // ---------------------------------------------------------------------------------------------------------
  // Reading one value
  // ---------------------------------------------------------------------------------------------------------

  predicate Clear(code: CodeData) {
    !code.hasCode && !code.hasScope && code.key == []
  }

  /** Between two values of a container; outside a scope nothing is left over from a code value. */
  predicate Ready(s: Machine) {
    !s.failed && s.read == Regular && s.n >= 0 && (s.code.inScope || Clear(s.code))
  }

  /** The code collected outside a scope is kept while the scope is read. */
  predicate CodeKept(s: Machine, t: Machine) {
    t.code.inScope == s.code.inScope && (if s.code.inScope then t.code == s.code else Clear(t.code))
  }

  /** From s, the elements e were appended to the innermost container and nothing else that matters has changed. */
  predicate Extended(s: Machine, t: Machine, e: Doc) {
    && Ready(s) && Ready(t) && t.n == s.n && t.stack[..s.n] == s.stack[..s.n] && (s.key.Some? ==> t.key.Some?)
    && t.stack[s.n] == s.stack[s.n].(doc := Append(s.stack[s.n].doc, e))
    && CodeKept(s, t)
  }

  function InWrapper(s: Machine): Machine {
    s.(read := InBsonType, wrapper := NoType, collected := NOTHING_COLLECTED)
  }

  lemma RunCons(s: Machine, e: Event, rest: seq<Event>, c: Conversions)
    requires !s.failed
    ensures Run(s, [e] + rest, c) == Run(Step(s, e, c), rest, c)
  {
    hide Step;
    assert ([e] + rest)[1..] == rest;
  }

  /** A map whose first key announces a type becomes a wrapper of the value that is due. */
  lemma WrapperRun(s: Machine, name: string, events: seq<Event>, c: Conversions)
    requires Ready(s) && SpecialKey(Ascii(name)) != Ordinary && Utf8Valid(Ascii(name), false)
    ensures Run(s, Wrapped(name, events), c)
         == Run(Run(TypeKey(InWrapper(FixupKey(s)), Ascii(name)), events, c), [EndMap], c)
  {
    hide Run, TypeKey, SpecialKey, Ascii, Utf8Valid;
    var rest := [Key(Ascii(name))] + (events + [EndMap]);
    assert Wrapped(name, events) == [StartMap] + rest;
    RunCons(s, StartMap, rest, c);
    RunCons(Step(s, StartMap, c), Key(Ascii(name)), events + [EndMap], c);
    RunSplit(TypeKey(InWrapper(FixupKey(s)), Ascii(name)), events, [EndMap], c);
  }

  /** A wrapper of one scalar. */
  lemma ScalarRun(s: Machine, name: string, e: Event, c: Conversions)
    requires Ready(s) && SpecialKey(Ascii(name)) != Ordinary && Utf8Valid(Ascii(name), false)
    requires var a := TypeKey(InWrapper(FixupKey(s)), Ascii(name));
             var b := Step(a, e, c);
             !a.failed && !b.failed && b.read == InBsonType && b.key.Some?
    ensures var b := Step(TypeKey(InWrapper(FixupKey(s)), Ascii(name)), e, c);
            Run(s, Wrapped(name, [e]), c) == AppendWrapped(b.(read := Regular))
  {
    hide Run, TypeKey, SpecialKey, Ascii, Utf8Valid, AppendWrapped, FixupKey;
    var a := TypeKey(InWrapper(FixupKey(s)), Ascii(name));
    WrapperRun(s, name, [e], c);
    RunOne(a, e, c);
    RunOne(Step(a, e, c), EndMap, c);
  }

  lemma HexAscii(b: bytes)
    ensures Utf8Valid(Hex(b), true)
  {
    hide Utf8Valid, Hex;
    HexRoundTrip(b);
    forall i | 0 <= i < |Hex(b)| ensures 0 < Hex(b)[i] < 0x80 { assert Hex(b)[i] in Hex(b); }
    AsciiValid(Hex(b), true);
  }

  lemma DecimalAscii(i: int)
    ensures Utf8Valid(DecimalInt(i), true)
  {
    hide Utf8Valid, Decimal;
    var s := DecimalInt(i);
    forall j | 0 <= j < |s| ensures 0 < s[j] < 0x80 {
      assert s[j] == 45 || s[j] in Decimal(if i < 0 then -i else i);
    }
    AsciiValid(s, true);
  }

  /** Ready states stay ready when an array's next index becomes the key. */
  lemma FixupReady(s: Machine)
    requires Ready(s)
    ensures Ready(FixupKey(s)) && FixupKey(s).n == s.n && FixupKey(s).code == s.code
    ensures FixupKey(s).dbPointerKey == s.dbPointerKey
  {
  }

  lemma FixupIdle(s: Machine)
    requires s.read != Regular
    ensures FixupKey(s) == s
  {
  }

  lemma AppendExtends(s: Machine, u: Machine, k: bytes, v: Value)
    requires Ready(s) && Ready(u) && u.stack == s.stack && u.n == s.n && u.key.Some? && CodeKept(s, u)
    ensures Extended(s, AppendTo(u, k, v), Cons(k, v, Nil))
  {
  }

  /** The wrappers of one scalar that are announced by a single key. */
  function Announces(k: Special): Option<(Wrapper, Sought)> {
    match k
    case KOid => Some((OidType, SeekOid))
    case KUndefined => Some((UndefinedType, SeekUndefined))
    case KMinKey => Some((MinKeyType, SeekMinKey))
    case KMaxKey => Some((MaxKeyType, SeekMaxKey))
    case KNumberInt => Some((Int32Type, SeekInt32))
    case KNumberLong => Some((Int64Type, SeekInt64))
    case KNumberDouble => Some((DoubleType, SeekDouble))
    case KSymbol => Some((SymbolType, SeekSymbol))
    case KNumberDecimal => Some((DecimalType, SeekDecimal))
    case KBinary => Some((BinaryType, SeekBinary))
    case KDate => Some((DateType, SeekDate))
    case KRegex => Some((RegexType, SeekRegex))
    case KOptions => Some((RegexType, SeekOptions))
    case KType => Some((BinaryType, SeekType))
    case KUuid => Some((BinaryType, SeekUuid))
    case _ => None
  }

  function Announced(s: Machine, w: (Wrapper, Sought)): Machine {
    s.(read := InBsonType, collected := NOTHING_COLLECTED, wrapper := w.0, sought := w.1)
  }

  lemma AnnounceKey(s: Machine, k: bytes)
    requires !s.failed && Announces(SpecialKey(k)).Some?
    ensures TypeKey(InWrapper(s), k) == Announced(s, Announces(SpecialKey(k)).value)
  {
    hide SpecialKey, CodeOrScopeKey;
  }

  /** Inside a wrapper, texts go to the value sought. */
  lemma TextStep(a: Machine, text: bytes, c: Conversions)
    requires a.read == InBsonType && a.sought != SeekRegex && a.sought != SeekOptions && Utf8Valid(text, true)
    ensures Step(a, Text(text), c) == TextInType(a, text, c)
  {
    hide TextInType, Utf8Valid, StepStartMap, StepEndMap, StepKey, StepInteger, StepNull, StepFloat, StepBoolean,
      StepStartArray, StepEndArray;
    FixupIdle(a);
  }

  /** A wrapper of one scalar e that leaves the machine at b: the value collected is appended. */
  lemma CollectedRun(s: Machine, name: string, w: (Wrapper, Sought), e: Event, b: Machine, k: bytes, v: Value, c: Conversions)
    requires Ready(s) && FixupKey(s).key == Some(k)
    requires Announces(SpecialKey(Ascii(name))) == Some(w) && Utf8Valid(Ascii(name), false)
    requires Step(Announced(FixupKey(s), w), e, c) == b
    requires b.(collected := NOTHING_COLLECTED) == Announced(FixupKey(s), w)
    requires AppendWrapped(b.(read := Regular)) == AppendTo(b.(read := Regular), k, v)
    ensures Extended(FixupKey(s), Run(s, Wrapped(name, [e]), c), Cons(k, v, Nil))
    ensures Run(s, Wrapped(name, [e]), c).dbPointerKey == s.dbPointerKey
  {
    hide Run, TypeKey, SpecialKey, Ascii, Utf8Valid, AppendWrapped, FixupKey, AppendTo, Step;
    AppendKeeps(b.(read := Regular), k, v);
    FixupReady(s);
    AnnounceKey(FixupKey(s), Ascii(name));
    ScalarRun(s, name, e, c);
    AppendExtends(FixupKey(s), b.(read := Regular), k, v);
  }

  lemma ReadOid(s: Machine, k: bytes, oid: bytes, c: Conversions)
    requires Ready(s) && FixupKey(s).key == Some(k) && |oid| == 12
    ensures Extended(FixupKey(s), Run(s, Wrapped("$oid", [Text(Hex(oid))]), c), Cons(k, Oid(oid), Nil))
    ensures Run(s, Wrapped("$oid", [Text(Hex(oid))]), c).dbPointerKey == s.dbPointerKey
  {
    hide Run, SpecialKey, Ascii, Utf8Valid, Hex, FromHex, Step, FixupKey, AppendTo, Extended, ParseBinary, AppendCode,
      AppendRegex, AppendBinary, TypeKey, Ready;
    SpecialKeys();
    LiteralValid("$oid");
    HexAscii(oid);
    HexRoundTrip(oid);
    var a := Announced(FixupKey(s), (OidType, SeekOid));
    TextStep(a, Hex(oid), c);
    CollectedRun(s, "$oid", (OidType, SeekOid), Text(Hex(oid)), a.(collected := a.collected.(oid := oid)), k, Oid(oid), c);
  }

  lemma ReadInt32(s: Machine, k: bytes, i: int, c: Conversions)
    requires Ready(s) && FixupKey(s).key == Some(k) && INT_MIN <= i <= INT_MAX
    ensures Extended(FixupKey(s), Run(s, Wrapped("$numberInt", [Text(DecimalInt(i))]), c), Cons(k, Int32(i), Nil))
  {
    hide Run, SpecialKey, Ascii, Utf8Valid, ParseInt, DecimalInt, Step, FixupKey, AppendTo, Extended, ParseBinary,
      AppendCode, AppendRegex, AppendBinary, TypeKey, Ready;
    SpecialKeys();
    LiteralValid("$numberInt");
    DecimalAscii(i);
    ParseDecimalInt(i);
    var a := Announced(FixupKey(s), (Int32Type, SeekInt32));
    TextStep(a, DecimalInt(i), c);
    CollectedRun(s, "$numberInt", (Int32Type, SeekInt32), Text(DecimalInt(i)),
                 a.(collected := a.collected.(int32 := i)), k, Int32(i), c);
  }

  lemma ReadInt64(s: Machine, k: bytes, i: int, c: Conversions)
    requires Ready(s) && FixupKey(s).key == Some(k) && INT64_MIN <= i <= INT64_MAX
    ensures Extended(FixupKey(s), Run(s, Wrapped("$numberLong", [Text(DecimalInt(i))]), c), Cons(k, Int64(i), Nil))
  {
    hide Run, SpecialKey, Ascii, Utf8Valid, ParseInt, DecimalInt, Step, FixupKey, AppendTo, Extended, ParseBinary,
      AppendCode, AppendRegex, AppendBinary, TypeKey, Ready;
    SpecialKeys();
    LiteralValid("$numberLong");
    DecimalAscii(i);
    ParseDecimalInt(i);
    var a := Announced(FixupKey(s), (Int64Type, SeekInt64));
    TextStep(a, DecimalInt(i), c);
    CollectedRun(s, "$numberLong", (Int64Type, SeekInt64), Text(DecimalInt(i)),
                 a.(collected := a.collected.(int64 := i)), k, Int64(i), c);
  }

  lemma ReadDouble(s: Machine, k: bytes, bits: int, text: bytes, c: Conversions)
    requires Ready(s) && FixupKey(s).key == Some(k)
    requires Utf8Valid(text, true) && 0 !in text && c.parseDouble(text) == Some(bits)
    ensures Extended(FixupKey(s), Run(s, Wrapped("$numberDouble", [Text(text)]), c), Cons(k, Double(bits), Nil))
  {
    hide Run, SpecialKey, Ascii, Utf8Valid, ParseInt, CString, Step, FixupKey, AppendTo, Extended, ParseBinary,
      AppendCode, AppendRegex, AppendBinary, TypeKey, Ready;
    SpecialKeys2();
    LiteralValid("$numberDouble");
    var a := Announced(FixupKey(s), (DoubleType, SeekDouble));
    TextStep(a, text, c);
    CollectedRun(s, "$numberDouble", (DoubleType, SeekDouble), Text(text),
                 a.(collected := a.collected.(double := bits)), k, Double(bits), c);
  }

  lemma ReadDecimal(s: Machine, k: bytes, low: int, high: int, text: bytes, c: Conversions)
    requires Ready(s) && FixupKey(s).key == Some(k)
    requires Utf8Valid(text, true) && 0 !in text && c.parseDecimal(text) == Some((low, high))
    ensures Extended(FixupKey(s), Run(s, Wrapped("$numberDecimal", [Text(text)]), c), Cons(k, Decimal128(low, high), Nil))
  {
    hide Run, SpecialKey, Ascii, Utf8Valid, ParseInt, CString, Step, FixupKey, AppendTo, Extended, ParseBinary,
      AppendCode, AppendRegex, AppendBinary, TypeKey, Ready;
    SpecialKeys2();
    LiteralValid("$numberDecimal");
    var a := Announced(FixupKey(s), (DecimalType, SeekDecimal));
    TextStep(a, text, c);
    CollectedRun(s, "$numberDecimal", (DecimalType, SeekDecimal), Text(text),
                 a.(collected := a.collected.(decimal := (low, high))), k, Decimal128(low, high), c);
  }

  /** The wrappers whose scalar only has to be there. */
  lemma ReadConstant(s: Machine, k: bytes, v: Value, c: Conversions)
    requires Ready(s) && FixupKey(s).key == Some(k) && (v == Undefined || v == MinKey || v == MaxKey)
    ensures var name := if v == Undefined then "$undefined" else if v == MinKey then "$minKey" else "$maxKey";
            var e := if v == Undefined then Boolean(true) else Integer(1, 1);
            Extended(FixupKey(s), Run(s, Wrapped(name, [e]), c), Cons(k, v, Nil))
  {
    hide Run, SpecialKey, Ascii, Utf8Valid, FixupKey, Extended, Ready, Wrapped;
    SpecialKeys();
    if v == Undefined {
      LiteralValid("$undefined");
      ConstantRun(s, "$undefined", (UndefinedType, SeekUndefined), Boolean(true), k, v, c);
    } else if v == MinKey {
      LiteralValid("$minKey");
      ConstantRun(s, "$minKey", (MinKeyType, SeekMinKey), Integer(1, 1), k, v, c);
    } else {
      LiteralValid("$maxKey");
      ConstantRun(s, "$maxKey", (MaxKeyType, SeekMaxKey), Integer(1, 1), k, v, c);
    }
  }

  lemma ConstantRun(s: Machine, name: string, w: (Wrapper, Sought), e: Event, k: bytes, v: Value, c: Conversions)
    requires Ready(s) && FixupKey(s).key == Some(k)
    requires Announces(SpecialKey(Ascii(name))) == Some(w) && Utf8Valid(Ascii(name), false)
    requires || (v == Undefined && w == (UndefinedType, SeekUndefined) && e == Boolean(true))
             || (v == MinKey && w == (MinKeyType, SeekMinKey) && e == Integer(1, 1))
             || (v == MaxKey && w == (MaxKeyType, SeekMaxKey) && e == Integer(1, 1))
    ensures Extended(FixupKey(s), Run(s, Wrapped(name, [e]), c), Cons(k, v, Nil))
  {
    hide Run, SpecialKey, Ascii, Utf8Valid, FixupKey, AppendTo, Extended, AppendCode, AppendRegex, AppendBinary, Step, Wrapped;
    var a := Announced(FixupKey(s), w);
    ConstantStep(a, e, c);
    CollectedRun(s, name, w, e, a, k, v, c);
  }

  lemma ConstantStep(a: Machine, e: Event, c: Conversions)
    requires a.read == InBsonType && (if a.sought == SeekUndefined then e == Boolean(true) else e == Integer(1, 1))
    requires a.sought == SeekUndefined || a.sought == SeekMinKey || a.sought == SeekMaxKey
    ensures Step(a, e, c) == a
  {
    hide StepText, StepStartMap, StepEndMap, StepKey, StepNull, StepFloat, StepStartArray, StepEndArray, AppendRegular;
    FixupIdle(a);
  }

  /** A symbol is appended where it is read, not where its wrapper ends. */
  /** Up to what a wrapper collects, the machine is where it was. */
  predicate SamePlace(s: Machine, b: Machine) {
    b.stack == s.stack && b.n == s.n && b.key == s.key && b.code == s.code && !b.failed
  }

  /** A wrapper that appends a value. */
  lemma AppendedInside(s: Machine, name: string, inner: seq<Event>, b: Machine, k: bytes, v: Value, c: Conversions)
    requires Ready(s) && FixupKey(s).key == Some(k) && SpecialKey(Ascii(name)) != Ordinary && Utf8Valid(Ascii(name), false)
    requires SamePlace(FixupKey(s), b)
    requires Run(Run(TypeKey(InWrapper(FixupKey(s)), Ascii(name)), inner, c), [EndMap], c)
          == AppendTo(b.(read := Regular), k, v)
    ensures Extended(FixupKey(s), Run(s, Wrapped(name, inner), c), Cons(k, v, Nil))
  {
    hide Run, SpecialKey, Ascii, Utf8Valid, FixupKey, AppendTo, Extended, TypeKey, Wrapped;
    FixupReady(s);
    WrapperRun(s, name, inner, c);
    AppendExtends(FixupKey(s), b.(read := Regular), k, v);
  }

  lemma ReadSymbol(s: Machine, k: bytes, text: bytes, c: Conversions)
    requires Ready(s) && FixupKey(s).key == Some(k) && Utf8Valid(text, true)
    ensures Extended(FixupKey(s), Run(s, Wrapped("$symbol", [Text(text)]), c), Cons(k, Symbol(text), Nil))
  {
    hide Run, SpecialKey, Ascii, Utf8Valid, Step, FixupKey, AppendTo, Extended, TypeKey, Wrapped;
    SpecialKeys2();
    LiteralValid("$symbol");
    var a := Announced(FixupKey(s), (SymbolType, SeekSymbol));
    FixupReady(s);
    AnnounceKey(FixupKey(s), Ascii("$symbol"));
    SymbolInside(a, k, text, c);
    AppendedInside(s, "$symbol", [Text(text)], a, k, Symbol(text), c);
  }

  /** A symbol is appended when its text is read, not at the end of the wrapper. */
  lemma SymbolInside(a: Machine, k: bytes, text: bytes, c: Conversions)
    requires !a.failed && a.read == InBsonType && a.sought == SeekSymbol && a.wrapper == SymbolType && a.key == Some(k)
    requires Utf8Valid(text, true)
    ensures Run(Run(a, [Text(text)], c), [EndMap], c) == AppendTo(a.(read := Regular), k, Symbol(text))
  {
    hide Run, Utf8Valid, Step, AppendTo;
    SymbolStep(a, k, text, c);
    RunOne(a, Text(text), c);
    RunOne(Step(a, Text(text), c), EndMap, c);
  }

  lemma SymbolStep(a: Machine, k: bytes, text: bytes, c: Conversions)
    requires !a.failed && a.read == InBsonType && a.sought == SeekSymbol && a.wrapper == SymbolType && a.key == Some(k)
    requires Utf8Valid(text, true)
    ensures var b := Step(a, Text(text), c);
            !b.failed && Step(b, EndMap, c) == AppendTo(a.(read := Regular), k, Symbol(text))
  {
    hide Utf8Valid, AppendTo, ParseBinary, AppendCode, AppendRegex, AppendBinary, EndContainer, AppendTimestamp,
      AppendDbPointer, StepStartMap, StepNull, StepFloat, StepStartArray, StepEndArray, StepInteger, StepBoolean, StepKey,
      StepText;
    TextStep(a, text, c);
    AppendKeeps(a, k, Symbol(text));
  }

  lemma AppendKeeps(s: Machine, k: bytes, v: Value)
    ensures AppendTo(s, k, v).(read := Regular) == AppendTo(s.(read := Regular), k, v)
    ensures var t := AppendTo(s, k, v);
            t.failed == s.failed && t.key == s.key && t.read == s.read && t.wrapper == s.wrapper && t.n == s.n && t.code == s.code
    ensures AppendTo(s, k, v).dbPointerKey == s.dbPointerKey
  {
  }

  // ---------------------------------------------------------------------------------------------------------
  // Wrappers around a map
  // ---------------------------------------------------------------------------------------------------------

  /** A run given state by state. */
  ghost predicate Path(states: seq<Machine>, events: seq<Event>, c: Conversions) {
    |states| == |events| + 1
    && forall i :: 0 <= i < |events| ==> !states[i].failed && Step(states[i], events[i], c) == states[i + 1]
  }

  lemma {:induction false} RunPath(states: seq<Machine>, events: seq<Event>, c: Conversions)
    requires Path(states, events, c)
    ensures Run(states[0], events, c) == states[|events|]
    decreases |events|
  {
    hide Step;
    if events != [] { RunPath(states[1..], events[1..], c); }
  }

  /** The second map of a wrapper. */
  lemma StartInside(a: Machine, c: Conversions)
    ensures a.read == InBsonType && a.sought == SeekDate ==> Step(a, StartMap, c) == a.(read := DateNumberLong)
    ensures a.read == InBsonType && a.sought == SeekBinary ==> Step(a, StartMap, c) == a.(read := BinaryValues)
    ensures a.read == TimestampStartMap ==> Step(a, StartMap, c) == a.(read := TimestampValues)
    ensures a.read == RegexStartMap ==> Step(a, StartMap, c) == a.(read := RegexValues)
    ensures a.read == ScopeStartMap ==> Step(a, StartMap, c) == a.(read := InScope)
    ensures a.read == DbPointerStartMap ==> Step(a, StartMap, c) == a.(read := InDbPointer)
  {
    hide StepText, StepEndMap, StepKey, StepNull, StepFloat, StepStartArray, StepEndArray, StepInteger, StepBoolean, Push;
    if a.read != Regular { FixupIdle(a); }
  }

  lemma KeyInside(a: Machine, k: bytes, w: Wrapper, sought: Sought, c: Conversions)
    requires Utf8Valid(k, false) && a.wrapper == w
    requires || (a.read == DateNumberLong && SpecialKey(k) == KNumberLong && w == DateType && sought == SeekInt64)
             || (a.read == TimestampValues && k == Ascii("t") && w == TimestampType && sought == SeekT)
             || (a.read == TimestampValues && k == Ascii("i") && k != Ascii("t") && w == TimestampType && sought == SeekI)
             || (a.read == RegexValues && k == Ascii("pattern") && w == RegexType && sought == SeekPattern)
             || (a.read == RegexValues && k == Ascii("options") && k != Ascii("pattern") && w == RegexType
                 && sought == SeekPatternOptions)
             || (a.read == BinaryValues && k == Ascii("base64") && w == BinaryType && sought == SeekBinary)
             || (a.read == BinaryValues && k == Ascii("subType") && k != Ascii("base64") && w == BinaryType && sought == SeekType)
    ensures Step(a, Key(k), c) == a.(sought := sought)
  {
    hide StepText, StepEndMap, StepStartMap, StepNull, StepFloat, StepStartArray, StepEndArray, StepInteger, StepBoolean,
      Push, TypeKey, Utf8Valid, Ascii, SpecialKey;
  }

  lemma ReadDate(s: Machine, k: bytes, ms: int, c: Conversions)
    requires Ready(s) && FixupKey(s).key == Some(k) && INT64_MIN <= ms <= INT64_MAX
    ensures var inner := [StartMap, Key(Ascii("$numberLong")), Text(DecimalInt(ms)), EndMap];
            Extended(FixupKey(s), Run(s, Wrapped("$date", inner), c), Cons(k, DateTime(ms), Nil))
  {
    hide Run, SpecialKey, Ascii, Utf8Valid, Step, FixupKey, AppendTo, Extended, TypeKey, DecimalInt, Wrapped;
    SpecialKeys();
    LiteralValid("$date");
    LiteralValid("$numberLong");
    var w := (DateType, SeekDate);
    var a := Announced(FixupKey(s), w);
    FixupReady(s);
    AnnounceKey(FixupKey(s), Ascii("$date"));
    var inner := [StartMap, Key(Ascii("$numberLong")), Text(DecimalInt(ms)), EndMap];
    DateInside(a, k, ms, c);
    AppendedInside(s, "$date", inner, a.(sought := SeekInt64, collected := a.collected.(date := ms)), k, DateTime(ms), c);
  }

  lemma DateInside(a: Machine, k: bytes, ms: int, c: Conversions)
    requires !a.failed && a.read == InBsonType && a.sought == SeekDate && a.wrapper == DateType && a.key == Some(k)
    requires INT64_MIN <= ms <= INT64_MAX
    ensures var inner := [StartMap, Key(Ascii("$numberLong")), Text(DecimalInt(ms)), EndMap];
            var b := a.(sought := SeekInt64, collected := a.collected.(date := ms));
            Run(Run(a, inner, c), [EndMap], c) == AppendTo(b.(read := Regular), k, DateTime(ms))
  {
    hide Run, SpecialKey, Ascii, Utf8Valid, Step, FixupKey, AppendTo, TypeKey, DecimalInt;
    SpecialKeys();
    LiteralValid("$numberLong");
    var s1 := a.(read := DateNumberLong);
    var s2 := s1.(sought := SeekInt64);
    var s3 := s2.(collected := s2.collected.(date := ms));
    var s4 := AppendTo(s3.(read := DateEndMap), k, DateTime(ms));
    StartInside(a, c);
    KeyInside(s1, Ascii("$numberLong"), DateType, SeekInt64, c);
    DateText(s2, ms, c);
    DateEnds(s3, k, ms, c);
    var inner := [StartMap, Key(Ascii("$numberLong")), Text(DecimalInt(ms)), EndMap];
    RunPath([a, s1, s2, s3, s4], inner, c);
    RunOne(s4, EndMap, c);
  }

  lemma DateText(a: Machine, ms: int, c: Conversions)
    requires a.read == DateNumberLong && a.sought == SeekInt64 && INT64_MIN <= ms <= INT64_MAX
    ensures Step(a, Text(DecimalInt(ms)), c) == a.(collected := a.collected.(date := ms))
  {
    hide StepEndMap, StepStartMap, StepNull, StepFloat, StepStartArray, StepEndArray, StepInteger, StepBoolean, StepKey,
      ParseBinary, Utf8Valid, DecimalInt, ParseInt, FixupKey;
    FixupIdle(a);
    DecimalAscii(ms);
    ParseDecimalInt(ms);
  }

  lemma DateEnds(a: Machine, k: bytes, ms: int, c: Conversions)
    requires !a.failed && a.read == DateNumberLong && a.collected.date == ms && a.key == Some(k)
    ensures var b := AppendTo(a.(read := DateEndMap), k, DateTime(ms));
            && !b.failed && Step(a, EndMap, c) == b
            && Step(b, EndMap, c) == AppendTo(a.(read := Regular), k, DateTime(ms))
  {
    hide StepText, StepStartMap, StepNull, StepFloat, StepStartArray, StepEndArray, StepInteger, StepBoolean, StepKey,
      AppendWrapped, EndContainer, AppendTimestamp, AppendRegex, AppendBinary, AppendDbPointer;
  }

  lemma ReadBinary(s: Machine, k: bytes, sub: byte, data: bytes, c: Conversions)
    requires Ready(s) && FixupKey(s).key == Some(k)
    ensures Extended(FixupKey(s), Run(s, Wrapped("$binary", BinaryInner(sub, data)), c), Cons(k, Binary(sub, data), Nil))
  {
    hide Run, SpecialKey, Ascii, Utf8Valid, Step, FixupKey, AppendTo, Extended, TypeKey, Encode, Hex, Wrapped;
    SpecialKeys();
    LiteralValid("$binary");
    var a := Announced(FixupKey(s), (BinaryType, SeekBinary));
    FixupReady(s);
    AnnounceKey(FixupKey(s), Ascii("$binary"));
    BinaryInside(a, k, sub, data, c);
    var b := a.(sought := SeekType, buf0 := data,
                collected := a.collected.(hasBinary := true, hasSubtype := true, subtype := sub));
    AppendedInside(s, "$binary", BinaryInner(sub, data), b, k, Binary(sub, data), c);
  }

  function BinaryInner(sub: byte, data: bytes): seq<Event> {
    [StartMap, Key(Ascii("base64")), Text(Encode(data)), Key(Ascii("subType")), Text(Hex([sub])), EndMap]
  }

  lemma BinaryInside(a: Machine, k: bytes, sub: byte, data: bytes, c: Conversions)
    requires !a.failed && a.read == InBsonType && a.sought == SeekBinary && a.wrapper == BinaryType && a.key == Some(k)
    ensures var b := a.(sought := SeekType, buf0 := data,
                        collected := a.collected.(hasBinary := true, hasSubtype := true, subtype := sub));
            Run(Run(a, BinaryInner(sub, data), c), [EndMap], c) == AppendTo(b.(read := Regular), k, Binary(sub, data))
  {
    hide Run, SpecialKey, Ascii, Utf8Valid, Step, FixupKey, AppendTo, TypeKey, Encode, Hex;
    LiteralValid("base64");
    LiteralValid("subType");
    var s1 := a.(read := BinaryValues);
    var s2 := s1.(sought := SeekBinary);
    var s3 := s2.(buf0 := data, collected := s2.collected.(hasBinary := true));
    var s4 := s3.(sought := SeekType);
    var s5 := s4.(collected := s4.collected.(hasSubtype := true, subtype := sub));
    var s6 := AppendTo(s5.(read := BinaryEndMap), k, Binary(sub, data));
    StartInside(a, c);
    KeyInside(s1, Ascii("base64"), BinaryType, SeekBinary, c);
    BinaryData(s2, data, c);
    KeyInside(s3, Ascii("subType"), BinaryType, SeekType, c);
    BinarySubtype(s4, sub, c);
    BinaryEnds(s5, k, c);
    RunPath([a, s1, s2, s3, s4, s5, s6], BinaryInner(sub, data), c);
    RunOne(s6, EndMap, c);
  }

  lemma BinaryText(a: Machine, text: bytes, c: Conversions)
    requires a.read == BinaryValues && Utf8Valid(text, true) && 0 !in text
    ensures Step(a, Text(text), c) == ParseBinary(a, text, c)
  {
    hide StepEndMap, StepStartMap, StepNull, StepFloat, StepStartArray, StepEndArray, StepInteger, StepBoolean, StepKey,
      ParseBinary, TextInType, Utf8Valid, FixupKey, CString;
    FixupIdle(a);
  }

  lemma EncodedText(data: bytes)
    ensures Utf8Valid(Encode(data), true) && 0 !in Encode(data) && Decode(Strip(Encode(data))) == Some(data)
  {
    hide Utf8Valid, Encode, Decode, Strip;
    EncodedLetters(data);
    NothingToStrip(Encode(data));
    DecodeEncode(data);
    EncodedAscii(data);
    AsciiValid(Encode(data), true);
  }

  lemma {:induction false} EncodedAscii(data: bytes)
    ensures IsAscii(Encode(data))
  {
    if |data| >= 3 { EncodedAscii(data[3..]); }
  }

  lemma BinaryData(a: Machine, data: bytes, c: Conversions)
    requires a.read == BinaryValues && a.sought == SeekBinary
    ensures Step(a, Text(Encode(data)), c) == a.(buf0 := data, collected := a.collected.(hasBinary := true))
  {
    hide Step, Encode, Utf8Valid, Decode, Strip, FromHex;
    EncodedText(data);
    BinaryText(a, Encode(data), c);
  }

  lemma BinarySubtype(a: Machine, sub: byte, c: Conversions)
    requires a.read == BinaryValues && a.sought == SeekType
    ensures Step(a, Text(Hex([sub])), c) == a.(collected := a.collected.(hasSubtype := true, subtype := sub))
  {
    hide Step, Utf8Valid, Decode, Strip, FromHex, Hex, AppendTo, Push, Ascii;
    var text := Hex([sub]);
    HexAscii([sub]);
    HexRoundTrip([sub]);
    assert |text| == 2 && text[0] in text && text[1] in text;
    assert FromHex(text)[0] == sub;
    BinaryText(a, text, c);
  }

  lemma BinaryEnds(a: Machine, k: bytes, c: Conversions)
    requires !a.failed && a.read == BinaryValues && a.key == Some(k) && a.collected.hasBinary && a.collected.hasSubtype
    ensures var b := AppendTo(a.(read := BinaryEndMap), k, Binary(a.collected.subtype, a.buf0));
            && !b.failed && Step(a, EndMap, c) == b
            && Step(b, EndMap, c) == AppendTo(a.(read := Regular), k, Binary(a.collected.subtype, a.buf0))
  {
    hide StepText, StepStartMap, StepNull, StepFloat, StepStartArray, StepEndArray, StepInteger, StepBoolean, StepKey,
      AppendWrapped, EndContainer, AppendTimestamp, AppendRegex, AppendDbPointer;
  }

  // Timestamps

  function TimestampInner(t: int, i: int): seq<Event> {
    [StartMap, Key(Ascii("t")), Integer(t % TWO_32, 1), Key(Ascii("i")), Integer(i % TWO_32, 1), EndMap]
  }

  /** The keys whose value must be a map. */
  lemma MapKey(s: Machine, k: bytes)
    requires !s.failed
    ensures SpecialKey(k) == KTimestamp ==>
            TypeKey(InWrapper(s), k) == InWrapper(s).(wrapper := TimestampType, read := TimestampStartMap)
    ensures SpecialKey(k) == KRegularExpression ==>
            TypeKey(InWrapper(s), k) == InWrapper(s).(wrapper := RegexType, read := RegexStartMap)
    ensures SpecialKey(k) == KDbPointer ==>
            TypeKey(InWrapper(s), k)
            == InWrapper(s).(wrapper := DbPointerType, read := DbPointerStartMap, dbPointerKey := KeyOf(s))
  {
    hide SpecialKey, CodeOrScopeKey;
  }

  lemma ReadTimestamp(s: Machine, k: bytes, t: int, i: int, c: Conversions)
    requires Ready(s) && FixupKey(s).key == Some(k) && 0 <= t < TWO_32 && 0 <= i < TWO_32
    ensures Extended(FixupKey(s), Run(s, Wrapped("$timestamp", TimestampInner(t, i)), c), Cons(k, Timestamp(t, i), Nil))
  {
    hide Run, SpecialKey, Ascii, Utf8Valid, Step, FixupKey, AppendTo, Extended, TypeKey, Wrapped;
    SpecialKeys2();
    LiteralValid("$timestamp");
    var a := InWrapper(FixupKey(s)).(wrapper := TimestampType, read := TimestampStartMap);
    FixupReady(s);
    MapKey(FixupKey(s), Ascii("$timestamp"));
    TimestampInside(a, k, t, i, c);
    var b := a.(sought := SeekI, collected := a.collected.(hasT := true, t := t, hasI := true, i := i));
    AppendedInside(s, "$timestamp", TimestampInner(t, i), b, k, Timestamp(t, i), c);
  }

  lemma TimestampInside(a: Machine, k: bytes, t: int, i: int, c: Conversions)
    requires !a.failed && a.read == TimestampStartMap && a.wrapper == TimestampType && a.key == Some(k)
    requires 0 <= t < TWO_32 && 0 <= i < TWO_32
    ensures var b := a.(sought := SeekI, collected := a.collected.(hasT := true, t := t, hasI := true, i := i));
            Run(Run(a, TimestampInner(t, i), c), [EndMap], c) == AppendTo(b.(read := Regular), k, Timestamp(t, i))
  {
    hide Run, SpecialKey, Ascii, Utf8Valid, Step, FixupKey, AppendTo, TypeKey;
    LiteralValid("t");
    LiteralValid("i");
    At("t", 0, 't');
    At("i", 0, 'i');
    var s1 := a.(read := TimestampValues);
    var s2 := s1.(sought := SeekT);
    var s3 := s2.(collected := s2.collected.(hasT := true, t := t));
    var s4 := s3.(sought := SeekI);
    var s5 := s4.(collected := s4.collected.(hasI := true, i := i));
    var s6 := AppendTo(s5.(read := TimestampEndMap), k, Timestamp(t, i));
    StartInside(a, c);
    KeyInside(s1, Ascii("t"), TimestampType, SeekT, c);
    TimestampPart(s2, t, c);
    KeyInside(s3, Ascii("i"), TimestampType, SeekI, c);
    TimestampPart(s4, i, c);
    TimestampEnds(s5, k, c);
    RunPath([a, s1, s2, s3, s4, s5, s6], TimestampInner(t, i), c);
    RunOne(s6, EndMap, c);
  }

  lemma TimestampPart(a: Machine, x: int, c: Conversions)
    requires a.read == TimestampValues && (a.sought == SeekT || a.sought == SeekI) && 0 <= x < TWO_32
    ensures Step(a, Integer(x % TWO_32, 1), c)
         == a.(collected := if a.sought == SeekT then a.collected.(hasT := true, t := x) else a.collected.(hasI := true, i := x))
  {
    hide StepEndMap, StepStartMap, StepNull, StepFloat, StepStartArray, StepEndArray, StepText, StepBoolean, StepKey,
      AppendRegular, FixupKey;
    FixupIdle(a);
  }

  lemma TimestampEnds(a: Machine, k: bytes, c: Conversions)
    requires !a.failed && a.read == TimestampValues && a.key == Some(k) && a.collected.hasT && a.collected.hasI
    ensures var v := Timestamp(a.collected.t, a.collected.i);
            var b := AppendTo(a.(read := TimestampEndMap), k, v);
            && !b.failed && Step(a, EndMap, c) == b && Step(b, EndMap, c) == AppendTo(a.(read := Regular), k, v)
  {
    hide StepText, StepStartMap, StepNull, StepFloat, StepStartArray, StepEndArray, StepInteger, StepBoolean, StepKey,
      AppendWrapped, EndContainer, AppendBinary, AppendRegex, AppendDbPointer;
  }

  // Regular expressions

  function RegexInner(pattern: bytes, options: bytes): seq<Event> {
    [StartMap, Key(Ascii("pattern")), Text(pattern), Key(Ascii("options")),
     Text(SelectedChars(REGEX_OPTIONS_SORTED, options)), EndMap]
  }

  lemma ReadRegex(s: Machine, k: bytes, pattern: bytes, options: bytes, c: Conversions)
    requires Ready(s) && FixupKey(s).key == Some(k)
    requires Utf8Valid(pattern, false) && 0 !in pattern && SelectedChars(REGEX_OPTIONS_SORTED, options) == options
    ensures Extended(FixupKey(s), Run(s, Wrapped("$regularExpression", RegexInner(pattern, options)), c),
                     Cons(k, Regex(pattern, options), Nil))
  {
    hide Run, SpecialKey, Ascii, Utf8Valid, Step, FixupKey, AppendTo, Extended, TypeKey, SelectedChars, Wrapped;
    SpecialKeys3();
    LiteralValid("$regularExpression");
    var a := InWrapper(FixupKey(s)).(wrapper := RegexType, read := RegexStartMap);
    FixupReady(s);
    MapKey(FixupKey(s), Ascii("$regularExpression"));
    RegexInside(a, k, pattern, options, c);
    var b := a.(sought := SeekPatternOptions, buf0 := pattern, buf1 := options,
                collected := a.collected.(hasPattern := true, hasOptions := true));
    AppendedInside(s, "$regularExpression", RegexInner(pattern, options), b, k, Regex(pattern, options), c);
  }

  lemma RegexInside(a: Machine, k: bytes, pattern: bytes, options: bytes, c: Conversions)
    requires !a.failed && a.read == RegexStartMap && a.wrapper == RegexType && a.key == Some(k)
    requires Utf8Valid(pattern, false) && 0 !in pattern && SelectedChars(REGEX_OPTIONS_SORTED, options) == options
    ensures var b := a.(sought := SeekPatternOptions, buf0 := pattern, buf1 := options,
                        collected := a.collected.(hasPattern := true, hasOptions := true));
            Run(Run(a, RegexInner(pattern, options), c), [EndMap], c) == AppendTo(b.(read := Regular), k, Regex(pattern, options))
  {
    hide Run, SpecialKey, Ascii, Utf8Valid, Step, FixupKey, AppendTo, TypeKey, SelectedChars;
    LiteralValid("pattern");
    LiteralValid("options");
    At("pattern", 0, 'p');
    At("options", 0, 'o');
    OptionsAscii(options);
    var s1 := a.(read := RegexValues);
    var s2 := s1.(sought := SeekPattern);
    var s3 := s2.(buf0 := pattern, collected := s2.collected.(hasPattern := true));
    var s4 := s3.(sought := SeekPatternOptions);
    var s5 := s4.(buf1 := options, collected := s4.collected.(hasOptions := true));
    var s6 := AppendTo(s5.(read := RegexEndMap), k, Regex(pattern, options));
    StartInside(a, c);
    KeyInside(s1, Ascii("pattern"), RegexType, SeekPattern, c);
    RegexText(s2, pattern, c);
    KeyInside(s3, Ascii("options"), RegexType, SeekPatternOptions, c);
    RegexText(s4, options, c);
    RegexEnds(s5, k, c);
    RunPath([a, s1, s2, s3, s4, s5, s6], RegexInner(pattern, options), c);
    RunOne(s6, EndMap, c);
  }

  lemma OptionsAscii(options: bytes)
    requires SelectedChars(REGEX_OPTIONS_SORTED, options) == options
    ensures Utf8Valid(options, false) && 0 !in options
  {
    hide Utf8Valid, SelectedChars;
    forall i | 0 <= i < |options| ensures 0 < options[i] < 0x80 {
      assert options[i] in SelectedChars(REGEX_OPTIONS_SORTED, options);
    }
    AsciiValid(options, false);
  }

  lemma RegexText(a: Machine, text: bytes, c: Conversions)
    requires a.read == RegexValues && (a.sought == SeekPattern || a.sought == SeekPatternOptions) && Utf8Valid(text, false)
    ensures Step(a, Text(text), c)
         == if a.sought == SeekPattern then a.(buf0 := text, collected := a.collected.(hasPattern := true))
            else a.(buf1 := text, collected := a.collected.(hasOptions := true))
  {
    hide StepEndMap, StepStartMap, StepNull, StepFloat, StepStartArray, StepEndArray, StepInteger, StepBoolean, StepKey,
      ParseBinary, Utf8Valid, ParseInt, FixupKey, AppendRegular;
    FixupIdle(a);
  }

  lemma RegexEnds(a: Machine, k: bytes, c: Conversions)
    requires !a.failed && a.read == RegexValues && a.key == Some(k) && a.collected.hasPattern && a.collected.hasOptions
    requires 0 !in a.buf0 && 0 !in a.buf1 && SelectedChars(REGEX_OPTIONS_SORTED, a.buf1) == a.buf1
    ensures var v := Regex(a.buf0, a.buf1);
            var b := AppendTo(a.(read := RegexEndMap), k, v);
            && !b.failed && Step(a, EndMap, c) == b && Step(b, EndMap, c) == AppendTo(a.(read := Regular), k, v)
  {
    hide StepText, StepStartMap, StepNull, StepFloat, StepStartArray, StepEndArray, StepInteger, StepBoolean, StepKey,
      AppendWrapped, EndContainer, AppendBinary, AppendTimestamp, AppendDbPointer, CString, SelectedChars;
  }
}
