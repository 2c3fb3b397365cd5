/** Code values and scopes: a code value never ends inside a scope. */
module JsonCode {
  import opened CInt
  import opened LittleEndian
  import opened BsonTree
  import opened BsonArguments
  import opened JsonText
  import opened JsonMachine
  import Base64
  import Utf8

  /** What the code reader asserts: a code value never ends inside a scope, and a scope that is begun is expected. */
  predicate CodeOutsideScope(s: Machine) {
    && (s.read == InBsonType && (s.wrapper == CodeType || s.wrapper == CodeWScopeType) ==> !s.code.inScope)
    && (s.read == ScopeStartMap || s.read == InScope ==> s.code.hasScope)
  }

  /** The fields the assertion is about are the same. */
  predicate SameCode(s: Machine, t: Machine) {
    t.read == s.read && t.wrapper == s.wrapper && t.code.inScope == s.code.inScope && t.code.hasScope == s.code.hasScope
  }

  lemma SameOutside(s: Machine, t: Machine)
    requires CodeOutsideScope(s) && (SameCode(s, t) || t.read == Error)
    ensures CodeOutsideScope(t)
  {
  }

  lemma StackOnly(s: Machine, k: bytes, v: Value, kind: FrameKind)
    ensures SameCode(s, AppendTo(s, k, v)) && SameCode(s, FixupKey(s))
    ensures CanPush(s) ==> SameCode(s, Push(s, kind, k))
    ensures s.n >= 0 ==> SameCode(s, Pop(s))
  {
  }

  lemma RegularOutside(s: Machine, v: Value)
    requires CodeOutsideScope(s)
    ensures CodeOutsideScope(AppendRegular(s, v)) && CodeOutsideScope(FixupKey(s))
  {
    hide AppendTo, FixupKey;
    StackOnly(s, [], v, DocFrame);
    if s.key.Some? { StackOnly(s, s.key.value, v, DocFrame); }
  }

  lemma ScalarOutside(s: Machine, e: Event, c: Conversions)
    requires CodeOutsideScope(s) && (e.Nothing? || e.Boolean? || e.Float? || e.Integer?)
    ensures CodeOutsideScope(Step(s, e, c))
  {
    hide StepText, StepStartMap, StepEndMap, StepKey, StepStartArray, StepEndArray, AppendRegular, FixupKey;
    RegularOutside(s, Null);
    var s1 := FixupKey(s);
    match e
    case Nothing => RegularOutside(s1, Null);
    case Boolean(b) => RegularOutside(s1, Bool(b));
    case Float(bits) => RegularOutside(s1, Double(bits));
    case Integer(m, sign) =>
      RegularOutside(s1, Int32(sign * m));
      RegularOutside(s1, Int64(sign * m));
  }

  lemma BinaryOutside(s: Machine, text: bytes, c: Conversions)
    requires CodeOutsideScope(s)
    ensures CodeOutsideScope(ParseBinary(s, text, c))
  {
    hide AppendTo, Push, ScanSubtype, Base64.Decode, Base64.Strip, Ascii, CodeOutsideScope;
    match s.sought {
      case SeekType =>
        var t := s.(collected := s.collected.(hasSubtype := true)).(read := Regular);
        ReadOutside(s.(collected := s.collected.(hasSubtype := true)), Regular);
        StackOnly(t, KeyOf(t), Null, DocFrame);
        if CanPush(t) { StackOnly(Push(t, DocFrame, KeyOf(t)), Ascii("$type"), Value.Utf8(text), DocFrame); }
        if ParseBinary(s, text, c).read == Regular { SameOutside(t, ParseBinary(s, text, c)); }
        else { SameOutside(s, ParseBinary(s, text, c)); }
      case _ => SameOutside(s, ParseBinary(s, text, c));
    }
  }

  lemma TextOutside(s: Machine, text: bytes, c: Conversions)
    requires CodeOutsideScope(s)
    ensures CodeOutsideScope(StepText(s, text, c))
  {
    hide AppendRegular, FixupKey, TextInType, ParseBinary, Utf8.Utf8Valid, CString;
    RegularOutside(s, Null);
    var s1 := FixupKey(s);
    RegularOutside(s1, Value.Utf8(text));
    BinaryOutside(s1, CString(text), c);
    TypedOutside(s1, text, c);
  }

  lemma TypedOutside(s: Machine, text: bytes, c: Conversions)
    requires CodeOutsideScope(s)
    ensures CodeOutsideScope(TextInType(s, text, c))
  {
    hide AppendTo, ParseBinary, NumberInType, FromHex, CString, CodeOutsideScope;
    var legacy := s.(collected := s.collected.(legacyBinary := true));
    SameOutside(s, legacy);
    match s.sought {
      case SeekBinary => BinaryOutside(legacy, CString(text), c);
      case SeekType => BinaryOutside(legacy, CString(text), c);
      case SeekUuid => BinaryOutside(s, CString(text), c);
      case SeekSymbol => StackOnly(s, KeyOf(s), Symbol(text), DocFrame); SameOutside(s, TextInType(s, text, c));
      case SeekRegex => SameOutside(s, TextInType(s, text, c));
      case SeekPattern => SameOutside(s, TextInType(s, text, c));
      case SeekOptions => SameOutside(s, TextInType(s, text, c));
      case SeekPatternOptions => SameOutside(s, TextInType(s, text, c));
      case SeekOid => SameOutside(s, TextInType(s, text, c));
      case SeekCode => SameOutside(s, TextInType(s, text, c));
      case _ => NumberOutside(s, text, c);
    }
  }

  lemma NumberOutside(s: Machine, text: bytes, c: Conversions)
    requires CodeOutsideScope(s)
    ensures CodeOutsideScope(NumberInType(s, text, c))
  {
    hide NumberInType, CodeOutsideScope;
    NumberSame(s, text, c);
    SameOutside(s, NumberInType(s, text, c));
  }

  lemma NumberSame(s: Machine, text: bytes, c: Conversions)
    ensures NumberInType(s, text, c) == Fail(s) || SameCode(s, NumberInType(s, text, c))
  {
    hide ParseInt, CString;
  }

  /** The start of a map as the value of a type's key. */
  lemma StartInType(s: Machine)
    requires CodeOutsideScope(s) && FixupKey(s).read == InBsonType
    ensures CodeOutsideScope(StepStartMap(s))
  {
    hide FixupKey, Push, Ascii, CodeOutsideScope;
    StackOnly(s, [], Null, DocFrame);
    var s1 := FixupKey(s);
    var u := s1.(read := InStartMap);
    StackOnly(u, KeyOf(u), Null, DocFrame);
    SameOutside(s, s1);
    ReadOutside(s1, DateNumberLong);
    ReadOutside(s1, BinaryValues);
    ReadOutside(s1, InStartMap);
    SameOutside(s1, Fail(s1));
    if s1.sought == SeekType && CanPush(u) { SameOutside(u, StepStartMap(s)); }
  }

  lemma StartOutside(s: Machine)
    requires CodeOutsideScope(s)
    ensures CodeOutsideScope(StepStartMap(s))
  {
    hide FixupKey, Push, Ascii, CodeOutsideScope;
    StackOnly(s, [], Null, DocFrame);
    var s1 := FixupKey(s);
    SameOutside(s, s1);
    match s1.read {
      case InBsonType => StartInType(s);
      case TimestampStartMap => ReadOutside(s1, TimestampValues);
      case ScopeStartMap => ScopeOutside(s1);
      case DbPointerStartMap => ReadOutside(s1, InDbPointer);
      case RegexStartMap => ReadOutside(s1, RegexValues);
      case _ => ReadOutside(s1, InStartMap);
    }
  }

  /** Reading states the assertions say nothing about. */
  lemma ReadOutside(s: Machine, read: ReadState)
    requires Elsewhere(read)
    ensures CodeOutsideScope(s.(read := read))
  {
  }

  lemma ScopeOutside(s: Machine)
    requires CodeOutsideScope(s) && s.read == ScopeStartMap
    ensures CodeOutsideScope(s.(read := InScope))
  {
  }

  lemma ArraysOutside(s: Machine)
    requires CodeOutsideScope(s)
    ensures CodeOutsideScope(StepStartArray(s)) && CodeOutsideScope(StepEndArray(s))
  {
    hide FixupKey, Push, Pop;
    StackOnly(s, KeyOf(s), Null, ArrayFrame);
    StackOnly(FixupKey(s), KeyOf(FixupKey(s)), Null, ArrayFrame);
  }

  lemma KeyOutside(s: Machine, k: bytes)
    requires CodeOutsideScope(s)
    ensures CodeOutsideScope(StepKey(s, k))
  {
    hide Utf8.Utf8Valid, Materialize, ResolvedKey, CodeOutsideScope;
    FailOutside(s);
    MaterializeOutside(s, k);
    var m := Materialize(s, k);
    if m.Some? { ResolvedOutside(m.value, k); }
  }

  lemma FailOutside(s: Machine)
    ensures CodeOutsideScope(Fail(s)) && CodeOutsideScope(s.(read := Regular))
  {
  }

  lemma MaterializeOutside(s: Machine, k: bytes)
    requires CodeOutsideScope(s)
    ensures Materialize(s, k).Some? ==> CodeOutsideScope(Materialize(s, k).value)
  {
    hide SpecialKey, Push;
    var m := Materialize(s, k);
    match s.read {
      case InStartMap => StackOnly(s.(read := Regular), KeyOf(s), Null, DocFrame);
      case InScope => StackOnly(s.(read := Regular, code := s.code.(inScope := true)), [], Null, ScopeFrame);
      case InDbPointer => StackOnly(s.(read := Regular), [], Null, DbPointerFrame);
      case _ => assert m == Some(s);
    }
  }

  lemma ResolvedOutside(s: Machine, k: bytes)
    requires CodeOutsideScope(s)
    ensures CodeOutsideScope(ResolvedKey(s, k))
  {
    hide SpecialKey, Ascii, TypeKey, Announce;
    if s.read == InBsonType { TypeKeyOutside(s, k); }
    forall w, sought
      ensures Announce(s, w, sought) == Fail(s) || Announce(s, w, sought) == s.(wrapper := w, sought := sought)
    {
      AnnounceCases(s, w, sought);
    }
  }

  lemma TypeKeyOutside(s: Machine, k: bytes)
    requires CodeOutsideScope(s)
    ensures CodeOutsideScope(TypeKey(s, k))
  {
    hide SpecialKey, CodeOrScopeKey, Announce, CodeOutsideScope;
    CodeKeyOutside(s, false, k);
    CodeKeyOutside(s, true, k);
    SameOutside(s, Fail(s));
    forall w, sought | w != CodeType && w != CodeWScopeType ensures CodeOutsideScope(Announce(s, w, sought)) {
      AnnounceOutside(s, w, sought);
    }
    ReadOutside(Announce(s, TimestampType, s.sought), TimestampStartMap);
    ReadOutside(Announce(s, RegexType, s.sought), RegexStartMap);
    ReadOutside(Announce(s, DbPointerType, s.sought).(dbPointerKey := KeyOf(s)), DbPointerStartMap);
  }

  lemma AnnounceOutside(s: Machine, w: Wrapper, sought: Sought)
    requires CodeOutsideScope(s) && w != CodeType && w != CodeWScopeType
    ensures CodeOutsideScope(Announce(s, w, sought))
  {
  }

  lemma AnnounceCases(s: Machine, w: Wrapper, sought: Sought)
    ensures Announce(s, w, sought) == Fail(s) || Announce(s, w, sought) == s.(wrapper := w, sought := sought)
  {
  }

  lemma CodeKeyOutside(s: Machine, isScope: bool, k: bytes)
    requires CodeOutsideScope(s)
    ensures CodeOutsideScope(CodeOrScopeKey(s, isScope, k))
  {
    hide Push;
    StackOnly(s.(read := Regular), KeyOf(s), Null, DocFrame);
  }

  lemma EndOutside(s: Machine)
    requires CodeOutsideScope(s)
    ensures CodeOutsideScope(StepEndMap(s))
  {
    hide Push, Pop, AppendWrapped, AppendDbPointer, AppendTimestamp, AppendRegex, AppendBinary, AppendTo, EndContainer;
    match s.read
    case InStartMap =>
      var u := s.(read := Regular);
      StackOnly(u, KeyOf(s), Null, DocFrame);
      if CanPush(s) { ContainerOutside(Push(u, DocFrame, KeyOf(s))); }
    case ScopeStartMap =>
      var u := s.(read := Regular, code := s.code.(inScope := true));
      StackOnly(u, [], Null, ScopeFrame);
      if CanPush(s) { ContainerOutside(Push(u, ScopeFrame, [])); }
    case InScope =>
      StackOnly(s, [], Null, ScopeFrame);
    case Regular => ContainerOutside(s);
    case DateNumberLong => StackOnly(s.(read := DateEndMap), KeyOf(s), DateTime(s.collected.date), DocFrame);
    case _ => AppendsRead(s);
  }

  lemma ContainerOutside(s: Machine)
    requires CodeOutsideScope(s)
    ensures CodeOutsideScope(EndContainer(s))
  {
    hide Pop;
    StackOnly(s, [], Null, DocFrame);
  }

  /** Outside the maps the assertions are about. */
  predicate Elsewhere(read: ReadState) {
    read != InBsonType && read != ScopeStartMap && read != InScope
  }

  /** The appends at the end of a map never lead into a wrapper or a scope. */
  lemma AppendsRead(s: Machine)
    ensures AppendDbPointer(s).(read := Regular).read == Regular
    ensures Elsewhere(AppendTimestamp(s.(read := TimestampEndMap)).read)
    ensures Elsewhere(AppendRegex(s.(read := RegexEndMap)).read)
    ensures Elsewhere(AppendBinary(s.(read := BinaryEndMap)).read)
    ensures Elsewhere(AppendWrapped(s.(read := Regular)).read)
  {
    hide CString, SelectedChars, DbPointerParts, Popped, AppendWrapped;
    WrappedRead(s.(read := Regular));
  }

  lemma WrappedRead(s: Machine)
    requires Elsewhere(s.read)
    ensures Elsewhere(AppendWrapped(s).read)
  {
    hide CString, SelectedChars, Popped, AppendTo;
    forall k, v ensures AppendTo(s, k, v).read == s.read { StackOnly(s, k, v, DocFrame); }
  }

  lemma CodeStaysOutside(s: Machine, e: Event, c: Conversions)
    requires CodeOutsideScope(s)
    ensures CodeOutsideScope(Step(s, e, c))
  {
    hide StepNull, StepBoolean, StepInteger, StepFloat, StepText, StepStartMap, StepKey, StepEndMap, StepStartArray,
      StepEndArray, CodeOutsideScope;
    match e
    case StartMap => StartOutside(s);
    case EndMap => EndOutside(s);
    case StartArray => ArraysOutside(s);
    case EndArray => ArraysOutside(s);
    case Key(k) => KeyOutside(s, k);
    case Text(text) => TextOutside(s, text, c);
    case _ => ScalarOutside(s, e, c);
  }
}
