/** The reader rebuilds the tree the canonical printer printed. */
module JsonRoundTrip {
  import opened CInt
  import opened LittleEndian
  import opened BsonTree
  import opened BsonArguments
  import opened Utf8
  import opened JsonText
  import opened JsonMachine
  import opened JsonPrint
  import opened JsonScalars

  // ---------------------------------------------------------------------------------------------------------
  // Code and DBPointers
  // ---------------------------------------------------------------------------------------------------------

  /** What "$code" and its text leave behind. */
  function CodeRead(s: Machine, k: bytes, js: bytes): Machine {
    InWrapper(s).(wrapper := CodeType, sought := SeekCode, code := CodeData(true, false, false, k, js))
  }

  lemma CodeKey(s: Machine, k: bytes, name: bytes, js: bytes, c: Conversions)
    requires Ready(s) && !s.code.inScope && s.key == Some(k) && SpecialKey(name) == KCode && Utf8Valid(js, true)
    ensures var a := TypeKey(InWrapper(s), name);
            !a.failed && Step(a, Text(js), c) == CodeRead(s, k, js)
  {
    hide SpecialKey, Step, Utf8Valid;
    TextStep(TypeKey(InWrapper(s), name), js, c);
  }

  lemma CodeAppended(s: Machine, b: Machine, k: bytes, js: bytes, scope: Option<Doc>)
    requires Ready(s) && s.key == Some(k) && !s.code.inScope && 0 !in js
    requires Ready(b.(code := s.code)) && b.n == s.n && b.stack[..s.n + 1] == s.stack[..s.n + 1] && b.key.Some?
    requires b.code == CodeData(true, scope.Some?, false, k, js) && (scope.Some? ==> Popped(b) == scope.value)
    ensures Extended(s, AppendCode(b), Cons(k, if scope.Some? then CodeWithScope(js, 0, scope.value) else Code(js), Nil))
  {
    hide CString, Popped;
    assert b.stack[s.n] == b.stack[..s.n + 1][s.n] == s.stack[s.n];
    assert b.stack[..s.n] == b.stack[..s.n + 1][..s.n] == s.stack[..s.n];
  }

  lemma ReadCode(s: Machine, k: bytes, js: bytes, c: Conversions)
    requires Ready(s) && FixupKey(s).key == Some(k) && !s.code.inScope && Utf8Valid(js, true) && 0 !in js
    ensures Extended(FixupKey(s), Run(s, Wrapped("$code", [Text(js)]), c), Cons(k, Code(js), Nil))
  {
    hide Run, SpecialKey, Ascii, Utf8Valid, Step, FixupKey, AppendTo, Extended, TypeKey, AppendCode, AppendRegex,
      AppendBinary;
    SpecialKeys3();
    LiteralValid("$code");
    FixupReady(s);
    CodeKey(FixupKey(s), k, Ascii("$code"), js, c);
    ScalarRun(s, "$code", Text(js), c);
    var b := CodeRead(FixupKey(s), k, js).(read := Regular);
    CodeAppended(FixupKey(s), b, k, js, None);
  }

  /** What a push leaves alone, and the new top. */
  lemma Pushed(s: Machine, kind: FrameKind, key: bytes)
    requires CanPush(s)
    ensures var t := Push(s, kind, key);
            && t.n == s.n + 1 && t.stack[..t.n] == s.stack[..t.n] && t.stack[t.n].kind == kind && t.stack[t.n].key == key
            && t.stack[t.n].doc == (if t.n == 0 then s.stack[0].doc else Nil) && (kind == ArrayFrame ==> t.stack[t.n].i == 0)
            && t.read == s.read && t.failed == s.failed && t.key == s.key && t.code == s.code
            && t.dbPointerKey == s.dbPointerKey && t.wrapper == s.wrapper
  {
  }

  lemma OpenDbPointer(a: Machine, collection: bytes, c: Conversions)
    requires !a.failed && a.read == DbPointerStartMap && a.n >= 0 && CanPush(a) && Utf8Valid(collection, true)
    requires a.code.inScope || Clear(a.code)
    ensures var events := [StartMap, Key(Ascii("$ref")), Text(collection), Key(Ascii("$id"))];
            var u := Push(a.(read := Regular), DbPointerFrame, []).(key := Some(Ascii("$id")));
            && Ready(u) && Run(a, events, c) == AppendTo(u, Ascii("$ref"), Utf8(collection))
  {
    hide Run, Ascii, Utf8Valid, Step, AppendTo, SpecialKey, StepStartMap, Push, FixupKey, Kind;
    var u := Push(a.(read := Regular), DbPointerFrame, []);
    Pushed(a.(read := Regular), DbPointerFrame, []);
    DbPointerFirst(a, c);
    DbPointerSecond(u.(key := Some(Ascii("$ref"))), collection, c);
    var (xs, ys) := ([StartMap, Key(Ascii("$ref"))], [Text(collection), Key(Ascii("$id"))]);
    assert xs + ys == [StartMap, Key(Ascii("$ref")), Text(collection), Key(Ascii("$id"))];
    RunSplit(a, xs, ys, c);
  }

  lemma DbPointerFirst(a: Machine, c: Conversions)
    requires !a.failed && a.read == DbPointerStartMap && CanPush(a)
    ensures Run(a, [StartMap, Key(Ascii("$ref"))], c)
         == Push(a.(read := Regular), DbPointerFrame, []).(key := Some(Ascii("$ref")))
  {
    hide Run, Ascii, Utf8Valid, Step, SpecialKey, StepStartMap, Push;
    LiteralValid("$ref");
    var s1 := a.(read := InDbPointer);
    StartInside(a, c);
    DbPointerKey(s1, Ascii("$ref"), c);
    RunPath([a, s1, Step(s1, Key(Ascii("$ref")), c)], [StartMap, Key(Ascii("$ref"))], c);
  }

  lemma DbPointerSecond(s: Machine, collection: bytes, c: Conversions)
    requires Ready(s) && s.key == Some(Ascii("$ref")) && s.stack[s.n].kind == DbPointerFrame && Utf8Valid(collection, true)
    ensures Run(s, [Text(collection), Key(Ascii("$id"))], c)
         == AppendTo(s.(key := Some(Ascii("$id"))), Ascii("$ref"), Utf8(collection))
  {
    hide Run, Ascii, Utf8Valid, Step, AppendTo, SpecialKey, FixupKey;
    LiteralValid("$id");
    RegularIdle(s);
    var t := AppendTo(s, Ascii("$ref"), Utf8(collection));
    SwapKey(s, Ascii("$ref"), Utf8(collection), Ascii("$id"));
    RegularText(s, Ascii("$ref"), collection, c);
    RegularKey(t, Ascii("$id"), c);
    RunPath([s, t, t.(key := Some(Ascii("$id")))], [Text(collection), Key(Ascii("$id"))], c);
  }

  lemma SwapKey(s: Machine, k: bytes, v: Value, k': bytes)
    ensures AppendTo(s, k, v).(key := Some(k')) == AppendTo(s.(key := Some(k')), k, v)
    ensures AppendTo(s, k, v).read == s.read && AppendTo(s, k, v).failed == s.failed
  {
  }

  lemma DbPointerKey(a: Machine, k: bytes, c: Conversions)
    requires a.read == InDbPointer && CanPush(a) && Utf8Valid(k, false)
    ensures Step(a, Key(k), c) == Push(a.(read := Regular), DbPointerFrame, []).(key := Some(k))
  {
    hide StepText, StepEndMap, StepStartMap, StepNull, StepFloat, StepStartArray, StepEndArray, StepInteger, StepBoolean,
      TypeKey, Utf8Valid, Ascii, SpecialKey;
  }

  lemma RegularText(s: Machine, k: bytes, text: bytes, c: Conversions)
    requires s.read == Regular && FixupKey(s).key == Some(k) && Utf8Valid(text, true)
    ensures Step(s, Text(text), c) == AppendTo(FixupKey(s), k, Utf8(text))
    ensures Kind(s) != ArrayFrame ==> FixupKey(s) == s
  {
    hide StepKey, StepEndMap, StepStartMap, StepNull, StepFloat, StepStartArray, StepEndArray, StepInteger, StepBoolean,
      TextInType, ParseBinary, Utf8Valid;
  }

  lemma RegularKey(s: Machine, k: bytes, c: Conversions)
    requires s.read == Regular && Utf8Valid(k, false)
    ensures Step(s, Key(k), c) == s.(key := Some(k))
  {
    hide StepText, StepEndMap, StepStartMap, StepNull, StepFloat, StepStartArray, StepEndArray, StepInteger, StepBoolean,
      TypeKey, Utf8Valid, Ascii, SpecialKey, Push;
  }

  /** The frame of the DBPointer holds "$ref" and "$id" when its map ends, and both are taken from it. */
  lemma CloseDbPointer(s: Machine, a: Machine, u: Machine, k: bytes, collection: bytes, oid: bytes, c: Conversions)
    requires Ready(s) && Ready(u) && CodeKept(s, u) && u.n == s.n + 1 && u.stack[..s.n + 1] == s.stack[..s.n + 1]
    requires u.stack[u.n].kind == DbPointerFrame && u.dbPointerKey == k && u.key.Some? && 0 !in collection
    requires u.stack[u.n].doc == Cons(Ascii("$ref"), Utf8(collection), Cons(Ascii("$id"), Oid(oid), Nil))
    ensures !Step(u, EndMap, c).failed
    ensures Extended(s, Step(Step(u, EndMap, c), EndMap, c), Cons(k, DbPointer(collection, oid), Nil))
  {
    hide StepText, StepStartMap, StepNull, StepFloat, StepStartArray, StepEndArray, StepInteger, StepBoolean, StepKey,
      AppendWrapped, AppendBinary, AppendTimestamp, AppendRegex, CString, Ascii, AppendTo, Extended;
    var z := Pop(u).(read := DbPointerStartMap);
    assert Step(u, EndMap, c) == z;
    assert Popped(z) == u.stack[u.n].doc;
    At("$ref", 1, 'r');
    At("$id", 1, 'i');
    DbPointerFound(collection, oid);
    assert Step(z, EndMap, c) == AppendTo(z, k, DbPointer(collection, oid)).(read := Regular);
    AppendKeeps(z, k, DbPointer(collection, oid));
    var b := z.(read := Regular);
    assert u.stack[..s.n + 1][s.n] == s.stack[s.n] && u.stack[..s.n] == u.stack[..s.n + 1][..s.n] == s.stack[..s.n];
    AppendAbove(s, b, k, DbPointer(collection, oid));
  }

  lemma DbPointerFound(collection: bytes, oid: bytes)
    ensures DbPointerParts(Cons(Ascii("$ref"), Utf8(collection), Cons(Ascii("$id"), Oid(oid), Nil)), None, None)
         == Some((collection, oid))
  {
    hide Ascii;
    var last := Cons(Ascii("$id"), Oid(oid), Nil);
    assert DbPointerParts(Nil, Some(collection), Some(oid)) == Some((collection, oid));
    assert DbPointerParts(last, Some(collection), None) == Some((collection, oid));
  }

  /** As AppendExtends, for a stack that has changed only above its top. */
  lemma AppendAbove(s: Machine, u: Machine, k: bytes, v: Value)
    requires Ready(s) && Ready(u) && u.n == s.n && u.stack[s.n] == s.stack[s.n] && u.stack[..s.n] == s.stack[..s.n]
    requires u.key.Some? && CodeKept(s, u)
    ensures Extended(s, AppendTo(u, k, v), Cons(k, v, Nil))
  {
  }

  lemma ReadDbPointer(s: Machine, k: bytes, collection: bytes, oid: bytes, c: Conversions)
    requires Ready(s) && FixupKey(s).key == Some(k) && CanPush(s)
    requires Utf8Valid(collection, true) && 0 !in collection && |oid| == 12
    ensures Extended(FixupKey(s), Run(s, Wrapped("$dbPointer", DbPointerInner(collection, oid)), c),
                     Cons(k, DbPointer(collection, oid), Nil))
  {
    hide Run, SpecialKey, Ascii, Utf8Valid, Step, FixupKey, AppendTo, TypeKey, Hex;
    SpecialKeys3();
    LiteralValid("$dbPointer");
    var s1 := FixupKey(s);
    FixupReady(s);
    MapKey(s1, Ascii("$dbPointer"));
    WrapperRun(s, "$dbPointer", DbPointerInner(collection, oid), c);
    var a := InWrapper(s1).(wrapper := DbPointerType, read := DbPointerStartMap, dbPointerKey := k);
    DbPointerInside(s1, a, k, collection, oid, c);
  }

  function DbPointerInner(collection: bytes, oid: bytes): seq<Event> {
    [StartMap, Key(Ascii("$ref")), Text(collection), Key(Ascii("$id"))] + Wrapped("$oid", [Text(Hex(oid))]) + [EndMap]
  }

  lemma DbPointerInside(s: Machine, a: Machine, k: bytes, collection: bytes, oid: bytes, c: Conversions)
    requires Ready(s) && CanPush(s) && Utf8Valid(collection, true) && 0 !in collection && |oid| == 12
    requires a == InWrapper(s).(wrapper := DbPointerType, read := DbPointerStartMap, dbPointerKey := k)
    ensures Extended(s, Run(Run(a, DbPointerInner(collection, oid), c), [EndMap], c), Cons(k, DbPointer(collection, oid), Nil))
  {
    hide Run, SpecialKey, Ascii, Utf8Valid, Step, AppendTo, TypeKey, Hex;
    var first := [StartMap, Key(Ascii("$ref")), Text(collection), Key(Ascii("$id"))];
    var id := Wrapped("$oid", [Text(Hex(oid))]);
    var u := Push(a.(read := Regular), DbPointerFrame, []).(key := Some(Ascii("$id")));
    var u1 := AppendTo(u, Ascii("$ref"), Utf8(collection));
    OpenDbPointer(a, collection, c);
    AppendPushed(u, Ascii("$ref"), Utf8(collection));
    RunSplit(a, first + id, [EndMap], c);
    RunSplit(a, first, id, c);
    RegularIdle(u1);
    ReadOid(u1, Ascii("$id"), oid, c);
    var u2 := Run(u1, id, c);
    RunOne(u2, EndMap, c);
    AppendTwo(Ascii("$ref"), Utf8(collection), Ascii("$id"), Oid(oid));
    assert u2.stack[..s.n + 1] == u1.stack[..s.n + 1] == u.stack[..s.n + 1] == s.stack[..s.n + 1];
    CloseDbPointer(s, a, u2, k, collection, oid, c);
    RunOne(Step(u2, EndMap, c), EndMap, c);
  }

  lemma AppendTwo(k: bytes, v: Value, k': bytes, v': Value)
    ensures Append(Cons(k, v, Nil), Cons(k', v', Nil)) == Cons(k, v, Cons(k', v', Nil))
  {
  }

  lemma RegularIdle(s: Machine)
    requires Kind(s) != ArrayFrame
    ensures FixupKey(s) == s
  {
  }

  lemma AppendPushed(u: Machine, k: bytes, v: Value)
    requires Ready(u) && u.stack[u.n].doc == Nil
    ensures var t := AppendTo(u, k, v);
            && Ready(t) && t.n == u.n && t.stack[..u.n] == u.stack[..u.n] && t.key == u.key && t.code == u.code
            && t.stack[u.n] == u.stack[u.n].(doc := Cons(k, v, Nil)) && t.dbPointerKey == u.dbPointerKey
  {
  }

  // ---------------------------------------------------------------------------------------------------------
  // Documents, arrays and scopes
  // ---------------------------------------------------------------------------------------------------------

  /** Whether the map is a document shows at its first key or at its end; from then on its frame is there. */
  lemma DocOpens(a: Machine, d: Doc, c: Conversions, p: Printers)
    requires !a.failed && a.read == InStartMap && CanPush(a) && (d.Cons? ==> Utf8Valid(d.key, false))
    requires a.n >= 0 && d.Cons? ==> SpecialKey(d.key) == Ordinary
    ensures var u := Push(a.(read := Regular), DocFrame, KeyOf(a));
            Run(a, MemberEvents(d, p) + [EndMap], c) == Run(u, MemberEvents(d, p) + [EndMap], c)
  {
    hide Run, Utf8Valid, Step, SpecialKey, ValueEvents;
    var u := Push(a.(read := Regular), DocFrame, KeyOf(a));
    FirstEvent(a, u, d, c);
    OpensAlike(a, u, d, c, p);
  }

  lemma FirstEvent(a: Machine, u: Machine, d: Doc, c: Conversions)
    requires !a.failed && CanPush(a) && (d.Cons? ==> Utf8Valid(d.key, false))
    requires || (a.read == InStartMap && u == Push(a.(read := Regular), DocFrame, KeyOf(a))
                 && (a.n >= 0 && d.Cons? ==> SpecialKey(d.key) == Ordinary))
             || (a.read == InScope && u == Push(a.(read := Regular, code := a.code.(inScope := true)), ScopeFrame, []))
    ensures Step(a, if d.Nil? then EndMap else Key(d.key), c) == Step(u, if d.Nil? then EndMap else Key(d.key), c)
    ensures !u.failed
  {
    hide StepText, StepStartMap, StepNull, StepFloat, StepStartArray, StepEndArray, StepInteger, StepBoolean,
      TypeKey, Utf8Valid, Ascii, SpecialKey, AppendWrapped, AppendTo;
  }

  lemma OpensAlike(a: Machine, u: Machine, d: Doc, c: Conversions, p: Printers)
    requires !a.failed && !u.failed
    requires Step(a, if d.Nil? then EndMap else Key(d.key), c) == Step(u, if d.Nil? then EndMap else Key(d.key), c)
    ensures Run(a, MemberEvents(d, p) + [EndMap], c) == Run(u, MemberEvents(d, p) + [EndMap], c)
  {
    hide Run, Step, ValueEvents;
    match d
    case Nil =>
      assert MemberEvents(d, p) + [EndMap] == [EndMap];
      RunOne(a, EndMap, c);
      RunOne(u, EndMap, c);
    case Cons(k, v, rest) =>
      var tail := ValueEvents(v, p) + MemberEvents(rest, p) + [EndMap];
      assert MemberEvents(d, p) + [EndMap] == [Key(k)] + tail;
      RunCons(a, Key(k), tail, c);
      RunCons(u, Key(k), tail, c);
  }

  /** A container frame on top of s, filled with the document d. */
  predicate Filled(s: Machine, t: Machine, kind: FrameKind, key: bytes, d: Doc) {
    && Ready(t) && t.n == s.n + 1 && t.stack[..t.n] == s.stack[..t.n]
    && t.stack[t.n].kind == kind && t.stack[t.n].key == key && t.stack[t.n].doc == d
  }

  lemma DocCloses(s: Machine, t: Machine, k: bytes, d: Doc, isArray: bool, c: Conversions)
    requires Ready(s) && Filled(s, t, if isArray then ArrayFrame else DocFrame, k, d) && CodeKept(s, t)
    requires s.key.Some? ==> t.key.Some?
    ensures Extended(s, Step(t, if isArray then EndArray else EndMap, c), Cons(k, if isArray then Array(d) else Document(d), Nil))
  {
    hide StepText, StepStartMap, StepNull, StepFloat, StepStartArray, StepKey, StepInteger, StepBoolean;
    assert t.stack[..t.n][s.n] == s.stack[s.n] && t.stack[..t.n][..s.n] == t.stack[..s.n] == s.stack[..s.n];
  }

  lemma StartMapStep(s: Machine, c: Conversions)
    requires s.read == Regular
    ensures Step(s, StartMap, c) == FixupKey(s).(read := InStartMap)
  {
    hide StepText, StepEndMap, StepNull, StepFloat, StepStartArray, StepEndArray, StepKey, StepInteger, StepBoolean;
  }

  lemma StartArrayStep(s: Machine, c: Conversions)
    requires s.read == Regular && CanPush(s)
    ensures var s1 := FixupKey(s); Step(s, StartArray, c) == Push(s1, ArrayFrame, KeyOf(s1))
  {
    hide StepText, StepEndMap, StepNull, StepFloat, StepStartMap, StepEndArray, StepKey, StepInteger, StepBoolean, Push;
  }

  /** The whole of a nested document, given what its members do to the frame pushed for it. */
  lemma ReadDocument(s: Machine, k: bytes, d: Doc, c: Conversions, p: Printers)
    requires Ready(s) && FixupKey(s).key == Some(k) && CanPush(s)
    requires Readable(Document(d), s.code.inScope, c, p)
    requires var u := Push(FixupKey(s), DocFrame, k); Extended(u, Run(u, MemberEvents(d, p), c), d)
    ensures Extended(FixupKey(s), Run(s, ValueEvents(Document(d), p), c), Cons(k, Document(d), Nil))
  {
    hide Run, Utf8Valid, Step, SpecialKey, FixupKey, MemberEvents;
    var s1 := FixupKey(s);
    var a := s1.(read := InStartMap);
    var u := Push(s1, DocFrame, k);
    var t := Run(u, MemberEvents(d, p), c);
    FixupReady(s);
    StartMapStep(s, c);
    assert ValueEvents(Document(d), p) == [StartMap] + (MemberEvents(d, p) + [EndMap]);
    RunCons(s, StartMap, MemberEvents(d, p) + [EndMap], c);
    DocOpens(a, d, c, p);
    RunSplit(u, MemberEvents(d, p), [EndMap], c);
    RunOne(t, EndMap, c);
    ExtendedFills(s1, u, t, DocFrame, k, d);
    DocCloses(s1, t, k, d, false, c);
  }

  lemma ExtendedFills(s: Machine, u: Machine, t: Machine, kind: FrameKind, k: bytes, d: Doc)
    requires Ready(s) && CanPush(s) && u == Push(s, kind, k) && Extended(u, t, d)
    ensures Filled(s, t, kind, k, d) && CodeKept(s, t) && (s.key.Some? ==> t.key.Some?)
  {
    Pushed(s, kind, k);
    hide Push;
  }

  /** An array after its first elements, d of them altogether from index i on. */
  predicate Indexed(s: Machine, t: Machine, d: Doc) {
    && Ready(s) && Ready(t) && t.n == s.n && t.stack[..s.n] == s.stack[..s.n] && (s.key.Some? ==> t.key.Some?)
    && t.stack[s.n].kind == s.stack[s.n].kind && t.stack[s.n].key == s.stack[s.n].key
    && t.stack[s.n].doc == Append(s.stack[s.n].doc, d)
    && CodeKept(s, t)
  }

  lemma ReadArray(s: Machine, k: bytes, d: Doc, c: Conversions, p: Printers)
    requires Ready(s) && FixupKey(s).key == Some(k) && CanPush(s)
    requires var u := Push(FixupKey(s), ArrayFrame, k); Indexed(u, Run(u, ItemEvents(d, p), c), d)
    ensures Extended(FixupKey(s), Run(s, ValueEvents(Array(d), p), c), Cons(k, Array(d), Nil))
  {
    hide Run, Utf8Valid, Step, SpecialKey, FixupKey, ItemEvents;
    var s1 := FixupKey(s);
    var u := Push(s1, ArrayFrame, k);
    var t := Run(u, ItemEvents(d, p), c);
    FixupReady(s);
    StartArrayStep(s, c);
    assert ValueEvents(Array(d), p) == [StartArray] + (ItemEvents(d, p) + [EndArray]);
    RunCons(s, StartArray, ItemEvents(d, p) + [EndArray], c);
    RunSplit(u, ItemEvents(d, p), [EndArray], c);
    RunOne(t, EndArray, c);
    Pushed(s1, ArrayFrame, k);
    DocCloses(s1, t, k, d, true, c);
  }

  /** The reader in front of a scope's map, inside it, and with its frame. */
  function ScopeDue(s: Machine, k: bytes, js: bytes): Machine {
    InWrapper(s).(wrapper := CodeWScopeType, read := ScopeStartMap, sought := SeekScope, code := CodeData(true, true, false, k, js))
  }

  function InsideScope(s: Machine, k: bytes, js: bytes): Machine
    requires CanPush(s)
  {
    Push(ScopeDue(s, k, js).(read := Regular, code := CodeData(true, true, true, k, js)), ScopeFrame, [])
  }

  lemma ScopeKey(s: Machine, k: bytes, js: bytes, name: bytes, c: Conversions)
    requires Ready(s) && !s.code.inScope && s.key == Some(k) && SpecialKey(name) == KScope && Utf8Valid(name, false)
    ensures Step(CodeRead(s, k, js), Key(name), c) == ScopeDue(s, k, js)
  {
    hide StepText, StepEndMap, StepStartMap, StepNull, StepFloat, StepStartArray, StepEndArray, StepInteger, StepBoolean,
      Push, SpecialKey, Utf8Valid, Ascii;
  }

  lemma ScopeCloses(s: Machine, t: Machine, k: bytes, js: bytes, scope: Doc, c: Conversions)
    requires Ready(s) && !s.code.inScope && s.key == Some(k) && 0 !in js
    requires Filled(s, t, ScopeFrame, [], scope) && t.code == CodeData(true, true, true, k, js) && t.key.Some?
    ensures var z := Step(t, EndMap, c);
            !z.failed && Extended(s, Step(z, EndMap, c), Cons(k, CodeWithScope(js, 0, scope), Nil))
  {
    hide StepText, StepStartMap, StepNull, StepFloat, StepStartArray, StepEndArray, StepKey, StepInteger, StepBoolean,
      AppendCode, AppendRegex, AppendBinary, AppendDbPointer, AppendTimestamp, Extended, CString;
    var z := Pop(t).(read := InBsonType, wrapper := CodeType, code := CodeData(true, true, false, k, js));
    assert Step(t, EndMap, c) == z;
    assert Step(z, EndMap, c) == AppendCode(z.(read := Regular));
    assert Popped(z) == scope;
    assert z.stack[..s.n + 1] == s.stack[..s.n + 1];
    CodeAppended(s, z.(read := Regular), k, js, Some(scope));
  }

  lemma ReadCodeWithScope(s: Machine, k: bytes, js: bytes, scope: Doc, c: Conversions, p: Printers)
    requires Ready(s) && FixupKey(s).key == Some(k) && CanPush(s) && !s.code.inScope && Utf8Valid(js, true) && 0 !in js
    requires scope.Cons? ==> Utf8Valid(scope.key, false)
    requires var u := InsideScope(FixupKey(s), k, js); Extended(u, Run(u, MemberEvents(scope, p), c), scope)
    ensures Extended(FixupKey(s), Run(s, ValueEvents(CodeWithScope(js, 0, scope), p), c),
                     Cons(k, CodeWithScope(js, 0, scope), Nil))
  {
    hide Run, SpecialKey, Ascii, Utf8Valid, Step, FixupKey, Extended, TypeKey, MemberEvents;
    SpecialKeys3();
    LiteralValid("$code");
    var s1 := FixupKey(s);
    FixupReady(s);
    CodeKey(s1, k, Ascii("$code"), js, c);
    var inner := [Text(js), Key(Ascii("$scope"))] + DocEvents(scope, p);
    WrapperRun(s, "$code", inner, c);
    ScopeInside(s1, TypeKey(InWrapper(s1), Ascii("$code")), k, js, scope, c, p);
  }

  lemma ScopeInside(s: Machine, a: Machine, k: bytes, js: bytes, scope: Doc, c: Conversions, p: Printers)
    requires Ready(s) && s.key == Some(k) && CanPush(s) && !s.code.inScope && 0 !in js
    requires scope.Cons? ==> Utf8Valid(scope.key, false)
    requires !a.failed && Step(a, Text(js), c) == CodeRead(s, k, js)
    requires var u := InsideScope(s, k, js); Extended(u, Run(u, MemberEvents(scope, p), c), scope)
    ensures var inner := [Text(js), Key(Ascii("$scope"))] + DocEvents(scope, p);
            Extended(s, Run(Run(a, inner, c), [EndMap], c), Cons(k, CodeWithScope(js, 0, scope), Nil))
  {
    hide Run, SpecialKey, Ascii, Utf8Valid, Step, TypeKey, MemberEvents;
    SpecialKeys3();
    LiteralValid("$scope");
    var (b, due) := (CodeRead(s, k, js), ScopeDue(s, k, js));
    var b3 := due.(read := InScope);
    var u := InsideScope(s, k, js);
    var members := MemberEvents(scope, p) + [EndMap];
    ScopeKey(s, k, js, Ascii("$scope"), c);
    StartInside(due, c);
    assert [Text(js), Key(Ascii("$scope"))] + DocEvents(scope, p)
        == [Text(js), Key(Ascii("$scope")), StartMap] + members;
    RunSplit(a, [Text(js), Key(Ascii("$scope")), StartMap], members, c);
    RunPath([a, b, due, b3], [Text(js), Key(Ascii("$scope")), StartMap], c);
    FirstEvent(b3, u, scope, c);
    OpensAlike(b3, u, scope, c, p);
    ScopeEnds(s, k, js, scope, c, p);
  }

  /** From the first key of the scope on. */
  lemma ScopeEnds(s: Machine, k: bytes, js: bytes, scope: Doc, c: Conversions, p: Printers)
    requires Ready(s) && s.key == Some(k) && CanPush(s) && !s.code.inScope && 0 !in js
    requires var u := InsideScope(s, k, js); Extended(u, Run(u, MemberEvents(scope, p), c), scope)
    ensures var u := InsideScope(s, k, js);
            Extended(s, Run(Run(u, MemberEvents(scope, p) + [EndMap], c), [EndMap], c), Cons(k, CodeWithScope(js, 0, scope), Nil))
  {
    hide Run, Step, MemberEvents;
    var due := ScopeDue(s, k, js);
    var u := InsideScope(s, k, js);
    var t := Run(u, MemberEvents(scope, p), c);
    RunSplit(u, MemberEvents(scope, p), [EndMap], c);
    RunOne(t, EndMap, c);
    Pushed(due.(read := Regular, code := CodeData(true, true, true, k, js)), ScopeFrame, []);
    ScopeFills(s, u, t, scope);
    ScopeCloses(s, t, k, js, scope, c);
    RunOne(Step(t, EndMap, c), EndMap, c);
  }

  lemma ScopeFills(s: Machine, u: Machine, t: Machine, scope: Doc)
    requires Ready(s) && Extended(u, t, scope) && u.n == s.n + 1 && u.stack[..u.n] == s.stack[..u.n]
    requires u.stack[u.n].kind == ScopeFrame && u.stack[u.n].key == [] && u.stack[u.n].doc == Nil
    ensures Filled(s, t, ScopeFrame, [], scope)
  {
  }

  // ---------------------------------------------------------------------------------------------------------
  // Every value, every document
  // ---------------------------------------------------------------------------------------------------------

  lemma ExtendedTwice(s: Machine, t: Machine, w: Machine, d: Doc, e: Doc)
    requires Extended(s, t, d) && Extended(t, w, e)
    ensures Extended(s, w, Append(d, e))
  {
    AppendAssoc(s.stack[s.n].doc, d, e);
  }

  predicate IsContainer(v: Value) {
    v.Document? || v.Array? || v.CodeWithScope?
  }

  lemma ReadSimple(s: Machine, k: bytes, v: Value, c: Conversions, p: Printers)
    requires Ready(s) && FixupKey(s).key == Some(k) && Readable(v, s.code.inScope, c, p) && s.n + Depth(v) < STACK_MAX
    requires !IsContainer(v)
    ensures Extended(FixupKey(s), Run(s, ValueEvents(v, p), c), Cons(k, v, Nil))
  {
    hide Run, Utf8Valid, Step, SpecialKey, FixupKey, MemberEvents, ItemEvents, Extended, Ready, Push, SelectedChars,
      Hex, DecimalInt, Ascii, TypeKey, ReadableDoc, DocDepth;
    match v
    case Double(bits) => ReadDouble(s, k, bits, p.double(bits), c);
    case Utf8(text) => ReadText(s, k, text, c);
    case Binary(sub, data) => ReadBinary(s, k, sub, data, c);
    case Undefined => ReadConstant(s, k, v, c);
    case Oid(oid) => ReadOid(s, k, oid, c);
    case Bool(b) => ReadPlain(s, k, v, Boolean(b), c);
    case DateTime(ms) => ReadDate(s, k, ms, c);
    case Null => ReadPlain(s, k, v, Nothing, c);
    case Regex(pattern, options) => ReadRegex(s, k, pattern, options, c);
    case DbPointer(collection, oid) => ReadDbPointer(s, k, collection, oid, c);
    case Code(js) => ReadCode(s, k, js, c);
    case Symbol(text) => ReadSymbol(s, k, text, c);
    case Int32(i) => ReadInt32(s, k, i, c);
    case Timestamp(t, i) => ReadTimestamp(s, k, t, i, c);
    case Int64(i) => ReadInt64(s, k, i, c);
    case Decimal128(low, high) => ReadDecimal(s, k, low, high, p.decimal(low, high), c);
    case MaxKey => ReadConstant(s, k, v, c);
    case MinKey => ReadConstant(s, k, v, c);
    case _ =>
  }

  lemma {:induction false} ReadValue(s: Machine, k: bytes, v: Value, c: Conversions, p: Printers)
    requires Ready(s) && FixupKey(s).key == Some(k) && Readable(v, s.code.inScope, c, p) && s.n + Depth(v) < STACK_MAX
    ensures Extended(FixupKey(s), Run(s, ValueEvents(v, p), c), Cons(k, v, Nil))
    decreases v, 0
  {
    hide Run, Utf8Valid, Step, SpecialKey, FixupKey, ValueEvents, MemberEvents, ItemEvents, Extended, Ready, Push;
    if !IsContainer(v) {
      ReadSimple(s, k, v, c, p);
    } else if v.Document? {
      NestedReady(s, DocFrame, k);
      ReadMembers(Push(FixupKey(s), DocFrame, k), v.doc, c, p);
      ReadDocument(s, k, v.doc, c, p);
    } else if v.Array? {
      NestedReady(s, ArrayFrame, k);
      ReadItems(Push(FixupKey(s), ArrayFrame, k), v.items, 0, c, p);
      ReadArray(s, k, v.items, c, p);
    } else {
      ScopeReady(s, k, v.js);
      ReadMembers(InsideScope(FixupKey(s), k, v.js), v.scope, c, p);
      ReadCodeWithScope(s, k, v.js, v.scope, c, p);
    }
  }

  lemma ReadText(s: Machine, k: bytes, text: bytes, c: Conversions)
    requires Ready(s) && FixupKey(s).key == Some(k) && Utf8Valid(text, true)
    ensures Extended(FixupKey(s), Run(s, [Text(text)], c), Cons(k, Utf8(text), Nil))
  {
    hide Run, Utf8Valid, Step, FixupKey, AppendTo, Extended;
    FixupReady(s);
    RegularText(s, k, text, c);
    RunOne(s, Text(text), c);
    AppendExtends(FixupKey(s), FixupKey(s), k, Utf8(text));
  }

  lemma ReadPlain(s: Machine, k: bytes, v: Value, e: Event, c: Conversions)
    requires Ready(s) && FixupKey(s).key == Some(k) && ((v == Null && e == Nothing) || (v.Bool? && e == Boolean(v.b)))
    ensures Extended(FixupKey(s), Run(s, [e], c), Cons(k, v, Nil))
  {
    hide Run, FixupKey, AppendTo, Extended, StepText, StepEndMap, StepStartMap, StepFloat, StepStartArray, StepEndArray,
      StepInteger, StepKey;
    FixupReady(s);
    RunOne(s, e, c);
    AppendExtends(FixupKey(s), FixupKey(s), k, v);
  }

  lemma NestedReady(s: Machine, kind: FrameKind, k: bytes)
    requires Ready(s) && CanPush(s) && FixupKey(s).key == Some(k)
    ensures CanPush(FixupKey(s))
    ensures var u := Push(FixupKey(s), kind, k);
            && Ready(u) && u.n == s.n + 1 && u.code == s.code && Kind(u) == kind && u.key.Some?
            && (kind == ArrayFrame ==> u.stack[u.n].i == 0)
  {
    FixupReady(s);
  }

  lemma ScopeReady(s: Machine, k: bytes, js: bytes)
    requires Ready(s) && CanPush(s) && FixupKey(s).key == Some(k)
    ensures CanPush(FixupKey(s))
    ensures var u := InsideScope(FixupKey(s), k, js);
            Ready(u) && u.n == s.n + 1 && u.code.inScope && Kind(u) == ScopeFrame && u.key.Some?
  {
    FixupReady(s);
  }

  lemma {:induction false} ReadMembers(s: Machine, d: Doc, c: Conversions, p: Printers)
    requires Ready(s) && Kind(s) != ArrayFrame && ReadableDoc(d, s.code.inScope, c, p) && s.n + DocDepth(d) < STACK_MAX
    ensures Extended(s, Run(s, MemberEvents(d, p), c), d)
    decreases d, 0
  {
    hide Run, Utf8Valid, Step, SpecialKey, FixupKey, ValueEvents, Readable, Depth, Push;
    match d
    case Nil =>
      EmptyRun(s, c);
    case Cons(k, v, rest) =>
      var s1 := s.(key := Some(k));
      RegularKey(s, k, c);
      RegularIdle(s1);
      ReadValue(s1, k, v, c, p);
      var t := Run(s1, ValueEvents(v, p), c);
      KindKept(s1, t, Cons(k, v, Nil));
      ReadMembers(t, rest, c, p);
      ExtendedTwice(s1, t, Run(t, MemberEvents(rest, p), c), Cons(k, v, Nil), rest);
      assert Append(Cons(k, v, Nil), rest) == d;
      assert MemberEvents(d, p) == [Key(k)] + (ValueEvents(v, p) + MemberEvents(rest, p));
      RunCons(s, Key(k), ValueEvents(v, p) + MemberEvents(rest, p), c);
      RunSplit(s1, ValueEvents(v, p), MemberEvents(rest, p), c);
  }

  lemma EmptyRun(s: Machine, c: Conversions)
    requires Ready(s)
    ensures Extended(s, Run(s, [], c), Nil)
  {
    AppendNil(s.stack[s.n].doc);
  }

  lemma KindKept(s: Machine, t: Machine, d: Doc)
    requires Extended(s, t, d)
    ensures Kind(t) == Kind(s) && t.n == s.n && t.code.inScope == s.code.inScope && t.stack[t.n].i == s.stack[s.n].i
  {
  }

  lemma {:induction false} ReadItems(s: Machine, d: Doc, i: nat, c: Conversions, p: Printers)
    requires Ready(s) && Kind(s) == ArrayFrame && s.stack[s.n].i == i && IndexKeys(d, i)
    requires ReadableDoc(d, s.code.inScope, c, p) && s.n + DocDepth(d) < STACK_MAX
    ensures Indexed(s, Run(s, ItemEvents(d, p), c), d)
    decreases d, 0
  {
    hide Run, Utf8Valid, Step, SpecialKey, FixupKey, ValueEvents, Readable, Depth, Push, Decimal;
    match d
    case Nil =>
      EmptyRun(s, c);
    case Cons(k, v, rest) =>
      NextIndex(s);
      var s1 := FixupKey(s);
      ReadValue(s, k, v, c, p);
      var t := Run(s, ValueEvents(v, p), c);
      KindKept(s1, t, Cons(k, v, Nil));
      ReadItems(t, rest, i + 1, c, p);
      IndexedNext(s, s1, t, Run(t, ItemEvents(rest, p), c), k, v, rest);
      RunSplit(s, ValueEvents(v, p), ItemEvents(rest, p), c);
  }

  lemma NextIndex(s: Machine)
    requires Ready(s) && Kind(s) == ArrayFrame
    ensures var s1 := FixupKey(s);
            && Ready(s1) && s1.n == s.n && s1.stack[..s.n] == s.stack[..s.n] && s1.code == s.code
            && s1.stack[s.n] == s.stack[s.n].(i := s.stack[s.n].i + 1) && s1.key == Some(Decimal(s.stack[s.n].i))
            && Kind(s1) == ArrayFrame
  {
  }

  lemma IndexedNext(s: Machine, s1: Machine, t: Machine, w: Machine, k: bytes, v: Value, rest: Doc)
    requires Ready(s) && s1.n == s.n && s1.stack[..s.n] == s.stack[..s.n] && s1.code == s.code && s1.key.Some?
    requires s1.stack[s.n].kind == s.stack[s.n].kind && s1.stack[s.n].key == s.stack[s.n].key
    requires s1.stack[s.n].doc == s.stack[s.n].doc
    requires Extended(s1, t, Cons(k, v, Nil)) && Indexed(t, w, rest)
    ensures Indexed(s, w, Cons(k, v, rest))
  {
    AppendAssoc(s.stack[s.n].doc, Cons(k, v, Nil), rest);
    assert Append(Cons(k, v, Nil), rest) == Cons(k, v, rest);
  }

  /** A reader about to read. */
  function Start(target: Doc): Machine {
    Initialized(target)
  }

  /** The reader has finished and the document read into has become d. */
  predicate Finished(t: Machine, d: Doc) {
    t.read == Done && !t.failed && t.n == -1 && t.stack[0].doc == d
  }

  lemma RootReady(target: Doc, kind: FrameKind)
    ensures var u := Push(Start(target), kind, []);
            && Ready(u) && u.n == 0 && !u.code.inScope && Kind(u) == kind && u.stack[0].doc == target && u.stack[0].i == 0
  {
  }

  lemma RootCloses(t: Machine, isArray: bool, c: Conversions)
    requires Ready(t) && t.n == 0 && Kind(t) == if isArray then ArrayFrame else DocFrame
    ensures Finished(Step(t, if isArray then EndArray else EndMap, c), t.stack[0].doc)
  {
    hide StepText, StepStartMap, StepNull, StepFloat, StepStartArray, StepKey, StepInteger, StepBoolean;
  }

  lemma RootStarts(target: Doc, c: Conversions)
    ensures var s := Start(target);
            && Step(s, StartMap, c) == s.(read := InStartMap)
            && Step(s, StartArray, c) == Push(s, ArrayFrame, [])
  {
    hide StepText, StepNull, StepFloat, StepKey, StepInteger, StepBoolean, StepEndMap, StepEndArray, Push;
  }

  /** Every printable document is read back: the events of its canonical text add exactly its elements. */
  lemma RoundTrip(d: Doc, target: Doc, c: Conversions, p: Printers)
    requires ReadableDoc(d, false, c, p) && DocDepth(d) < 100
    ensures Finished(Run(Start(target), DocEvents(d, p), c), Append(target, d))
  {
    hide Run, Step, MemberEvents, Push, SpecialKey, Utf8Valid, Finished, Start, DocDepth;
    var s := Start(target);
    AtStart(target);
    var u := Push(s, DocFrame, []);
    RootReady(target, DocFrame);
    RootStarts(target, c);
    assert DocEvents(d, p) == [StartMap] + (MemberEvents(d, p) + [EndMap]);
    RunCons(s, StartMap, MemberEvents(d, p) + [EndMap], c);
    DocOpens(s.(read := InStartMap), d, c, p);
    ReadMembers(u, d, c, p);
    var t := Run(u, MemberEvents(d, p), c);
    KindKept(u, t, d);
    RunSplit(u, MemberEvents(d, p), [EndMap], c);
    RunOne(t, EndMap, c);
    RootCloses(t, false, c);
  }

  lemma AtStart(target: Doc)
    ensures var s := Start(target); s.n == -1 && !s.failed && s.key == None && s.read == Regular
  {
  }

  /** The same for a document printed as an array. */
  lemma RoundTripArray(d: Doc, target: Doc, c: Conversions, p: Printers)
    requires ReadableDoc(d, false, c, p) && IndexKeys(d, 0) && DocDepth(d) < 100
    ensures Finished(Run(Start(target), [StartArray] + ItemEvents(d, p) + [EndArray], c), Append(target, d))
  {
    hide Run, Step, ItemEvents, Push, SpecialKey, Utf8Valid, Finished, Start, DocDepth, IndexKeys;
    var s := Start(target);
    AtStart(target);
    var u := Push(s, ArrayFrame, []);
    RootReady(target, ArrayFrame);
    RootStarts(target, c);
    assert [StartArray] + ItemEvents(d, p) + [EndArray] == [StartArray] + (ItemEvents(d, p) + [EndArray]);
    RunCons(s, StartArray, ItemEvents(d, p) + [EndArray], c);
    ReadItems(u, d, 0, c, p);
    var t := Run(u, ItemEvents(d, p), c);
    RunSplit(u, ItemEvents(d, p), [EndArray], c);
    RunOne(t, EndArray, c);
    RootCloses(t, true, c);
  }
}
