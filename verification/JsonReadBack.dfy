/** The reader, fed what the printers print and the other forms it knows. */
module JsonReadBack {
  import opened LittleEndian
  import opened BsonTree
  import opened Utf8
  import opened JsonText
  import opened JsonMachine
  import opened JsonPrint
  import opened JsonReader
  import opened JsonRoundTrip
  import opened JsonForms
  import opened JsonRelaxed
  import opened JsonShape
  import opened JsonLag

  /** Integers come with a sign. */
  predicate Signed(events: seq<Event>) {
    forall i :: 0 <= i < |events| ==> events[i].Integer? ==> events[i].sign == 1 || events[i].sign == -1
  }

  lemma JoinSigned(a: seq<Event>, b: seq<Event>)
    requires Signed(a) && Signed(b)
    ensures Signed(a + b)
  {
  }

  lemma WrappedSigned(key: string, inner: seq<Event>)
    requires Signed(inner)
    ensures Signed(Wrapped(key, inner))
  {
    hide Ascii;
  }

  lemma {:induction false} ValueSigned(v: Value, p: Printers)
    ensures Signed(ValueEvents(v, p))
    decreases v, 0
  {
    match v
    case Document(d) => DocSigned(d, p);
    case Array(d) => ArraySigned(d, p);
    case CodeWithScope(js, _, d) => ScopeSigned(js, d, p);
    case DbPointer(collection, oid) => DbPointerSigned(collection, oid, p);
    case _ => ScalarSigned(v, p);
  }

  lemma ScalarSigned(v: Value, p: Printers)
    requires !v.Document? && !v.Array? && !v.CodeWithScope? && !v.DbPointer?
    ensures Signed(ValueEvents(v, p))
  {
    hide Ascii, Hex, DecimalInt, MemberEvents, ItemEvents, Wrapped, DocEvents;
    if v.Binary? || v.DateTime? || v.Regex? || v.Timestamp? {
      MiddleSigned(v, p);
    } else {
      forall key: string, inner | Signed(inner) ensures Signed(Wrapped(key, inner)) { WrappedSigned(key, inner); }
    }
  }

  /** The wrappers with a middle map. */
  lemma MiddleSigned(v: Value, p: Printers)
    requires v.Binary? || v.DateTime? || v.Regex? || v.Timestamp?
    ensures Signed(ValueEvents(v, p))
  {
    hide Ascii, Hex, DecimalInt, Wrapped;
    forall key: string, inner | Signed(inner) ensures Signed(Wrapped(key, inner)) { WrappedSigned(key, inner); }
  }

  lemma ArraySigned(d: Doc, p: Printers)
    ensures Signed([StartArray] + ItemEvents(d, p) + [EndArray])
    decreases d, 1
  {
    hide ItemEvents;
    ItemsSigned(d, p);
  }

  lemma ScopeSigned(js: bytes, d: Doc, p: Printers)
    ensures Signed(Wrapped("$code", [Text(js), Key(Ascii("$scope"))] + DocEvents(d, p)))
    decreases d, 2
  {
    hide DocEvents, Ascii;
    DocSigned(d, p);
    JoinSigned([Text(js), Key(Ascii("$scope"))], DocEvents(d, p));
    WrappedSigned("$code", [Text(js), Key(Ascii("$scope"))] + DocEvents(d, p));
  }

  lemma DbPointerSigned(collection: bytes, oid: bytes, p: Printers)
    ensures Signed(ValueEvents(DbPointer(collection, oid), p))
  {
    hide Ascii, Hex, Wrapped;
    var (a, b) := ([StartMap, Key(Ascii("$ref")), Text(collection), Key(Ascii("$id"))], Wrapped("$oid", [Text(Hex(oid))]));
    WrappedSigned("$oid", [Text(Hex(oid))]);
    JoinSigned(a, b);
    JoinSigned(a + b, [EndMap]);
    WrappedSigned("$dbPointer", a + b + [EndMap]);
  }

  lemma {:induction false} MembersSigned(d: Doc, p: Printers)
    ensures Signed(MemberEvents(d, p))
    decreases d, 0
  {
    hide ValueEvents;
    match d
    case Nil =>
    case Cons(_, v, rest) => ValueSigned(v, p); MembersSigned(rest, p);
  }

  lemma {:induction false} ItemsSigned(d: Doc, p: Printers)
    ensures Signed(ItemEvents(d, p))
    decreases d, 0
  {
    hide ValueEvents;
    match d
    case Nil =>
    case Cons(_, v, rest) => ValueSigned(v, p); ItemsSigned(rest, p);
  }

  lemma DocSigned(d: Doc, p: Printers)
    ensures Signed(DocEvents(d, p))
    decreases d, 1
  {
    hide MemberEvents;
    MembersSigned(d, p);
  }

  /** Printing a readable document and reading it: success, and the document's elements behind those of the target. */
  method ReadPrinted(d: Doc, target: Doc, p: Printers, c: Conversions) returns (ok: bool, read: Doc)
    requires ReadableDoc(d, false, c, p) && DocDepth(d) < 100
    ensures ok && read == Append(target, d)
  {
    hide DocEvents, ReadableDoc, Run, Initialized;
    DocSigned(d, p);
    ok, read := ReadJson(c, target, DocEvents(d, p));
    RoundTrip(d, target, c, p);
  }

  /** The same for a document printed as an array. */
  method ReadPrintedArray(d: Doc, target: Doc, p: Printers, c: Conversions) returns (ok: bool, read: Doc)
    requires ReadableDoc(d, false, c, p) && IndexKeys(d, 0) && DocDepth(d) < 100
    ensures ok && read == Append(target, d)
  {
    hide ItemEvents, ReadableDoc, Run, Initialized, IndexKeys;
    ItemsSigned(d, p);
    ok, read := ReadJson(c, target, [StartArray] + ItemEvents(d, p) + [EndArray]);
    RoundTripArray(d, target, c, p);
  }

  lemma IntegerSigned(n: int)
    ensures Signed([Integer(if n < 0 then -n else n, if n < 0 then -1 else 1)])
  {
  }

  lemma {:induction false} FormSigned(f: Form, p: Printers)
    ensures Signed(FormEvents(f, p))
    decreases f, 0
  {
    hide Ascii, Hex, ValueEvents, FormMembers, FormItems, Wrapped;
    match f
    case Canonical(v) => ValueSigned(v, p);
    case PlainInteger(n) => IntegerSigned(n);
    case DateNumber(ms) => IntegerSigned(ms); WrappedSigned("$date", FormEvents(PlainInteger(ms), p));
    case ScopedCode(js, scope) =>
      FormMembersSigned(scope, p);
      JoinSigned([Text(js), Key(Ascii("$scope"))], [StartMap] + FormMembers(scope, p) + [EndMap]);
      WrappedSigned("$code", [Text(js), Key(Ascii("$scope"))] + ([StartMap] + FormMembers(scope, p) + [EndMap]));
    case Map(members) => FormMembersSigned(members, p);
    case List(items) => FormItemsSigned(items, p);
    case _ => forall key: string, inner | Signed(inner) ensures Signed(Wrapped(key, inner)) { WrappedSigned(key, inner); }
  }

  lemma {:induction false} FormMembersSigned(fs: Forms, p: Printers)
    ensures Signed(FormMembers(fs, p))
    decreases fs, 0
  {
    hide FormEvents;
    match fs
    case NoForms =>
    case More(_, f, rest) => FormSigned(f, p); FormMembersSigned(rest, p);
  }

  lemma {:induction false} FormItemsSigned(fs: Forms, p: Printers)
    ensures Signed(FormItems(fs, p))
    decreases fs, 0
  {
    hide FormEvents;
    match fs
    case NoForms =>
    case More(_, f, rest) => FormSigned(f, p); FormItemsSigned(rest, p);
  }

  /** Reading a document written in any of the forms the reader knows. */
  method ReadWritten(fs: Forms, target: Doc, p: Printers, c: Conversions) returns (ok: bool, read: Doc)
    requires WrittenAll(fs, false, c, p) && FormsDepth(fs) < 100
    ensures ok && read == Append(target, FormsDoc(fs))
  {
    hide FormMembers, WrittenAll, Run, Initialized, FormsDepth;
    FormMembersSigned(fs, p);
    ok, read := ReadJson(c, target, [StartMap] + FormMembers(fs, p) + [EndMap]);
    ReadForms(fs, target, c, p);
  }

  /** Reading what the relaxed printer prints: the document, its 64-bit integers below 2^31 narrowed. */
  method ReadRelaxed(d: Doc, target: Doc, p: Printers, q: Relaxation, c: Conversions) returns (ok: bool, read: Doc)
    requires ReadableDoc(d, false, c, p) && LibraryDates(c) && LibraryDateText(q) && DocDepth(d) < 100
    ensures ok && read == Append(target, NarrowedDoc(d))
  {
    hide FormMembers, ReadableDoc, Run, Initialized, DocDepth, LibraryDates, LibraryDateText, RelaxedForms, NarrowedDoc;
    FormMembersSigned(RelaxedForms(d, q), p);
    ok, read := ReadJson(c, target, [StartMap] + FormMembers(RelaxedForms(d, q), p) + [EndMap]);
    RelaxedRoundTrip(d, target, c, p, q);
  }

  /** Reading {key: n}: the signed value in the smallest type that holds it; refused exactly beyond 64 bits. */
  method ReadInteger(k: bytes, n: int, c: Conversions) returns (ok: bool, read: Doc)
    requires Utf8Valid(k, false)
    ensures ok <==> -9223372036854775808 <= n <= 9223372036854775807
    ensures ok ==> read == Cons(k, if -2147483648 <= n <= 2147483647 then Int32(n) else Int64(n), Nil)
  {
    hide Run, Initialized, Utf8Valid;
    ok, read := ReadJson(c, Nil, [StartMap, Key(k), Integer(if n < 0 then -n else n, if n < 0 then -1 else 1), EndMap]);
    PlainIntegerText(Nil, k, n, c);
  }

  /**
   * Reading a text below the depth limit. A whole text is accepted exactly when nothing fails; one that breaks off, if
   * it is accepted, has a map misplaced or a subtype misread outside its arrays, which no accepted whole text has.
   */
  method ReadText(events: seq<Event>, target: Doc, c: Conversions) returns (ok: bool, read: Doc)
    requires events != [] && LegalRun([], events) && RoomRun(Initialized(target), events, c) && Signed(events)
    ensures LevelsAfter([], events) == [] ==> (ok <==> !Run(Initialized(target), events, c).failed)
    ensures ok ==> (LevelsAfter([], events) == [] <==> !RootDisturbed(Initialized(target), [], events, c))
  {
    hide LegalRun, LevelsAfter, RoomRun, RootDisturbed, Run, Initialized;
    ok, read := ReadJson(c, target, events);
    AcceptedTexts(target, events, c);
  }
}
