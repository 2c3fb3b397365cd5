/** Relaxed extended JSON: plain numbers and date texts, and what is left of a document that is read back from it. */
module JsonRelaxed {
  import opened CInt
  import opened LittleEndian
  import opened BsonTree
  import opened Utf8
  import opened JsonText
  import opened JsonMachine
  import opened JsonPrint
  import opened JsonScalars
  import opened JsonRoundTrip
  import opened JsonForms
  import I = Iso8601

  /** Which doubles are finite, and how dates are written out. */
  datatype Relaxation = Relaxation(finite: int -> bool, date: int -> bytes)

  /** The form the relaxed printer gives a value: dates are texts from 1970 up to the year 10000. */
  function RelaxedForm(v: Value, q: Relaxation): Form
    decreases v
  {
    match v
    case Int32(n) => PlainInteger(n)
    case Int64(n) => PlainInteger(n)
    case Double(bits) => if q.finite(bits) then PlainDouble(bits) else Canonical(v)
    case DateTime(ms) => if 0 <= ms < 253_402_300_800_000 then DateText(q.date(ms), ms) else Canonical(v)
    case Document(d) => Map(RelaxedForms(d, q))
    case Array(d) => List(RelaxedForms(d, q))
    case CodeWithScope(js, _, scope) => ScopedCode(js, RelaxedForms(scope, q))
    case _ => Canonical(v)
  }

  function RelaxedForms(d: Doc, q: Relaxation): Forms
    decreases d
  {
    match d
    case Nil => NoForms
    case Cons(k, v, rest) => More(k, RelaxedForm(v, q), RelaxedForms(rest, q))
  }

  /** What comes back: the type of a 64-bit integer that fits 32 bits is not kept. */
  function Narrowed(v: Value): Value
    decreases v
  {
    match v
    case Int64(n) => if -2147483648 <= n <= 2147483647 then Int32(n) else v
    case Document(d) => Document(NarrowedDoc(d))
    case Array(d) => Array(NarrowedDoc(d))
    case CodeWithScope(js, end, scope) => CodeWithScope(js, end, NarrowedDoc(scope))
    case _ => v
  }

  function NarrowedDoc(d: Doc): Doc
    decreases d
  {
    match d
    case Nil => Nil
    case Cons(k, v, rest) => Cons(k, Narrowed(v), NarrowedDoc(rest))
  }

  /** No 64-bit integer of the document fits 32 bits. */
  predicate Wide(v: Value)
    decreases v
  {
    match v
    case Int64(n) => n < -2147483648 || n > 2147483647
    case Document(d) => WideDoc(d)
    case Array(d) => WideDoc(d)
    case CodeWithScope(_, _, scope) => WideDoc(scope)
    case _ => true
  }

  predicate WideDoc(d: Doc)
    decreases d
  {
    d.Cons? ==> Wide(d.value) && WideDoc(d.rest)
  }

  /** The same document comes back exactly when it has no such integer. */
  lemma {:induction false} NarrowedIff(d: Doc)
    ensures NarrowedDoc(d) == d <==> WideDoc(d)
    decreases d, 0
  {
    match d
    case Nil =>
    case Cons(_, v, rest) =>
      NarrowedIff(rest);
      match v {
        case Document(sub) => NarrowedIff(sub);
        case Array(sub) => NarrowedIff(sub);
        case CodeWithScope(_, _, sub) => NarrowedIff(sub);
        case _ =>
      }
  }

  // ---------------------------------------------------------------------------------------------------------
  // Dates
  // ---------------------------------------------------------------------------------------------------------

  /** The conversion of the reader is _bson_iso8601_date_parse, as Iso8601Parse.DateParseIff states it. */
  ghost predicate LibraryDates(c: Conversions) {
    forall d :: I.InRange(d) ==> c.parseDate(I.Text(d)) == Some(I.Millis(d))
  }

  /** The conversion of the printer is mcommon_iso8601_string_append, as Iso8601Parse.Print states it. */
  ghost predicate LibraryDateText(q: Relaxation) {
    forall ms :: 0 <= ms < 253_402_300_800_000 ==> IsTextOf(q.date(ms), ms)
  }

  /** The text is that of a date at the instant. */
  ghost predicate IsTextOf(text: bytes, ms: int) {
    exists d :: I.InRange(d) && text == I.Text(d) && I.Millis(d) == ms
  }

  lemma DateIsRead(ms: int, c: Conversions, q: Relaxation)
    requires LibraryDates(c) && LibraryDateText(q) && 0 <= ms < 253_402_300_800_000
    ensures Utf8Valid(q.date(ms), true) && c.parseDate(q.date(ms)) == Some(ms)
  {
    hide Utf8Valid, I.Text, I.Millis, I.InRange;
    assert IsTextOf(q.date(ms), ms);
    var d :| I.InRange(d) && q.date(ms) == I.Text(d) && I.Millis(d) == ms;
    DateAscii(d);
    AsciiValid(I.Text(d), true);
  }

  lemma DateAscii(d: I.Date)
    requires I.InRange(d)
    ensures IsAscii(I.Text(d))
  {
    hide IsAscii, I.Pad, I.ZoneText;
    assert IsAscii([45]) && IsAscii([84]) && IsAscii([58]) && IsAscii([46]) && IsAscii([]) by { Separators(); }
    forall s: bytes | I.AllDigits(s) ensures IsAscii(s) { DigitsAscii(s); }
    forall a: bytes, b: bytes | IsAscii(a) && IsAscii(b) ensures IsAscii(a + b) { JoinAscii(a, b); }
    ZoneAscii(d.zone);
  }

  lemma Separators()
    ensures IsAscii([45]) && IsAscii([84]) && IsAscii([58]) && IsAscii([46]) && IsAscii([]) && IsAscii([43]) && IsAscii([90])
  {
  }

  lemma DigitsAscii(s: bytes)
    requires I.AllDigits(s)
    ensures IsAscii(s)
  {
  }

  lemma JoinAscii(a: bytes, b: bytes)
    requires IsAscii(a) && IsAscii(b)
    ensures IsAscii(a + b)
  {
  }

  lemma ZoneAscii(z: I.Zone)
    ensures IsAscii(I.ZoneText(z))
  {
    hide I.Pad;
  }

  // ---------------------------------------------------------------------------------------------------------
  // The round trip
  // ---------------------------------------------------------------------------------------------------------

  lemma {:induction false} RelaxedWritten(v: Value, inScope: bool, c: Conversions, p: Printers, q: Relaxation)
    requires Readable(v, inScope, c, p) && LibraryDates(c) && LibraryDateText(q)
    ensures Written(RelaxedForm(v, q), inScope, c, p)
    ensures FormValue(RelaxedForm(v, q)) == Narrowed(v) && FormDepth(RelaxedForm(v, q)) == Depth(v)
    decreases v
  {
    hide Utf8Valid, LibraryDates, LibraryDateText, SpecialKey, IndexKeys, FormIndexKeys, Plain, ReadableDoc, WrittenAll,
      RelaxedForms, NarrowedDoc, FormsDoc, FormsDepth, DocDepth;
    match v
    case Document(d) => RelaxedAll(d, inScope, c, p, q);
    case Array(d) => RelaxedAll(d, inScope, c, p, q); SameIndices(d, 0, q);
    case CodeWithScope(_, _, d) => RelaxedAll(d, true, c, p, q); PlainText(v.js);
    case _ => ScalarWritten(v, inScope, c, p, q);
  }

  lemma ScalarWritten(v: Value, inScope: bool, c: Conversions, p: Printers, q: Relaxation)
    requires Readable(v, inScope, c, p) && LibraryDates(c) && LibraryDateText(q)
    requires !v.Document? && !v.Array? && !v.CodeWithScope?
    ensures Written(RelaxedForm(v, q), inScope, c, p)
    ensures FormValue(RelaxedForm(v, q)) == Narrowed(v) && FormDepth(RelaxedForm(v, q)) == Depth(v)
  {
    hide Readable, Utf8Valid, LibraryDates, LibraryDateText, SpecialKey;
    if v.DateTime? || v.Int32? || v.Int64? { NumberWritten(v, inScope, c, p, q); }
  }

  lemma NumberWritten(v: Value, inScope: bool, c: Conversions, p: Printers, q: Relaxation)
    requires Readable(v, inScope, c, p) && LibraryDates(c) && LibraryDateText(q) && (v.DateTime? || v.Int32? || v.Int64?)
    ensures Written(RelaxedForm(v, q), inScope, c, p)
    ensures FormValue(RelaxedForm(v, q)) == Narrowed(v) && FormDepth(RelaxedForm(v, q)) == Depth(v)
  {
    hide Utf8Valid, LibraryDates, LibraryDateText, SpecialKey;
    if v.DateTime? && 0 <= v.millis < 253_402_300_800_000 { DateIsRead(v.millis, c, q); }
  }

  lemma PlainText(s: bytes)
    ensures Plain(s) ==> Utf8Valid(s, true)
  {
  }

  lemma {:induction false} RelaxedAll(d: Doc, inScope: bool, c: Conversions, p: Printers, q: Relaxation)
    requires ReadableDoc(d, inScope, c, p) && LibraryDates(c) && LibraryDateText(q)
    ensures WrittenAll(RelaxedForms(d, q), inScope, c, p)
    ensures FormsDoc(RelaxedForms(d, q)) == NarrowedDoc(d) && FormsDepth(RelaxedForms(d, q)) == DocDepth(d)
    ensures (d.Nil? <==> RelaxedForms(d, q).NoForms?) && (d.Cons? ==> RelaxedForms(d, q).key == d.key)
    decreases d
  {
    hide Utf8Valid, LibraryDates, LibraryDateText, Readable, RelaxedForm, Written, FormValue, Narrowed, FormDepth, Depth;
    if d.Cons? {
      RelaxedWritten(d.value, inScope, c, p, q);
      RelaxedAll(d.rest, inScope, c, p, q);
    }
  }

  lemma {:induction false} SameIndices(d: Doc, i: nat, q: Relaxation)
    ensures IndexKeys(d, i) <==> FormIndexKeys(RelaxedForms(d, q), i)
    decreases d
  {
    hide Decimal, RelaxedForm;
    if d.Cons? { SameIndices(d.rest, i + 1, q); }
  }

  /** What the relaxed printer writes of a readable document is read back, its narrow 64-bit integers as 32-bit ones. */
  lemma RelaxedRoundTrip(d: Doc, target: Doc, c: Conversions, p: Printers, q: Relaxation)
    requires ReadableDoc(d, false, c, p) && LibraryDates(c) && LibraryDateText(q) && DocDepth(d) < 100
    ensures var events := [StartMap] + FormMembers(RelaxedForms(d, q), p) + [EndMap];
            Finished(Run(Start(target), events, c), Append(target, NarrowedDoc(d)))
  {
    hide Run, FormMembers, Finished, Start, ReadableDoc, DocDepth, NarrowedDoc, RelaxedForms, LibraryDates, LibraryDateText;
    RelaxedAll(d, false, c, p, q);
    ReadForms(RelaxedForms(d, q), target, c, p);
  }
}
