/** The canonical extended JSON printer, as the events its text is made of. */
module JsonPrint {
  import opened CInt
  import opened LittleEndian
  import opened BsonTree
  import opened BsonArguments
  import opened Utf8
  import opened Base64
  import opened JsonText
  import opened JsonMachine

  /** How doubles and decimals are written out. */
  datatype Printers = Printers(double: int -> bytes, decimal: (int, int) -> bytes)

  function Wrapped(key: string, events: seq<Event>): seq<Event> {
    [StartMap, Key(Ascii(key))] + events + [EndMap]
  }

  function ValueEvents(v: Value, p: Printers): seq<Event>
    decreases v, 0
  {
    match v
    case Double(bits) => Wrapped("$numberDouble", [Text(p.double(bits))])
    case Utf8(s) => [Text(s)]
    case Document(d) => DocEvents(d, p)
    case Array(d) => [StartArray] + ItemEvents(d, p) + [EndArray]
    case Binary(sub, data) =>
      Wrapped("$binary", [StartMap, Key(Ascii("base64")), Text(Encode(data)), Key(Ascii("subType")), Text(Hex([sub])), EndMap])
    case Undefined => Wrapped("$undefined", [Boolean(true)])
    case Oid(oid) => Wrapped("$oid", [Text(Hex(oid))])
    case Bool(b) => [Boolean(b)]
    case DateTime(ms) => Wrapped("$date", [StartMap, Key(Ascii("$numberLong")), Text(DecimalInt(ms)), EndMap])
    case Null => [Nothing]
    case Regex(pattern, options) =>
      Wrapped("$regularExpression",
              [StartMap, Key(Ascii("pattern")), Text(pattern), Key(Ascii("options")),
               Text(SelectedChars(REGEX_OPTIONS_SORTED, options)), EndMap])
    case DbPointer(collection, oid) =>
      Wrapped("$dbPointer",
              [StartMap, Key(Ascii("$ref")), Text(collection), Key(Ascii("$id"))]
              + Wrapped("$oid", [Text(Hex(oid))]) + [EndMap])
    case Code(js) => Wrapped("$code", [Text(js)])
    case Symbol(s) => Wrapped("$symbol", [Text(s)])
    case CodeWithScope(js, _, scope) => Wrapped("$code", [Text(js), Key(Ascii("$scope"))] + DocEvents(scope, p))
    case Int32(i) => Wrapped("$numberInt", [Text(DecimalInt(i))])
    case Timestamp(t, i) =>
      Wrapped("$timestamp", [StartMap, Key(Ascii("t")), Integer(t % TWO_32, 1), Key(Ascii("i")), Integer(i % TWO_32, 1), EndMap])
    case Int64(i) => Wrapped("$numberLong", [Text(DecimalInt(i))])
    case Decimal128(low, high) => Wrapped("$numberDecimal", [Text(p.decimal(low, high))])
    case MaxKey => Wrapped("$maxKey", [Integer(1, 1)])
    case MinKey => Wrapped("$minKey", [Integer(1, 1)])
  }

  function MemberEvents(d: Doc, p: Printers): seq<Event>
    decreases d, 0
  {
    match d
    case Nil => []
    case Cons(k, v, rest) => [Key(k)] + ValueEvents(v, p) + MemberEvents(rest, p)
  }

  function ItemEvents(d: Doc, p: Printers): seq<Event>
    decreases d, 0
  {
    match d
    case Nil => []
    case Cons(_, v, rest) => ValueEvents(v, p) + ItemEvents(rest, p)
  }

  function DocEvents(d: Doc, p: Printers): seq<Event>
    decreases d, 1
  {
    [StartMap] + MemberEvents(d, p) + [EndMap]
  }

  // The canonical forms token by token, after the MongoDB Extended JSON (v2) specification

  function Name(key: string): Event {
    Key(Ascii(key))
  }

  /** A wrapper of one scalar. */
  lemma Around(key: string, e: Event)
    ensures Wrapped(key, [e]) == [StartMap, Name(key), e, EndMap]
  {
  }

  lemma ScalarForm(v: Value, p: Printers)
    ensures var e := ValueEvents(v, p);
            match v
            case Double(bits) => e == [StartMap, Name("$numberDouble"), Text(p.double(bits)), EndMap]
            case Utf8(s) => e == [Text(s)]
            case Undefined => e == [StartMap, Name("$undefined"), Boolean(true), EndMap]
            case Oid(oid) => e == [StartMap, Name("$oid"), Text(Hex(oid)), EndMap]
            case Bool(b) => e == [Boolean(b)]
            case Null => e == [Nothing]
            case Code(js) => e == [StartMap, Name("$code"), Text(js), EndMap]
            case Symbol(s) => e == [StartMap, Name("$symbol"), Text(s), EndMap]
            case Int32(i) => e == [StartMap, Name("$numberInt"), Text(DecimalInt(i)), EndMap]
            case Int64(i) => e == [StartMap, Name("$numberLong"), Text(DecimalInt(i)), EndMap]
            case Decimal128(low, high) => e == [StartMap, Name("$numberDecimal"), Text(p.decimal(low, high)), EndMap]
            case MaxKey => e == [StartMap, Name("$maxKey"), Integer(1, 1), EndMap]
            case MinKey => e == [StartMap, Name("$minKey"), Integer(1, 1), EndMap]
            case _ => true
  {
    hide Ascii, DecimalInt, Hex, Encode, SelectedChars, Wrapped, DocEvents, ItemEvents, Name;
    forall key: string, e: Event ensures Wrapped(key, [e]) == [StartMap, Name(key), e, EndMap] { Around(key, e); }
  }

  lemma MapForm(v: Value, p: Printers)
    ensures var e := ValueEvents(v, p);
            match v
            case Binary(sub, data) =>
              e == [StartMap, Name("$binary"), StartMap, Name("base64"), Text(Encode(data)),
                    Name("subType"), Text(Hex([sub])), EndMap, EndMap]
            case DateTime(ms) =>
              e == [StartMap, Name("$date"), StartMap, Name("$numberLong"), Text(DecimalInt(ms)), EndMap, EndMap]
            case Regex(pattern, options) =>
              e == [StartMap, Name("$regularExpression"), StartMap, Name("pattern"), Text(pattern),
                    Name("options"), Text(SelectedChars(REGEX_OPTIONS_SORTED, options)), EndMap, EndMap]
            case Timestamp(t, i) =>
              e == [StartMap, Name("$timestamp"), StartMap, Name("t"), Integer(t % 0x1_0000_0000, 1),
                    Name("i"), Integer(i % 0x1_0000_0000, 1), EndMap, EndMap]
            case _ => true
  {
    hide Ascii, DecimalInt, Hex, Encode, SelectedChars, DocEvents, ItemEvents;
  }

  lemma NestedForm(v: Value, p: Printers)
    ensures var e := ValueEvents(v, p);
            match v
            case Document(d) => e == [StartMap] + MemberEvents(d, p) + [EndMap]
            case Array(d) => e == [StartArray] + ItemEvents(d, p) + [EndArray]
            case DbPointer(collection, oid) =>
              e == [StartMap, Name("$dbPointer"), StartMap, Name("$ref"), Text(collection), Name("$id"),
                    StartMap, Name("$oid"), Text(Hex(oid)), EndMap, EndMap, EndMap]
            case CodeWithScope(js, _, scope) =>
              e == [StartMap, Name("$code"), Text(js), Name("$scope"), StartMap] + MemberEvents(scope, p) + [EndMap, EndMap]
            case _ => true
  {
    hide Ascii, DecimalInt, Hex, Encode, SelectedChars, ItemEvents, MemberEvents;
  }

  /** Frames a value takes on the reader's stack. */
  function Depth(v: Value): nat
    decreases v
  {
    match v
    case Document(d) => 1 + DocDepth(d)
    case Array(d) => 1 + DocDepth(d)
    case CodeWithScope(_, _, d) => 1 + DocDepth(d)
    case DbPointer(_, _) => 1
    case _ => 0
  }

  function DocDepth(d: Doc): nat
    decreases d
  {
    match d
    case Nil => 0
    case Cons(_, v, rest) => if Depth(v) > DocDepth(rest) then Depth(v) else DocDepth(rest)
  }

  predicate IndexKeys(d: Doc, i: nat) {
    d.Cons? ==> d.key == Decimal(i) && IndexKeys(d.rest, i + 1)
  }

  /** Text that survives escaping: valid, without the two-byte NUL that is read back as one byte. */
  predicate Plain(s: bytes) {
    Utf8Valid(s, true) && forall i :: 0 <= i < |s| - 1 ==> !(s[i] == 0xC0 && s[i + 1] == 0x80)
  }

  /** The values that come back: those the C types hold, with texts that are texts, and no code inside a scope. */
  ghost predicate Readable(v: Value, inScope: bool, c: Conversions, p: Printers)
    decreases v
  {
    match v
    case Double(bits) => var s := p.double(bits); Utf8Valid(s, true) && 0 !in s && c.parseDouble(s) == Some(bits)
    case Utf8(s) => Plain(s)
    case Document(d) => (d.Cons? ==> SpecialKey(d.key) == Ordinary) && ReadableDoc(d, inScope, c, p)
    case Array(d) => IndexKeys(d, 0) && ReadableDoc(d, inScope, c, p)
    case Oid(oid) => |oid| == 12
    case DateTime(ms) => INT64_MIN <= ms <= INT64_MAX
    case Regex(pattern, options) =>
      Utf8Valid(pattern, false) && 0 !in pattern && SelectedChars(REGEX_OPTIONS_SORTED, options) == options
    case DbPointer(collection, oid) => Plain(collection) && 0 !in collection && |oid| == 12
    case Code(js) => !inScope && Plain(js) && 0 !in js
    case Symbol(s) => Plain(s)
    case CodeWithScope(js, end, scope) =>
      !inScope && Plain(js) && 0 !in js && end == 0 && ReadableDoc(scope, true, c, p)
    case Int32(i) => INT_MIN <= i <= INT_MAX
    case Timestamp(t, i) => 0 <= t < TWO_32 && 0 <= i < TWO_32
    case Int64(i) => INT64_MIN <= i <= INT64_MAX
    case Decimal128(low, high) =>
      var s := p.decimal(low, high); Utf8Valid(s, true) && 0 !in s && c.parseDecimal(s) == Some((low, high))
    case _ => true
  }

  ghost predicate ReadableDoc(d: Doc, inScope: bool, c: Conversions, p: Printers)
    decreases d
  {
    d.Cons? ==> Utf8Valid(d.key, false) && Readable(d.value, inScope, c, p) && ReadableDoc(d.rest, inScope, c, p)
  }
}
