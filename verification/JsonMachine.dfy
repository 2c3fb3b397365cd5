/** The extended JSON reader as a state machine: its states, and what each callback does to them. */
module JsonMachine {
  import opened CInt
  import opened LittleEndian
  import opened BsonTree
  import opened BsonArguments
  import opened Utf8
  import opened Base64
  import opened JsonText

  const STACK_MAX := 100

  /** What the tokenizer reports. Text arrives unescaped. */
  datatype Event =
    | StartMap
    | EndMap
    | StartArray
    | EndArray
    | Key(key: bytes)
    | Text(text: bytes)
    | Integer(magnitude: nat, sign: int)
    | Float(bits: int)
    | Boolean(b: bool)
    | Nothing

  datatype ReadState =
    | Regular | Done | Error | InStartMap | InBsonType
    | DateNumberLong | DateEndMap
    | TimestampStartMap | TimestampValues | TimestampEndMap
    | RegexStartMap | RegexValues | RegexEndMap
    | BinaryValues | BinaryEndMap
    | ScopeStartMap | DbPointerStartMap | InScope | InDbPointer

  /** The value a type wrapper is looking for. */
  datatype Sought =
    | SeekRegex | SeekOptions | SeekPattern | SeekPatternOptions | SeekCode | SeekScope | SeekOid | SeekBinary
    | SeekType | SeekDate | SeekT | SeekI | SeekUndefined | SeekMinKey | SeekMaxKey | SeekInt32 | SeekInt64
    | SeekDouble | SeekDecimal | SeekDbPointer | SeekSymbol | SeekUuid

  /** The type a wrapper has announced so far. */
  datatype Wrapper =
    | NoType | RegexType | OidType | BinaryType | DateType | UndefinedType | MinKeyType | MaxKeyType | Int32Type
    | Int64Type | DoubleType | SymbolType | DecimalType | TimestampType | DbPointerType | CodeType | CodeWScopeType

  datatype FrameKind = Initial | ArrayFrame | DocFrame | ScopeFrame | DbPointerFrame

  /** A frame of the stack: a document under construction and, unless it is the root, the key it was begun under. */
  datatype Frame = Frame(i: nat, kind: FrameKind, key: bytes, doc: Doc)

  /** The values collected inside a wrapper. The C union is a record here: a wrapper only has keys of one type. */
  datatype Collected = Collected(
    hasPattern: bool, hasOptions: bool, legacyRegex: bool,
    oid: bytes,
    hasBinary: bool, hasSubtype: bool, subtype: byte, legacyBinary: bool,
    date: int,
    hasT: bool, hasI: bool, t: int, i: int,
    int32: int, int64: int, double: int, decimal: (int, int))

  const NOTHING_COLLECTED := Collected(
    false, false, false, [0, 0, 0, 0, 0, 0, 0, 0, 0, 0, 0, 0], false, false, 0, false, 0, false, false, 0, 0, 0, 0, 0, (0, 0))

  datatype CodeData = CodeData(hasCode: bool, hasScope: bool, inScope: bool, key: bytes, text: bytes)

  datatype State = State(
    stack: seq<Frame>, n: int, key: Option<bytes>, read: ReadState, sought: Sought, wrapper: Wrapper,
    collected: Collected, buf0: bytes, buf1: bytes, code: CodeData, dbPointerKey: bytes, failed: bool)

  const EMPTY_FRAME := Frame(0, Initial, [], Nil)

  function EmptyFrames(n: nat): (r: seq<Frame>)
    ensures |r| == n
  {
    if n == 0 then [] else [EMPTY_FRAME] + EmptyFrames(n - 1)
  }

  /** bson_json_reader_read into a document that already has the elements of target. */
  function Initialized(target: Doc): State {
    State([EMPTY_FRAME.(doc := target)] + EmptyFrames(STACK_MAX - 1), -1, None, Regular, SeekRegex, NoType, NOTHING_COLLECTED,
          [], [], CodeData(false, false, false, [], []), [], false)
  }

  type Machine = s: State | |s.stack| == STACK_MAX && -1 <= s.n < STACK_MAX witness Initialized(Nil)

  /** Conversions that are made elsewhere: by the C library, or by other parts of this one. */
  datatype Conversions = Conversions(
    parseDouble: bytes -> Option<int>,
    parseDecimal: bytes -> Option<(int, int)>,
    parseDate: bytes -> Option<int>,
    scanHex: bytes -> Option<byte>,
    scanUuid: bytes -> Option<bytes>)

  // ---------------------------------------------------------------------------------------------------------
  // Keys with a meaning
  // ---------------------------------------------------------------------------------------------------------

  datatype Special =
    | Ordinary | KRegex | KOptions | KOid | KBinary | KType | KUuid | KDate | KUndefined | KMinKey | KMaxKey
    | KNumberInt | KNumberLong | KNumberDouble | KSymbol | KNumberDecimal | KTimestamp | KRegularExpression
    | KDbPointer | KCode | KScope

  function SpecialKey(k: bytes): Special {
    if k == Ascii("$regex") then KRegex
    else if k == Ascii("$options") then KOptions
    else if k == Ascii("$oid") then KOid
    else if k == Ascii("$binary") then KBinary
    else if k == Ascii("$type") then KType
    else if k == Ascii("$uuid") then KUuid
    else if k == Ascii("$date") then KDate
    else if k == Ascii("$undefined") then KUndefined
    else if k == Ascii("$minKey") then KMinKey
    else if k == Ascii("$maxKey") then KMaxKey
    else if k == Ascii("$numberInt") then KNumberInt
    else if k == Ascii("$numberLong") then KNumberLong
    else if k == Ascii("$numberDouble") then KNumberDouble
    else if k == Ascii("$symbol") then KSymbol
    else if k == Ascii("$numberDecimal") then KNumberDecimal
    else if k == Ascii("$timestamp") then KTimestamp
    else if k == Ascii("$regularExpression") then KRegularExpression
    else if k == Ascii("$dbPointer") then KDbPointer
    else if k == Ascii("$code") then KCode
    else if k == Ascii("$scope") then KScope
    else Ordinary
  }

  // ---------------------------------------------------------------------------------------------------------
  // The stack
  // ---------------------------------------------------------------------------------------------------------

  function Fail(s: Machine): Machine {
    s.(read := Error, failed := true)
  }

  function Kind(s: Machine): FrameKind {
    if s.n < 0 then Initial else s.stack[s.n].kind
  }

  function KeyOf(s: Machine): bytes {
    if s.key == None then [] else s.key.value
  }

  predicate CanPush(s: Machine) {
    s.n < STACK_MAX - 1
  }

  /** STACK_PUSH and what follows it. The outermost document is the caller's, so its contents stay. */
  function Push(s: Machine, kind: FrameKind, key: bytes): Machine
    requires CanPush(s)
  {
    var was := s.stack[s.n + 1];
    var frame := Frame(if kind == ArrayFrame then 0 else was.i, kind, key, if s.n + 1 == 0 then was.doc else Nil);
    s.(stack := s.stack[s.n + 1 := frame], n := s.n + 1)
  }

  function AppendTo(s: Machine, key: bytes, v: Value): Machine {
    if s.n < 0 then s
    else s.(stack := s.stack[s.n := s.stack[s.n].(doc := Snoc(s.stack[s.n].doc, key, v))])
  }

  /** Pops a frame into the document below it, unless it is a scope or a DBPointer, which are collected later. */
  function Pop(s: Machine): Machine
    requires s.n >= 0
  {
    var f := s.stack[s.n];
    var below := s.(n := s.n - 1);
    if s.n == 0 || f.kind == ScopeFrame || f.kind == DbPointerFrame then below
    else AppendTo(below, f.key, if f.kind == ArrayFrame then Array(f.doc) else Document(f.doc))
  }

  /** The document last popped: the frame above the top keeps it. */
  function Popped(s: Machine): Doc {
    if s.n + 1 < STACK_MAX then s.stack[s.n + 1].doc else Nil
  }

  /** Inside an array the key of the next value is its index. */
  function FixupKey(s: Machine): Machine {
    if Kind(s) == ArrayFrame && s.read == Regular then
      var f := s.stack[s.n];
      s.(key := Some(Decimal(f.i)), stack := s.stack[s.n := f.(i := f.i + 1)])
    else s
  }

  function AppendRegular(s: Machine, v: Value): Machine {
    if s.read != Regular || s.key == None then Fail(s) else AppendTo(s, s.key.value, v)
  }

  // ---------------------------------------------------------------------------------------------------------
  // Scalars
  // ---------------------------------------------------------------------------------------------------------

  function StepNull(s: Machine): Machine {
    AppendRegular(FixupKey(s), Null)
  }

  function StepBoolean(s0: Machine, b: bool): Machine {
    var s := FixupKey(s0);
    if s.read == InBsonType && s.sought == SeekUndefined then s else AppendRegular(s, Bool(b))
  }

  function StepFloat(s: Machine, bits: int): Machine {
    AppendRegular(FixupKey(s), Double(bits))
  }

  function StepInteger(s0: Machine, m: nat, sign: int): Machine {
    var s := FixupKey(s0);
    var value := sign * m;
    if !(INT64_MIN <= value <= INT64_MAX) then Fail(s)
    else if s.read == Regular then
      AppendRegular(s, if INT_MIN <= value <= INT_MAX then Int32(value) else Int64(value))
    else if s.read == InBsonType || s.read == TimestampValues then
      match s.sought
      case SeekDate => s.(collected := s.collected.(date := value))
      case SeekT => if sign == -1 then Fail(s) else s.(collected := s.collected.(hasT := true, t := m % TWO_32))
      case SeekI => if sign == -1 then Fail(s) else s.(collected := s.collected.(hasI := true, i := m % TWO_32))
      case SeekMinKey => if value != 1 then Fail(s) else s
      case SeekMaxKey => if value != 1 then Fail(s) else s
      case _ => Fail(s)
    else Fail(s)
  }

  predicate AllowsNull(s: Machine) {
    && !(s.read == RegexValues && (s.sought == SeekPattern || s.sought == SeekPatternOptions))
    && !(s.read == InBsonType && (s.sought == SeekRegex || s.sought == SeekOptions))
  }

  function ScanSubtype(text: bytes, c: Conversions): Option<byte> {
    if |text| == 2 && IsHex(text[0]) && IsHex(text[1]) then Some(FromHex(text)[0]) else c.scanHex(text)
  }

  /** The "base64", "subType", "$binary", "$type" or "$uuid" of a binary. */
  function ParseBinary(s: Machine, text: bytes, c: Conversions): Machine {
    match s.sought
    case SeekBinary =>
      var data := Decode(Strip(text));
      if data == None then Fail(s) else s.(buf0 := data.value, collected := s.collected.(hasBinary := true))
    case SeekType =>
      var sub := ScanSubtype(text, c);
      var t := s.(collected := s.collected.(hasSubtype := true));
      if sub.Some? then t.(collected := t.collected.(subtype := sub.value))
      else if !s.collected.legacyBinary || s.collected.hasBinary then Fail(t)
      else if !CanPush(t) then t.(read := Regular)
      else AppendTo(Push(t.(read := Regular), DocFrame, KeyOf(t)), Ascii("$type"), Utf8(text))
    case SeekUuid =>
      var data := c.scanUuid(text);
      var t := s.(collected := s.collected.(hasBinary := true, hasSubtype := true, subtype := 4));
      if data == None then Fail(t) else t.(buf0 := data.value)
    case _ => s
  }

  function StepText(s0: Machine, text: bytes, c: Conversions): Machine {
    var s := FixupKey(s0);
    if !Utf8Valid(text, AllowsNull(s0)) then Fail(s)
    else if s.read == Regular then AppendRegular(s, Utf8(text))
    else if s.read == BinaryValues then ParseBinary(s, CString(text), c)
    else if s.read == InBsonType || s.read == TimestampValues || s.read == RegexValues || s.read == DateNumberLong then
      TextInType(s, text, c)
    else Fail(s)
  }

  function TextInType(s: Machine, text: bytes, c: Conversions): Machine {
    match s.sought
    case SeekRegex => s.(buf0 := text, collected := s.collected.(legacyRegex := true, hasPattern := true))
    case SeekPattern => s.(buf0 := text, collected := s.collected.(hasPattern := true))
    case SeekOptions => s.(buf1 := text, collected := s.collected.(legacyRegex := true, hasOptions := true))
    case SeekPatternOptions => s.(buf1 := text, collected := s.collected.(hasOptions := true))
    case SeekOid => if |text| != 24 then Fail(s) else s.(collected := s.collected.(oid := FromHex(text)))
    case SeekBinary => ParseBinary(s.(collected := s.collected.(legacyBinary := true)), CString(text), c)
    case SeekType => ParseBinary(s.(collected := s.collected.(legacyBinary := true)), CString(text), c)
    case SeekUuid => ParseBinary(s, CString(text), c)
    case SeekCode => s.(code := s.code.(text := text))
    case SeekSymbol => AppendTo(s, KeyOf(s), Symbol(text))
    case _ => NumberInType(s, text, c)
  }

  /** The texts that are numbers or dates. */
  function NumberInType(s: Machine, text: bytes, c: Conversions): Machine {
    match s.sought
    case SeekInt32 =>
      var i := ParseInt(text);
      if i == None || !(INT_MIN <= i.value <= INT_MAX) || s.read != InBsonType then Fail(s)
      else s.(collected := s.collected.(int32 := i.value))
    case SeekInt64 =>
      var i := ParseInt(text);
      if i == None then Fail(s)
      else if s.read == InBsonType then s.(collected := s.collected.(int64 := i.value))
      else if s.read == DateNumberLong then s.(collected := s.collected.(date := i.value))
      else Fail(s)
    case SeekDouble =>
      var d := c.parseDouble(CString(text));
      if d == None then Fail(s) else s.(collected := s.collected.(double := d.value))
    case SeekDate =>
      var d := c.parseDate(text);
      if d == None then s.(failed := true) else s.(collected := s.collected.(date := d.value))
    case SeekDecimal =>
      var d := c.parseDecimal(CString(text));
      if d == None || s.read != InBsonType then Fail(s) else s.(collected := s.collected.(decimal := d.value))
    case _ => Fail(s)
  }

  // ---------------------------------------------------------------------------------------------------------
  // Maps and keys
  // ---------------------------------------------------------------------------------------------------------

  function StepStartMap(s0: Machine): Machine {
    var s := FixupKey(s0);
    match s.read
    case InBsonType =>
      if s.sought == SeekDate then s.(read := DateNumberLong)
      else if s.sought == SeekBinary then s.(read := BinaryValues)
      else if s.sought == SeekType then
        var t := s.(read := InStartMap);
        if !CanPush(t) then t else Push(t, DocFrame, KeyOf(t)).(key := Some(Ascii("$type")))
      else Fail(s)
    case TimestampStartMap => s.(read := TimestampValues)
    case ScopeStartMap => s.(read := InScope)
    case DbPointerStartMap => s.(read := InDbPointer)
    case RegexStartMap => s.(read := RegexValues)
    case _ => s.(read := InStartMap)
  }

  /** A key that announces a type: it must agree with the ones before it. */
  function Announce(s: Machine, w: Wrapper, sought: Sought): Machine {
    if s.wrapper != NoType && s.wrapper != w then Fail(s) else s.(wrapper := w, sought := sought)
  }

  function CodeOrScopeKey(s: Machine, isScope: bool, k: bytes): Machine {
    if s.code.inScope then
      var t := s.(read := Regular);
      if !CanPush(t) then t else Push(t, DocFrame, KeyOf(t)).(key := Some(k))
    else
      var t := if s.code.key == [] then s.(code := s.code.(key := KeyOf(s))) else s;
      if isScope then
        t.(wrapper := CodeWScopeType, read := ScopeStartMap, sought := SeekScope, code := t.code.(hasScope := true))
      else t.(wrapper := CodeType, sought := SeekCode, code := t.code.(hasCode := true))
  }

  function TypeKey(s: Machine, k: bytes): Machine {
    match SpecialKey(k)
    case KRegex => Announce(s, RegexType, SeekRegex)
    case KOptions => Announce(s, RegexType, SeekOptions)
    case KOid => Announce(s, OidType, SeekOid)
    case KBinary => Announce(s, BinaryType, SeekBinary)
    case KType => Announce(s, BinaryType, SeekType)
    case KUuid => Announce(s, BinaryType, SeekUuid)
    case KDate => Announce(s, DateType, SeekDate)
    case KUndefined => Announce(s, UndefinedType, SeekUndefined)
    case KMinKey => Announce(s, MinKeyType, SeekMinKey)
    case KMaxKey => Announce(s, MaxKeyType, SeekMaxKey)
    case KNumberInt => Announce(s, Int32Type, SeekInt32)
    case KNumberLong => Announce(s, Int64Type, SeekInt64)
    case KNumberDouble => Announce(s, DoubleType, SeekDouble)
    case KSymbol => Announce(s, SymbolType, SeekSymbol)
    case KNumberDecimal => Announce(s, DecimalType, SeekDecimal)
    case KTimestamp =>
      var t := Announce(s, TimestampType, s.sought);
      if t.failed then t else t.(read := TimestampStartMap)
    case KRegularExpression =>
      var t := Announce(s, RegexType, s.sought);
      if t.failed then t else t.(read := RegexStartMap)
    case KDbPointer =>
      var t := Announce(s, DbPointerType, s.sought);
      if t.failed then t else t.(read := DbPointerStartMap, dbPointerKey := KeyOf(s))
    case KCode =>
      if s.wrapper == NoType || s.wrapper == CodeType || s.wrapper == CodeWScopeType
      then CodeOrScopeKey(s, false, k) else Fail(s)
    case KScope =>
      if s.wrapper == NoType || s.wrapper == CodeType || s.wrapper == CodeWScopeType
      then CodeOrScopeKey(s, true, k) else Fail(s)
    case Ordinary => Fail(s)
  }

  /** The first key of a map decides what the map is; None when the callback returns at a full stack. */
  function Materialize(s: Machine, k: bytes): Option<Machine> {
    match s.read
    case InStartMap =>
      if SpecialKey(k) != Ordinary && s.n >= 0 then
        Some(s.(read := InBsonType, wrapper := NoType, collected := NOTHING_COLLECTED))
      else if CanPush(s) then Some(Push(s.(read := Regular), DocFrame, KeyOf(s)))
      else None
    case InScope =>
      if CanPush(s) then
        Some(Push(s.(read := Regular, code := s.code.(inScope := true)), ScopeFrame, []).(key := Some(k)))
      else None
    case InDbPointer =>
      if CanPush(s) then Some(Push(s.(read := Regular), DbPointerFrame, []).(key := Some(k))) else None
    case _ => Some(s)
  }

  function ResolvedKey(s: Machine, k: bytes): Machine {
    match s.read
    case InBsonType => TypeKey(s, k)
    case DateNumberLong => if SpecialKey(k) == KNumberLong then Announce(s, DateType, SeekInt64) else Fail(s)
    case TimestampValues =>
      if k == Ascii("t") then Announce(s, TimestampType, SeekT)
      else if k == Ascii("i") then Announce(s, TimestampType, SeekI)
      else Fail(s)
    case RegexValues =>
      if k == Ascii("pattern") then Announce(s, RegexType, SeekPattern)
      else if k == Ascii("options") then Announce(s, RegexType, SeekPatternOptions)
      else Fail(s)
    case BinaryValues =>
      if k == Ascii("base64") then Announce(s, BinaryType, SeekBinary)
      else if k == Ascii("subType") then Announce(s, BinaryType, SeekType)
      else Fail(s)
    case _ => s.(key := Some(k))
  }

  function StepKey(s: Machine, k: bytes): Machine {
    if !Utf8Valid(k, false) then Fail(s)
    else
      var m := Materialize(s, k);
      if m == None then s.(read := Regular) else ResolvedKey(m.value, k)
  }

  // ---------------------------------------------------------------------------------------------------------
  // The end of a map
  // ---------------------------------------------------------------------------------------------------------

  function AppendBinary(s: Machine): Machine {
    if !s.collected.hasBinary || !s.collected.hasSubtype then Fail(s)
    else AppendTo(s, KeyOf(s), Binary(s.collected.subtype, s.buf0))
  }

  function AppendRegex(s: Machine): Machine {
    if !s.collected.hasPattern || (!s.collected.legacyRegex && !s.collected.hasOptions) then Fail(s)
    else
      var options := SelectedChars(REGEX_OPTIONS_SORTED, CString(s.buf1));
      AppendTo(s, KeyOf(s), Regex(CString(s.buf0), options))
  }

  function AppendCode(s: Machine): Machine {
    if !s.code.hasCode || s.code.inScope then Fail(s)
    else
      var js := CString(s.code.text);
      var t := AppendTo(s, s.code.key, if s.code.hasScope then CodeWithScope(js, 0, Popped(s)) else Code(js));
      t.(code := t.code.(key := [], hasCode := false, hasScope := false))
  }

  /** The collection and the id of a DBPointer: the last "$ref" and "$id"; None for any other key or type. */
  function DbPointerParts(d: Doc, ns: Option<bytes>, oid: Option<bytes>): Option<(bytes, bytes)> {
    match d
    case Nil => if ns.Some? && oid.Some? then Some((ns.value, oid.value)) else None
    case Cons(k, v, rest) =>
      if k == Ascii("$id") then if v.Oid? then DbPointerParts(rest, ns, Some(v.oid)) else None
      else if k == Ascii("$ref") then if v.Utf8? then DbPointerParts(rest, Some(v.text), oid) else None
      else None
  }

  function AppendDbPointer(s: Machine): Machine {
    var parts := DbPointerParts(Popped(s), None, None);
    if parts == None then Fail(s) else AppendTo(s, s.dbPointerKey, DbPointer(CString(parts.value.0), parts.value.1))
  }

  function AppendTimestamp(s: Machine): Machine {
    if !s.collected.hasT || !s.collected.hasI then Fail(s)
    else AppendTo(s, KeyOf(s), Timestamp(s.collected.t, s.collected.i))
  }

  function AppendWrapped(s: Machine): Machine {
    var v := s.collected;
    match s.wrapper
    case RegexType => AppendRegex(s)
    case CodeType => AppendCode(s)
    case CodeWScopeType => AppendCode(s)
    case OidType => AppendTo(s, KeyOf(s), Oid(v.oid))
    case BinaryType => AppendBinary(s)
    case DateType => AppendTo(s, KeyOf(s), DateTime(v.date))
    case UndefinedType => AppendTo(s, KeyOf(s), Undefined)
    case MinKeyType => AppendTo(s, KeyOf(s), MinKey)
    case MaxKeyType => AppendTo(s, KeyOf(s), MaxKey)
    case Int32Type => AppendTo(s, KeyOf(s), Int32(v.int32))
    case Int64Type => AppendTo(s, KeyOf(s), Int64(v.int64))
    case DoubleType => AppendTo(s, KeyOf(s), Double(v.double))
    case DecimalType => AppendTo(s, KeyOf(s), Decimal128(v.decimal.0, v.decimal.1))
    case SymbolType => s
    case _ => Fail(s)
  }

  function StepEndMap(s: Machine): Machine {
    match s.read
    case InStartMap =>
      if CanPush(s) then EndContainer(Push(s.(read := Regular), DocFrame, KeyOf(s))) else s.(read := Regular)
    case ScopeStartMap =>
      if CanPush(s)
      then EndContainer(Push(s.(read := Regular, code := s.code.(inScope := true)), ScopeFrame, []))
      else s.(read := Regular)
    case DbPointerStartMap => AppendDbPointer(s).(read := Regular)
    case InBsonType => if s.key == None then Fail(s) else AppendWrapped(s.(read := Regular))
    case TimestampValues => if s.key == None then Fail(s) else AppendTimestamp(s.(read := TimestampEndMap))
    case RegexValues => if s.key == None then Fail(s) else AppendRegex(s.(read := RegexEndMap))
    case BinaryValues => if s.key == None then Fail(s) else AppendBinary(s.(read := BinaryEndMap))
    case DateNumberLong =>
      if s.key == None then Fail(s) else AppendTo(s.(read := DateEndMap), KeyOf(s), DateTime(s.collected.date))
    case TimestampEndMap => s.(read := Regular)
    case RegexEndMap => s.(read := Regular)
    case BinaryEndMap => s.(read := Regular)
    case DateEndMap => s.(read := Regular)
    case Regular => EndContainer(s)
    case InScope =>
      if CanPush(s)
      then Pop(Push(s, ScopeFrame, [])).(read := InBsonType, wrapper := CodeType, code := s.code.(inScope := false))
      else s
    case _ => Fail(s)
  }

  /** The end of a document, a scope or a DBPointer; a map that ends in an array frame is passed over. */
  function EndContainer(s: Machine): Machine {
    if Kind(s) == ArrayFrame || s.n < 0 then s
    else if Kind(s) == ScopeFrame then Pop(s).(read := InBsonType, wrapper := CodeType, code := s.code.(inScope := false))
    else if Kind(s) == DbPointerFrame then Pop(s).(read := DbPointerStartMap)
    else
      var t := Pop(s);
      if t.n == -1 then t.(read := Done) else t
  }

  function StepStartArray(s0: Machine): Machine {
    if s0.read != Regular then Fail(s0)
    else
      var s := if s0.n == -1 then s0 else FixupKey(s0);
      if CanPush(s) then Push(s, ArrayFrame, KeyOf(s)) else s
  }

  function StepEndArray(s: Machine): Machine {
    if s.read != Regular then Fail(s)
    else if Kind(s) != ArrayFrame then s
    else
      var t := Pop(s);
      if t.n == -1 then t.(read := Done) else t
  }

  function Step(s: Machine, e: Event, c: Conversions): Machine {
    match e
    case StartMap => StepStartMap(s)
    case EndMap => StepEndMap(s)
    case StartArray => StepStartArray(s)
    case EndArray => StepEndArray(s)
    case Key(k) => StepKey(s, k)
    case Text(t) => StepText(s, t, c)
    case Integer(m, sign) => StepInteger(s, m, sign)
    case Float(bits) => StepFloat(s, bits)
    case Boolean(b) => StepBoolean(s, b)
    case Nothing => StepNull(s)
  }

  /** The events are delivered until one fails: a failure stops the tokenizer. */
  function Run(s: Machine, events: seq<Event>, c: Conversions): Machine
    decreases |events|
  {
    if events == [] || s.failed then s else Run(Step(s, events[0], c), events[1..], c)
  }

  lemma {:induction false} RunSplit(s: Machine, xs: seq<Event>, ys: seq<Event>, c: Conversions)
    ensures Run(s, xs + ys, c) == Run(Run(s, xs, c), ys, c)
    decreases |xs|
  {
    hide Step;
    if xs == [] {
      assert xs + ys == ys;
    } else if !s.failed {
      assert (xs + ys)[1..] == xs[1..] + ys && (xs + ys)[0] == xs[0];
      RunSplit(Step(s, xs[0], c), xs[1..], ys, c);
    }
  }

  lemma RunOne(s: Machine, e: Event, c: Conversions)
    requires !s.failed
    ensures Run(s, [e], c) == Step(s, e, c)
  {
    hide Step;
    assert [e][1..] == [];
  }

  lemma FailedStays(s: Machine, events: seq<Event>, c: Conversions)
    ensures s.failed ==> Run(s, events, c) == s
  {
  }
}
