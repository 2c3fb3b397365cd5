/** What the reader's state says about the containers that are open in the text, over every run. */
module JsonShape {
  import opened CInt
  import opened LittleEndian
  import opened BsonTree
  import opened JsonText
  import opened JsonMachine
  import Base64
  import BsonArguments
  import Utf8

  /** An open container of the text: an array, or a map that may be due a value. */
  datatype Level = Arr | Map(due: bool)

  /** The events a tokenizer can report next. */
  predicate Legal(levels: seq<Level>, e: Event) {
    if levels == [] then e.StartMap? || e.StartArray?
    else
      var top := levels[|levels| - 1];
      match e
      case Key(_) => top == Map(false)
      case EndMap => top == Map(false)
      case EndArray => top == Arr
      case _ => top != Map(false)
  }

  function Settled(levels: seq<Level>): seq<Level> {
    if levels != [] && levels[|levels| - 1] == Map(true) then levels[..|levels| - 1] + [Map(false)] else levels
  }

  function After(levels: seq<Level>, e: Event): seq<Level>
    requires Legal(levels, e)
  {
    match e
    case StartMap => Settled(levels) + [Map(false)]
    case StartArray => Settled(levels) + [Arr]
    case Key(_) => levels[..|levels| - 1] + [Map(true)]
    case EndMap => levels[..|levels| - 1]
    case EndArray => levels[..|levels| - 1]
    case _ => Settled(levels)
  }

  /** The events follow each other as a tokenizer reports them. */
  predicate LegalRun(levels: seq<Level>, events: seq<Event>)
    decreases |events|
  {
    events == [] || (Legal(levels, events[0]) && LegalRun(After(levels, events[0]), events[1..]))
  }

  function LevelsAfter(levels: seq<Level>, events: seq<Event>): seq<Level>
    requires LegalRun(levels, events)
    decreases |events|
  {
    if events == [] then levels else LevelsAfter(After(levels, events[0]), events[1..])
  }

  function IsMap(levels: seq<Level>): (r: seq<bool>)
    ensures |r| == |levels|
  {
    seq(|levels|, i requires 0 <= i < |levels| => levels[i].Map?)
  }

  // ---------------------------------------------------------------------------------------------------------
  // The containers a state stands for
  // ---------------------------------------------------------------------------------------------------------

  /** A scope or a DBPointer lies inside the map that announced it. */
  function FrameShape(kind: FrameKind): seq<bool> {
    if kind == ArrayFrame then [false]
    else if kind == ScopeFrame || kind == DbPointerFrame then [true, true]
    else [true]
  }

  function FrameShapes(stack: seq<Frame>, m: nat): seq<bool>
    requires m <= |stack|
  {
    if m == 0 then [] else FrameShapes(stack, m - 1) + FrameShape(stack[m - 1].kind)
  }

  /** Maps that are open but have no frame: type wrappers, and maps not yet known to be documents. */
  function Pending(read: ReadState): seq<bool> {
    match read
    case Regular => []
    case Done => []
    case Error => []
    case DateNumberLong => [true, true]
    case TimestampValues => [true, true]
    case RegexValues => [true, true]
    case BinaryValues => [true, true]
    case InScope => [true, true]
    case InDbPointer => [true, true]
    case _ => [true]
  }

  function Shape(s: Machine): seq<bool> {
    FrameShapes(s.stack, s.n + 1) + Pending(s.read)
  }

  function ScopeFrames(stack: seq<Frame>, m: nat): nat
    requires m <= |stack|
  {
    if m == 0 then 0 else ScopeFrames(stack, m - 1) + if stack[m - 1].kind == ScopeFrame then 1 else 0
  }

  /** At most one scope is open and the flag says so; while one is due, none is open. */
  predicate ScopesOk(s: Machine) {
    && ScopeFrames(s.stack, s.n + 1) == (if s.code.inScope then 1 else 0)
    && (s.read == ScopeStartMap || s.read == InScope ==> !s.code.inScope)
  }

  /** The values that are never sought right inside a wrapper's map: their keys lead to other reading states. */
  predicate SoughtElsewhere(sought: Sought) {
    sought == SeekDbPointer || sought == SeekScope || sought == SeekT || sought == SeekI
  }

  /** A key inside a wrapper, or inside its middle map, has said what is sought there. */
  predicate SoughtInside(s: Machine) {
    && (s.read == InBsonType ==> !SoughtElsewhere(s.sought))
    && (s.read == TimestampValues ==> s.sought == SeekT || s.sought == SeekI)
    && (s.read == RegexValues ==> s.sought == SeekPattern || s.sought == SeekPatternOptions)
    && (s.read == DateNumberLong ==> s.sought == SeekInt64)
  }

  // ---------------------------------------------------------------------------------------------------------
  // What every callback does to the frames
  // ---------------------------------------------------------------------------------------------------------

  predicate SameKinds(s: Machine, t: Machine, m: nat)
    requires m <= STACK_MAX
  {
    forall i :: 0 <= i < m ==> t.stack[i].kind == s.stack[i].kind
  }

  predicate Kept(s: Machine, t: Machine) {
    t.n == s.n && SameKinds(s, t, s.n + 1) && t.code.inScope == s.code.inScope
  }

  predicate PushedOn(s: Machine, t: Machine, kind: FrameKind) {
    t.n == s.n + 1 && SameKinds(s, t, s.n + 1) && t.stack[t.n].kind == kind
  }

  predicate PoppedOff(s: Machine, t: Machine) {
    t.n == s.n - 1 && SameKinds(s, t, s.n)
  }

  lemma {:induction false} SameShapes(s: Machine, t: Machine, m: nat)
    requires m <= STACK_MAX && SameKinds(s, t, m)
    ensures FrameShapes(s.stack, m) == FrameShapes(t.stack, m) && ScopeFrames(s.stack, m) == ScopeFrames(t.stack, m)
  {
    if m > 0 { SameShapes(s, t, m - 1); }
  }

  lemma AppendKept(s: Machine, k: bytes, v: Value)
    ensures var t := AppendTo(s, k, v); Kept(s, t) && t.read == s.read && t.failed == s.failed && t.code == s.code
  {
  }

  lemma FixupKept(s: Machine)
    ensures var t := FixupKey(s);
            Kept(s, t) && t.read == s.read && t.failed == s.failed && t.sought == s.sought && t.code == s.code
            && t.collected == s.collected
  {
  }

  lemma RegularKept(s: Machine, v: Value)
    ensures var t := AppendRegular(s, v); t.failed || (Kept(s, t) && t.read == s.read == Regular)
  {
    hide AppendTo;
    if s.key.Some? { AppendKept(s, s.key.value, v); }
  }

  lemma PushPushes(s: Machine, kind: FrameKind, k: bytes)
    requires CanPush(s)
    ensures var t := Push(s, kind, k);
            PushedOn(s, t, kind) && t.read == s.read && t.code == s.code && t.failed == s.failed
  {
  }

  lemma PopPops(s: Machine)
    requires s.n >= 0
    ensures var t := Pop(s); PoppedOff(s, t) && t.read == s.read && t.code == s.code && t.failed == s.failed
  {
  }

  /** Numbers, booleans and nulls leave the frames and the reading state alone. */
  lemma ScalarKept(s: Machine, e: Event, c: Conversions)
    requires e.Nothing? || e.Boolean? || e.Float? || e.Integer?
    ensures var t := Step(s, e, c);
            t.failed || (Kept(s, t) && t.read == s.read
                         && (t.read == Regular || t.read == InBsonType || t.read == TimestampValues))
  {
    hide StepText, StepStartMap, StepEndMap, StepKey, StepStartArray, StepEndArray, AppendRegular, FixupKey;
    var s1 := FixupKey(s);
    FixupKept(s);
    match e
    case Nothing => RegularKept(s1, Null);
    case Boolean(b) => RegularKept(s1, Bool(b));
    case Float(bits) => RegularKept(s1, Double(bits));
    case Integer(m, sign) =>
      RegularKept(s1, Int32(sign * m));
      RegularKept(s1, Int64(sign * m));
  }

  /** A legacy "$type" whose text is no binary subtype is a query operator: the wrapper becomes a document. */
  predicate TypeOperator(sought: Sought, legacy: bool, hasBinary: bool, text: bytes, c: Conversions) {
    sought == SeekType && legacy && !hasBinary && ScanSubtype(CString(text), c) == None
  }

  lemma ParseBinaryKept(s: Machine, text: bytes, c: Conversions)
    requires TypeOperator(s.sought, s.collected.legacyBinary, s.collected.hasBinary, text, c) ==> CanPush(s)
    ensures var t := ParseBinary(s, CString(text), c);
            || t.failed
            || (if TypeOperator(s.sought, s.collected.legacyBinary, s.collected.hasBinary, text, c)
                then PushedOn(s, t, DocFrame) && t.read == Regular && t.code == s.code
                else Kept(s, t) && t.read == s.read)
  {
    hide AppendTo, Base64.Decode, Base64.Strip, ScanSubtype, Push, Ascii, FromHex, CString;
    var t := s.(collected := s.collected.(hasSubtype := true)).(read := Regular);
    if CanPush(t) {
      PushPushes(t, DocFrame, KeyOf(t));
      AppendKept(Push(t, DocFrame, KeyOf(t)), Ascii("$type"), Value.Utf8(CString(text)));
    }
  }

  lemma TextInTypeKept(s: Machine, text: bytes, c: Conversions)
    requires TypeOperator(s.sought, true, s.collected.hasBinary, text, c) ==> CanPush(s)
    ensures var t := TextInType(s, text, c);
            || t.failed
            || (if TypeOperator(s.sought, true, s.collected.hasBinary, text, c)
                then PushedOn(s, t, DocFrame) && t.read == Regular && t.code == s.code
                else Kept(s, t) && t.read == s.read)
  {
    hide AppendTo, ParseBinary, ParseInt, FromHex, CString, ScanSubtype;
    if s.sought == SeekUuid { ParseBinaryKept(s, text, c); }
    ParseBinaryKept(s.(collected := s.collected.(legacyBinary := true)), text, c);
    AppendKept(s, KeyOf(s), Symbol(text));
  }

  /** The callbacks that push a frame: they return without a word when the stack is full. */
  predicate NeedsRoom(s: Machine, e: Event, c: Conversions) {
    match e
    case StartMap => s.read == InBsonType && s.sought == SeekType
    case EndMap => s.read == InStartMap || s.read == ScopeStartMap || s.read == InScope
    case StartArray => s.read == Regular
    case Text(text) =>
      || (s.read == InBsonType && TypeOperator(s.sought, true, s.collected.hasBinary, text, c))
      || (s.read == BinaryValues && TypeOperator(s.sought, s.collected.legacyBinary, s.collected.hasBinary, text, c))
    case Key(k) =>
      || s.read == InScope || s.read == InDbPointer || (s.read == InStartMap && (SpecialKey(k) == Ordinary || s.n < 0))
      || ((s.read == InStartMap || s.read == InBsonType) && s.code.inScope && (SpecialKey(k) == KCode || SpecialKey(k) == KScope))
    case _ => false
  }

  /** Below the depth limit: there is room for the frame, if one is pushed. */
  predicate Room(s: Machine, e: Event, c: Conversions) {
    NeedsRoom(s, e, c) ==> CanPush(s)
  }

  /** A text in the middle map of a binary that takes the query operator's way out of it. */
  predicate Misread(s: Machine, e: Event, c: Conversions) {
    e.Text? && s.read == BinaryValues
    && TypeOperator(s.sought, s.collected.legacyBinary, s.collected.hasBinary, e.text, c)
  }

  predicate TakesText(s: Machine) {
    s.read == Regular || s.read == BinaryValues || s.read == InBsonType || s.read == TimestampValues || s.read == RegexValues
    || s.read == DateNumberLong
  }

  lemma TextShape(s: Machine, text: bytes, c: Conversions)
    requires Room(s, Text(text), c) && !s.failed && SoughtInside(s)
    ensures var t := Step(s, Text(text), c);
            || t.failed
            || (Kept(s, t) && t.read == s.read && !Misread(s, Text(text), c) && TakesText(s))
            || (PushedOn(s, t, DocFrame) && t.read == Regular && t.code == s.code
                && (s.read == InBsonType || Misread(s, Text(text), c)))
  {
    hide StepNull, StepFloat, StepInteger, StepBoolean, StepStartMap, StepEndMap, StepKey, StepStartArray, StepEndArray,
      AppendRegular, FixupKey, TextInType, ParseBinary, Utf8.Utf8Valid, ScanSubtype, CString;
    var s1 := FixupKey(s);
    FixupKept(s);
    RegularKept(s1, Value.Utf8(text));
    if s.read == BinaryValues { ParseBinaryKept(s1, text, c); }
    if s.read == InBsonType || s.sought != SeekType { TextInTypeKept(s1, text, c); }
  }

  /** The middle map of a wrapper, or its end, where another map is out of place. */
  predicate Misplaced(s: Machine, e: Event) {
    e.StartMap? && match s.read
                   case DateNumberLong => true case TimestampValues => true case RegexValues => true case BinaryValues => true
                   case DateEndMap => true case TimestampEndMap => true case RegexEndMap => true case BinaryEndMap => true
                   case _ => false
  }

  lemma StartMapShape(s: Machine, c: Conversions)
    requires Room(s, StartMap, c) && !s.failed
    ensures var t := Step(s, StartMap, c);
            || t.failed
            || (Kept(s, t) && match s.read
                              case InBsonType => t.read == DateNumberLong || t.read == BinaryValues
                              case TimestampStartMap => t.read == TimestampValues
                              case RegexStartMap => t.read == RegexValues
                              case ScopeStartMap => t.read == InScope
                              case DbPointerStartMap => t.read == InDbPointer
                              case _ => t.read == InStartMap)
            || (PushedOn(s, t, DocFrame) && s.read == InBsonType && t.read == InStartMap && t.code == s.code)
  {
    hide StepNull, StepFloat, StepInteger, StepBoolean, StepText, StepEndMap, StepKey, StepStartArray, StepEndArray,
      FixupKey, Push, Ascii;
    FixupKept(s);
    var u := FixupKey(s).(read := InStartMap);
    if CanPush(u) { PushPushes(u, DocFrame, KeyOf(u)); }
  }

  lemma StartArrayShape(s: Machine, c: Conversions)
    requires Room(s, StartArray, c) && !s.failed
    ensures var t := Step(s, StartArray, c);
            t.failed || (s.read == Regular && t.read == Regular && PushedOn(s, t, ArrayFrame) && t.code == s.code)
  {
    hide StepNull, StepFloat, StepInteger, StepBoolean, StepText, StepEndMap, StepKey, StepStartMap, StepEndArray,
      FixupKey, Push;
    FixupKept(s);
    var s1 := if s.n == -1 then s else FixupKey(s);
    if CanPush(s1) { PushPushes(s1, ArrayFrame, KeyOf(s1)); }
  }

  lemma EndArrayShape(s: Machine, c: Conversions)
    requires !s.failed && Kind(s) == ArrayFrame && s.n >= 0
    ensures var t := Step(s, EndArray, c);
            || t.failed
            || (s.read == Regular && PoppedOff(s, t) && t.code == s.code && t.read == if t.n == -1 then Done else Regular)
  {
    hide StepNull, StepFloat, StepInteger, StepBoolean, StepText, StepEndMap, StepKey, StepStartMap, StepStartArray, Pop;
    PopPops(s);
  }

  /** The first key of a pending map gives it a frame, unless it makes it a wrapper. */
  lemma MaterializeShape(s: Machine, k: bytes, c: Conversions)
    requires Room(s, Key(k), c) && !s.failed
    ensures var m := Materialize(s, k);
            && m.Some? && !m.value.failed
            && (|| (s.read == InScope && PushedOn(s, m.value, ScopeFrame) && m.value.read == Regular && m.value.code.inScope)
                || (s.read == InDbPointer && PushedOn(s, m.value, DbPointerFrame) && m.value.read == Regular
                    && m.value.code == s.code)
                || (s.read == InStartMap && PushedOn(s, m.value, DocFrame) && m.value.read == Regular && m.value.code == s.code)
                || (s.read == InStartMap && s.n >= 0
                    && m.value == s.(read := InBsonType, wrapper := NoType, collected := NOTHING_COLLECTED))
                || (s.read != InScope && s.read != InDbPointer && s.read != InStartMap && m.value == s))
  {
    hide SpecialKey, Push;
    if CanPush(s) {
      PushPushes(s.(read := Regular), DocFrame, KeyOf(s));
      PushPushes(s.(read := Regular, code := s.code.(inScope := true)), ScopeFrame, []);
      PushPushes(s.(read := Regular), DbPointerFrame, []);
    }
  }

  /** What a key does to a machine whose pending maps have been resolved. */
  lemma ResolvedKeyShape(m: Machine, k: bytes, c: Conversions)
    requires Room(m, Key(k), c) && !m.failed && m.read != InStartMap && m.read != InScope && m.read != InDbPointer
    ensures var t := ResolvedKey(m, k);
            || t.failed
            || (PushedOn(m, t, DocFrame) && m.read == InBsonType && t.read == Regular && t.code == m.code)
            || (Kept(m, t) && Pending(t.read) == Pending(m.read)
                && t.read != InStartMap && t.read != InScope && t.read != InDbPointer && SoughtInside(t)
                && (t.read == ScopeStartMap ==> !t.code.inScope || m.read == ScopeStartMap)
                && (t.read == Done ==> m.read == Done) && (m.read != t.read ==> m.read == InBsonType))
  {
    hide SpecialKey, Ascii, TypeKey;
    if m.read == InBsonType { TypeKeyShape(m, k, c); }
  }

  lemma KeyShape(s: Machine, k: bytes, c: Conversions)
    requires Room(s, Key(k), c) && !s.failed
    ensures var t := Step(s, Key(k), c);
            || t.failed
            || (PushedOn(s, t, ScopeFrame) && s.read == InScope && t.read == Regular && t.code.inScope)
            || (PushedOn(s, t, DbPointerFrame) && s.read == InDbPointer && t.read == Regular && t.code.inScope == s.code.inScope)
            || (PushedOn(s, t, DocFrame) && (s.read == InStartMap || s.read == InBsonType) && t.read == Regular
                && t.code.inScope == s.code.inScope)
            || (Kept(s, t) && Pending(t.read) == Pending(s.read) && s.read != InScope && s.read != InDbPointer
                && t.read != InStartMap && t.read != InScope && t.read != InDbPointer && SoughtInside(t)
                && (t.read == ScopeStartMap ==> !t.code.inScope || s.read == ScopeStartMap)
                && (t.read == Done ==> s.read == Done) && (s.read != t.read ==> s.n >= 0 || s.read == InBsonType))
  {
    hide StepNull, StepFloat, StepInteger, StepBoolean, StepText, StepEndMap, StepStartMap, StepStartArray, StepEndArray,
      Utf8.Utf8Valid, SpecialKey, Ascii, TypeKey, Materialize, Announce;
    MaterializeShape(s, k, c);
    if Utf8.Utf8Valid(k, false) {
      ResolvedKeyShape(Materialize(s, k).value, k, c);
    }
  }

  /** A key that announces a type keeps the stack and leads on inside the wrapper. */
  predicate Announced(s: Machine, t: Machine) {
    && Kept(s, t) && (t.read == ScopeStartMap ==> !t.code.inScope) && SoughtInside(t)
    && (t.read == InBsonType || t.read == TimestampStartMap || t.read == RegexStartMap || t.read == DbPointerStartMap
        || t.read == ScopeStartMap)
  }

  lemma TypeKeyShape(s: Machine, k: bytes, c: Conversions)
    requires Room(s, Key(k), c) && !s.failed && s.read == InBsonType
    ensures var t := TypeKey(s, k);
            || t.failed
            || (PushedOn(s, t, DocFrame) && t.read == Regular && t.code == s.code)
            || Announced(s, t)
  {
    hide SpecialKey, CodeOrScopeKey, Announce, Announced, PushedOn;
    forall w, sought
      ensures var t := Announce(s, w, sought);
              || t.failed
              || ((!SoughtElsewhere(sought) ==> Announced(s, t))
                  && Announced(s, t.(read := TimestampStartMap)) && Announced(s, t.(read := RegexStartMap))
                  && Announced(s, t.(read := DbPointerStartMap, dbPointerKey := KeyOf(s))))
    {
      AnnouncedBy(s, w, sought);
    }
    if !s.code.inScope || CanPush(s) {
      CodeKeyAnnounced(s, false, k);
      CodeKeyAnnounced(s, true, k);
    }
  }

  lemma CodeKeyAnnounced(s: Machine, isScope: bool, k: bytes)
    requires (s.code.inScope ==> CanPush(s)) && !s.failed && s.read == InBsonType
    ensures var t := CodeOrScopeKey(s, isScope, k);
            (PushedOn(s, t, DocFrame) && t.read == Regular && t.code == s.code) || Announced(s, t)
  {
    hide CodeOrScopeKey;
    CodeKeyShape(s, isScope, k);
  }

  lemma AnnouncedBy(s: Machine, w: Wrapper, sought: Sought)
    requires !s.failed && s.read == InBsonType
    ensures var t := Announce(s, w, sought);
            || t.failed
            || ((!SoughtElsewhere(sought) ==> Announced(s, t))
                && Announced(s, t.(read := TimestampStartMap)) && Announced(s, t.(read := RegexStartMap))
                && Announced(s, t.(read := DbPointerStartMap, dbPointerKey := KeyOf(s))))
  {
    hide Announce;
    AnnounceKept(s, w, sought);
  }

  lemma AnnounceKept(s: Machine, w: Wrapper, sought: Sought)
    requires !s.failed
    ensures var t := Announce(s, w, sought);
            || t.failed
            || (t.n == s.n && t.stack == s.stack && t.code == s.code && t.read == s.read && t.sought == sought)
  {
  }

  lemma CodeKeyShape(s: Machine, isScope: bool, k: bytes)
    requires (s.code.inScope ==> CanPush(s)) && !s.failed && s.read == InBsonType
    ensures var t := CodeOrScopeKey(s, isScope, k);
            || (PushedOn(s, t, DocFrame) && t.read == Regular && t.code == s.code)
            || (Kept(s, t) && SoughtInside(t) && (t.read == InBsonType || (t.read == ScopeStartMap && !t.code.inScope)))
  {
    hide Push;
    var u := s.(read := Regular);
    if CanPush(u) { PushPushes(u, DocFrame, KeyOf(u)); }
  }

  /** The end of a map: of a pending one, of a wrapper or its middle map, or of a frame. */
  lemma EndMapShape(s: Machine, c: Conversions)
    requires Room(s, EndMap, c) && !s.failed && s.read != ScopeStartMap
    requires s.read == Regular ==> s.n >= 0 && Kind(s) != ArrayFrame
    requires s.n < 0 ==> s.read == Regular || s.read == InStartMap || s.read == Done
    ensures var t := Step(s, EndMap, c);
            || t.failed
            || (s.read == InStartMap && Kept(s, t) && t.read == if t.n == -1 then Done else Regular)
            || (s.read == InScope && t.n == s.n && SameKinds(s, t, s.n + 1) && t.read == InBsonType && !t.code.inScope)
            || (s.read != InStartMap && s.read != InScope && s.read != Regular && Kept(s, t)
                && |Pending(s.read)| == |Pending(t.read)| + 1 && t.n >= 0
                && (t.read == Regular || t.read == TimestampEndMap || t.read == RegexEndMap || t.read == BinaryEndMap
                    || t.read == DateEndMap))
            || (s.read == Regular && PoppedOff(s, t)
                && (if Kind(s) == ScopeFrame then t.read == InBsonType && !t.code.inScope
                    else if Kind(s) == DbPointerFrame then t.read == DbPointerStartMap && t.code == s.code
                    else t.code == s.code && t.read == if t.n == -1 then Done else Regular))
  {
    hide StepNull, StepFloat, StepInteger, StepBoolean, StepText, StepKey, StepStartMap, StepStartArray, StepEndArray,
      Push, Pop, AppendWrapped, AppendBinary, AppendTimestamp, AppendRegex, AppendDbPointer, AppendTo;
    match s.read
    case InStartMap =>
      var u := Push(s.(read := Regular), DocFrame, KeyOf(s));
      PushPushes(s.(read := Regular), DocFrame, KeyOf(s));
      PopPops(u);
    case InScope =>
      PushPushes(s, ScopeFrame, []);
      PopPops(Push(s, ScopeFrame, []));
    case Regular => PopPops(s);
    case _ => EndWrapperShape(s, c);
  }

  lemma EndWrapperShape(s: Machine, c: Conversions)
    requires !s.failed && (s.n >= 0 || s.read == Done)
    requires s.read != ScopeStartMap && s.read != InStartMap && s.read != InScope && s.read != Regular
    ensures var t := Step(s, EndMap, c);
            || t.failed
            || (Kept(s, t) && |Pending(s.read)| == |Pending(t.read)| + 1 && t.n >= 0
                && (t.read == Regular || t.read == TimestampEndMap || t.read == RegexEndMap || t.read == BinaryEndMap
                    || t.read == DateEndMap))
  {
    hide StepNull, StepFloat, StepInteger, StepBoolean, StepText, StepKey, StepStartMap, StepStartArray, StepEndArray,
      Push, Pop, AppendWrapped, AppendBinary, AppendTimestamp, AppendRegex, AppendDbPointer, AppendTo;
    match s.read
    case DateNumberLong => AppendKept(s.(read := DateEndMap), KeyOf(s), DateTime(s.collected.date));
    case DbPointerStartMap => CollectedKept(s);
    case TimestampValues => CollectedKept(s.(read := TimestampEndMap));
    case RegexValues => RegexKept(s.(read := RegexEndMap));
    case BinaryValues => CollectedKept(s.(read := BinaryEndMap));
    case InBsonType => WrappedKept(s.(read := Regular));
    case _ =>
  }

  /** The appends at the end of a wrapper. */
  lemma CollectedKept(s: Machine)
    ensures var t := AppendDbPointer(s); t.failed || (Kept(s, t) && t.read == s.read)
    ensures var t := AppendTimestamp(s); t.failed || (Kept(s, t) && t.read == s.read)
    ensures var t := AppendBinary(s); t.failed || (Kept(s, t) && t.read == s.read)
  {
    hide AppendTo, DbPointerParts, CString;
    var parts := DbPointerParts(Popped(s), None, None);
    if parts.Some? { AppendKept(s, s.dbPointerKey, DbPointer(CString(parts.value.0), parts.value.1)); }
    AppendKept(s, KeyOf(s), Timestamp(s.collected.t, s.collected.i));
    AppendKept(s, KeyOf(s), Binary(s.collected.subtype, s.buf0));
  }

  lemma RegexKept(s: Machine)
    ensures var t := AppendRegex(s); t.failed || (Kept(s, t) && t.read == s.read)
  {
    hide AppendTo, CString, BsonArguments.SelectedChars;
    var options := BsonArguments.SelectedChars(BsonArguments.REGEX_OPTIONS_SORTED, CString(s.buf1));
    AppendKept(s, KeyOf(s), Regex(CString(s.buf0), options));
  }

  lemma CodeKept(s: Machine)
    ensures var t := AppendCode(s); t.failed || (Kept(s, t) && t.read == s.read)
  {
    hide AppendTo, CString, Popped;
    var js := CString(s.code.text);
    AppendKept(s, s.code.key, CodeWithScope(js, 0, Popped(s)));
    AppendKept(s, s.code.key, Code(js));
  }

  lemma WrappedKept(s: Machine)
    requires !s.failed
    ensures var t := AppendWrapped(s); t.failed || (Kept(s, t) && t.read == s.read)
  {
    hide AppendTo, AppendRegex, AppendCode, AppendBinary, Kept;
    var (k, v) := (KeyOf(s), s.collected);
    match s.wrapper
    case RegexType => RegexKept(s);
    case CodeType => CodeKept(s);
    case CodeWScopeType => CodeKept(s);
    case OidType => AppendKept(s, k, Oid(v.oid));
    case BinaryType => CollectedKept(s);
    case DateType => AppendKept(s, k, DateTime(v.date));
    case UndefinedType => AppendKept(s, k, Undefined);
    case MinKeyType => AppendKept(s, k, MinKey);
    case MaxKeyType => AppendKept(s, k, MaxKey);
    case Int32Type => AppendKept(s, k, Int32(v.int32));
    case Int64Type => AppendKept(s, k, Int64(v.int64));
    case DoubleType => AppendKept(s, k, Double(v.double));
    case DecimalType => AppendKept(s, k, Decimal128(v.decimal.0, v.decimal.1));
    case SymbolType => assert Kept(s, s) by { KeptSelf(s); }
    case _ =>
  }

  lemma KeptSelf(s: Machine)
    ensures Kept(s, s)
  {
  }
}
