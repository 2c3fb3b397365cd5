/** The callbacks of the extended JSON reader, which update the reader's fields step by step. */
module JsonReader {
  import opened CInt
  import opened LittleEndian
  import opened BsonTree
  import opened BsonArguments
  import opened JsonText
  import opened JsonCode
  import opened JsonMachine
  import Base64
  import Utf8

  class Reader {
    const conversions: Conversions
    const stack: array<Frame>
    var n: int
    var key: Option<bytes>
    var read: ReadState
    var sought: Sought
    var wrapper: Wrapper
    var collected: Collected
    var buf0: bytes
    var buf1: bytes
    var code: CodeData
    var dbPointerKey: bytes
    var failed: bool

    ghost predicate Valid()
      reads this
    {
      stack.Length == STACK_MAX && -1 <= n < STACK_MAX
    }

    ghost function Now(): Machine
      requires Valid()
      reads this, stack
    {
      State(stack[..], n, key, read, sought, wrapper, collected, buf0, buf1, code, dbPointerKey, failed)
    }

    /** A reader about to read into a document with the elements of target. */
    constructor (conversions: Conversions, target: Doc)
      ensures Valid() && fresh(stack) && this.conversions == conversions && Now() == Initialized(target)
    {
      this.conversions := conversions;
      stack := new Frame[STACK_MAX](_ => EMPTY_FRAME);
      n, key, read, sought, wrapper, collected := -1, None, Regular, SeekRegex, NoType, NOTHING_COLLECTED;
      buf0, buf1, code, dbPointerKey, failed := [], [], CodeData(false, false, false, [], []), [], false;
      new;
      stack[0] := EMPTY_FRAME.(doc := target);
      EmptyAt(STACK_MAX - 1);
      assert stack[..] == [EMPTY_FRAME.(doc := target)] + EmptyFrames(STACK_MAX - 1);
    }

    method SetError()
      requires Valid()
      modifies this
      ensures Valid() && Now() == Fail(old(Now()))
    {
      read, failed := Error, true;
    }

    method Fixup()
      requires Valid()
      modifies this, stack
      ensures Valid() && Now() == FixupKey(old(Now()))
    {
      if n >= 0 && stack[n].kind == ArrayFrame && read == Regular {
        key := Some(Decimal(stack[n].i));
        stack[n] := stack[n].(i := stack[n].i + 1);
      }
    }

    /** STACK_PUSH: a full stack makes the calling callback return. */
    method PushFrame(kind: FrameKind, k: bytes) returns (pushed: bool)
      requires Valid()
      modifies this, stack
      ensures Valid() && pushed == CanPush(old(Now()))
      ensures Now() == if pushed then Push(old(Now()), kind, k) else old(Now())
    {
      if n >= STACK_MAX - 1 {
        return false;
      }
      n := n + 1;
      var i := if kind == ArrayFrame then 0 else stack[n].i;
      var doc := if n == 0 then stack[n].doc else Nil;
      stack[n] := Frame(i, kind, k, doc);
      return true;
    }

    method Append(k: bytes, v: Value)
      requires Valid()
      modifies this, stack
      ensures Valid() && Now() == AppendTo(old(Now()), k, v)
    {
      if n >= 0 {
        stack[n] := stack[n].(doc := Snoc(stack[n].doc, k, v));
      }
    }

    method PopFrame()
      requires Valid() && n >= 0
      modifies this, stack
      ensures Valid() && Now() == Pop(old(Now()))
    {
      hide AppendTo;
      var f := stack[n];
      n := n - 1;
      if n >= 0 && f.kind != ScopeFrame && f.kind != DbPointerFrame {
        Append(f.key, if f.kind == ArrayFrame then Array(f.doc) else Document(f.doc));
      }
    }

    /** The end of most scalar callbacks: bail out unless a value is expected here. */
    method AppendIfRegular(v: Value)
      requires Valid()
      modifies this, stack
      ensures Valid() && Now() == AppendRegular(old(Now()), v)
    {
      hide AppendTo;
      if read != Regular || key == None {
        SetError();
      } else {
        Append(key.value, v);
      }
    }

    method ReadNull()
      requires Valid()
      modifies this, stack
      ensures Valid() && Now() == StepNull(old(Now()))
    {
      hide FixupKey, AppendRegular;
      Fixup();
      AppendIfRegular(Null);
    }

    method ReadBoolean(b: bool)
      requires Valid()
      modifies this, stack
      ensures Valid() && Now() == StepBoolean(old(Now()), b)
    {
      hide FixupKey, AppendRegular;
      Fixup();
      if !(read == InBsonType && sought == SeekUndefined) {
        AppendIfRegular(Bool(b));
      }
    }

    method ReadDouble(bits: int)
      requires Valid()
      modifies this, stack
      ensures Valid() && Now() == StepFloat(old(Now()), bits)
    {
      hide FixupKey, AppendRegular;
      Fixup();
      AppendIfRegular(Double(bits));
    }

    method ReadInteger(m: nat, sign: int)
      requires Valid() && (sign == 1 || sign == -1)
      modifies this, stack
      ensures Valid() && Now() == StepInteger(old(Now()), m, sign)
    {
      hide FixupKey, AppendRegular;
      Fixup();
      if (sign == 1 && m > INT64_MAX) || (sign == -1 && m > INT64_MAX + 1) {
        SetError();
        return;
      }
      if read == Regular {
        if m <= INT_MAX || (sign == -1 && m <= INT_MAX + 1) {
          AppendIfRegular(Int32(sign * m));
        } else {
          AppendIfRegular(Int64(sign * m));
        }
      } else if read == InBsonType || read == TimestampValues {
        match sought
        case SeekDate => collected := collected.(date := sign * m);
        case SeekT => if sign == -1 { SetError(); } else { collected := collected.(hasT := true, t := m % TWO_32); }
        case SeekI => if sign == -1 { SetError(); } else { collected := collected.(hasI := true, i := m % TWO_32); }
        case SeekMinKey => if sign == -1 || m != 1 { SetError(); }
        case SeekMaxKey => if sign == -1 || m != 1 { SetError(); }
        case _ => SetError();
      } else {
        SetError();
      }
    }

    method ParseBase64(text: bytes)
      requires Valid() && sought == SeekBinary
      modifies this
      ensures Valid() && Now() == ParseBinary(old(Now()), text, conversions)
    {
      hide Base64.Decode, Base64.Strip;
      var data := Base64.Decode(Base64.Strip(text));
      if data == None {
        SetError();
      } else {
        buf0, collected := data.value, collected.(hasBinary := true);
      }
    }

    method ParseUuid(text: bytes)
      requires Valid() && sought == SeekUuid
      modifies this
      ensures Valid() && Now() == ParseBinary(old(Now()), text, conversions)
    {
      hide Base64.Decode, Base64.Strip;
      collected := collected.(hasBinary := true, hasSubtype := true, subtype := 4);
      var data := conversions.scanUuid(text);
      if data == None {
        SetError();
      } else {
        buf0 := data.value;
      }
    }

    method ParseSubtype(text: bytes)
      requires Valid() && sought == SeekType
      modifies this, stack
      ensures Valid() && Now() == ParseBinary(old(Now()), text, conversions)
    {
      hide AppendTo, Push, ScanSubtype, Ascii;
      collected := collected.(hasSubtype := true);
      var sub := ScanSubtype(text, conversions);
      if sub.Some? {
        collected := collected.(subtype := sub.value);
      } else if !collected.legacyBinary || collected.hasBinary {
        SetError();
      } else {
        read := Regular;
        var pushed := PushFrame(DocFrame, if key == None then [] else key.value);
        if pushed {
          Append(Ascii("$type"), Value.Utf8(text));
        }
      }
    }

    method ParseBinaryElement(text: bytes)
      requires Valid()
      modifies this, stack
      ensures Valid() && Now() == ParseBinary(old(Now()), text, conversions)
    {
      hide AppendTo, Push, ScanSubtype, Base64.Decode, Base64.Strip, Ascii, FromHex;
      if sought == SeekBinary {
        ParseBase64(text);
      } else if sought == SeekType {
        ParseSubtype(text);
      } else if sought == SeekUuid {
        ParseUuid(text);
      }
    }

    method ReadString(text: bytes)
      requires Valid()
      modifies this, stack
      ensures Valid() && Now() == StepText(old(Now()), text, conversions)
    {
      hide FixupKey, AppendRegular, TextInType, ParseBinary, Utf8.Utf8Valid, CString;
      var allowNull := !(read == RegexValues && (sought == SeekPattern || sought == SeekPatternOptions))
                       && !(read == InBsonType && (sought == SeekRegex || sought == SeekOptions));
      Fixup();
      if !Utf8.Utf8Valid(text, allowNull) {
        SetError();
      } else if read == Regular {
        AppendIfRegular(Value.Utf8(text));
      } else if read == ScopeStartMap || read == DbPointerStartMap {
        SetError();
      } else if read == BinaryValues {
        ParseBinaryElement(CString(text));
      } else if read == InBsonType || read == TimestampValues || read == RegexValues || read == DateNumberLong {
        ReadTypedString(text);
      } else {
        SetError();
      }
    }

    /** A text inside a type wrapper. */
    method ReadTypedString(text: bytes)
      requires Valid()
      modifies this, stack
      ensures Valid() && Now() == TextInType(old(Now()), text, conversions)
    {
      hide AppendTo, ParseBinary, NumberInType, FromHex, CString;
      match sought
      case SeekRegex =>
        collected := collected.(legacyRegex := true, hasPattern := true);
        buf0 := text;
      case SeekPattern =>
        collected := collected.(hasPattern := true);
        buf0 := text;
      case SeekOptions =>
        collected := collected.(legacyRegex := true, hasOptions := true);
        buf1 := text;
      case SeekPatternOptions =>
        collected := collected.(hasOptions := true);
        buf1 := text;
      case SeekOid =>
        if |text| != 24 {
          SetError();
        } else {
          collected := collected.(oid := FromHex(text));
        }
      case SeekBinary =>
        collected := collected.(legacyBinary := true);
        ParseBinaryElement(CString(text));
      case SeekType =>
        collected := collected.(legacyBinary := true);
        ParseBinaryElement(CString(text));
      case SeekUuid => ParseBinaryElement(CString(text));
      case SeekCode => code := code.(text := text);
      case SeekSymbol => Append(if key == None then [] else key.value, Symbol(text));
      case _ => ReadNumberString(text);
    }

    method ReadFractionString(text: bytes)
      requires Valid() && (sought == SeekDouble || sought == SeekDecimal)
      modifies this
      ensures Valid() && Now() == NumberInType(old(Now()), text, conversions)
    {
      hide ParseInt, CString;
      if sought == SeekDouble {
        var d := conversions.parseDouble(CString(text));
        if d == None { SetError(); } else { collected := collected.(double := d.value); }
      } else {
        var d := conversions.parseDecimal(CString(text));
        if d == None || read != InBsonType { SetError(); } else { collected := collected.(decimal := d.value); }
      }
    }

    method ReadIntegerString(text: bytes)
      requires Valid() && (sought == SeekInt32 || sought == SeekInt64)
      modifies this
      ensures Valid() && Now() == NumberInType(old(Now()), text, conversions)
    {
      hide ParseInt, CString;
      if sought == SeekInt32 {
        var i := ParseInt(text);
        if i == None || i.value < INT_MIN || i.value > INT_MAX || read != InBsonType {
          SetError();
        } else {
          collected := collected.(int32 := i.value);
        }
      } else {
        var i := ParseInt(text);
        if i == None {
          SetError();
        } else if read == InBsonType {
          collected := collected.(int64 := i.value);
        } else if read == DateNumberLong {
          collected := collected.(date := i.value);
        } else {
          SetError();
        }
      }
    }

    /** The texts that are numbers or dates. */
    method ReadNumberString(text: bytes)
      requires Valid()
      modifies this
      ensures Valid() && Now() == NumberInType(old(Now()), text, conversions)
    {
      hide ParseInt, CString;
      if sought == SeekInt32 || sought == SeekInt64 {
        ReadIntegerString(text);
      } else if sought == SeekDouble || sought == SeekDecimal {
        ReadFractionString(text);
      } else if sought == SeekDate {
        var d := conversions.parseDate(text);
        if d == None { failed := true; } else { collected := collected.(date := d.value); }
      } else {
        SetError();
      }
    }

    method ReadStartMap()
      requires Valid()
      modifies this, stack
      ensures Valid() && Now() == StepStartMap(old(Now()))
    {
      hide FixupKey, Push, Ascii;
      Fixup();
      if read == InBsonType {
        if sought == SeekDate {
          read := DateNumberLong;
        } else if sought == SeekBinary {
          read := BinaryValues;
        } else if sought == SeekType {
          read := InStartMap;
          var pushed := PushFrame(DocFrame, if key == None then [] else key.value);
          if pushed {
            key := Some(Ascii("$type"));
          }
        } else {
          SetError();
        }
      } else if read == TimestampStartMap {
        read := TimestampValues;
      } else if read == ScopeStartMap {
        read := InScope;
      } else if read == DbPointerStartMap {
        read := InDbPointer;
      } else if read == RegexStartMap {
        read := RegexValues;
      } else {
        read := InStartMap;
      }
    }

    method ReadCodeOrScopeKey(isScope: bool, k: bytes)
      requires Valid()
      modifies this, stack
      ensures Valid() && Now() == CodeOrScopeKey(old(Now()), isScope, k)
    {
      hide Push;
      if code.inScope {
        read := Regular;
        var pushed := PushFrame(DocFrame, if key == None then [] else key.value);
        if pushed {
          key := Some(k);
        }
      } else {
        if code.key == [] {
          code := code.(key := if key == None then [] else key.value);
        }
        if isScope {
          wrapper, read, sought := CodeWScopeType, ScopeStartMap, SeekScope;
          code := code.(hasScope := true);
        } else {
          wrapper, sought := CodeType, SeekCode;
          code := code.(hasCode := true);
        }
      }
    }

    /** HANDLE_OPTION: a key that announces a type must agree with the keys before it. */
    method HandleOption(w: Wrapper, what: Sought) returns (ok: bool)
      requires Valid()
      modifies this
      ensures Valid() && Now() == Announce(old(Now()), w, what)
      ensures ok == !(old(wrapper) != NoType && old(wrapper) != w)
    {
      if wrapper != NoType && wrapper != w {
        SetError();
        return false;
      }
      wrapper, sought := w, what;
      return true;
    }

    method ReadTypeKey(k: bytes)
      requires Valid() && !failed
      modifies this, stack
      ensures Valid() && Now() == TypeKey(old(Now()), k)
    {
      hide SpecialKey, CodeOrScopeKey;
      var ok;
      match SpecialKey(k)
      case KRegex => ok := HandleOption(RegexType, SeekRegex);
      case KOptions => ok := HandleOption(RegexType, SeekOptions);
      case KOid => ok := HandleOption(OidType, SeekOid);
      case KBinary => ok := HandleOption(BinaryType, SeekBinary);
      case KType => ok := HandleOption(BinaryType, SeekType);
      case KUuid => ok := HandleOption(BinaryType, SeekUuid);
      case KDate => ok := HandleOption(DateType, SeekDate);
      case KUndefined => ok := HandleOption(UndefinedType, SeekUndefined);
      case KMinKey => ok := HandleOption(MinKeyType, SeekMinKey);
      case KMaxKey => ok := HandleOption(MaxKeyType, SeekMaxKey);
      case KNumberInt => ok := HandleOption(Int32Type, SeekInt32);
      case KNumberLong => ok := HandleOption(Int64Type, SeekInt64);
      case KNumberDouble => ok := HandleOption(DoubleType, SeekDouble);
      case KSymbol => ok := HandleOption(SymbolType, SeekSymbol);
      case KNumberDecimal => ok := HandleOption(DecimalType, SeekDecimal);
      case KTimestamp =>
        ok := HandleOption(TimestampType, sought);
        if ok { read := TimestampStartMap; }
      case KRegularExpression =>
        ok := HandleOption(RegexType, sought);
        if ok { read := RegexStartMap; }
      case KDbPointer =>
        ok := HandleOption(DbPointerType, sought);
        if ok { read, dbPointerKey := DbPointerStartMap, if key == None then [] else key.value; }
      case KCode =>
        if wrapper == NoType || wrapper == CodeType || wrapper == CodeWScopeType {
          ReadCodeOrScopeKey(false, k);
        } else {
          SetError();
        }
      case KScope =>
        if wrapper == NoType || wrapper == CodeType || wrapper == CodeWScopeType {
          ReadCodeOrScopeKey(true, k);
        } else {
          SetError();
        }
      case Ordinary => SetError();
    }

    /** What the first key of a map makes of it; false when the stack is full. */
    method MaterializeMap(k: bytes) returns (ok: bool)
      requires Valid()
      modifies this, stack
      ensures Valid() && ok == Materialize(old(Now()), k).Some?
      ensures Now() == if ok then Materialize(old(Now()), k).value else old(Now()).(read := Regular)
    {
      hide SpecialKey, Push;
      if read == InStartMap {
        ok := MaterializeDocument(k);
      } else if read == InScope {
        ok := MaterializeScope(k);
      } else if read == InDbPointer {
        ok := MaterializeDbPointer(k);
      } else {
        ok := true;
      }
    }

    method MaterializeDocument(k: bytes) returns (ok: bool)
      requires Valid() && read == InStartMap
      modifies this, stack
      ensures Valid() && ok == Materialize(old(Now()), k).Some?
      ensures Now() == if ok then Materialize(old(Now()), k).value else old(Now()).(read := Regular)
    {
      hide SpecialKey, Push;
      if SpecialKey(k) != Ordinary && n >= 0 {
        read, wrapper, collected := InBsonType, NoType, NOTHING_COLLECTED;
        return true;
      }
      read := Regular;
      ok := PushFrame(DocFrame, if key == None then [] else key.value);
    }

    method MaterializeDbPointer(k: bytes) returns (ok: bool)
      requires Valid() && read == InDbPointer
      modifies this, stack
      ensures Valid() && ok == Materialize(old(Now()), k).Some?
      ensures Now() == if ok then Materialize(old(Now()), k).value else old(Now()).(read := Regular)
    {
      hide SpecialKey, Push;
      read := Regular;
      ok := PushFrame(DbPointerFrame, []);
      if ok { key := Some(k); }
    }

    /** STACK_PUSH_SCOPE and the key that called for it. */
    method MaterializeScope(k: bytes) returns (ok: bool)
      requires Valid() && read == InScope
      modifies this, stack
      ensures Valid() && ok == Materialize(old(Now()), k).Some?
      ensures Now() == if ok then Materialize(old(Now()), k).value else old(Now()).(read := Regular)
    {
      hide SpecialKey, Push;
      ghost var s := Now();
      read := Regular;
      PushWithCode(Now(), ScopeFrame, [], code.(inScope := true));
      ok := PushFrame(ScopeFrame, []);
      if ok {
        code := code.(inScope := true);
        key := Some(k);
      }
    }

    method ReadMapKey(k: bytes)
      requires Valid() && !failed
      modifies this, stack
      ensures Valid() && Now() == StepKey(old(Now()), k)
    {
      hide Materialize, ResolvedKey, Utf8.Utf8Valid;
      if !Utf8.Utf8Valid(k, false) {
        SetError();
        return;
      }
      var ok := MaterializeMap(k);
      if !ok {
        return;
      }
      MaterializedFails(old(Now()), k);
      ReadResolvedKey(k);
    }

    method ReadResolvedKey(k: bytes)
      requires Valid() && !failed
      modifies this, stack
      ensures Valid() && Now() == ResolvedKey(old(Now()), k)
    {
      hide SpecialKey, TypeKey, Ascii;
      var ok;
      if read == InBsonType {
        ReadTypeKey(k);
      } else if read == DateNumberLong {
        if SpecialKey(k) == KNumberLong { ok := HandleOption(DateType, SeekInt64); } else { SetError(); }
      } else if read == TimestampValues {
        if k == Ascii("t") {
          ok := HandleOption(TimestampType, SeekT);
        } else if k == Ascii("i") {
          ok := HandleOption(TimestampType, SeekI);
        } else {
          SetError();
        }
      } else if read == RegexValues {
        if k == Ascii("pattern") {
          ok := HandleOption(RegexType, SeekPattern);
        } else if k == Ascii("options") {
          ok := HandleOption(RegexType, SeekPatternOptions);
        } else {
          SetError();
        }
      } else if read == BinaryValues {
        if k == Ascii("base64") {
          ok := HandleOption(BinaryType, SeekBinary);
        } else if k == Ascii("subType") {
          ok := HandleOption(BinaryType, SeekType);
        } else {
          SetError();
        }
      } else {
        key := Some(k);
      }
    }

    // -------------------------------------------------------------------------------------------------------
    // The end of a map
    // -------------------------------------------------------------------------------------------------------

    method ReadAppendBinary()
      requires Valid()
      modifies this, stack
      ensures Valid() && Now() == AppendBinary(old(Now()))
    {
      hide AppendTo;
      if !collected.hasBinary || !collected.hasSubtype {
        SetError();
      } else {
        Append(if key == None then [] else key.value, Binary(collected.subtype, buf0));
      }
    }

    method ReadAppendRegex()
      requires Valid()
      modifies this, stack
      ensures Valid() && Now() == AppendRegex(old(Now()))
    {
      hide AppendTo, CString, SelectedChars;
      if collected.legacyRegex {
        if !collected.hasPattern {
          SetError();
          return;
        }
      } else if !collected.hasPattern || !collected.hasOptions {
        SetError();
        return;
      }
      var options := SelectedChars(REGEX_OPTIONS_SORTED, CString(buf1));
      Append(if key == None then [] else key.value, Regex(CString(buf0), options));
    }

    method ReadAppendCode()
      requires Valid() && !code.inScope
      modifies this, stack
      ensures Valid() && Now() == AppendCode(old(Now()))
    {
      hide AppendTo, CString;
      if !code.hasCode {
        SetError();
        return;
      }
      var js := CString(code.text);
      ghost var v := if code.hasScope then CodeWithScope(js, 0, Popped(Now())) else Code(js);
      AppendKeepsCode(Now(), code.key, v);
      if code.hasScope {
        Append(code.key, CodeWithScope(js, 0, if n + 1 < STACK_MAX then stack[n + 1].doc else Nil));
      } else {
        Append(code.key, Code(js));
      }
      code := code.(key := [], hasCode := false, hasScope := false);
    }

    /** Goes through the elements collected for a DBPointer; stops at one that does not belong there. */
    method ReadAppendDbPointer()
      requires Valid()
      modifies this, stack
      ensures Valid() && Now() == AppendDbPointer(old(Now()))
    {
      hide AppendTo, CString, Ascii;
      var d := if n + 1 < STACK_MAX then stack[n + 1].doc else Nil;
      var ns: Option<bytes>, oid: Option<bytes> := None, None;
      while d.Cons?
        invariant DbPointerParts(d, ns, oid) == DbPointerParts(Popped(old(Now())), None, None)
        decreases d
      {
        if d.key == Ascii("$id") {
          if !d.value.Oid? {
            SetError();
            return;
          }
          oid := Some(d.value.oid);
        } else if d.key == Ascii("$ref") {
          if !d.value.Utf8? {
            SetError();
            return;
          }
          ns := Some(d.value.text);
        } else {
          SetError();
          return;
        }
        d := d.rest;
      }
      if ns == None || oid == None {
        SetError();
        return;
      }
      Append(dbPointerKey, DbPointer(CString(ns.value), oid.value));
    }

    method ReadAppendTimestamp()
      requires Valid()
      modifies this, stack
      ensures Valid() && Now() == AppendTimestamp(old(Now()))
    {
      hide AppendTo;
      if !collected.hasT || !collected.hasI {
        SetError();
      } else {
        Append(if key == None then [] else key.value, Timestamp(collected.t, collected.i));
      }
    }

    /** The value of a type wrapper whose map has ended. */
    method ReadAppendWrapped()
      requires Valid() && (wrapper == CodeType || wrapper == CodeWScopeType ==> !code.inScope)
      modifies this, stack
      ensures Valid() && Now() == AppendWrapped(old(Now()))
    {
      hide AppendTo, AppendCode, AppendRegex, AppendBinary;
      var k := if key == None then [] else key.value;
      match wrapper
      case RegexType => ReadAppendRegex();
      case CodeType => ReadAppendCode();
      case CodeWScopeType => ReadAppendCode();
      case OidType => Append(k, Oid(collected.oid));
      case BinaryType => ReadAppendBinary();
      case DateType => Append(k, DateTime(collected.date));
      case UndefinedType => Append(k, Undefined);
      case MinKeyType => Append(k, MinKey);
      case MaxKeyType => Append(k, MaxKey);
      case Int32Type => Append(k, Int32(collected.int32));
      case Int64Type => Append(k, Int64(collected.int64));
      case DoubleType => Append(k, Double(collected.double));
      case DecimalType => Append(k, Decimal128(collected.decimal.0, collected.decimal.1));
      case SymbolType =>
      case _ => SetError();
    }

    method EndFrame()
      requires Valid()
      modifies this, stack
      ensures Valid() && Now() == EndContainer(old(Now()))
    {
      hide Pop;
      if n < 0 || stack[n].kind == ArrayFrame {
        return;
      }
      PopKeeps(Now());
      if stack[n].kind == ScopeFrame {
        PopFrame();
        read, wrapper := InBsonType, CodeType;
        code := code.(inScope := false);
      } else if stack[n].kind == DbPointerFrame {
        PopFrame();
        read := DbPointerStartMap;
      } else {
        PopFrame();
        if n == -1 { read := Done; }
      }
    }

    method EndScopeStart()
      requires Valid() && read == ScopeStartMap
      modifies this, stack
      ensures Valid() && Now() == StepEndMap(old(Now()))
    {
      hide Pop, Push, AppendDbPointer, AppendWrapped, AppendTimestamp, AppendRegex, AppendBinary, EndContainer, AppendTo;
      read := Regular;
      PushWithCode(Now(), ScopeFrame, [], code.(inScope := true));
      var pushed := PushFrame(ScopeFrame, []);
      if pushed {
        code := code.(inScope := true);
        EndFrame();
      }
    }

    /** The scope of a code value may be empty. */
    method EndEmptyScope()
      requires Valid() && read == InScope && CodeOutsideScope(Now())
      modifies this, stack
      ensures Valid() && Now() == StepEndMap(old(Now()))
    {
      assert code.hasScope;
      hide Pop, Push, AppendDbPointer, AppendWrapped, AppendTimestamp, AppendRegex, AppendBinary, EndContainer, AppendTo;
      PushWithCode(Now(), ScopeFrame, [], code);
      var pushed := PushFrame(ScopeFrame, []);
      if pushed {
        PopKeeps(Now());
        PopFrame();
        code := code.(inScope := false);
        read, wrapper := InBsonType, CodeType;
      }
    }

    /** The end of a type wrapper or of the map inside one. */
    method EndWrapper()
      requires Valid() && CodeOutsideScope(Now())
      requires read != InStartMap && read != ScopeStartMap && read != DbPointerStartMap && read != Regular && read != InScope
      modifies this, stack
      ensures Valid() && Now() == StepEndMap(old(Now()))
    {
      hide Pop, Push, AppendDbPointer, AppendWrapped, AppendTimestamp, AppendRegex, AppendBinary, EndContainer, AppendTo;
      if read == InBsonType || read == TimestampValues || read == RegexValues || read == BinaryValues || read == DateNumberLong {
        if key == None {
          SetError();
        } else if read == InBsonType {
          read := Regular;
          ReadAppendWrapped();
        } else if read == TimestampValues {
          read := TimestampEndMap;
          ReadAppendTimestamp();
        } else if read == RegexValues {
          read := RegexEndMap;
          ReadAppendRegex();
        } else if read == BinaryValues {
          read := BinaryEndMap;
          ReadAppendBinary();
        } else {
          read := DateEndMap;
          Append(key.value, DateTime(collected.date));
        }
      } else if read == TimestampEndMap || read == RegexEndMap || read == BinaryEndMap || read == DateEndMap {
        read := Regular;
      } else {
        SetError();
      }
    }

    method ReadEndMap()
      requires Valid() && CodeOutsideScope(Now())
      modifies this, stack
      ensures Valid() && Now() == StepEndMap(old(Now()))
    {
      hide Pop, Push, AppendDbPointer, AppendWrapped, AppendTimestamp, AppendRegex, AppendBinary, EndContainer, AppendTo;
      if read == InStartMap {
        read := Regular;
        var pushed := PushFrame(DocFrame, if key == None then [] else key.value);
        if pushed { EndFrame(); }
      } else if read == ScopeStartMap {
        EndScopeStart();
      } else if read == DbPointerStartMap {
        ReadAppendDbPointer();
        read := Regular;
      } else if read == Regular {
        EndFrame();
      } else if read == InScope {
        EndEmptyScope();
      } else {
        EndWrapper();
      }
    }

    method ReadStartArray()
      requires Valid()
      modifies this, stack
      ensures Valid() && Now() == StepStartArray(old(Now()))
    {
      hide Push, FixupKey;
      if read != Regular {
        SetError();
        return;
      }
      if n != -1 {
        Fixup();
      }
      var pushed := PushFrame(ArrayFrame, if key == None then [] else key.value);
    }

    method ReadEndArray()
      requires Valid()
      modifies this, stack
      ensures Valid() && Now() == StepEndArray(old(Now()))
    {
      hide Pop;
      if read != Regular {
        SetError();
        return;
      }
      if n < 0 || stack[n].kind != ArrayFrame {
        return;
      }
      PopKeeps(Now());
      PopFrame();
      if n == -1 {
        read := Done;
      }
    }

    /** The tokenizer's push and pop callbacks. */
    method Deliver(e: Event)
      requires Valid() && !failed && CodeOutsideScope(Now())
      requires e.Integer? ==> e.sign == 1 || e.sign == -1
      modifies this, stack
      ensures Valid() && Now() == Step(old(Now()), e, conversions)
    {
      hide StepNull, StepBoolean, StepInteger, StepFloat, StepText, StepStartMap, StepKey, StepEndMap, StepStartArray,
        StepEndArray;
      match e
      case StartMap => ReadStartMap();
      case EndMap => ReadEndMap();
      case StartArray => ReadStartArray();
      case EndArray => ReadEndArray();
      case Key(k) => ReadMapKey(k);
      case Text(text) => ReadString(text);
      case Integer(m, sign) => ReadInteger(m, sign);
      case Float(bits) => ReadDouble(bits);
      case Boolean(b) => ReadBoolean(b);
      case Nothing => ReadNull();
    }

    /** Feeds the tokenizer: a failure stops it. */
    method Feed(events: seq<Event>)
      requires Valid() && CodeOutsideScope(Now())
      requires forall e <- events :: e.Integer? ==> e.sign == 1 || e.sign == -1
      modifies this, stack
      ensures Valid() && CodeOutsideScope(Now()) && Now() == Run(old(Now()), events, conversions)
    {
      hide Step, CodeOutsideScope;
      var i := 0;
      assert events[..0] == [];
      while i < |events| && !failed
        invariant 0 <= i <= |events| && Valid() && CodeOutsideScope(Now())
        invariant Run(Now(), events[i..], conversions) == Run(old(Now()), events, conversions)
      {
        CodeStaysOutside(Now(), events[i], conversions);
        assert events[i..][0] == events[i] && events[i..][1..] == events[i + 1..];
        Deliver(events[i]);
        i := i + 1;
      }
    }
  }

  /** bson_json_reader_read on one document: true when it has been read to its end. */
  method ReadJson(conversions: Conversions, target: Doc, events: seq<Event>) returns (ok: bool, d: Doc)
    requires forall e <- events :: e.Integer? ==> e.sign == 1 || e.sign == -1
    ensures var t := Run(Initialized(target), events, conversions);
            ok == (!t.failed && t.read == Done) && d == t.stack[0].doc
  {
    hide Run, Initialized;
    var reader := new Reader(conversions, target);
    StartOutsideScope(target);
    reader.Feed(events);
    ok := !reader.failed && reader.read == Done;
    d := reader.stack[0].doc;
  }

  lemma StartOutsideScope(target: Doc)
    ensures CodeOutsideScope(Initialized(target))
  {
  }

  lemma AppendKeepsCode(s: Machine, k: bytes, v: Value)
    ensures AppendTo(s, k, v).code == s.code
  {
  }

  lemma PopKeeps(s: Machine)
    requires s.n >= 0
    ensures Pop(s).code == s.code && Pop(s).n == s.n - 1
  {
  }

  lemma PushWithCode(s: Machine, kind: FrameKind, k: bytes, code: CodeData)
    ensures CanPush(s.(code := code)) == CanPush(s)
    ensures CanPush(s) ==> Push(s.(code := code), kind, k) == Push(s, kind, k).(code := code)
    ensures CanPush(s) ==> Push(s, kind, k).code == s.code && Push(s, kind, k).n == s.n + 1
  {
  }

  lemma MaterializedFails(s: Machine, k: bytes)
    requires Materialize(s, k).Some?
    ensures Materialize(s, k).value.failed == s.failed
  {
    hide SpecialKey;
  }

  lemma {:induction false} EmptyAt(m: nat)
    ensures forall i :: 0 <= i < m ==> EmptyFrames(m)[i] == EMPTY_FRAME
  {
    if m > 0 { EmptyAt(m - 1); }
  }
}
