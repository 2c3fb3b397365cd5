/** Reading whole documents with the iterator, and what that reading has to do with the encoding. */
module BsonDecode {
  import opened CInt
  import opened LittleEndian
  import opened BsonTree
  import opened BsonIter

  /** bson_init_static: the buffer can be taken as a document. */
  predicate InitStatic(raw: bytes) {
    5 <= |raw| <= MAX_SIZE && Read32(raw, 0) == |raw| && raw[|raw| - 1] == 0
  }

  /** The value the accessors read for an element, except that sub-documents are given separately. */
  function FlatValue(raw: bytes, off: nat, t: byte, o: nat, at: Location): Option<Value>
    requires at.At? && 6 <= o <= at.next < |raw| <= MAX_SIZE && Locate(raw, off, o, t) == at
  {
    if t == 0x01 then Some(Double(Read64(raw, o)))
    else if t == 0x02 then Some(Utf8(raw[o + 4..o + 4 + Read32(raw, o) - 1]))
    else if t == 0x05 then Some(BinaryAt(raw, o))
    else if t == 0x06 then Some(Undefined)
    else if t == 0x07 then Some(Oid(raw[o..o + 12]))
    else if t == 0x08 then Some(Bool(raw[o] == 1))
    else if t == 0x09 then Some(DateTime(Signed64(Read64(raw, o))))
    else if t == 0x0A then Some(Null)
    else if t == 0x0B then Some(Regex(raw[o..at.d2 - 1], raw[at.d2..at.next - 1]))
    else if t == 0x0C then Some(DbPointer(raw[o + 4..at.d3 - 1], raw[at.d3..at.next]))
    else if t == 0x0D then Some(Code(raw[o + 4..o + 4 + Read32(raw, o) - 1]))
    else if t == 0x0E then Some(Symbol(raw[o + 4..o + 4 + Read32(raw, o) - 1]))
    else if t == 0x10 then Some(Int32(Signed32(Read32(raw, o))))
    else if t == 0x11 then Some(Timestamp(Read32(raw, o + 4), Read32(raw, o)))
    else if t == 0x12 then Some(Int64(Signed64(Read64(raw, o))))
    else if t == 0x13 then Some(Decimal128(Read64(raw, o), Read64(raw, o + 8)))
    else if t == 0x7F then Some(MaxKey)
    else if t == 0xFF then Some(MinKey)
    else None
  }

  /** bson_iter_binary: the deprecated subtype carries a second length before its bytes. */
  function BinaryAt(raw: bytes, o: nat): Value
    requires 6 <= o <= |raw| <= MAX_SIZE && LocateBinary(raw, o).At? && LocateBinary(raw, o).next <= |raw|
  {
    var l := Read32(raw, o);
    if raw[o + 4] == SUBTYPE_BINARY_DEPRECATED then Binary(raw[o + 4], raw[o + 9..o + 5 + l])
    else Binary(raw[o + 4], raw[o + 5..o + 5 + l])
  }

  /** The bytes x stand at offset o. */
  ghost predicate Holds(raw: bytes, o: nat, x: bytes) {
    o + |x| <= |raw| && raw[o..o + |x|] == x
  }

  lemma HoldsSplit(raw: bytes, o: nat, x: bytes, y: bytes)
    ensures Holds(raw, o, x + y) <==> Holds(raw, o, x) && Holds(raw, o + |x|, y)
  {
    if o + |x + y| <= |raw| {
      var s := raw[o..o + |x + y|];
      assert s == raw[o..o + |x|] + raw[o + |x|..o + |x| + |y|];
      if s == x + y {
        assert raw[o..o + |x|] == s[..|x|] == x;
        assert raw[o + |x|..o + |x| + |y|] == s[|x|..] == y;
      }
    }
  }

  lemma HoldsByte(raw: bytes, o: nat, b: byte)
    ensures Holds(raw, o, [b]) <==> o < |raw| && raw[o] == b
  {
    if o < |raw| { assert raw[o..o + 1] == [raw[o]]; }
  }

  lemma HoldsSlice(raw: bytes, o: nat, x: bytes, e: nat)
    requires o <= e <= |raw|
    ensures raw[o..e] == x <==> Holds(raw, o, x) && e == o + |x|
  {
  }

  /** A located string is exactly a length, that many bytes less one, and a NUL. */
  lemma StringIff(raw: bytes, o: nat, s: bytes)
    requires o <= |raw| <= MAX_SIZE
    ensures var at := LocateString(raw, o);
            (at.At? && raw[o + 4..o + 4 + Read32(raw, o) - 1] == s)
            <==> Holds(raw, o, EncodeString(s)) && o + |EncodeString(s)| < |raw|
    ensures var at := LocateString(raw, o); at.At? ==> at.next == o + 4 + Read32(raw, o)
  {
    hide LE32, Read32;
    HoldsSplit(raw, o, LE32(|s| + 1) + s, [0]);
    HoldsSplit(raw, o, LE32(|s| + 1), s);
    HoldsByte(raw, o + 4 + |s|, 0);
    if o + 4 < |raw| && |s| + 1 < TWO_32 {
      Read32Iff(raw, o, |s| + 1);
      if LocateString(raw, o).At? {
        HoldsSlice(raw, o + 4, s, o + 4 + Read32(raw, o) - 1);
      }
    }
  }

  lemma BinaryIff(raw: bytes, o: nat, sub: byte, data: bytes)
    requires 6 <= o <= |raw| <= MAX_SIZE
    ensures var at := LocateBinary(raw, o);
            var e := EncodeValue(Binary(sub, data));
            && ((at.At? && at.next < |raw| && BinaryAt(raw, o) == Binary(sub, data))
                <==> Holds(raw, o, e) && o + |e| < |raw|)
            && (at.At? && at.next < |raw| && BinaryAt(raw, o) == Binary(sub, data) ==> at.next == o + |e|)
  {
    hide LE32, Read32, EncodeValue;
    var deprecated := sub == SUBTYPE_BINARY_DEPRECATED;
    var body := if deprecated then LE32(|data|) + data else data;
    var head := LE32(|body|) + [sub];
    assert EncodeValue(Binary(sub, data)) == head + body by { BinaryEncoding(sub, data); }
    HoldsSplit(raw, o, head, body);
    HoldsSplit(raw, o, LE32(|body|), [sub]);
    HoldsByte(raw, o + 4, sub);
    HoldsSplit(raw, o + 5, LE32(|data|), data);
    if o + 5 <= |raw| && |body| <= MAX_SIZE {
      Read32Iff(raw, o, |body|);
      var l := Read32(raw, o);
      if o + 5 + l < |raw| && raw[o + 4] == sub {
        if deprecated {
          if 4 <= l {
            DeprecatedLength(raw, o, |data|);
            HoldsSlice(raw, o + 9, data, o + 5 + l);
          }
        } else {
          HoldsSlice(raw, o + 5, data, o + 5 + l);
        }
      }
    }
  }

  lemma BinaryEncoding(sub: byte, data: bytes)
    ensures EncodeValue(Binary(sub, data))
         == if sub == SUBTYPE_BINARY_DEPRECATED
            then LE32(|LE32(|data|) + data|) + [sub] + (LE32(|data|) + data)
            else LE32(|data|) + [sub] + data
  {
  }

  lemma DeprecatedLength(raw: bytes, o: nat, n: nat)
    requires o + 9 <= |raw| <= MAX_SIZE && n <= MAX_SIZE
    ensures Signed32(Read32(raw, o + 5)) == n <==> Holds(raw, o + 5, LE32(n))
  {
    SignedIff32(raw, o + 5, n);
  }

  lemma {:induction false} FirstNulIff(raw: bytes, i: nat, s: bytes)
    requires i <= |raw|
    ensures FirstNul(raw, i) < |raw| && raw[i..FirstNul(raw, i)] == s <==> 0 !in s && Holds(raw, i, s + [0])
    ensures Holds(raw, i, s + [0]) && 0 !in s ==> FirstNul(raw, i) == i + |s|
  {
    HoldsSplit(raw, i, s, [0]);
    HoldsByte(raw, i + |s|, 0);
    var k := FirstNul(raw, i);
    if k < |raw| && raw[i..k] == s {
      forall j | 0 <= j < |s| ensures s[j] != 0 { assert s[j] == raw[i + j]; }
    }
    if 0 !in s && Holds(raw, i, s + [0]) {
      forall j | i <= j < i + |s| ensures raw[j] != 0 { assert raw[j] == raw[i..i + |s|][j - i] == s[j - i]; }
      assert k >= i + |s|;
      assert raw[i + |s|] == 0;
      assert k <= i + |s|;
    }
  }

  lemma RegexIff(raw: bytes, off: nat, o: nat, p: bytes, opts: bytes)
    requires o <= |raw| <= MAX_SIZE
    ensures var at := LocateRegex(raw, off, o);
            var e := EncodeValue(Regex(p, opts));
            && ((at.At? && at.next < |raw| && raw[o..at.d2 - 1] == p && raw[at.d2..at.next - 1] == opts)
                <==> WellFormed(Regex(p, opts)) && Holds(raw, o, e) && o + |e| < |raw|)
            && (at.At? ==> o + 1 <= at.d2 < at.next <= |raw|)
  {
    hide FirstNul;
    FirstNulIff(raw, o, p);
    HoldsSplit(raw, o, p + [0], opts + [0]);
    assert EncodeValue(Regex(p, opts)) == (p + [0]) + (opts + [0]);
    var k := FirstNul(raw, o);
    if k < |raw| {
      FirstNulIff(raw, k + 1, opts);
    }
  }

  lemma DbPointerSplit(raw: bytes, o: nat, c: bytes, id: bytes)
    ensures var l := |c| + 1;
            Holds(raw, o, EncodeString(c) + id)
            <==> Holds(raw, o, LE32(l)) && Holds(raw, o + 4, c) && o + 3 + l < |raw| && raw[o + 3 + l] == 0
                 && Holds(raw, o + 4 + l, id)
  {
    hide LE32, Holds;
    HoldsSplit(raw, o, EncodeString(c), id);
    HoldsSplit(raw, o, LE32(|c| + 1) + c, [0]);
    HoldsSplit(raw, o, LE32(|c| + 1), c);
    HoldsByte(raw, o + 4 + |c|, 0);
  }

  ghost predicate DbPointerRead(raw: bytes, o: nat, c: bytes, id: bytes)
    requires 6 <= o <= |raw|
  {
    var at := LocateDbPointer(raw, o);
    && at.At? && at.next < |raw|
    && raw[o + 4..at.d3 - 1] == c && raw[at.d3..at.next] == id
  }

  lemma DbPointerIff(raw: bytes, o: nat, c: bytes, id: bytes)
    requires 6 <= o <= |raw| <= MAX_SIZE
    ensures DbPointerRead(raw, o, c, id)
            <==> |id| == 12 && Holds(raw, o, EncodeString(c) + id) && o + |EncodeString(c) + id| < |raw|
  {
    hide LE32, Read32;
    DbPointerSplit(raw, o, c, id);
    if o + 4 < |raw| && |c| + 1 < TWO_32 {
      Read32Iff(raw, o, |c| + 1);
      if DbPointerRead(raw, o, c, id) {
        assert Read32(raw, o) == |c| + 1;
      }
    }
  }

  // ---------------------------------------------------------------------------------------------------------
  // Whole documents
  // ---------------------------------------------------------------------------------------------------------

  /** The value of an element, recursing into documents, arrays and scopes as the iterator's clients do. */
  function ValueAt(raw: bytes, off: nat, t: byte, o: nat, at: Location): (r: Option<Value>)
    requires at.At? && 6 <= o <= at.next < |raw| <= MAX_SIZE && Locate(raw, off, o, t) == at
    decreases |raw|, 0, 0
  {
    if t == 0x03 then
      var d := Decode(raw[o..at.next]);
      if d.Some? then Some(Document(d.value)) else None
    else if t == 0x04 then
      var d := Decode(raw[o..at.next]);
      if d.Some? then Some(Array(d.value)) else None
    else if t == 0x0F then
      var d := Decode(raw[at.d4..at.next]);
      if d.Some? then Some(CodeWithScope(raw[o + 8..at.d4 - 1], raw[at.d4 - 1], d.value)) else None
    else FlatValue(raw, off, t, o, at)
  }

  /** The elements from offset off to the end; None when the iterator stops with an error. */
  function DecodeFrom(raw: bytes, off: nat): Option<Doc>
    requires 4 <= off && |raw| <= MAX_SIZE
    decreases |raw|, 1, if off < |raw| then |raw| - off else 0
  {
    match MoveFrom(raw, off)
    case Stop(err) => if err == 0 then Some(Nil) else None
    case Element(t, key, o, at) =>
      var v := ValueAt(raw, off, t, o, at);
      if v.None? then None
      else
        var rest := DecodeFrom(raw, at.next);
        if rest.None? then None else Some(Cons(key, v.value, rest.value))
  }

  /** The tree read out of a buffer; None unless the buffer and every document inside it read without an error. */
  function Decode(raw: bytes): Option<Doc>
    decreases |raw|, 2, 0
  {
    if InitStatic(raw) then DecodeFrom(raw, 4) else None
  }

  /** A value of the tree is read at an offset exactly when its encoding stands there and ends before the last byte. */
  ghost predicate ValueSpec(raw: bytes, off: nat, o: nat, v: Value)
    requires 6 <= o <= |raw| <= MAX_SIZE
  {
    var at := Locate(raw, off, o, TypeByte(v));
    var e := EncodeValue(v);
    var found := at.At? && at.next < |raw| && ValueAt(raw, off, TypeByte(v), o, at) == Some(v);
    && (found <==> WellFormed(v) && Holds(raw, o, e) && o + |e| < |raw|)
    && (found ==> at.next == o + |e|)
  }

  lemma EightByteIff(raw: bytes, off: nat, o: nat, v: Value)
    requires 6 <= o <= |raw| <= MAX_SIZE && (v.Double? || v.DateTime? || v.Int64?)
    ensures ValueSpec(raw, off, o, v)
  {
    hide Decode, LocateString, LocateBinary, LocateDocument, LocateRegex, LocateDbPointer, LocateCodeWithScope,
         LE64, Read64;
    if o + 8 <= |raw| {
      match v {
        case Double(bits) => if 0 <= bits < TWO_64 { Read64Iff(raw, o, bits); }
        case DateTime(ms) => if INT64_MIN <= ms <= INT64_MAX { SignedIff64(raw, o, ms); }
        case Int64(i) => if INT64_MIN <= i <= INT64_MAX { SignedIff64(raw, o, i); }
      }
    }
  }

  lemma Int32Iff(raw: bytes, off: nat, o: nat, i: int)
    requires 6 <= o <= |raw| <= MAX_SIZE
    ensures ValueSpec(raw, off, o, Int32(i))
  {
    hide Decode, LocateString, LocateBinary, LocateDocument, LocateRegex, LocateDbPointer, LocateCodeWithScope,
         LE32, Read32;
    if o + 4 <= |raw| && INT_MIN <= i <= INT_MAX { SignedIff32(raw, o, i); }
  }

  lemma TimestampIff(raw: bytes, off: nat, o: nat, t: int, i: int)
    requires 6 <= o <= |raw| <= MAX_SIZE
    ensures ValueSpec(raw, off, o, Timestamp(t, i))
  {
    hide Decode, LocateString, LocateBinary, LocateDocument, LocateRegex, LocateDbPointer, LocateCodeWithScope,
         LE32, Read32;
    HoldsSplit(raw, o, LE32(i), LE32(t));
    if o + 8 <= |raw| && 0 <= i < TWO_32 && 0 <= t < TWO_32 {
      Read32Iff(raw, o, i);
      Read32Iff(raw, o + 4, t);
    }
  }

  lemma DecimalIff(raw: bytes, off: nat, o: nat, low: int, high: int)
    requires 6 <= o <= |raw| <= MAX_SIZE
    ensures ValueSpec(raw, off, o, Decimal128(low, high))
  {
    hide Decode, LocateString, LocateBinary, LocateDocument, LocateRegex, LocateDbPointer, LocateCodeWithScope,
         LE64, Read64;
    HoldsSplit(raw, o, LE64(low), LE64(high));
    if o + 16 <= |raw| && 0 <= low < TWO_64 && 0 <= high < TWO_64 {
      Read64Iff(raw, o, low);
      Read64Iff(raw, o + 8, high);
    }
  }

  lemma SmallIff(raw: bytes, off: nat, o: nat, v: Value)
    requires 6 <= o <= |raw| <= MAX_SIZE
    requires v.Undefined? || v.Oid? || v.Bool? || v.Null? || v.MaxKey? || v.MinKey?
    ensures ValueSpec(raw, off, o, v)
  {
    hide Decode, LocateString, LocateBinary, LocateDocument, LocateRegex, LocateDbPointer, LocateCodeWithScope;
    if v.Bool? { HoldsByte(raw, o, if v.b then 1 else 0); }
  }

  lemma StringValueIff(raw: bytes, off: nat, o: nat, v: Value)
    requires 6 <= o <= |raw| <= MAX_SIZE && (v.Utf8? || v.Code? || v.Symbol?)
    ensures ValueSpec(raw, off, o, v)
  {
    hide LocateString, LE32, Read32;
    var s := match v case Utf8(s) => s case Code(s) => s case Symbol(s) => s;
    StringIff(raw, o, s);
  }

  lemma DocIff(raw: bytes, o: nat, e: bytes)
    requires 6 <= o <= |raw| <= MAX_SIZE && InitStatic(e)
    ensures var at := LocateDocument(raw, o);
            && (at.At? && at.next < |raw| && raw[o..at.next] == e <==> Holds(raw, o, e) && o + |e| < |raw|)
            && (at.At? ==> at.next == o + Read32(raw, o) <= |raw|)
  {
    hide LE32, Read32;
    if Holds(raw, o, e) { SameHeader(raw, o, e); }
  }

  lemma SameHeader(raw: bytes, o: nat, e: bytes)
    requires Holds(raw, o, e) && 4 <= |e|
    ensures Read32(raw, o) == Read32(e, 0)
  {
    Read32Iff(e, 0, Read32(e, 0));
    Read32Iff(raw, o, Read32(e, 0));
    assert raw[o..o + 4] == raw[o..o + |e|][..4] == e[0..4];
  }

  /** The bytes of code with scope around the code, the byte after it, and the scope. */
  ghost function CodeBytes(js: bytes, end: byte, e: bytes): bytes {
    LE32(8 + |js| + 1 + |e|) + (LE32(|js| + 1) + js + [end]) + e
  }

  lemma CodeBytesSplit(raw: bytes, o: nat, js: bytes, end: byte, e: bytes)
    ensures var l2 := |js| + 1;
            Holds(raw, o, CodeBytes(js, end, e))
            <==> Holds(raw, o, LE32(8 + l2 + |e|)) && Holds(raw, o + 4, LE32(l2)) && Holds(raw, o + 8, js)
                 && o + 7 + l2 < |raw| && raw[o + 7 + l2] == end && Holds(raw, o + 8 + l2, e)
  {
    hide LE32, Holds;
    var l1, l2 := 8 + |js| + 1 + |e|, |js| + 1;
    var mid := LE32(l2) + js + [end];
    HoldsSplit(raw, o, LE32(l1) + mid, e);
    HoldsSplit(raw, o, LE32(l1), mid);
    HoldsSplit(raw, o + 4, LE32(l2) + js, [end]);
    HoldsSplit(raw, o + 4, LE32(l2), js);
    HoldsByte(raw, o + 8 + |js|, end);
  }

  /** The location found, and the code, the byte after it and the scope cut out there. */
  ghost predicate CodeRead(raw: bytes, o: nat, js: bytes, end: byte, e: bytes)
    requires o <= |raw|
  {
    var at := LocateCodeWithScope(raw, o);
    && at.At?
    && raw[o + 8..at.d4 - 1] == js && raw[at.d4 - 1] == end && raw[at.d4..at.next] == e
  }

  lemma CodeHeldIsRead(raw: bytes, o: nat, js: bytes, end: byte, e: bytes)
    requires 6 <= o <= |raw| <= MAX_SIZE && InitStatic(e)
    requires Holds(raw, o, CodeBytes(js, end, e)) && o + |CodeBytes(js, end, e)| < |raw|
    ensures CodeRead(raw, o, js, end, e)
  {
    hide LE32, Read32, CodeBytes;
    var l1, l2 := 8 + |js| + 1 + |e|, |js| + 1;
    CodeBytesSplit(raw, o, js, end, e);
    assert |CodeBytes(js, end, e)| == 4 + 4 + l2 + |e| == l1 by { CodeBytesLength(js, end, e); }
    Read32Iff(raw, o, l1);
    Read32Iff(raw, o + 4, l2);
    SameHeader(raw, o + 8 + l2, e);
    assert Read32(raw, o + 8 + l2) == |e|;
    assert o + 4 + 4 + l2 + |e| == o + l1 < TWO_32;
  }

  lemma CodeBytesLength(js: bytes, end: byte, e: bytes)
    ensures |CodeBytes(js, end, e)| == 8 + |js| + 1 + |e|
  {
  }

  /** The declared total length, checked modulo 2^32, still pins down where the scope ends. */
  lemma CodeWithScopeIff(raw: bytes, o: nat, js: bytes, end: byte, e: bytes)
    requires 6 <= o <= |raw| <= MAX_SIZE && InitStatic(e)
    ensures CodeRead(raw, o, js, end, e) <==> Holds(raw, o, CodeBytes(js, end, e)) && o + |CodeBytes(js, end, e)| < |raw|
    ensures CodeRead(raw, o, js, end, e) ==> LocateCodeWithScope(raw, o).next == o + |CodeBytes(js, end, e)|
  {
    hide LE32, Read32, CodeBytes;
    CodeBytesLength(js, end, e);
    if CodeRead(raw, o, js, end, e) {
      hide LocateCodeWithScope;
      CodeBytesSplit(raw, o, js, end, e);
      var at := LocateCodeWithScope(raw, o);
      Read32Iff(raw, o, Read32(raw, o));
      Read32Iff(raw, o + 4, Read32(raw, o + 4));
      HoldsSlice(raw, o + 8, js, at.d4 - 1);
      HoldsSlice(raw, at.d4, e, at.next);
    } else if Holds(raw, o, CodeBytes(js, end, e)) && o + |CodeBytes(js, end, e)| < |raw| {
      CodeHeldIsRead(raw, o, js, end, e);
    }
  }

  // ---------------------------------------------------------------------------------------------------------
  // Decoding is the inverse of encoding
  // ---------------------------------------------------------------------------------------------------------

  lemma {:induction false} ValueIff(raw: bytes, off: nat, o: nat, v: Value)
    requires 6 <= o <= |raw| <= MAX_SIZE
    ensures ValueSpec(raw, off, o, v)
    decreases v, 2
  {
    hide ValueSpec;
    match v {
      case Double(_) => EightByteIff(raw, off, o, v);
      case DateTime(_) => EightByteIff(raw, off, o, v);
      case Int64(_) => EightByteIff(raw, off, o, v);
      case Utf8(_) => StringValueIff(raw, off, o, v);
      case Code(_) => StringValueIff(raw, off, o, v);
      case Symbol(_) => StringValueIff(raw, off, o, v);
      case Int32(i) => Int32Iff(raw, off, o, i);
      case Timestamp(t, i) => TimestampIff(raw, off, o, t, i);
      case Decimal128(low, high) => DecimalIff(raw, off, o, low, high);
      case Binary(sub, data) => BinaryValueIff(raw, off, o, sub, data);
      case Regex(p, opts) => RegexValueIff(raw, off, o, p, opts);
      case DbPointer(c, id) => DbPointerValueIff(raw, off, o, c, id);
      case Document(d) => SubDocumentIff(raw, off, o, v, d);
      case Array(d) => SubDocumentIff(raw, off, o, v, d);
      case CodeWithScope(js, end, d) => ScopeIff(raw, off, o, js, end, d);
      case _ => SmallIff(raw, off, o, v);
    }
  }

  lemma BinaryValueIff(raw: bytes, off: nat, o: nat, sub: byte, data: bytes)
    requires 6 <= o <= |raw| <= MAX_SIZE
    ensures ValueSpec(raw, off, o, Binary(sub, data))
  {
    hide Decode, DecodeFrom, EncodeDoc, EncodeElements, WellFormedDoc, Holds, LE32, Read32, FirstNul, LocateString,
         LocateBinary, LocateDocument, LocateRegex, LocateDbPointer, LocateCodeWithScope;
    BinaryIff(raw, o, sub, data);
  }

  lemma RegexValueIff(raw: bytes, off: nat, o: nat, p: bytes, opts: bytes)
    requires 6 <= o <= |raw| <= MAX_SIZE
    ensures ValueSpec(raw, off, o, Regex(p, opts))
  {
    hide Decode, DecodeFrom, EncodeDoc, EncodeElements, WellFormedDoc, Holds, LE32, Read32, FirstNul, LocateString,
         LocateBinary, LocateDocument, LocateRegex, LocateDbPointer, LocateCodeWithScope;
    RegexIff(raw, off, o, p, opts);
  }

  lemma DbPointerValueIff(raw: bytes, off: nat, o: nat, c: bytes, id: bytes)
    requires 6 <= o <= |raw| <= MAX_SIZE
    ensures ValueSpec(raw, off, o, DbPointer(c, id))
  {
    hide Decode, DecodeFrom, EncodeDoc, EncodeElements, WellFormedDoc, Holds, LE32, Read32, FirstNul, LocateString,
         LocateBinary, LocateDocument, LocateRegex, LocateDbPointer, LocateCodeWithScope;
    DbPointerIff(raw, o, c, id);
  }

  lemma {:induction false} SubDocumentIff(raw: bytes, off: nat, o: nat, v: Value, d: Doc)
    requires 6 <= o <= |raw| <= MAX_SIZE && (v == Document(d) || v == Array(d))
    ensures ValueSpec(raw, off, o, v)
    decreases v, 1
  {
    hide Decode, DecodeFrom, EncodeDoc, EncodeElements, WellFormedDoc, Holds, LE32, Read32, FirstNul, LocateString,
         LocateBinary, LocateDocument, LocateRegex, LocateDbPointer, LocateCodeWithScope;
    var at := LocateDocument(raw, o);
    if at.At? && at.next < |raw| { DecodeIff(raw[o..at.next], d); }
    if |EncodeDoc(d)| <= MAX_SIZE {
      EncodedIsStatic(d);
      DocIff(raw, o, EncodeDoc(d));
    }
    HoldsFits(raw, o, EncodeDoc(d));
    assert WellFormed(v) == WellFormedDoc(d) && EncodeValue(v) == EncodeDoc(d);
  }

  lemma ScopeRead(raw: bytes, off: nat, o: nat, js: bytes, end: byte, d: Doc)
    requires 6 <= o <= |raw| <= MAX_SIZE
    ensures var at := LocateCodeWithScope(raw, o);
            var v := CodeWithScope(js, end, d);
            && Locate(raw, off, o, 0x0F) == at
            && (at.At? && ValueAt(raw, off, 0x0F, o, at) == Some(v)
                <==> at.At? && CodeRead(raw, o, js, end, raw[at.d4..at.next]) && Decode(raw[at.d4..at.next]) == Some(d))
  {
    hide Decode, Holds, LE32, Read32, LocateString, LocateBinary, LocateDocument, LocateRegex, LocateDbPointer,
         LocateCodeWithScope;
  }

  lemma {:induction false} ScopeIff(raw: bytes, off: nat, o: nat, js: bytes, end: byte, d: Doc)
    requires 6 <= o <= |raw| <= MAX_SIZE
    ensures ValueSpec(raw, off, o, CodeWithScope(js, end, d))
    decreases CodeWithScope(js, end, d), 1
  {
    var at := LocateCodeWithScope(raw, o);
    var e := EncodeDoc(d);
    if at.At? { DecodeIff(raw[at.d4..at.next], d); }
    ScopeRead(raw, off, o, js, end, d);
    CodeEncoding(js, end, d);
    CodeBytesLength(js, end, e);
    hide CodeBytes, EncodeValue, ValueAt, Locate, Decode, Holds, CodeRead, LocateCodeWithScope, EncodeDoc;
    if |e| <= MAX_SIZE {
      EncodedIsStatic(d);
      CodeWithScopeIff(raw, o, js, end, e);
      if CodeRead(raw, o, js, end, e) { CodeReadScope(raw, o, js, end, e); }
    }
  }

  lemma CodeEncoding(js: bytes, end: byte, d: Doc)
    ensures EncodeValue(CodeWithScope(js, end, d)) == CodeBytes(js, end, EncodeDoc(d))
  {
    hide LE32, EncodeDoc;
  }

  lemma CodeReadScope(raw: bytes, o: nat, js: bytes, end: byte, e: bytes)
    requires o <= |raw| && CodeRead(raw, o, js, end, e)
    ensures var at := LocateCodeWithScope(raw, o); at.At? && at.next < |raw| && raw[at.d4..at.next] == e
  {
  }

  lemma EncodedIsStatic(d: Doc)
    requires |EncodeDoc(d)| <= MAX_SIZE
    ensures InitStatic(EncodeDoc(d))
  {
    var e := EncodeDoc(d);
    Read32Iff(e, 0, |e|);
    assert e[0..4] == LE32(|e|);
  }

  ghost predicate EndsWith(raw: bytes, off: nat, e: bytes) {
    off <= |raw| && raw[off..] == e
  }

  lemma ElementSplit(raw: bytes, off: nat, key: bytes, v: Value, rest: Doc)
    requires off <= |raw|
    ensures var o := off + 2 + |key|;
            var next := o + |EncodeValue(v)|;
            EndsWith(raw, off, EncodeElements(Cons(key, v, rest)) + [0])
            <==> off < |raw| && raw[off] == TypeByte(v) && Holds(raw, off + 1, key + [0])
                 && Holds(raw, o, EncodeValue(v)) && next < |raw| && EndsWith(raw, next, EncodeElements(rest) + [0])
  {
    hide EncodeValue, EncodeElements, Holds;
    var t, ev, tail := [TypeByte(v)], EncodeValue(v), EncodeElements(rest) + [0];
    var e := EncodeElements(Cons(key, v, rest)) + [0];
    assert e == t + ((key + [0]) + (ev + tail)) by { ElementsUnfold(key, v, rest); }
    TailHolds(raw, off, e);
    HoldsSplit(raw, off, t, (key + [0]) + (ev + tail));
    HoldsByte(raw, off, TypeByte(v));
    HoldsSplit(raw, off + 1, key + [0], ev + tail);
    HoldsSplit(raw, off + 2 + |key|, ev, tail);
    var next := off + 2 + |key| + |ev|;
    if next <= |raw| { TailHolds(raw, next, tail); }
    HoldsFits(raw, next, tail);
  }

  lemma ElementsUnfold(key: bytes, v: Value, rest: Doc)
    ensures EncodeElements(Cons(key, v, rest)) == [TypeByte(v)] + key + [0] + EncodeValue(v) + EncodeElements(rest)
  {
  }

  lemma TailHolds(raw: bytes, off: nat, e: bytes)
    requires off <= |raw|
    ensures EndsWith(raw, off, e) <==> Holds(raw, off, e) && off + |e| == |raw|
  {
  }

  lemma HoldsFits(raw: bytes, off: nat, e: bytes)
    ensures Holds(raw, off, e) ==> off + |e| <= |raw|
  {
  }

  lemma NilIff(raw: bytes, off: nat)
    requires 4 <= off < |raw| <= MAX_SIZE && raw[|raw| - 1] == 0
    ensures DecodeFrom(raw, off) == Some(Nil) <==> WellFormedDoc(Nil) && EndsWith(raw, off, EncodeElements(Nil) + [0])
  {
    assert EncodeElements(Nil) + [0] == [0];
    hide Locate;
    assert FirstNul(raw, off + 1) >= |raw| <==> off == |raw| - 1;
    assert raw[off..] == [0] <==> off == |raw| - 1;
  }

  lemma ConsNeeds(raw: bytes, off: nat, key: bytes, v: Value, rest: Doc)
    requires 4 <= off < |raw| <= MAX_SIZE
    requires DecodeFrom(raw, off) == Some(Cons(key, v, rest))
    ensures var k := FirstNul(raw, off + 1); k < |raw| && raw[off + 1..k] == key && raw[off] == TypeByte(v)
  {
    hide FirstNul, Locate, TypeByte, ValueAt, Decode;
    match MoveFrom(raw, off)
    case Element(t, _, o, at) => ValueType(raw, off, t, o, at);
  }

  lemma ValueType(raw: bytes, off: nat, t: byte, o: nat, at: Location)
    requires at.At? && 6 <= o <= at.next < |raw| <= MAX_SIZE && Locate(raw, off, o, t) == at
    ensures ValueAt(raw, off, t, o, at).Some? ==> TypeByte(ValueAt(raw, off, t, o, at).value) == t
  {
    hide Decode, Locate, LE32, LE64, Read32, Read64;
  }

  /** From an offset on, the iterator reads the elements exactly when their encoding fills the rest of the buffer. */
  lemma {:induction false} ElementsIff(raw: bytes, off: nat, d: Doc)
    requires 4 <= off < |raw| <= MAX_SIZE && raw[|raw| - 1] == 0
    ensures DecodeFrom(raw, off) == Some(d) <==> WellFormedDoc(d) && EndsWith(raw, off, EncodeElements(d) + [0])
    decreases d, 0
  {
    hide DecodeFrom, FirstNul, Holds, EncodeValue, EncodeElements, TypeByte, ValueSpec, WellFormed, WellFormedDoc,
         EndsWith;
    match d {
      case Nil => NilIff(raw, off);
      case Cons(key, v, rest) =>
        WellFormedUnfold(key, v, rest);
        ElementSplit(raw, off, key, v, rest);
        FirstNulIff(raw, off + 1, key);
        var o := off + 2 + |key|;
        var next := o + |EncodeValue(v)|;
        var k := FirstNul(raw, off + 1);
        if DecodeFrom(raw, off) == Some(d) {
          ConsNeeds(raw, off, key, v, rest);
        }
        if k < |raw| && raw[off + 1..k] == key && raw[off] == TypeByte(v) {
          ValueIff(raw, off, o, v);
          if next < |raw| { ElementsIff(raw, next, rest); }
          ConsReads(raw, off, key, v, rest);
        }
    }
  }

  lemma WellFormedUnfold(key: bytes, v: Value, rest: Doc)
    ensures WellFormedDoc(Cons(key, v, rest)) <==> 0 !in key && WellFormed(v) && WellFormedDoc(rest)
  {
  }

  lemma ConsReads(raw: bytes, off: nat, key: bytes, v: Value, rest: Doc)
    requires 4 <= off < |raw| <= MAX_SIZE
    requires var k := FirstNul(raw, off + 1); k < |raw| && raw[off + 1..k] == key && raw[off] == TypeByte(v)
    requires off + 2 + |key| <= |raw| && ValueSpec(raw, off, off + 2 + |key|, v)
    ensures var o := off + 2 + |key|;
            var next := o + |EncodeValue(v)|;
            DecodeFrom(raw, off) == Some(Cons(key, v, rest))
            <==> WellFormed(v) && Holds(raw, o, EncodeValue(v)) && next < |raw| && DecodeFrom(raw, next) == Some(rest)
  {
    hide Holds, EncodeValue, Locate, FirstNul, WellFormed, ValueAt, Decode;
  }

  /** A buffer reads as a tree exactly when it is the encoding of that tree. */
  lemma {:induction false} DecodeIff(raw: bytes, d: Doc)
    ensures Decode(raw) == Some(d) <==> WellFormedDoc(d) && |raw| <= MAX_SIZE && raw == EncodeDoc(d)
    decreases d, 1
  {
    hide DecodeFrom, EncodeElements, WellFormedDoc, LE32, Read32, Holds;
    var e := EncodeElements(d);
    if 5 <= |raw| <= MAX_SIZE {
      TailHolds(raw, 0, LE32(|e| + 5) + (e + [0]));
      HoldsSplit(raw, 0, LE32(|e| + 5), e + [0]);
      TailHolds(raw, 4, e + [0]);
      assert EncodeDoc(d) == LE32(|e| + 5) + (e + [0]);
      Read32Iff(raw, 0, |raw|);
      if raw[|raw| - 1] == 0 { ElementsIff(raw, 4, d); }
      if raw[4..] == e + [0] { assert raw[|raw| - 1] == raw[4..][|e|]; }
    }
  }
}
