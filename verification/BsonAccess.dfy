/** The typed accessors: they read the fields the iterator set up, and give a default for an element of another type. */
module BsonAccess {
  import opened CInt
  import opened LittleEndian
  import opened BsonTree
  import opened BsonIter
  import opened BsonDecode

  /** The iterator stands on an element. */
  ghost predicate Standing(it: Iter)
    reads it
  {
    it.raw.Some? && 4 <= it.off && |it.raw.value| <= MAX_SIZE && it.On(it.raw.value, MoveFrom(it.raw.value, it.off))
  }

  /** What the moves of the iterator have checked: the parts of the value lie inside the buffer. */
  lemma PartsInside(raw: bytes, off: nat)
    requires 4 <= off && |raw| <= MAX_SIZE && MoveFrom(raw, off).Element?
    ensures var m := MoveFrom(raw, off);
            var (t, o, at) := (m.t, m.o, m.at);
            && off < |raw| && t == raw[off] && 6 <= o && at == Locate(raw, off, o, t) && at.next < |raw|
            && (t == 0x01 || t == 0x09 || t == 0x11 || t == 0x12 ==> o + 8 <= |raw|)
            && (t == 0x07 ==> o + 12 == at.next) && (t == 0x13 ==> o + 16 <= |raw|) && (t == 0x10 ==> o + 4 <= |raw|)
            && (t == 0x02 || t == 0x0D || t == 0x0E ==>
                  o + 4 < |raw| && at.d2 == o + 4 && 0 < Read32(raw, o) && o + 4 + Read32(raw, o) < |raw|)
            && (t == 0x05 ==> o + 4 < |raw| && at.d2 == o + 4 && at.d3 == o + 5 && at.next == o + 5 + Read32(raw, o)
                              && (raw[o + 4] == SUBTYPE_BINARY_DEPRECATED ==> Read32(raw, o) >= 4))
            && (t == 0x08 ==> o < |raw|)
            && (t == 0x0B ==> at.d2 == FirstNul(raw, o) + 1 <= |raw| && at.next == FirstNul(raw, at.d2) + 1)
            && (t == 0x0C ==> o + 4 < |raw| && at.d2 == o + 4 && at.d3 == o + 4 + Read32(raw, o) && at.next == at.d3 + 12
                              && 0 < Read32(raw, o))
  {
    hide MoveFrom, FirstNul, Read32;
    FixedInside(raw, off);
    TextInside(raw, off);
    PairInside(raw, off);
  }

  lemma FixedInside(raw: bytes, off: nat)
    requires 4 <= off && |raw| <= MAX_SIZE && MoveFrom(raw, off).Element?
    ensures var m := MoveFrom(raw, off);
            var (t, o, at) := (m.t, m.o, m.at);
            && off < |raw| && t == raw[off] && 6 <= o && at == Locate(raw, off, o, t) && at.next < |raw|
            && (t == 0x01 || t == 0x09 || t == 0x11 || t == 0x12 ==> o + 8 <= |raw|)
            && (t == 0x07 ==> o + 12 == at.next) && (t == 0x13 ==> o + 16 <= |raw|) && (t == 0x10 ==> o + 4 <= |raw|)
            && (t == 0x08 ==> o < |raw|)
  {
    hide FirstNul, Read32;
  }

  lemma TextInside(raw: bytes, off: nat)
    requires 4 <= off && |raw| <= MAX_SIZE && MoveFrom(raw, off).Element?
    ensures var m := MoveFrom(raw, off);
            var (t, o, at) := (m.t, m.o, m.at);
            && (t == 0x02 || t == 0x0D || t == 0x0E ==>
                  o + 4 < |raw| && at.d2 == o + 4 && 0 < Read32(raw, o) && o + 4 + Read32(raw, o) < |raw|)
            && (t == 0x05 ==> o + 4 < |raw| && at.d2 == o + 4 && at.d3 == o + 5 && at.next == o + 5 + Read32(raw, o)
                              && (raw[o + 4] == SUBTYPE_BINARY_DEPRECATED ==> Read32(raw, o) >= 4))
  {
    hide FirstNul, Read32;
  }

  lemma PairInside(raw: bytes, off: nat)
    requires 4 <= off && |raw| <= MAX_SIZE && MoveFrom(raw, off).Element?
    ensures var m := MoveFrom(raw, off);
            var (t, o, at) := (m.t, m.o, m.at);
            && (t == 0x0B ==> at.d2 == FirstNul(raw, o) + 1 <= |raw| && at.next == FirstNul(raw, at.d2) + 1)
            && (t == 0x0C ==> o + 4 < |raw| && at.d2 == o + 4 && at.d3 == o + 4 + Read32(raw, o) && at.next == at.d3 + 12
                              && 0 < Read32(raw, o))
  {
    hide FirstNul, Read32;
  }

  /** The length of a text, which is stored with its NUL; as a signed number. */
  function TextLength(raw: bytes, o: nat): nat
    requires o + 4 <= |raw|
  {
    var len := Signed32(Read32(raw, o));
    if len <= 0 then 0 else len - 1
  }

  /** bson_iter_utf8, bson_iter_code and bson_iter_symbol: a text behind its length. */
  method IterText(it: Iter) returns (text: Option<bytes>)
    requires Standing(it)
    ensures var (raw, m) := (it.raw.value, MoveFrom(it.raw.value, it.off));
            && (text.Some? <==> m.t == 0x02 || m.t == 0x0D || m.t == 0x0E)
            && (text.Some? ==> m.o + 4 < |raw| && text.value + [0] == raw[m.o + 4..m.at.next])
  {
    hide MoveFrom, Locate, FirstNul;
    var raw := it.raw.value;
    PartsInside(raw, it.off);
    var t := raw[it.off];
    if t == 0x02 || t == 0x0D || t == 0x0E {
      EndsInNul(raw, it.off);
      WithNul(raw, it.d2, it.nextOff);
      text := Some(raw[it.d2..it.d2 + TextLength(raw, it.d1)]);
    } else {
      text := None;
    }
  }

  lemma WithNul(raw: bytes, from: nat, to: nat)
    requires from < to <= |raw| && raw[to - 1] == 0
    ensures raw[from..to - 1] + [0] == raw[from..to]
  {
    var (a, b) := (raw[from..to - 1] + [0], raw[from..to]);
    assert |a| == |b| == to - from;
    forall k | 0 <= k < to - from ensures a[k] == b[k] {
      assert b[k] == raw[from + k];
    }
  }

  lemma EndsInNul(raw: bytes, off: nat)
    requires 4 <= off && |raw| <= MAX_SIZE && MoveFrom(raw, off).Element?
    ensures var m := MoveFrom(raw, off);
            m.t == 0x02 || m.t == 0x0D || m.t == 0x0E ==>
              m.o + 4 < |raw| && m.at.next == m.o + 4 + Read32(raw, m.o) && Read32(raw, m.o) > 0 && raw[m.at.next - 1] == 0
  {
    hide FirstNul, Read32;
  }

  /** bson_iter_binary: the deprecated subtype carries a second length before its bytes. */
  method IterBinary(it: Iter) returns (subtype: byte, data: bytes)
    requires Standing(it)
    ensures var (raw, m) := (it.raw.value, MoveFrom(it.raw.value, it.off));
            if m.t == 0x05 then LocateBinary(raw, m.o).At? && Binary(subtype, data) == BinaryAt(raw, m.o)
            else subtype == 0 && data == []
  {
    hide FirstNul, Read32;
    var raw := it.raw.value;
    PartsInside(raw, it.off);
    if raw[it.off] != 0x05 {
      return 0, [];
    }
    subtype := raw[it.d2];
    var length: int, start := Read32(raw, it.d1), it.d3;
    if subtype == SUBTYPE_BINARY_DEPRECATED {
      length, start := length - 4, start + 4;
    }
    data := raw[start..start + length];
  }

  /** bson_iter_regex: two C strings. */
  method IterRegex(it: Iter) returns (r: Option<(bytes, bytes)>)
    requires Standing(it)
    ensures var (raw, m) := (it.raw.value, MoveFrom(it.raw.value, it.off));
            && (r.Some? <==> m.t == 0x0B)
            && (r.Some? ==> m.o < m.at.d2 < m.at.next <= |raw| && 0 !in r.value.0 && 0 !in r.value.1
                            && r.value.0 + [0] == raw[m.o..m.at.d2] && r.value.1 + [0] == raw[m.at.d2..m.at.next])
  {
    hide MoveFrom;
    var raw := it.raw.value;
    PartsInside(raw, it.off);
    if raw[it.off] != 0x0B {
      return None;
    }
    CutAtNul(raw, it.d1);
    CutAtNul(raw, it.d2);
    var (p, q) := (FirstNul(raw, it.d1), FirstNul(raw, it.d2));
    return Some((raw[it.d1..p], raw[it.d2..q]));
  }

  /** A C string ends at its NUL. */
  lemma CutAtNul(raw: bytes, o: nat)
    requires o <= |raw|
    ensures var p := FirstNul(raw, o); p < |raw| ==> o <= p && raw[p] == 0 && 0 !in raw[o..p] && raw[o..p] + [0] == raw[o..p + 1]
  {
    hide FirstNul;
  }

  method IterDbPointer(it: Iter) returns (r: Option<(bytes, bytes)>)
    requires Standing(it)
    ensures var (raw, m) := (it.raw.value, MoveFrom(it.raw.value, it.off));
            && (r.Some? <==> m.t == 0x0C)
            && (r.Some? ==> m.o + 4 <= m.at.d3 - 1 <= |raw| && r.value == (raw[m.o + 4..m.at.d3 - 1], raw[m.at.d3..m.at.next]))
  {
    hide MoveFrom;
    var raw := it.raw.value;
    PartsInside(raw, it.off);
    if raw[it.off] != 0x0C {
      return None;
    }
    var length: int := Read32(raw, it.d1);
    if length > 0 {
      length := length - 1;
    }
    return Some((raw[it.d2..it.d2 + length], raw[it.d3..it.d3 + 12]));
  }

  /** bson_iter_codewscope: a text and, behind it, a document, each by its stored length. */
  method IterCodeWithScope(it: Iter) returns (r: Option<(bytes, bytes)>)
    requires Standing(it)
    ensures var (raw, m) := (it.raw.value, MoveFrom(it.raw.value, it.off));
            && (r.Some? <==> m.t == 0x0F)
            && (r.Some? ==> m.at.d3 < m.at.d4 <= m.at.next <= |raw|
                            && r.value == (raw[m.at.d3..m.at.d4 - 1], raw[m.at.d4..m.at.next]))
  {
    hide MoveFrom;
    var raw := it.raw.value;
    if raw[it.off] != 0x0F {
      PartsInside(raw, it.off);
      return None;
    }
    ScopeInside(raw, it.off);
    var length := Read32(raw, it.d2) - 1;
    var scopeLength := Read32(raw, it.d4);
    return Some((raw[it.d3..it.d3 + length], raw[it.d4..it.d4 + scopeLength]));
  }

  lemma ScopeInside(raw: bytes, off: nat)
    requires 4 <= off && |raw| <= MAX_SIZE && MoveFrom(raw, off).Element? && raw[off] == 0x0F
    ensures var m := MoveFrom(raw, off);
            var at := m.at;
            && m.t == 0x0F && at.d2 + 4 <= |raw| && at.d4 + 4 <= |raw|
            && 0 < Read32(raw, at.d2) && at.d4 == at.d3 + Read32(raw, at.d2)
            && at.next == at.d4 + Read32(raw, at.d4) < |raw|
  {
    hide FirstNul, Read32;
    var m := MoveFrom(raw, off);
    assert LocateCodeWithScope(raw, m.o) == m.at;
    Wrapped(m.at.d4, Read32(raw, m.at.d4), m.at.next);
  }

  /** The sum of the two offsets cannot have wrapped around. */
  lemma Wrapped(d4: nat, length: nat, next: nat)
    requires d4 < next <= MAX_SIZE && length < TWO_32 && (d4 + length) % TWO_32 == next
    ensures d4 + length == next
  {
  }

  /** What bson_iter_value owes the element the iterator stands on, if its value holds no document. */
  ghost predicate IsFlat(it: Iter, v: Option<Value>)
    requires Standing(it)
    reads it
  {
    var (raw, m) := (it.raw.value, MoveFrom(it.raw.value, it.off));
    && m.t == raw[it.off] && 6 <= m.o && Locate(raw, it.off, m.o, m.t) == m.at
    && v == FlatValue(raw, it.off, m.t, m.o, m.at)
  }

  method IterValue(it: Iter) returns (v: Option<Value>)
    requires Standing(it)
    ensures IsFlat(it, v)
  {
    hide MoveFrom, IsFlat;
    var t := it.raw.value[it.off];
    if t == 0x02 || t == 0x0D || t == 0x0E {
      v := IterTextValue(it);
    } else if t == 0x0B {
      v := IterRegexValue(it);
    } else if t == 0x05 || t == 0x0C {
      v := IterBytesValue(it);
    } else {
      v := IterFixed(it);
    }
  }

  lemma WithoutNul(s: bytes, raw: bytes, from: nat, to: nat)
    requires from <= to <= |raw| && s + [0] == raw[from..to]
    ensures from < to && s == raw[from..to - 1]
  {
    assert |s + [0]| == |s| + 1 == to - from;
    forall k | 0 <= k < |s| ensures s[k] == raw[from + k] {
      assert s[k] == (s + [0])[k] == raw[from..to][k];
    }
  }

  method IterTextValue(it: Iter) returns (v: Option<Value>)
    requires Standing(it) && var t := it.raw.value[it.off]; t == 0x02 || t == 0x0D || t == 0x0E
    ensures IsFlat(it, v)
  {
    hide MoveFrom, FirstNul, Locate, Read32, Read64;
    var raw := it.raw.value;
    PartsInside(raw, it.off);
    var (t, o) := (raw[it.off], it.d1);
    EndsInNul(raw, it.off);
    var text := IterText(it);
    var s := text.value;
    WithoutNul(s, raw, o + 4, it.nextOff);
    v := Some(if t == 0x02 then Utf8(s) else if t == 0x0D then Code(s) else Symbol(s));
  }

  method IterRegexValue(it: Iter) returns (v: Option<Value>)
    requires Standing(it) && it.raw.value[it.off] == 0x0B
    ensures IsFlat(it, v)
  {
    hide MoveFrom, FirstNul, Locate, Read32, Read64;
    var raw := it.raw.value;
    PartsInside(raw, it.off);
    var r := IterRegex(it);
    var (p, q) := r.value;
    WithoutNul(p, raw, it.d1, it.d2);
    WithoutNul(q, raw, it.d2, it.nextOff);
    v := Some(Regex(p, q));
  }

  method IterBytesValue(it: Iter) returns (v: Option<Value>)
    requires Standing(it) && (it.raw.value[it.off] == 0x05 || it.raw.value[it.off] == 0x0C)
    ensures IsFlat(it, v)
  {
    hide MoveFrom, FirstNul, Locate, Read32, Read64;
    PartsInside(it.raw.value, it.off);
    if it.raw.value[it.off] == 0x05 {
      var subtype, data := IterBinary(it);
      v := Some(Binary(subtype, data));
    } else {
      var r := IterDbPointer(it);
      v := Some(DbPointer(r.value.0, r.value.1));
    }
  }

  /** The values of fixed size. */
  method IterFixed(it: Iter) returns (v: Option<Value>)
    requires Standing(it)
    requires var t := it.raw.value[it.off]; t != 0x02 && t != 0x05 && t != 0x0B && t != 0x0C && t != 0x0D && t != 0x0E
    ensures IsFlat(it, v)
  {
    hide MoveFrom, FirstNul, Locate, Read32, Read64;
    var raw := it.raw.value;
    PartsInside(raw, it.off);
    var (t, o) := (raw[it.off], it.d1);
    if t == 0x01 { return Some(Double(Read64(raw, o))); }
    if t == 0x06 { return Some(Undefined); }
    if t == 0x07 { return Some(Oid(raw[o..o + 12])); }
    if t == 0x08 { return Some(Bool(raw[o] == 1)); }
    if t == 0x09 { return Some(DateTime(Signed64(Read64(raw, o)))); }
    if t == 0x0A { return Some(Null); }
    if t == 0x10 { return Some(Int32(Signed32(Read32(raw, o)))); }
    if t == 0x11 {
      var increment, timestamp := Read32(raw, o), Read32(raw, o + 4);
      return Some(Timestamp(timestamp, increment));
    }
    if t == 0x12 { return Some(Int64(Signed64(Read64(raw, o)))); }
    if t == 0x13 { return Some(Decimal128(Read64(raw, o), Read64(raw, o + 8))); }
    if t == 0x7F { return Some(MaxKey); }
    if t == 0xFF { return Some(MinKey); }
    return None;
  }
}
