/** Clients of the iterator: reading a document back, finding a descendant, and walking arbitrary bytes. */
module BsonRead {
  import opened CInt
  import opened LittleEndian
  import opened BsonTree
  import opened BsonIter
  import opened BsonDecode
  import opened BsonAccess

  // ---------------------------------------------------------------------------------------------------------
  // Arbitrary bytes
  // ---------------------------------------------------------------------------------------------------------

  /** The offsets of the elements met from off on, ending with the offset at which iteration stops. */
  function Offsets(raw: bytes, off: nat): (r: seq<nat>)
    requires 4 <= off && |raw| <= MAX_SIZE
    ensures |r| > 0 && r[0] == off
    decreases if off < |raw| then |raw| - off else 0
  {
    match MoveFrom(raw, off)
    case Stop(_) => [off]
    case Element(_, _, _, at) => [off] + Offsets(raw, at.next)
  }

  function StopError(raw: bytes, off: nat): nat
    requires 4 <= off && |raw| <= MAX_SIZE
    decreases if off < |raw| then |raw| - off else 0
  {
    match MoveFrom(raw, off)
    case Stop(err) => err
    case Element(_, _, _, at) => StopError(raw, at.next)
  }

  /**
   * Over any bytes that end in a zero, iteration meets strictly increasing offsets inside the buffer, and ends
   * without an error exactly when the elements fill the space up to that last byte.
   */
  lemma {:induction false} IterationTiles(raw: bytes, off: nat)
    requires 4 <= off < |raw| <= MAX_SIZE && raw[|raw| - 1] == 0
    ensures var r := Offsets(raw, off);
            && (forall i, j :: 0 <= i < j < |r| ==> r[i] < r[j])
            && r[|r| - 1] < |raw|
            && (StopError(raw, off) == 0 <==> r[|r| - 1] == |raw| - 1)
    decreases |raw| - off
  {
    match MoveFrom(raw, off)
    case Stop(err) =>
      assert FirstNul(raw, off + 1) >= |raw| <==> off == |raw| - 1;
    case Element(_, _, _, at) =>
      IterationTiles(raw, at.next);
      var rest := Offsets(raw, at.next);
      var r := Offsets(raw, off);
      assert r == [off] + rest;
      forall j | 1 <= j < |r| ensures off < r[j] { assert r[j] == rest[j - 1] >= rest[0]; }
  }

  lemma OffsetsUnfold(raw: bytes, off: nat)
    requires 4 <= off && |raw| <= MAX_SIZE
    ensures var m := MoveFrom(raw, off);
            if m.Element? then
              Offsets(raw, off) == [off] + Offsets(raw, m.at.next) && StopError(raw, off) == StopError(raw, m.at.next)
            else Offsets(raw, off) == [off] && StopError(raw, off) == m.err
  {
  }

  /** Walks a buffer to the end; the offsets seen and the error left behind are those of the specification. */
  method Walk(data: bytes) returns (ok: bool, offs: seq<nat>, err: nat)
    ensures ok <==> InitStatic(data)
    ensures ok ==> offs == Offsets(data, 4) && err == StopError(data, 4)
  {
    var it := new Iter();
    ok := it.InitFromData(data);
    offs, err := [], 0;
    if ok {
      offs, err := WalkFrom(it, data);
    }
  }

  method WalkFrom(it: Iter, data: bytes) returns (offs: seq<nat>, err: nat)
    requires it.Valid() && it.raw == Some(data) && it.nextOff == 4 && |data| <= MAX_SIZE
    modifies it
    ensures offs == Offsets(data, 4) && err == StopError(data, 4)
  {
    hide MoveFrom, Offsets, StopError, FirstNul, Locate;
    offs := [];
    var last := 4;
    var more := it.Next();
    while more
      invariant it.Valid() && 4 <= last
      invariant if more then MoveFrom(data, last).Element? else MoveFrom(data, last) == Stop(it.errOff)
      invariant more ==> it.raw == Some(data) && it.nextOff == MoveFrom(data, last).at.next
      invariant offs + Offsets(data, last) == Offsets(data, 4)
      invariant StopError(data, last) == StopError(data, 4)
      decreases more, |data| - last
    {
      OffsetsUnfold(data, last);
      assert offs + ([last] + Offsets(data, it.nextOff)) == (offs + [last]) + Offsets(data, it.nextOff);
      offs := offs + [last];
      last := it.nextOff;
      more := it.Next();
    }
    OffsetsUnfold(data, last);
    offs := offs + [last];
    err := it.errOff;
  }

  // ---------------------------------------------------------------------------------------------------------
  // Documents
  // ---------------------------------------------------------------------------------------------------------

  /** bson_iter_recurse: a child iterator over the bytes of a document or array, taken without any check. */
  method Recurse(it: Iter) returns (child: Iter)
    requires it.raw.Some? && 6 <= it.d1 && it.d1 + 4 <= |it.raw.value| <= MAX_SIZE
    requires it.d1 + Read32(it.raw.value, it.d1) <= |it.raw.value|
    ensures fresh(child) && child.Valid() && child.nextOff == 4
    ensures child.raw == Some(it.raw.value[it.d1..it.d1 + Read32(it.raw.value, it.d1)])
  {
    child := new Iter();
    var len := Read32(it.raw.value, it.d1);
    child.raw := Some(it.raw.value[it.d1..it.d1 + len]);
    child.nextOff := 4;
  }

  /** The value the iterator stands on, read through the accessors and, for containers, by recursing. */
  method ReadValue(it: Iter, ghost v: Value) returns (r: Value)
    requires it.Valid() && it.raw.Some? && 4 <= it.off
    requires it.On(it.raw.value, MoveFrom(it.raw.value, it.off))
    requires ElementValue(it.raw.value, it.off) == Some(v)
    ensures r == v
    decreases |it.raw.value|, 1
  {
    hide Locate, ValueAt, DecodeFrom, FlatValue, MoveFrom, Decode;
    var t := it.raw.value[it.off];
    ElementKinds(it.raw.value, it.off, v);
    if t == 0x03 || t == 0x04 {
      var child := Recurse(it);
      var doc := ReadElements(child, if t == 0x03 then v.doc else v.items);
      r := if t == 0x03 then Document(doc) else Array(doc);
    } else if t == 0x0F {
      r := ReadCodeWithScope(it, v);
    } else {
      var flat := IterValue(it);
      r := flat.value;
    }
  }

  method ReadCodeWithScope(it: Iter, ghost v: Value) returns (r: Value)
    requires it.Valid() && it.raw.Some? && 4 <= it.off
    requires it.On(it.raw.value, MoveFrom(it.raw.value, it.off))
    requires ElementValue(it.raw.value, it.off) == Some(v) && it.raw.value[it.off] == 0x0F
    ensures r == v
    decreases |it.raw.value|, 0
  {
    hide Locate, ValueAt, DecodeFrom, FlatValue, MoveFrom, Decode;
    ElementKinds(it.raw.value, it.off, v);
    var code := IterCodeWithScope(it);
    var (js, scope) := code.value;
    var child := new Iter();
    var ok := child.InitFromData(scope);
    var doc := ReadElements(child, v.scope);
    r := CodeWithScope(js, it.raw.value[it.d4 - 1], doc);
  }

  /** What the kind of an element says about its value and its parts. */
  lemma ElementKinds(raw: bytes, off: nat, v: Value)
    requires 4 <= off && |raw| <= MAX_SIZE && MoveFrom(raw, off).Element? && ElementValue(raw, off) == Some(v)
    ensures var m := MoveFrom(raw, off);
            var (o, at) := (m.o, m.at);
            && m.t == raw[off] && 6 <= o && Locate(raw, off, o, m.t) == at
            && (m.t == 0x03 || m.t == 0x04 ==>
                  && o + 4 <= |raw| && at.next == o + Read32(raw, o)
                  && InitStatic(raw[o..at.next])
                  && (if m.t == 0x03 then v.Document? else v.Array?)
                  && DecodeFrom(raw[o..at.next], 4) == Some(if m.t == 0x03 then v.doc else v.items))
            && (m.t == 0x0F ==>
                  && at.d3 == o + 8 <= at.d4 - 1 && at.d4 <= at.next
                  && InitStatic(raw[at.d4..at.next])
                  && v.CodeWithScope? && v.js == raw[at.d3..at.d4 - 1] && v.terminator == raw[at.d4 - 1]
                  && DecodeFrom(raw[at.d4..at.next], 4) == Some(v.scope))
            && (m.t != 0x03 && m.t != 0x04 && m.t != 0x0F ==> FlatValue(raw, off, m.t, o, at) == Some(v))
  {
    hide FirstNul, Read32, FlatValue, DecodeFrom, LocateString, LocateBinary, LocateRegex, LocateDbPointer;
    var m := MoveFrom(raw, off);
    var (o, at) := (m.o, m.at);
    assert m.t == raw[off] && 6 <= o && Locate(raw, off, o, m.t) == at;
    assert ValueAt(raw, off, m.t, o, at) == Some(v);
    if m.t == 0x03 || m.t == 0x04 {
      assert Decode(raw[o..at.next]) == Some(if m.t == 0x03 then v.doc else v.items);
    } else if m.t == 0x0F {
      assert Decode(raw[at.d4..at.next]) == Some(v.scope);
    }
  }

  lemma AppendToNil(d: Doc)
    ensures Append(Nil, d) == d
    ensures d.Cons? ==> Append(Cons(d.key, d.value, Nil), d.rest) == d
  {
  }

  function ElementValue(raw: bytes, off: nat): Option<Value>
    requires 4 <= off && |raw| <= MAX_SIZE && MoveFrom(raw, off).Element?
  {
    var m := MoveFrom(raw, off);
    ValueAt(raw, off, m.t, m.o, m.at)
  }

  lemma DecodeUnfold(raw: bytes, off: nat)
    requires 4 <= off && |raw| <= MAX_SIZE && DecodeFrom(raw, off).Some?
    ensures var m := MoveFrom(raw, off);
            var d := DecodeFrom(raw, off).value;
            if m.Element? then
              && d.Cons? && d.key == m.key == raw[off + 1..m.o - 1] && ElementValue(raw, off) == Some(d.value)
              && DecodeFrom(raw, m.at.next) == Some(d.rest)
            else m.err == 0 && d == Nil
  {
    hide Locate, ValueAt, FirstNul;
  }

  /** Every element from the iterator's position on, in order, without an error at the end. */
  method ReadElements(it: Iter, ghost d: Doc) returns (r: Doc)
    requires it.Valid() && it.raw.Some? && DecodeFrom(it.raw.value, it.nextOff) == Some(d)
    modifies it
    ensures r == d && it.raw == None && it.errOff == 0
    decreases |it.raw.value|, 2
  {
    hide MoveFrom, DecodeFrom, Append, ElementValue;
    var data := it.raw.value;
    AppendToNil(d);
    r := Nil;
    ghost var rest := d;
    ghost var from := it.nextOff;
    var more := it.Next();
    while more
      invariant it.Valid()
      invariant 4 <= from
      invariant more ==> it.raw == Some(data) && it.off == from && it.On(data, MoveFrom(data, from))
      invariant !more ==> it.raw == None && MoveFrom(data, from) == Stop(it.errOff)
      invariant DecodeFrom(data, from) == Some(rest) && Append(r, rest) == d
      decreases more, |data| - from
    {
      DecodeUnfold(data, from);
      var key := data[it.key..it.d1 - 1];
      assert key == rest.key;
      var v := ReadValue(it, rest.value);
      AppendAssoc(r, Cons(key, v, Nil), rest.rest);
      AppendToNil(rest);
      r := Snoc(r, key, v);
      rest := rest.rest;
      from := it.nextOff;
      more := it.Next();
    }
    DecodeUnfold(data, from);
    AppendNil(r);
  }

  /** Reading back any encoded document yields the document, every key and value in order. */
  method ReadBack(data: bytes, ghost d: Doc) returns (r: Doc)
    requires data == EncodeDoc(d) && WellFormedDoc(d) && |data| <= MAX_SIZE
    ensures r == d
  {
    DecodeIff(data, d);
    var it := new Iter();
    var ok := it.InitFromData(data);
    r := ReadElements(it, d);
  }

  // ---------------------------------------------------------------------------------------------------------
  // Finding descendants by dotted path
  // ---------------------------------------------------------------------------------------------------------

  const DOT: byte := 0x2E

  function IndexOf(s: bytes, b: byte): (i: nat)
    ensures i <= |s| && (i < |s| ==> s[i] == b) && b !in s[..i]
  {
    if s == [] then 0 else if s[0] == b then 0 else
      var i := IndexOf(s[1..], b) + 1;
      assert s[..i] == [s[0]] + s[1..][..i - 1];
      i
  }

  /** The elements from the first one with the key on. */
  function FindKey(d: Doc, key: bytes): Doc {
    match d
    case Nil => Nil
    case Cons(k, _, rest) => if k == key then d else FindKey(rest, key)
  }

  /**
   * The value at a dotted path: at each step the first element with the key is taken, and it must be a document
   * or an array if the path goes on. A later element with the same key is never tried.
   */
  function Lookup(d: Doc, path: bytes): Option<Value>
    decreases |path|
  {
    var dot := IndexOf(path, DOT);
    match FindKey(d, path[..dot])
    case Nil => None
    case Cons(_, v, _) =>
      if dot == |path| then Some(v)
      else
        match v
        case Document(sub) => Lookup(sub, path[dot + 1..])
        case Array(sub) => Lookup(sub, path[dot + 1..])
        case _ => None
  }

  /** The offset of the first element with the key that iteration meets; what is behind it is not looked at. */
  function Position(raw: bytes, off: nat, key: bytes): (at: Option<nat>)
    requires 4 <= off && |raw| <= MAX_SIZE
    ensures at.Some? ==> off <= at.value && MoveFrom(raw, at.value).Element? && MoveFrom(raw, at.value).key == key
    decreases if off < |raw| then |raw| - off else 0
  {
    var m := MoveFrom(raw, off);
    if m.Stop? then None else if m.key == key then Some(off) else Position(raw, m.at.next, key)
  }

  /** The bytes and the offset in them at which a dotted path leads from an offset on. */
  function Descend(raw: bytes, off: nat, path: bytes): (r: Option<(bytes, nat)>)
    requires 4 <= off && |raw| <= MAX_SIZE
    ensures r.Some? ==> |r.value.0| <= MAX_SIZE && 4 <= r.value.1 && MoveFrom(r.value.0, r.value.1).Element?
    decreases |path|
  {
    var dot := IndexOf(path, DOT);
    match Position(raw, off, path[..dot])
    case None => None
    case Some(at) =>
      var m := MoveFrom(raw, at);
      if dot == |path| then Some((raw, at))
      else if m.t == 0x03 || m.t == 0x04 then Descend(raw[m.o..m.at.next], 4, path[dot + 1..])
      else None
  }

  lemma {:induction false} PositionIsKey(raw: bytes, off: nat, key: bytes)
    requires 4 <= off && |raw| <= MAX_SIZE && DecodeFrom(raw, off).Some?
    ensures var (at, d) := (Position(raw, off, key), FindKey(DecodeFrom(raw, off).value, key));
            (at.Some? <==> d.Cons?) && (at.Some? ==> ElementValue(raw, at.value) == Some(d.value))
    decreases if off < |raw| then |raw| - off else 0
  {
    hide MoveFrom, DecodeFrom, ElementValue;
    DecodeUnfold(raw, off);
    var m := MoveFrom(raw, off);
    if m.Element? && m.key != key { PositionIsKey(raw, m.at.next, key); }
  }

  /** Documents and arrays are the values of those types, and their bytes decode. */
  lemma ContainerKind(raw: bytes, off: nat, v: Value)
    requires 4 <= off && |raw| <= MAX_SIZE && MoveFrom(raw, off).Element? && ElementValue(raw, off) == Some(v)
    ensures var m := MoveFrom(raw, off);
            && (v.Document? <==> m.t == 0x03) && (v.Array? <==> m.t == 0x04)
            && (m.t == 0x03 ==> DecodeFrom(raw[m.o..m.at.next], 4) == Some(v.doc))
            && (m.t == 0x04 ==> DecodeFrom(raw[m.o..m.at.next], 4) == Some(v.items))
  {
    hide MoveFrom, DecodeFrom, ElementValue, Locate, FlatValue;
    ElementKinds(raw, off, v);
    KindOfValue(raw, off, v);
  }

  /** Where the bytes decode, the path leads to what the lookup in the tree finds. */
  lemma {:induction false} DescendIsLookup(raw: bytes, off: nat, path: bytes)
    requires 4 <= off && |raw| <= MAX_SIZE && DecodeFrom(raw, off).Some?
    ensures var (at, v) := (Descend(raw, off, path), Lookup(DecodeFrom(raw, off).value, path));
            (at.Some? <==> v.Some?) && (at.Some? ==> ElementValue(at.value.0, at.value.1) == v)
    decreases |path|
  {
    hide MoveFrom, DecodeFrom, ElementValue, FindKey, Position, IndexOf;
    var dot := IndexOf(path, DOT);
    PositionIsKey(raw, off, path[..dot]);
    var at := Position(raw, off, path[..dot]);
    if at.Some? && dot < |path| {
      var v := FindKey(DecodeFrom(raw, off).value, path[..dot]).value;
      var m := MoveFrom(raw, at.value);
      ContainerKind(raw, at.value, v);
      if m.t == 0x03 || m.t == 0x04 { DescendIsLookup(raw[m.o..m.at.next], 4, path[dot + 1..]); }
    }
  }

  /** bson_iter_find_w_len: moves to the first element with the key. */
  method FindWLen(it: Iter, key: bytes) returns (found: bool)
    requires it.Valid() && it.raw.Some?
    modifies it
    ensures it.Valid()
    ensures var at := Position(old(it.raw).value, old(it.nextOff), key);
            && (found <==> at.Some?)
            && (found ==> it.raw == old(it.raw) && it.off == at.value && it.On(it.raw.value, MoveFrom(it.raw.value, it.off)))
  {
    hide MoveFrom;
    var data := it.raw.value;
    ghost var from := it.nextOff;
    var more := it.Next();
    while more
      invariant it.Valid() && 4 <= from
      invariant if more then it.raw == Some(data) && it.off == from && it.On(data, MoveFrom(data, from))
                else MoveFrom(data, from).Stop?
      invariant Position(data, from, key) == Position(data, old(it.nextOff), key)
      decreases more, |data| - from
    {
      KeyBytes(data, from);
      if data[it.key..it.d1 - 1] == key {
        return true;
      }
      from := it.nextOff;
      more := it.Next();
    }
    found := false;
  }

  lemma KeyBytes(raw: bytes, off: nat)
    requires 4 <= off && |raw| <= MAX_SIZE && MoveFrom(raw, off).Element?
    ensures var m := MoveFrom(raw, off); m.key == raw[off + 1..m.o - 1] && m.at.next > off
  {
    hide Locate, FirstNul;
  }

  /** bson_iter_find_descendant: finds exactly the element the path leads to. */
  method FindDescendant(it: Iter, dotkey: bytes) returns (found: bool, descendant: Iter)
    requires it.Valid() && it.raw.Some?
    modifies it
    ensures var at := Descend(old(it.raw).value, old(it.nextOff), dotkey);
            && (found <==> at.Some?)
            && (found ==> descendant.Valid() && descendant.raw.Some? && 4 <= descendant.off
                          && at.value == (descendant.raw.value, descendant.off)
                          && descendant.On(at.value.0, MoveFrom(at.value.0, at.value.1)))
    decreases |dotkey|
  {
    hide MoveFrom, Position, Locate;
    var dot := IndexOf(dotkey, DOT);
    found := FindWLen(it, dotkey[..dot]);
    descendant := it;
    if found && dot < |dotkey| {
      found, descendant := Enter(it);
      if found {
        found, descendant := FindDescendant(descendant, dotkey[dot + 1..]);
      }
    }
  }

  /** Recurses if the iterator stands on a document or an array. */
  method Enter(it: Iter) returns (holds: bool, child: Iter)
    requires it.Valid() && it.raw.Some? && 4 <= it.off && it.On(it.raw.value, MoveFrom(it.raw.value, it.off))
    ensures var m := MoveFrom(it.raw.value, it.off);
            && (holds <==> m.t == 0x03 || m.t == 0x04)
            && (holds ==> fresh(child) && child.Valid() && child.raw == Some(it.raw.value[m.o..m.at.next]) && child.nextOff == 4)
  {
    hide MoveFrom, Locate;
    Container(it.raw.value, it.off);
    var t := it.raw.value[it.off];
    holds, child := t == 0x03 || t == 0x04, it;
    if holds {
      child := Recurse(it);
    }
  }

  lemma Container(raw: bytes, off: nat)
    requires 4 <= off && |raw| <= MAX_SIZE && MoveFrom(raw, off).Element?
    ensures var m := MoveFrom(raw, off);
            && m.t == raw[off] && 6 <= m.o
            && (m.t == 0x03 || m.t == 0x04 ==> m.o + 4 <= |raw| && m.at.next == m.o + Read32(raw, m.o) <= |raw|)
  {
    hide FirstNul, Read32, LocateString, LocateBinary, LocateRegex, LocateDbPointer, LocateCodeWithScope;
  }

  lemma KindOfValue(raw: bytes, off: nat, v: Value)
    requires 4 <= off && |raw| <= MAX_SIZE && MoveFrom(raw, off).Element? && ElementValue(raw, off) == Some(v)
    ensures TypeByte(v) == raw[off] == MoveFrom(raw, off).t
  {
    hide Locate, FirstNul, ValueAt;
    var m := MoveFrom(raw, off);
    ValueType(raw, off, m.t, m.o, m.at);
  }
}
