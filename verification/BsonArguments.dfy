/** The byte strings each function of the append family lines up before it copies them into a document. */
module BsonArguments {
  import opened CInt
  import opened LittleEndian
  import opened BsonTree
  import opened BsonLayout

  const REGEX_OPTIONS_SORTED: bytes := [105, 108, 109, 115, 117, 120] // "ilmsux"

  /** The characters of the template that occur in the selector, in the template's order. */
  function SelectedChars(template: bytes, selector: bytes): (r: bytes)
    ensures forall c :: c in r <==> c in template && c in selector
  {
    if template == [] then []
    else (if template[0] in selector then [template[0]] else []) + SelectedChars(template[1..], selector)
  }

  /** What the argument types can hold; code, collection names and options arrive as C strings. */
  predicate CTyped(v: Value) {
    match v
    case Regex(_, options) => 0 !in options
    case DbPointer(c, oid) => 0 !in c && |oid| == 12
    case Code(js) => 0 !in js
    case CodeWithScope(js, _, scope) => 0 !in js && WellFormedDoc(scope)
    case _ => WellFormed(v)
  }

  /** The value that ends up in the document. */
  function Stored(v: Value): Value {
    match v
    case Regex(p, options) => Regex(p, SelectedChars(REGEX_OPTIONS_SORTED, options))
    case CodeWithScope(js, _, scope) => CodeWithScope(js, 0, scope)
    case _ => v
  }

  function ValueArguments(v: Value): seq<bytes> {
    match v
    case Double(bits) => [LE64(bits)]
    case Utf8(s) => [LE32(|s| + 1), s, [0]]
    case Document(d) => [EncodeDoc(d)]
    case Array(d) => [EncodeDoc(d)]
    case Binary(sub, data) =>
      if sub == SUBTYPE_BINARY_DEPRECATED
      then [LE32(|data| + 4), [sub], LE32(|data|), data]
      else [LE32(|data|), [sub], data]
    case Undefined => []
    case Oid(oid) => [oid]
    case Bool(b) => [[if b then 1 else 0]]
    case DateTime(ms) => [LE64(ms)]
    case Null => []
    case Regex(p, options) => [p, [0], SelectedChars(REGEX_OPTIONS_SORTED, options) + [0]]
    case DbPointer(c, oid) => [LE32(|c| + 1), c + [0], oid]
    case Code(js) => [LE32(|js| + 1), js + [0]]
    case Symbol(s) => [LE32(|s| + 1), s, [0]]
    case CodeWithScope(js, _, scope) =>
      var doc := EncodeDoc(scope);
      [LE32(8 + (|js| + 1) + |doc|), LE32(|js| + 1), js + [0], doc]
    case Int32(i) => [LE32(i)]
    case Timestamp(t, i) => [LE64(t * TWO_32 + i)]
    case Int64(i) => [LE64(i)]
    case Decimal128(low, high) => [LE64(low) + LE64(high)]
    case MaxKey => []
    case MinKey => []
  }

  /** Lining the arguments up, until one would exceed the maximum size; empty ones are dropped. */
  method CollectArguments(items: seq<bytes>) returns (ok: bool, args: seq<bytes>, n: nat)
    ensures ok <==> |Concat(items)| <= MAX_SIZE
    ensures ok ==> Concat(args) == Concat(items) && n == |Concat(items)|
  {
    hide Concat;
    args, n := [], 0;
    var i := 0;
    ConcatEmpty();
    while i < |items|
      invariant 0 <= i <= |items|
      invariant Concat(args) == Concat(items[..i]) && n == |Concat(items[..i])| <= MAX_SIZE
    {
      var a := items[i];
      assert items[..i + 1] == items[..i] + [a];
      ConcatSnoc(items[..i], a);
      ConcatPrefix(items, i + 1);
      if |a| > MAX_SIZE - n {
        return false, [], 0;
      }
      ConcatSnoc(args, a);
      if |a| > 0 {
        args := args + [a];
        n := n + |a|;
      }
      i := i + 1;
    }
    assert items[..i] == items;
    return true, args, n;
  }

  lemma {:induction false} LESplit(low: nat, high: nat, j: nat, k: nat)
    requires low < Pow256(j)
    ensures LE(low + high * Pow256(j), j + k) == LE(low, j) + LE(high, k)
  {
    if j > 0 {
      var n := low + high * Pow256(j);
      var p := high * Pow256(j - 1);
      assert high * Pow256(j) == 256 * p;
      assert n % 256 == low % 256 && n / 256 == low / 256 + p;
      LESplit(low / 256, high, j - 1, k);
    } else {
      assert low + high * Pow256(j) == high;
    }
  }

  lemma TimestampBytes(t: uint32, i: uint32)
    ensures LE64(t * TWO_32 + i) == LE32(i) + LE32(t)
  {
    hide LE, Pow256;
    Pow256Table();
    LESplit(i, t, 4, 4);
    assert t * TWO_32 + i < TWO_64;
  }

  lemma ConcatOne(a: bytes)
    ensures Concat([a]) == a
  {
    assert Concat([a]) == a + [];
  }

  lemma Concat2(a: bytes, b: bytes)
    ensures Concat([a, b]) == a + b
  {
    assert [a, b][1..] == [b];
    ConcatOne(b);
  }

  lemma Concat3(a: bytes, b: bytes, c: bytes)
    ensures Concat([a, b, c]) == a + b + c
  {
    assert [a, b, c][1..] == [b, c];
    Concat2(b, c);
    assert Concat([a, b, c]) == a + (b + c);
  }

  lemma BinaryArguments(sub: byte, data: bytes)
    ensures Concat([LE32(|data|), [sub], data]) == LE32(|data|) + [sub] + data
    ensures Concat([LE32(|data| + 4), [sub], LE32(|data|), data]) == LE32(|data| + 4) + [sub] + (LE32(|data|) + data)
  {
    hide LE32, Concat;
    Concat3(LE32(|data|), [sub], data);
    Concat4(LE32(|data| + 4), [sub], LE32(|data|), data);
  }

  lemma ScopeArguments(total: bytes, length: bytes, js: bytes, scope: bytes)
    ensures Concat([total, length, js + [0], scope]) == total + (length + js + [0]) + scope
  {
    hide Concat;
    Concat4(total, length, js + [0], scope);
  }

  lemma Concat4(a: bytes, b: bytes, c: bytes, d: bytes)
    ensures Concat([a, b, c, d]) == a + b + (c + d)
  {
    assert [a, b, c, d][1..] == [b, c, d];
    assert Concat([a, b, c, d]) == a + Concat([b, c, d]);
    Concat3(b, c, d);
  }

  lemma {:induction false} ValueArgumentsEncode(v: Value)
    requires CTyped(v)
    ensures Concat(ValueArguments(v)) == EncodeValue(Stored(v))
  {
    hide LE, LE32, LE64, EncodeDoc, SelectedChars, WellFormedDoc, Concat;
    ConcatEmpty();
    match v
    case Utf8(s) => Concat3(LE32(|s| + 1), s, [0]);
    case Symbol(s) => Concat3(LE32(|s| + 1), s, [0]);
    case Code(js) => Concat2(LE32(|js| + 1), js + [0]);
    case Regex(p, options) => Concat3(p, [0], SelectedChars(REGEX_OPTIONS_SORTED, options) + [0]);
    case DbPointer(c, oid) => Concat3(LE32(|c| + 1), c + [0], oid);
    case Binary(sub, data) => BinaryArguments(sub, data);
    case CodeWithScope(js, _, scope) =>
      ScopeArguments(LE32(8 + (|js| + 1) + |EncodeDoc(scope)|), LE32(|js| + 1), js, EncodeDoc(scope));
    case Timestamp(t, i) => TimestampBytes(t, i); ConcatOne(LE64(t * TWO_32 + i));
    case Double(bits) => ConcatOne(LE64(bits));
    case Document(d) => ConcatOne(EncodeDoc(d));
    case Array(d) => ConcatOne(EncodeDoc(d));
    case Oid(oid) => ConcatOne(oid);
    case Bool(b) => ConcatOne([if b then 1 else 0]);
    case DateTime(ms) => ConcatOne(LE64(ms));
    case Int32(i) => ConcatOne(LE32(i));
    case Int64(i) => ConcatOne(LE64(i));
    case Decimal128(low, high) => ConcatOne(LE64(low) + LE64(high));
    case _ =>
  }

  lemma ArgumentsEncode(key: bytes, v: Value)
    requires CTyped(v)
    ensures Concat([[TypeByte(v)], key, [0]] + ValueArguments(v)) == EncodeElement(key, Stored(v))
  {
    assert TypeByte(Stored(v)) == TypeByte(v);
    hide Concat, ValueArguments, EncodeValue, Stored, TypeByte;
    Concat3([TypeByte(v)], key, [0]);
    ConcatSplit([[TypeByte(v)], key, [0]], ValueArguments(v));
    ValueArgumentsEncode(v);
  }

  /** Inside a document are its elements; the fifth byte is a type unless it has none. */
  lemma ElementsInside(e: Doc)
    ensures var s := EncodeDoc(e);
            && |s| == |EncodeElements(e)| + 5 && s[4..|s| - 1] == EncodeElements(e)
            && (e == Nil <==> |s| == 5) && (s[4] == 0 <==> e == Nil)
  {
    hide LE32;
    if e.Cons? {
      assert EncodeElements(e)[0] == TypeByte(e.value) != 0;
    }
  }
}
