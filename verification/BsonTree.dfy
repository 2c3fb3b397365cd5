/** Little-endian integers in byte strings. */
module LittleEndian {
  import opened CInt

  type bytes = seq<byte>

  /** The k lowest bytes of n, least significant first. */
  function LE(n: nat, k: nat): (r: bytes)
    ensures |r| == k
  {
    if k == 0 then [] else [n % 256] + LE(n / 256, k - 1)
  }

  function Read(raw: bytes, o: nat, k: nat): nat
    requires o + k <= |raw|
    decreases k
  {
    if k == 0 then 0 else raw[o] + 256 * Read(raw, o + 1, k - 1)
  }

  ghost function Pow256(k: nat): nat {
    if k == 0 then 1 else 256 * Pow256(k - 1)
  }

  /** Reading an integer that fits is finding its little-endian bytes. */
  lemma {:induction false} ReadIff(raw: bytes, o: nat, k: nat, n: nat)
    requires o + k <= |raw| && n < Pow256(k)
    ensures Read(raw, o, k) == n <==> raw[o..o + k] == LE(n, k)
    decreases k
  {
    if k > 0 {
      ReadIff(raw, o + 1, k - 1, n / 256);
      var s := raw[o..o + k];
      assert s == [raw[o]] + raw[o + 1..o + k];
      assert LE(n, k)[0] == n % 256 && LE(n, k)[1..] == LE(n / 256, k - 1);
      assert s[0] == raw[o] && s[1..] == raw[o + 1..o + k];
    }
  }

  lemma {:induction false} ReadBound(raw: bytes, o: nat, k: nat)
    requires o + k <= |raw|
    ensures Read(raw, o, k) < Pow256(k)
    decreases k
  {
    if k > 0 { ReadBound(raw, o + 1, k - 1); }
  }

  lemma Pow256Table()
    ensures Pow256(4) == TWO_32 && Pow256(8) == TWO_64
  {
    assert Pow256(2) == 0x1_0000;
    assert Pow256(6) == 0x1_0000_0000_0000;
  }

  /** The two's-complement bytes of a 32-bit or 64-bit integer. */
  function LE32(n: int): (r: bytes)
    ensures |r| == 4
  {
    LE(n % TWO_32, 4)
  }

  function LE64(n: int): (r: bytes)
    ensures |r| == 8
  {
    LE(n % TWO_64, 8)
  }

  function Read32(raw: bytes, o: nat): uint32
    requires o + 4 <= |raw|
  {
    ReadBound(raw, o, 4);
    Pow256Table();
    Read(raw, o, 4)
  }

  function Read64(raw: bytes, o: nat): (r: int)
    requires o + 8 <= |raw|
    ensures 0 <= r < TWO_64
  {
    ReadBound(raw, o, 8);
    Pow256Table();
    Read(raw, o, 8)
  }

  /** The two's-complement reading of an unsigned integer. */
  function Signed32(n: int): int
    requires 0 <= n < TWO_32
  {
    if n > INT_MAX then n - TWO_32 else n
  }

  function Signed64(n: int): int64
    requires 0 <= n < TWO_64
  {
    if n > INT64_MAX then n - TWO_64 else n
  }

  lemma Read32Iff(raw: bytes, o: nat, n: uint32)
    requires o + 4 <= |raw|
    ensures Read32(raw, o) == n <==> raw[o..o + 4] == LE32(n)
  {
    hide LE, Read, Pow256;
    Pow256Table();
    ReadIff(raw, o, 4, n);
  }

  lemma Read64Iff(raw: bytes, o: nat, n: int)
    requires o + 8 <= |raw| && 0 <= n < TWO_64
    ensures Read64(raw, o) == n <==> raw[o..o + 8] == LE64(n)
  {
    hide LE, Read, Pow256;
    Pow256Table();
    ReadIff(raw, o, 8, n);
  }

  lemma SignedIff32(raw: bytes, o: nat, i: int)
    requires o + 4 <= |raw| && INT_MIN <= i <= INT_MAX
    ensures Signed32(Read32(raw, o)) == i <==> raw[o..o + 4] == LE32(i)
  {
    hide LE, Read;
    var u := if i < 0 then i + TWO_32 else i;
    assert i % TWO_32 == u == u % TWO_32;
    Read32Iff(raw, o, u);
  }

  lemma SignedIff64(raw: bytes, o: nat, i: int64)
    requires o + 8 <= |raw|
    ensures Signed64(Read64(raw, o)) == i <==> raw[o..o + 8] == LE64(i)
  {
    hide LE, Read;
    var u := if i < 0 then i + TWO_64 else i;
    assert i % TWO_64 == u == u % TWO_64;
    Read64Iff(raw, o, u);
  }
}

/** BSON documents as trees, and their encoding by the grammar of the BSON specification, version 1.1. */
module BsonTree {
  import opened CInt
  import opened LittleEndian

  datatype Value =
    | Double(bits: int)
    | Utf8(text: bytes)
    | Document(doc: Doc)
    | Array(items: Doc)
    | Binary(subtype: byte, data: bytes)
    | Undefined
    | Oid(oid: bytes)
    | Bool(b: bool)
    | DateTime(millis: int)
    | Null
    | Regex(pattern: bytes, options: bytes)
    | DbPointer(collection: bytes, id: bytes)
    | Code(js: bytes)
    | Symbol(text: bytes)
    | CodeWithScope(js: bytes, terminator: byte, scope: Doc)
    | Int32(i32: int)
    | Timestamp(seconds: int, increment: int)
    | Int64(i64: int)
    | Decimal128(low: int, high: int)
    | MaxKey
    | MinKey

  /** A document is a list of keyed values; an array is a document whose keys are the indices in decimal. */
  datatype Doc = Nil | Cons(key: bytes, value: Value, rest: Doc)

  const MAX_SIZE := INT_MAX
  const SUBTYPE_BINARY_DEPRECATED: byte := 2

  function TypeByte(v: Value): byte {
    match v
    case Double(_) => 0x01
    case Utf8(_) => 0x02
    case Document(_) => 0x03
    case Array(_) => 0x04
    case Binary(_, _) => 0x05
    case Undefined => 0x06
    case Oid(_) => 0x07
    case Bool(_) => 0x08
    case DateTime(_) => 0x09
    case Null => 0x0A
    case Regex(_, _) => 0x0B
    case DbPointer(_, _) => 0x0C
    case Code(_) => 0x0D
    case Symbol(_) => 0x0E
    case CodeWithScope(_, _, _) => 0x0F
    case Int32(_) => 0x10
    case Timestamp(_, _) => 0x11
    case Int64(_) => 0x12
    case Decimal128(_, _) => 0x13
    case MaxKey => 0x7F
    case MinKey => 0xFF
  }

  function EncodeString(s: bytes): bytes {
    LE32(|s| + 1) + s + [0]
  }

  function EncodeValue(v: Value): bytes
    decreases v, 0
  {
    match v
    case Double(bits) => LE64(bits)
    case Utf8(s) => EncodeString(s)
    case Document(d) => EncodeDoc(d)
    case Array(d) => EncodeDoc(d)
    case Binary(sub, data) =>
      if sub == SUBTYPE_BINARY_DEPRECATED
      then LE32(|data| + 4) + [sub] + (LE32(|data|) + data)
      else LE32(|data|) + [sub] + data
    case Undefined => []
    case Oid(oid) => oid
    case Bool(b) => [if b then 1 else 0]
    case DateTime(ms) => LE64(ms)
    case Null => []
    case Regex(p, opts) => p + [0] + opts + [0]
    case DbPointer(c, oid) => EncodeString(c) + oid
    case Code(s) => EncodeString(s)
    case Symbol(s) => EncodeString(s)
    case CodeWithScope(js, end, d) =>
      LE32(8 + |js| + 1 + |EncodeDoc(d)|) + (LE32(|js| + 1) + js + [end]) + EncodeDoc(d)
    case Int32(i) => LE32(i)
    case Timestamp(t, i) => LE32(i) + LE32(t)
    case Int64(i) => LE64(i)
    case Decimal128(low, high) => LE64(low) + LE64(high)
    case MaxKey => []
    case MinKey => []
  }

  function EncodeElement(key: bytes, v: Value): bytes
    decreases v, 1
  {
    [TypeByte(v)] + key + [0] + EncodeValue(v)
  }

  function EncodeElements(d: Doc): bytes
    decreases d, 0
  {
    match d
    case Nil => []
    case Cons(key, v, rest) => EncodeElement(key, v) + EncodeElements(rest)
  }

  function EncodeDoc(d: Doc): bytes
    decreases d, 1
  {
    Frame(EncodeElements(d))
  }

  /** The bytes of a document around those of its elements. */
  function Frame(elements: bytes): (r: bytes)
    ensures |r| == |elements| + 5
  {
    LE32(|elements| + 5) + elements + [0]
  }

  /** The values the C types can hold; keys and regular expressions are C strings. */
  predicate WellFormed(v: Value)
    decreases v
  {
    match v
    case Double(bits) => 0 <= bits < TWO_64
    case Document(d) => WellFormedDoc(d)
    case Array(d) => WellFormedDoc(d)
    case Oid(oid) => |oid| == 12
    case DateTime(ms) => INT64_MIN <= ms <= INT64_MAX
    case Regex(p, opts) => 0 !in p && 0 !in opts
    case DbPointer(_, oid) => |oid| == 12
    case CodeWithScope(_, _, d) => WellFormedDoc(d)
    case Int32(i) => INT_MIN <= i <= INT_MAX
    case Timestamp(t, i) => 0 <= t < TWO_32 && 0 <= i < TWO_32
    case Int64(i) => INT64_MIN <= i <= INT64_MAX
    case Decimal128(low, high) => 0 <= low < TWO_64 && 0 <= high < TWO_64
    case _ => true
  }

  predicate WellFormedDoc(d: Doc)
    decreases d
  {
    d.Cons? ==> 0 !in d.key && WellFormed(d.value) && WellFormedDoc(d.rest)
  }

  function Append(d: Doc, e: Doc): Doc {
    match d
    case Nil => e
    case Cons(k, v, rest) => Cons(k, v, Append(rest, e))
  }

  function Snoc(d: Doc, key: bytes, v: Value): Doc {
    Append(d, Cons(key, v, Nil))
  }

  lemma {:induction false} EncodeAppend(d: Doc, e: Doc)
    ensures EncodeElements(Append(d, e)) == EncodeElements(d) + EncodeElements(e)
  {
    match d
    case Nil =>
    case Cons(k, v, rest) => EncodeAppend(rest, e);
  }

  lemma EncodeSnoc(d: Doc, key: bytes, v: Value)
    ensures EncodeElements(Snoc(d, key, v)) == EncodeElements(d) + EncodeElement(key, v)
  {
    EncodeAppend(d, Cons(key, v, Nil));
    assert EncodeElements(Cons(key, v, Nil)) == EncodeElement(key, v) + [];
  }

  lemma {:induction false} AppendAssoc(a: Doc, b: Doc, c: Doc)
    ensures Append(Append(a, b), c) == Append(a, Append(b, c))
  {
    match a
    case Nil =>
    case Cons(_, _, rest) => AppendAssoc(rest, b, c);
  }

  lemma {:induction false} AppendNil(a: Doc)
    ensures Append(a, Nil) == a
  {
    match a
    case Nil =>
    case Cons(_, _, rest) => AppendNil(rest);
  }
}
