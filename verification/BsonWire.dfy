/** The bytes of the BSON specification, version 1.1, written out: type bytes, lengths, and the order of everything. */
module BsonWire {
  import opened CInt
  import opened LittleEndian
  import opened BsonTree
  import opened BsonArguments

  /** Four bytes of an integer, least significant first; of a negative one, in two's complement. */
  function Four(n: int): bytes {
    [n % 256, n / 256 % 256, n / 65536 % 256, n / 16777216 % 256]
  }

  function Eight(n: int): bytes {
    Four(n) + Four(n / 4294967296)
  }

  lemma Read4(n: nat)
    ensures LE(n, 4) == Four(n)
  {
    assert n / 256 / 256 == n / 65536 && n / 65536 / 256 == n / 16777216;
    var (a, b, c) := (n / 256, n / 65536, n / 16777216);
    assert LE(c, 1) == [c % 256] + [];
    assert LE(b, 2) == [b % 256] + LE(c, 1);
    assert LE(a, 3) == [a % 256] + LE(b, 2);
    assert LE(n, 4) == [n % 256] + LE(a, 3);
  }

  /** Multiples of 2^32 do not show in the four bytes. */
  lemma SameFour(n: int, u: int, k: int)
    requires n == u + k * 4294967296
    ensures Four(n) == Four(u)
  {
    LowByte(n, u, 16777216 * k);
    assert n / 256 == u / 256 + 16777216 * k;
    LowByte(n / 256, u / 256, 65536 * k);
    assert n / 65536 == u / 65536 + 65536 * k;
    LowByte(n / 65536, u / 65536, 256 * k);
    assert n / 16777216 == u / 16777216 + 256 * k;
    LowByte(n / 16777216, u / 16777216, k);
  }

  lemma LowByte(n: int, u: int, k: int)
    requires n == u + 256 * k
    ensures n % 256 == u % 256
  {
  }

  lemma FourBytes(n: int)
    ensures LE32(n) == Four(n)
  {
    hide LE, Four;
    var u := n % TWO_32;
    Read4(u);
    SameFour(n, u, n / TWO_32);
  }

  lemma EightBytes(n: int)
    ensures LE64(n) == Eight(n)
  {
    hide LE, Four, Pow256;
    var (u, q) := (n % TWO_64, n / TWO_64);
    var (low, high) := (u % TWO_32, u / TWO_32);
    Pow256Table();
    LESplit(low, high, 4, 4);
    Read4(low);
    Read4(high);
    SameFour(n, low, high + q * TWO_32);
    assert n / TWO_32 == high + q * TWO_32;
    SameFour(n / TWO_32, high, q);
  }

  /** A string: its length with the NUL, its bytes, and the NUL. */
  function Str(s: bytes): bytes {
    Four(|s| + 1) + s + [0]
  }

  /** Every kind of element, byte by byte. */
  lemma ElementBytes(key: bytes, v: Value)
    ensures EncodeElement(key, v)
         == match v
            case Double(bits) => [0x01] + key + [0] + Eight(bits)
            case Utf8(s) => [0x02] + key + [0] + Str(s)
            case Document(d) => [0x03] + key + [0] + EncodeDoc(d)
            case Array(d) => [0x04] + key + [0] + EncodeDoc(d)
            case Binary(sub, data) =>
              [0x05] + key + [0]
              + if sub == 2 then Four(|data| + 4) + [2] + Four(|data|) + data else Four(|data|) + [sub] + data
            case Undefined => [0x06] + key + [0]
            case Oid(oid) => [0x07] + key + [0] + oid
            case Bool(b) => [0x08] + key + [0] + [if b then 1 else 0]
            case DateTime(ms) => [0x09] + key + [0] + Eight(ms)
            case Null => [0x0A] + key + [0]
            case Regex(p, options) => [0x0B] + key + [0] + p + [0] + options + [0]
            case DbPointer(c, oid) => [0x0C] + key + [0] + Str(c) + oid
            case Code(s) => [0x0D] + key + [0] + Str(s)
            case Symbol(s) => [0x0E] + key + [0] + Str(s)
            case CodeWithScope(js, end, d) =>
              [0x0F] + key + [0] + Four(|js| + |EncodeDoc(d)| + 9) + Four(|js| + 1) + js + [end] + EncodeDoc(d)
            case Int32(i) => [0x10] + key + [0] + Four(i)
            case Timestamp(t, i) => [0x11] + key + [0] + Four(i) + Four(t)
            case Int64(i) => [0x12] + key + [0] + Eight(i)
            case Decimal128(low, high) => [0x13] + key + [0] + Eight(low) + Eight(high)
            case MaxKey => [0x7F] + key + [0]
            case MinKey => [0xFF] + key + [0]
  {
    hide LE32, LE64, Four, Eight, EncodeDoc;
    forall n: int ensures LE32(n) == Four(n) { FourBytes(n); }
    forall n: int ensures LE64(n) == Eight(n) { EightBytes(n); }
  }

  /** A document: its length, its elements in order, and a zero. */
  lemma DocumentBytes(d: Doc)
    ensures EncodeDoc(d) == Four(|EncodeElements(d)| + 5) + EncodeElements(d) + [0]
    ensures EncodeElements(Nil) == [] && (d.Cons? ==> EncodeElements(d) == EncodeElement(d.key, d.value) + EncodeElements(d.rest))
  {
    hide LE32, Four;
    FourBytes(|EncodeElements(d)| + 5);
  }

  // ---------------------------------------------------------------------------------------------------------
  // What an append stores
  // ---------------------------------------------------------------------------------------------------------

  ghost predicate Ascending(s: bytes) {
    forall i, j :: 0 <= i < j < |s| ==> s[i] < s[j]
  }

  lemma {:induction false} SelectedAscending(template: bytes, selector: bytes)
    requires Ascending(template)
    ensures Ascending(SelectedChars(template, selector))
  {
    if template != [] {
      var rest := SelectedChars(template[1..], selector);
      SelectedAscending(template[1..], selector);
      forall j | 0 <= j < |rest| ensures template[0] < rest[j] {
        assert rest[j] in template[1..];
        var i :| 0 <= i < |template[1..]| && template[1..][i] == rest[j];
        assert template[i + 1] == rest[j];
      }
    }
  }

  /** In ascending order, each once: those of i, l, m, s, u and x that were given. */
  ghost predicate SortedOptions(sorted: bytes, given: bytes) {
    && Ascending(sorted)
    && forall c: byte :: c in sorted <==>
         c in given && (c == 'i' as int || c == 'l' as int || c == 'm' as int || c == 's' as int || c == 'u' as int
                        || c == 'x' as int)
  }

  /** The options of a regular expression are stored sorted; everything else as it was given, and code ends in a NUL. */
  lemma StoredValue(v: Value)
    ensures v.Regex? ==> Stored(v).Regex? && Stored(v).pattern == v.pattern && SortedOptions(Stored(v).options, v.options)
    ensures v.CodeWithScope? ==> Stored(v) == CodeWithScope(v.js, 0, v.scope)
    ensures !v.Regex? && !v.CodeWithScope? ==> Stored(v) == v
  {
    hide SelectedChars;
    if v.Regex? { SelectedAscending(REGEX_OPTIONS_SORTED, v.options); }
  }

  /** What an append of a regular expression adds, byte by byte. */
  ghost predicate RegexBytes(added: bytes, key: bytes, pattern: bytes, options: bytes) {
    exists sorted :: SortedOptions(sorted, options) && added == [0x0B] + key + [0] + pattern + [0] + sorted + [0]
  }

  lemma StoredRegex(key: bytes, v: Value)
    ensures v.Regex? ==> RegexBytes(EncodeElement(key, Stored(v)), key, v.pattern, v.options)
  {
    hide SortedOptions, Stored, EncodeElement;
    StoredValue(v);
    ElementBytes(key, Stored(v));
  }
}
