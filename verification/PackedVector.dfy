/** Vectors of single bits, packed into the payload of a binary element. */
module PackedVector {
  import opened CInt
  import opened BsonTree
  import opened JsonText
  import opened PackedBits

  const HEADER_LENGTH := 2
  const PACKED_BIT: bv8 := 0x10 // element type 1, element size 0
  const COUNT_MAX := (TWO_32 - 1 - HEADER_LENGTH) * 8

  // ---------------------------------------------------------------------------------------------------------
  // What a payload means
  // ---------------------------------------------------------------------------------------------------------

  function Padding(header1: bv8): (p: nat)
    ensures p < 8
  {
    (header1 & 7) as nat
  }

  /** bson_vector_packed_bit_validate, with the length check before it. */
  predicate Validate(s: seq<bv8>) {
    && |s| >= HEADER_LENGTH && s[0] == PACKED_BIT && s[1] == Padding(s[1]) as bv8
    && if |s| == HEADER_LENGTH then Padding(s[1]) == 0 else s[|s| - 1] & UnusedMask(Padding(s[1])) == 0
  }

  function Length(s: seq<bv8>): int
    requires |s| >= HEADER_LENGTH
  {
    (|s| - HEADER_LENGTH) * 8 - Padding(s[1])
  }

  /** Bit e of the payload behind the header, elements and unused bits alike. */
  predicate BitAt(s: seq<bv8>, e: nat)
    requires e < (|s| - HEADER_LENGTH) * 8
  {
    Bit(s[HEADER_LENGTH + e / 8], e % 8)
  }

  function Elements(s: seq<bv8>): (r: seq<bool>)
    requires |s| >= HEADER_LENGTH && Length(s) >= 0
    ensures |r| == Length(s) && forall e :: 0 <= e < |r| ==> r[e] == BitAt(s, e)
  {
    seq(Length(s), e requires 0 <= e < Length(s) => BitAt(s, e))
  }

  /** What a valid payload is: a header, and no bit set behind the last element. */
  ghost predicate Clean(s: seq<bv8>) {
    && |s| >= HEADER_LENGTH && s[0] == PACKED_BIT && s[1] == Padding(s[1]) as bv8 && Length(s) >= 0
    && forall e :: Length(s) <= e < (|s| - HEADER_LENGTH) * 8 ==> !BitAt(s, e)
  }

  lemma ValidIsClean(s: seq<bv8>)
    ensures Validate(s) <==> Clean(s)
  {
    hide UnusedMask, Bit, BitAt, Padding;
    if |s| > HEADER_LENGTH {
      UnusedClear(s[|s| - 1], Padding(s[1]));
      LastBits(s, Padding(s[1]));
    }
  }

  /** The last p bits of a payload are the last p bits of its last byte. */
  lemma LastBits(s: seq<bv8>, p: nat)
    requires |s| > HEADER_LENGTH && p < 8
    ensures var (end, last) := ((|s| - HEADER_LENGTH) * 8, s[|s| - 1]);
            (forall j :: 8 - p <= j < 8 ==> !Bit(last, j)) <==> (forall e :: end - p <= e < end ==> !BitAt(s, e))
  {
    hide Bit;
    var (n, last) := (|s| - HEADER_LENGTH, s[|s| - 1]);
    var end := n * 8;
    forall e | end - p <= e < end ensures BitAt(s, e) == Bit(last, e - (end - 8)) {
      InByte(e, n - 1, e - (end - 8));
    }
    if forall e :: end - p <= e < end ==> !BitAt(s, e) {
      forall j | 8 - p <= j < 8 ensures !Bit(last, j) {
        assert !BitAt(s, end - 8 + j);
      }
    }
  }

  lemma InByte(e: nat, q: nat, r: nat)
    requires e == 8 * q + r && r < 8
    ensures e / 8 == q && e % 8 == r
  {
  }

  /** A valid payload is determined by its elements: however they were packed, the bytes are the same. */
  lemma SameElementsSameBytes(s: seq<bv8>, t: seq<bv8>)
    requires Validate(s) && Validate(t) && Elements(s) == Elements(t)
    ensures s == t
  {
    hide UnusedMask, Bit, Validate, Padding;
    ValidIsClean(s);
    ValidIsClean(t);
    SameLength(s, t);
    forall i | HEADER_LENGTH <= i < |s| ensures s[i] == t[i] {
      forall j | 0 <= j < 8 ensures Bit(s[i], j) == Bit(t[i], j) {
        var e := (i - HEADER_LENGTH) * 8 + j;
        assert e / 8 == i - HEADER_LENGTH && e % 8 == j;
        assert e < Length(s) ==> Elements(s)[e] == Elements(t)[e];
        assert BitAt(s, e) == BitAt(t, e);
      }
      SameBits(s[i], t[i]);
    }
  }

  lemma SameLength(s: seq<bv8>, t: seq<bv8>)
    requires Clean(s) && Clean(t) && Length(s) == Length(t)
    ensures |s| == |t| && s[1] == t[1]
  {
  }

  /** The payload for some bits: the type and the unused bits of the last byte, then eight bits a byte. */
  function Payload(bits: seq<bool>): (s: seq<bv8>)
    ensures |s| == 2 + (|bits| + 7) / 8
  {
    [0x10, ((8 - |bits| % 8) % 8) as bv8] + seq((|bits| + 7) / 8, i requires 0 <= i => EightBits(bits, 8 * i))
  }

  /** The valid payloads are those of bit sequences, and each is the payload of its elements. */
  lemma PayloadIff(s: seq<bv8>)
    ensures Validate(s) <==> |s| >= 2 && Length(s) >= 0 && s == Payload(Elements(s))
  {
    hide Bit, Validate, Padding, EightBits;
    ValidIsClean(s);
    if Validate(s) {
      OfElements(s);
    } else if |s| >= 2 && Length(s) >= 0 && s == Payload(Elements(s)) {
      PayloadElements(Elements(s));
    }
  }

  lemma OfElements(s: seq<bv8>)
    requires Validate(s)
    ensures Length(s) >= 0 && s == Payload(Elements(s))
  {
    hide Validate;
    ValidIsClean(s);
    var bits := Elements(s);
    PayloadElements(bits);
    SameElementsSameBytes(s, Payload(bits));
  }

  lemma PayloadElements(bits: seq<bool>)
    ensures Validate(Payload(bits)) && Elements(Payload(bits)) == bits
  {
    hide Bit, Validate, EightBits;
    var s := Payload(bits);
    PaddingStored((8 - |bits| % 8) % 8);
    forall e: nat | e < (|s| - 2) * 8 ensures BitAt(s, e) == (e < |bits| && bits[e]) {
      BitOfEight(bits, 8 * (e / 8), e % 8);
    }
    ValidIsClean(s);
  }

  // ---------------------------------------------------------------------------------------------------------
  // Views
  // ---------------------------------------------------------------------------------------------------------

  /** bson_vector_packed_bit_binary_data_length: zero stands for too many. */
  function BinaryDataLength(count: nat): nat {
    if count > COUNT_MAX then 0 else (count + 7) / 8 + HEADER_LENGTH
  }

  /** A payload and a copy of its header. */
  datatype View = View(data: array<bv8>, header0: bv8, header1: bv8) {
    ghost predicate Valid()
      reads data
    {
      HEADER_LENGTH <= data.Length && header0 == data[0] && header1 == data[1] && Validate(data[..])
    }

    function Count(): int {
      (data.Length - HEADER_LENGTH) * 8 - Padding(header1)
    }

    ghost function Contents(): (r: seq<bool>)
      requires Valid()
      reads data
      ensures |r| == Count()
    {
      ValidIsClean(data[..]);
      Elements(data[..])
    }
  }

  /** bson_vector_packed_bit_const_view_init: a view is given exactly of the payloads with no bit set behind their elements. */
  method ViewInit(data: array<bv8>) returns (view: Option<View>)
    ensures view.Some? <==> Clean(data[..])
    ensures view.Some? ==> view.value.data == data && view.value.Valid()
  {
    hide Clean;
    ValidIsClean(data[..]);
    if data.Length >= HEADER_LENGTH && Validate(data[..]) {
      return Some(View(data, data[0], data[1]));
    }
    return None;
  }

  /** bson_append_vector_packed_bit_uninit: a payload for the given number of elements, whose values are left open. */
  method Uninit(count: nat) returns (view: Option<View>)
    requires count < TWO_64
    ensures view.Some? <==> count <= 34_359_738_344
    ensures view.Some? ==> fresh(view.value.data) && view.value.Valid() && view.value.Count() == count
    ensures view.Some? ==> view.value.data[..] == Payload(view.value.Contents())
  {
    var length := BinaryDataLength(count);
    if length < HEADER_LENGTH {
      return None;
    }
    var binary := new bv8[length];
    var padding := (TWO_64 - count) % TWO_64 % 8;
    PaddingOfCount(count);
    PaddingStored(padding);
    binary[0], binary[1] := PACKED_BIT, padding as bv8;
    if count > 0 && padding > 0 {
      binary[length - 1] := 0;
    }
    AnyClean(binary[..], padding);
    PayloadIff(binary[..]);
    return Some(View(binary, binary[0], binary[1]));
  }

  lemma PaddingOfCount(count: nat)
    requires count < TWO_64
    ensures var p := (TWO_64 - count) % TWO_64 % 8; p < 8 && (count + 7) / 8 * 8 - p == count
  {
    if count > 0 {
      assert (TWO_64 - count) % TWO_64 == TWO_64 - count;
    }
  }

  lemma PaddingStored(p: nat)
    requires p < 8
    ensures Padding(p as bv8) == p
  {
  }

  lemma AnyClean(s: seq<bv8>, p: nat)
    requires |s| >= HEADER_LENGTH && s[0] == PACKED_BIT && p < 8 && s[1] == p as bv8
    requires |s| == HEADER_LENGTH ==> p == 0
    requires |s| > HEADER_LENGTH && p > 0 ==> s[|s| - 1] == 0
    ensures Validate(s)
  {
    PaddingStored(p);
  }

  // ---------------------------------------------------------------------------------------------------------
  // Packing and unpacking
  // ---------------------------------------------------------------------------------------------------------

  /** The bits from offset on are the values; everything else is as before. */
  ghost predicate Wrote(before: seq<bv8>, after: seq<bv8>, offset: nat, values: seq<bool>) {
    && |before| == |after| >= HEADER_LENGTH && after[..HEADER_LENGTH] == before[..HEADER_LENGTH]
    && forall e :: 0 <= e < (|after| - HEADER_LENGTH) * 8 ==>
         BitAt(after, e) == if offset <= e < offset + |values| then values[e - offset] else BitAt(before, e)
  }

  lemma WroteElements(before: seq<bv8>, after: seq<bv8>, offset: nat, values: seq<bool>)
    requires Validate(before) && Wrote(before, after, offset, values) && offset + |values| <= Length(before)
    ensures Validate(after) && Length(after) == Length(before) >= 0
    ensures Elements(after) == Elements(before)[..offset] + values + Elements(before)[offset + |values|..]
  {
    hide Validate, Padding, BitAt;
    ValidIsClean(before);
    assert after[0] == after[..HEADER_LENGTH][0] && after[1] == after[..HEADER_LENGTH][1];
    assert before[0] == before[..HEADER_LENGTH][0] && before[1] == before[..HEADER_LENGTH][1];
    assert Clean(after);
    ValidIsClean(after);
  }

  /** One byte further: the byte's bits are the next values where those reach, and its old bits elsewhere. */
  lemma WroteMore(before: seq<bv8>, cur: seq<bv8>, offset: nat, done: seq<bool>, next: seq<bool>, b: bv8)
    requires Wrote(before, cur, offset, done) && next != []
    requires (offset + |done|) % 8 + |next| <= 8 && offset + |done| + |next| <= (|cur| - HEADER_LENGTH) * 8
    requires var o := offset + |done|;
             forall j :: 0 <= j < 8 ==>
               Bit(b, j) == if o % 8 <= j < o % 8 + |next| then next[j - o % 8] else Bit(cur[HEADER_LENGTH + o / 8], j)
    ensures var i := HEADER_LENGTH + (offset + |done|) / 8; i < |cur| && Wrote(before, cur[i := b], offset, done + next)
  {
    hide Bit;
    var o := offset + |done|;
    var i := HEADER_LENGTH + o / 8;
    var after := cur[i := b];
    assert o == o / 8 * 8 + o % 8;
    forall e | 0 <= e < (|after| - HEADER_LENGTH) * 8
      ensures BitAt(after, e) == if o <= e < o + |next| then next[e - o] else BitAt(cur, e)
    {
      if e / 8 == o / 8 {
        assert e - o == e % 8 - o % 8;
      } else {
        assert e < o || e >= o + |next|;
      }
    }
  }

  /** The byte the fast path assembles from eight values. */
  method CompleteByte(values: seq<bool>, k: nat) returns (b: bv8)
    requires k + 8 <= |values|
    ensures forall j :: 0 <= j < 8 ==> Bit(b, j) == values[k + j]
  {
    hide Bit, Mask;
    b := 0;
    forall j | 0 <= j < 8 ensures !Bit(b, j) { NoBits(j); }
    for i := 0 to 8
      invariant forall j :: 0 <= j < 8 ==> Bit(b, j) == (j < i && values[k + j])
    {
      var more := b | if values[k + i] then Mask(i) else 0;
      forall j | 0 <= j < 8 ensures Bit(more, j) == if j == i then values[k + i] else Bit(b, j) {
        AddBit(b, i, values[k + i], j);
      }
      b := more;
    }
  }

  /** bson_vector_packed_bit_view_pack_bool: eight at a time where that is possible, otherwise bit by bit. */
  method PackBool(view: View, values: seq<bool>, offset: nat) returns (ok: bool)
    requires view.Valid()
    modifies view.data
    ensures view.Valid() && (ok <==> offset + |values| <= view.Count())
    ensures ok ==> view.Contents() == old(view.Contents())[..offset] + values + old(view.Contents())[offset + |values|..]
    ensures !ok ==> view.data[..] == old(view.data[..])
  {
    hide Bit, Mask, Validate, Padding;
    ValidIsClean(view.data[..]);
    if !(offset <= view.Count() && |values| <= view.Count() - offset) {
      return false;
    }
    ghost var before := view.data[..];
    var k := 0;
    assert values[..k] == [];
    while k < |values|
      invariant k <= |values| && Wrote(before, view.data[..], offset, values[..k])
    {
      var o := offset + k;
      var at := HEADER_LENGTH + o / 8;
      ghost var cur := view.data[..];
      var step, b;
      if |values| - k >= 8 && o % 8 == 0 {
        b := CompleteByte(values, k);
        step := 8;
      } else {
        b := With(view.data[at], o % 8, values[k]);
        forall j | 0 <= j < 8 ensures Bit(b, j) == if j == o % 8 then values[k] else Bit(cur[at], j) {
          WithBit(cur[at], o % 8, values[k], j);
        }
        step := 1;
      }
      WroteMore(before, cur, offset, values[..k], values[k..k + step], b);
      view.data[at] := b;
      assert view.data[..] == cur[at := b];
      assert values[..k] + values[k..k + step] == values[..k + step];
      k := k + step;
    }
    assert values[..k] == values;
    WroteElements(before, view.data[..], offset, values);
    return true;
  }

  /** bson_vector_packed_bit_const_view_unpack_bool. */
  method UnpackBool(view: View, count: nat, offset: nat) returns (values: Option<seq<bool>>)
    requires view.Valid()
    ensures values.Some? <==> offset + count <= view.Count()
    ensures values.Some? ==> values.value == view.Contents()[offset..offset + count]
  {
    hide Bit, Mask, Validate, Padding;
    ValidIsClean(view.data[..]);
    if !(offset <= view.Count() && count <= view.Count() - offset) {
      return None;
    }
    var out := [];
    for i := 0 to count
      invariant out == view.Contents()[offset..offset + i]
    {
      var e := offset + i;
      var b := view.data[HEADER_LENGTH + e / 8];
      assert BitAt(view.data[..], e) == Bit(b, e % 8);
      out := out + [Bit(b, e % 8)];
    }
    return Some(out);
  }

  // ---------------------------------------------------------------------------------------------------------
  // Whole bytes
  // ---------------------------------------------------------------------------------------------------------

  /** The bits of whole bytes. */
  function BitsOf(packed: seq<bv8>): (r: seq<bool>)
    ensures |r| == 8 * |packed| && forall e :: 0 <= e < |r| ==> r[e] == Bit(packed[e / 8], e % 8)
  {
    seq(8 * |packed|, e requires 0 <= e < 8 * |packed| => Bit(packed[e / 8], e % 8))
  }

  /** The bits of the bytes read are the elements from that byte on, and zeros where there are no more elements. */
  method ReadPacked(view: View, count: nat, offset: nat) returns (packed: Option<seq<bv8>>)
    requires view.Valid()
    ensures packed.Some? <==> offset + count <= view.data.Length - HEADER_LENGTH
    ensures packed.Some? ==> packed.value == view.data[HEADER_LENGTH + offset..HEADER_LENGTH + offset + count]
    ensures packed.Some? ==>
            forall e :: 0 <= e < 8 * count ==>
              BitsOf(packed.value)[e] == (8 * offset + e < view.Count() && view.Contents()[8 * offset + e])
  {
    hide Bit, Validate, Padding;
    ValidIsClean(view.data[..]);
    var lengthBytes := view.data.Length - HEADER_LENGTH;
    if offset <= lengthBytes && count <= lengthBytes - offset {
      var bytes := view.data[HEADER_LENGTH + offset..HEADER_LENGTH + offset + count];
      forall e | 0 <= e < 8 * count ensures BitsOf(bytes)[e] == BitAt(view.data[..], 8 * offset + e) {
        Shifted(8 * offset + e, offset);
      }
      return Some(bytes);
    }
    return None;
  }

  /** The last byte keeps its unused bits clear, so the elements are the packed bits and the payload stays valid. */
  method WritePacked(view: View, packed: seq<bv8>, offset: nat) returns (ok: bool)
    requires view.Valid()
    modifies view.data
    ensures view.Valid() && (ok <==> offset + |packed| <= view.data.Length - HEADER_LENGTH)
    ensures ok ==>
            forall e :: 0 <= e < view.Count() ==>
              view.Contents()[e] ==
              if 8 * offset <= e < 8 * (offset + |packed|) then BitsOf(packed)[e - 8 * offset] else old(view.Contents())[e]
    ensures !ok ==> view.data[..] == old(view.data[..])
  {
    hide Bit, Mask, Validate, Padding, UsedMask;
    ValidIsClean(view.data[..]);
    var lengthBytes := view.data.Length - HEADER_LENGTH;
    if !(offset <= lengthBytes && |packed| <= lengthBytes - offset) {
      return false;
    }
    ghost var before := view.data[..];
    var written := packed;
    if |packed| == lengthBytes - offset && |packed| >= 1 {
      var other := |packed| - 1;
      written := packed[..other] + [UsedMask(Padding(view.header1)) & packed[other]];
    }
    forall i | 0 <= i < |written| {
      view.data[HEADER_LENGTH + offset + i] := written[i];
    }
    PackedWritten(before, view.data[..], packed, offset);
    return true;
  }

  /** What stands at i once the packed bytes are written from start on; the last byte of all loses its unused bits. */
  function WrittenByte(before: seq<bv8>, packed: seq<bv8>, start: nat, i: nat): bv8
    requires HEADER_LENGTH <= |before| && i < |before|
  {
    if !(start <= i < start + |packed|) then before[i]
    else if i == |before| - 1 then UsedMask(Padding(before[1])) & packed[i - start]
    else packed[i - start]
  }

  lemma PackedWritten(before: seq<bv8>, after: seq<bv8>, packed: seq<bv8>, offset: nat)
    requires Validate(before) && |after| == |before| && HEADER_LENGTH + offset + |packed| <= |before|
    requires forall i :: 0 <= i < |before| ==> after[i] == WrittenByte(before, packed, HEADER_LENGTH + offset, i)
    ensures Validate(after) && Length(after) == Length(before) >= 0
    ensures forall e :: 0 <= e < Length(after) ==>
              Elements(after)[e] ==
              if 8 * offset <= e < 8 * (offset + |packed|) then BitsOf(packed)[e - 8 * offset] else Elements(before)[e]
  {
    hide Bit, Mask, Validate, Padding, UsedMask, BitAt;
    ValidIsClean(before);
    forall e | 0 <= e < (|after| - HEADER_LENGTH) * 8
      ensures BitAt(after, e) ==
              if 8 * offset <= e < 8 * (offset + |packed|) then e < Length(before) && BitsOf(packed)[e - 8 * offset]
              else BitAt(before, e)
    {
      PackedBit(before, after, packed, offset, e);
    }
    assert after[0] == before[0] && after[1] == before[1];
    assert Clean(after);
    ValidIsClean(after);
  }

  lemma PackedBit(before: seq<bv8>, after: seq<bv8>, packed: seq<bv8>, offset: nat, e: nat)
    requires |after| == |before| && HEADER_LENGTH + offset + |packed| <= |before| && e < (|before| - HEADER_LENGTH) * 8
    requires var i := HEADER_LENGTH + e / 8; after[i] == WrittenByte(before, packed, HEADER_LENGTH + offset, i)
    ensures BitAt(after, e) ==
            if 8 * offset <= e < 8 * (offset + |packed|) then e < Length(before) && BitsOf(packed)[e - 8 * offset]
            else BitAt(before, e)
  {
    hide Bit, Mask, Padding, UsedMask;
    Shifted(e, offset);
    var i := e / 8 - offset;
    if 0 <= i < |packed| {
      UsedBit(packed[i], Padding(before[1]), e % 8);
      assert BitsOf(packed)[e - 8 * offset] == Bit(packed[i], e % 8);
    }
  }

  lemma Shifted(e: nat, offset: nat)
    ensures e >= 8 * offset ==> (e - 8 * offset) / 8 == e / 8 - offset && (e - 8 * offset) % 8 == e % 8
    ensures e / 8 >= offset <==> e >= 8 * offset
  {
  }

  // ---------------------------------------------------------------------------------------------------------
  // Arrays
  // ---------------------------------------------------------------------------------------------------------

  datatype Conversion<T> = Done(result: T) | WrongKey | WrongType | WrongValue | TooLarge

  /** The bits an array of integers and booleans stands for, its keys counting from i; the first fault otherwise. */
  function ArrayBits(d: Doc, i: nat): Conversion<seq<bool>> {
    match d
    case Nil => Done([])
    case Cons(key, v, rest) =>
      if key != Decimal(i) then WrongKey
      else if !v.Int32? && !v.Int64? && !v.Bool? then WrongType
      else
        var n := AsInt64(v);
        if n < 0 || n > 1 then WrongValue
        else
          var r := ArrayBits(rest, i + 1);
          if r.Done? then Done([n == 1] + r.result) else r
  }

  /** bson_iter_as_int64, for the types that get that far. */
  function AsInt64(v: Value): int {
    match v
    case Bool(b) => if b then 1 else 0
    case Int32(n) => n
    case Int64(n) => n
    case _ => 0
  }

  function Size(d: Doc): nat {
    if d.Nil? then 0 else 1 + Size(d.rest)
  }

  /** The first pass over an array: whether every element is a bit, and how many there are. */
  method CheckArray(d: Doc) returns (r: Conversion<nat>)
    ensures var bits := ArrayBits(d, 0);
            match r
            case Done(count) => bits.Done? && count == |bits.result| == Size(d)
            case WrongKey => bits.WrongKey?
            case WrongType => bits.WrongType?
            case WrongValue => bits.WrongValue?
            case TooLarge => false
  {
    hide Decimal;
    var count, it := 0, d;
    ghost var seen: seq<bool> := [];
    PrependNone(ArrayBits(d, 0));
    while it.Cons?
      invariant count == |seen| && Size(it) + count == Size(d)
      invariant ArrayBits(d, 0) == Prepend(seen, ArrayBits(it, count))
      decreases it
    {
      if it.key != Decimal(count) {
        return WrongKey;
      }
      if !it.value.Int32? && !it.value.Int64? && !it.value.Bool? {
        return WrongType;
      }
      var n := AsInt64(it.value);
      if n < 0 || n > 1 {
        return WrongValue;
      }
      PrependMore(seen, n == 1, ArrayBits(it.rest, count + 1));
      seen := seen + [n == 1];
      count, it := count + 1, it.rest;
    }
    return Done(count);
  }

  /** bson_append_vector_packed_bit_from_array: checks every element, then packs them one at a time. */
  method FromArray(d: Doc) returns (r: Conversion<View>)
    requires Size(d) < TWO_32
    ensures var bits := ArrayBits(d, 0);
            match r
            case Done(view) =>
              fresh(view.data) && view.Valid() && bits == Done(view.Contents()) && view.data[..] == Payload(bits.result)
            case WrongKey => bits.WrongKey?
            case WrongType => bits.WrongType?
            case WrongValue => bits.WrongValue?
            case TooLarge => false
  {
    hide BitAt, Validate, Padding, Decimal, Clean, Elements;
    var checked := CheckArray(d);
    match checked
    case WrongKey => return WrongKey;
    case WrongType => return WrongType;
    case WrongValue => return WrongValue;
    case TooLarge => return TooLarge;
    case Done(count) =>
      var uninit := Uninit(count);
      if uninit == None {
        return TooLarge;
      }
      PackElements(d, uninit.value);
      PayloadIff(uninit.value.data[..]);
      return Done(uninit.value);
  }

  /** The second pass. */
  method PackElements(d: Doc, view: View)
    requires view.Valid() && ArrayBits(d, 0).Done? && |ArrayBits(d, 0).result| == view.Count() == Size(d)
    modifies view.data
    ensures view.Valid() && ArrayBits(d, 0) == Done(view.Contents())
  {
    hide BitAt, Validate, Padding, Decimal, Clean, Elements;
    ghost var bits := ArrayBits(d, 0).result;
    assert bits[0..] == bits;
    var it := d;
    for i := 0 to view.Count()
      invariant view.Valid() && Size(it) + i == view.Count()
      invariant view.Contents()[..i] == bits[..i]
      invariant ArrayBits(it, i) == Done(bits[i..])
    {
      var bit := AsInt64(it.value) != 0;
      assert bits[i..][0] == bits[i] && bits[i..][1..] == bits[i + 1..];
      var ok := PackBool(view, [bit], i);
      it := it.rest;
    }
    assert view.Contents() == bits;
  }

  function Prepend(seen: seq<bool>, r: Conversion<seq<bool>>): Conversion<seq<bool>> {
    if r.Done? then Done(seen + r.result) else r
  }

  lemma PrependNone(r: Conversion<seq<bool>>)
    ensures Prepend([], r) == r
  {
    if r.Done? { assert [] + r.result == r.result; }
  }

  lemma PrependMore(seen: seq<bool>, bit: bool, r: Conversion<seq<bool>>)
    ensures Prepend(seen, Prepend([bit], r)) == Prepend(seen + [bit], r)
  {
    if r.Done? { assert seen + ([bit] + r.result) == seen + [bit] + r.result; }
  }

  /** The array of zeros and ones for some bits, its keys counting from i. */
  function BitArray(bits: seq<bool>, i: nat): Doc {
    if bits == [] then Nil else Cons(Decimal(i), Int32(if bits[0] then 1 else 0), BitArray(bits[1..], i + 1))
  }

  lemma {:induction false} BitArraySnoc(bits: seq<bool>, bit: bool, i: nat)
    ensures BitArray(bits + [bit], i) == Snoc(BitArray(bits, i), Decimal(i + |bits|), Int32(if bit then 1 else 0))
  {
    hide Decimal;
    if bits == [] {
      assert [] + [bit] == [bit] && [bit][1..] == [];
    } else {
      assert (bits + [bit])[1..] == bits[1..] + [bit];
      BitArraySnoc(bits[1..], bit, i + 1);
    }
  }

  /** bson_array_builder_append_vector_packed_bit_elements. */
  method ToArray(view: View) returns (d: Doc)
    requires view.Valid()
    ensures d == BitArray(view.Contents(), 0)
  {
    hide Bit, Mask, Validate, Padding, Decimal;
    ValidIsClean(view.data[..]);
    d := Nil;
    for i := 0 to view.Count()
      invariant d == BitArray(view.Contents()[..i], 0)
    {
      var element := UnpackBool(view, 1, i);
      BitArraySnoc(view.Contents()[..i], element.value[0], 0);
      assert view.Contents()[..i] + [element.value[0]] == view.Contents()[..i + 1];
      d := Snoc(d, Decimal(i), Int32(if element.value[0] then 1 else 0));
    }
    assert view.Contents()[..view.Count()] == view.Contents();
  }

  /** An array made from bits is taken back for those bits. */
  lemma {:induction false} BitArrayBack(bits: seq<bool>, i: nat)
    ensures ArrayBits(BitArray(bits, i), i) == Done(bits)
  {
    hide Decimal;
    if bits != [] {
      BitArrayBack(bits[1..], i + 1);
      assert bits == [bits[0]] + bits[1..];
    }
  }
}
