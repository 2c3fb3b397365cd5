/** The document iterator: it finds one element after another in bytes that need not be BSON at all. */
module BsonIter {
  import opened CInt
  import opened LittleEndian
  import opened BsonTree

  /** Where the parts of a value lie, or the offset at which the element is corrupt. */
  datatype Location = At(d2: nat, d3: nat, d4: nat, next: nat) | Corrupt(err: nat)

  /** The index of the first NUL at or after i; i or the length when there is none. */
  function FirstNul(raw: bytes, i: nat): (r: nat)
    ensures i <= r
    ensures r < |raw| ==> raw[r] == 0
    ensures forall j :: i <= j < r && j < |raw| ==> raw[j] != 0
    ensures r >= |raw| ==> r == i || r == |raw|
    decreases |raw| - i
  {
    if i >= |raw| || raw[i] == 0 then i else FirstNul(raw, i + 1)
  }

  function LocateString(raw: bytes, o: nat): (at: Location)
    requires o <= |raw|
    ensures at.At? ==> o + 4 < |raw| && 0 < Read32(raw, o) && at.next == o + 4 + Read32(raw, o) < |raw|
  {
    if o + 4 >= |raw| then Corrupt(o)
    else
      var l := Read32(raw, o);
      if l > |raw| - (o + 4) then Corrupt(o)
      else if l == 0 || o + 4 + l >= |raw| then Corrupt(o)
      else if raw[o + 4 + l - 1] != 0 then Corrupt(o + 4 + l - 1)
      else At(o + 4, 0, 0, o + 4 + l)
  }

  function LocateBinary(raw: bytes, o: nat): (at: Location)
    requires 4 <= o <= |raw|
    ensures at.At? ==> o + 4 < |raw| && at.next == o + 5 + Read32(raw, o) <= |raw|
  {
    if o >= |raw| - 4 then Corrupt(o)
    else
      var l := Read32(raw, o);
      if l >= |raw| - o - 4 then Corrupt(o)
      else if raw[o + 4] == SUBTYPE_BINARY_DEPRECATED && l < 4 then Corrupt(o)
      else if raw[o + 4] == SUBTYPE_BINARY_DEPRECATED && Signed32(Read32(raw, o + 5)) != l - 4 then Corrupt(o + 5)
      else At(o + 4, o + 5, 0, o + 5 + l)
  }

  function LocateDocument(raw: bytes, o: nat): (at: Location)
    requires 4 <= o <= |raw|
    ensures at.At? ==> o + 4 < |raw| && at.next == o + Read32(raw, o) <= |raw|
  {
    if o >= |raw| - 4 then Corrupt(o)
    else
      var l := Read32(raw, o);
      if l > |raw| || l > |raw| - o then Corrupt(o) else At(0, 0, 0, o + l)
  }

  function LocateRegex(raw: bytes, off: nat, o: nat): (at: Location)
    requires o <= |raw|
    ensures at.At? ==> o < at.d2 < at.next <= |raw|
  {
    var p := FirstNul(raw, o);
    if p >= |raw| then Corrupt(off)
    else
      var q := FirstNul(raw, p + 1);
      if q >= |raw| then Corrupt(off) else At(p + 1, 0, 0, q + 1)
  }

  function LocateDbPointer(raw: bytes, o: nat): (at: Location)
    requires 4 <= o <= |raw|
    ensures at.At? ==> o + 4 < |raw| && 0 < Read32(raw, o) && at.d3 == o + 4 + Read32(raw, o) <= |raw|
    ensures at.At? ==> at.next == at.d3 + 12
  {
    if o >= |raw| - 4 then Corrupt(o)
    else
      var l := Read32(raw, o);
      if l == 0 || l > |raw| - o - 4 then Corrupt(o)
      else if raw[o + l + 3] != 0 then Corrupt(o + l + 3)
      else At(o + 4, o + 4 + l, 0, o + 4 + l + 12)
  }

  /** The sum of offsets and the scope's declared length is taken modulo 2^32, as in the source. */
  function LocateCodeWithScope(raw: bytes, o: nat): (at: Location)
    requires o <= |raw|
    ensures at.At? ==> o + 14 < |raw| && 0 < Read32(raw, o + 4) && at.d4 == o + 8 + Read32(raw, o + 4)
    ensures at.At? ==> at.d4 + 4 < at.next == o + Read32(raw, o) < |raw|
  {
    if |raw| < 19 || o >= |raw| - 14 then Corrupt(o)
    else
      var l1 := Read32(raw, o);
      if l1 < 14 || l1 >= |raw| - o then Corrupt(o)
      else if o + l1 >= |raw| then Corrupt(o)
      else
        var l2 := Read32(raw, o + 4);
        if l2 == 0 || l2 >= |raw| - o - 4 - 4 then Corrupt(o)
        else if o + 4 + 4 + l2 + 4 >= o + l1 then Corrupt(o + 4)
        else
          var doclen := Read32(raw, o + 8 + l2);
          if (o + 4 + 4 + l2 + doclen) % TWO_32 != o + l1 then Corrupt(o + 8 + l2)
          else At(o + 4, o + 8, o + 8 + l2, o + l1)
  }

  /** Locates the value of the given type that starts at o in the element that starts at off. */
  function Locate(raw: bytes, off: nat, o: nat, t: byte): (r: Location)
    requires 6 <= o <= |raw| <= MAX_SIZE
    ensures if r.At? then o <= r.next else off > 0 ==> r.err > 0
  {
    if t == 0x09 || t == 0x01 || t == 0x12 || t == 0x11 then At(0, 0, 0, o + 8)
    else if t == 0x0D || t == 0x0E || t == 0x02 then LocateString(raw, o)
    else if t == 0x05 then LocateBinary(raw, o)
    else if t == 0x04 || t == 0x03 then LocateDocument(raw, o)
    else if t == 0x07 then At(0, 0, 0, o + 12)
    else if t == 0x08 then
      if o >= |raw| then Corrupt(o) else if raw[o] != 0 && raw[o] != 1 then Corrupt(o) else At(0, 0, 0, o + 1)
    else if t == 0x0B then LocateRegex(raw, off, o)
    else if t == 0x0C then LocateDbPointer(raw, o)
    else if t == 0x0F then LocateCodeWithScope(raw, o)
    else if t == 0x10 then At(0, 0, 0, o + 4)
    else if t == 0x13 then At(0, 0, 0, o + 16)
    else if t == 0x7F || t == 0xFF || t == 0x0A || t == 0x06 then At(0, 0, 0, o)
    else Corrupt(o)
  }

  /** One move of the iterator: an element with its value, or a stop, which is an error unless err is zero. */
  datatype Move = Element(t: byte, key: bytes, o: nat, at: Location) | Stop(err: nat)

  function MoveFrom(raw: bytes, off: nat): (m: Move)
    requires 4 <= off && |raw| <= MAX_SIZE
    ensures m.Stop? && m.err == 0 <==> FirstNul(raw, off + 1) >= |raw|
    ensures m.Element? ==> m.at.At? && off + 2 <= m.o <= m.at.next < |raw|
  {
    var k := FirstNul(raw, off + 1);
    if k >= |raw| then Stop(0)
    else
      var loc := Locate(raw, off, k + 1, raw[off]);
      if loc.Corrupt? then Stop(loc.err)
      else if loc.next >= |raw| then Stop(if raw[off] == 0x0B then loc.next - 1 else k + 1)
      else Element(raw[off], raw[off + 1..k], k + 1, loc)
  }

  /**
   * The error offset lies in the corrupt element. It is where the value starts, or a place in the value that is to blame:
   * a byte that should be a NUL, the inner length of an old binary, the text or the scope of a code with scope. Of a
   * regular expression it is where the element starts, or the NUL of the options if the buffer ends there.
   */
  lemma ErrorPlace(raw: bytes, off: nat)
    requires 4 <= off && |raw| <= MAX_SIZE && FirstNul(raw, off + 1) < |raw| && MoveFrom(raw, off).Stop?
    ensures var (o, err, t) := (FirstNul(raw, off + 1) + 1, MoveFrom(raw, off).err, raw[off]);
            && off <= err <= |raw|
            && if t == 0x0B then err == off || (err == |raw| - 1 && raw[err] == 0)
               else if t == 0x02 || t == 0x0D || t == 0x0E then
                 err == o || (o + 4 <= |raw| && err == o + 3 + Read32(raw, o) < |raw| && raw[err] != 0)
               else if t == 0x05 then err == o || (err == o + 5 < |raw| && raw[o + 4] == 2)
               else if t == 0x0C then
                 err == o || (o + 4 <= |raw| && err == o + 3 + Read32(raw, o) < |raw| && raw[err] != 0)
               else if t == 0x0F then
                 err == o || err == o + 4 || (o + 8 <= |raw| && err == o + 8 + Read32(raw, o + 4) < |raw|)
               else err == o
  {
    hide FirstNul, LittleEndian.Read;
    var o := FirstNul(raw, off + 1) + 1;
    if raw[off] == 0x0B {
      RegexError(raw, off, o);
    } else {
      hide LocateRegex;
    }
  }

  lemma RegexError(raw: bytes, off: nat, o: nat)
    requires o <= |raw|
    ensures var at := LocateRegex(raw, off, o);
            if at.Corrupt? then at.err == off else 0 < at.next <= |raw| && raw[at.next - 1] == 0
  {
  }

  /** Scans for a NUL and steps past it. */
  method ScanNul(data: bytes, from: nat) returns (found: bool, o: nat)
    ensures found <==> FirstNul(data, from) < |data|
    ensures found ==> o == FirstNul(data, from) + 1
  {
    o := from;
    while o < |data|
      invariant from <= o && FirstNul(data, o) == FirstNul(data, from)
    {
      if data[o] == 0 {
        return true, o + 1;
      }
      o := o + 1;
    }
    found := false;
  }

  /** Scans pattern and options; the position moves along, to the NUL of the options. */
  method ScanRegex(data: bytes, off: nat, o: nat) returns (loc: Location, o': nat)
    requires o <= |data|
    requires 6 <= o && |data| <= MAX_SIZE
    ensures loc == Locate(data, off, o, 0x0B)
    ensures loc.At? ==> o' == loc.next - 1
  {
    var eor, p := ScanNul(data, o);
    if !eor {
      return Corrupt(off), o;
    }
    var eoo, q := ScanNul(data, p);
    if !eoo {
      return Corrupt(off), o;
    }
    return At(p, 0, 0, q), q - 1;
  }

  /** The fields of the C iterator; raw is None once iteration has ended. */
  class Iter {
    var raw: Option<bytes>
    var off: nat
    var key: nat
    var d1: nat
    var d2: nat
    var d3: nat
    var d4: nat
    var nextOff: nat
    var errOff: nat

    ghost predicate Valid()
      reads this
    {
      raw.Some? ==> |raw.value| <= MAX_SIZE && 4 <= nextOff && errOff == 0
    }

    /** The iterator stands on this element. */
    ghost predicate On(data: bytes, m: Move)
      reads this
    {
      && raw == Some(data) && m.Element? && 4 <= off && |data| <= MAX_SIZE
      && MoveFrom(data, off) == m
      && key == off + 1 && d1 == m.o && d2 == m.at.d2 && d3 == m.at.d3 && d4 == m.at.d4
      && nextOff == m.at.next && errOff == 0
    }

    constructor ()
      ensures raw == None && errOff == 0
    {
      raw, off, key, d1, d2, d3, d4, nextOff, errOff := None, 0, 0, 0, 0, 0, 0, 0, 0;
    }

    /** bson_iter_init: the bytes come from a document, whose length alone is looked at. */
    method Init(data: bytes) returns (ok: bool)
      requires |data| <= MAX_SIZE
      modifies this
      ensures ok <==> 5 <= |data|
      ensures Valid() && errOff == 0
      ensures if ok then raw == Some(data) && nextOff == 4 else raw == None
    {
      raw, off, key, d1, d2, d3, d4, nextOff, errOff := None, 0, 0, 0, 0, 0, 0, 0, 0;
      if |data| < 5 {
        return false;
      }
      raw, nextOff := Some(data), 4;
      return true;
    }

    /** bson_iter_init_from_data: the length must match the header and the last byte must be zero. */
    method InitFromData(data: bytes) returns (ok: bool)
      modifies this
      ensures ok <==> 5 <= |data| <= INT_MAX && Read32(data, 0) == |data| && data[|data| - 1] == 0
      ensures Valid() && errOff == 0
      ensures if ok then raw == Some(data) && nextOff == 4 else raw == None
    {
      raw, off, key, d1, d2, d3, d4, nextOff, errOff := None, 0, 0, 0, 0, 0, 0, 0, 0;
      if |data| < 5 || |data| > INT_MAX {
        return false;
      }
      if Read32(data, 0) != |data| {
        return false;
      }
      if data[|data| - 1] != 0 {
        return false;
      }
      raw, nextOff := Some(data), 4;
      return true;
    }

    /** bson_iter_next: moves to the next element or, at the end or at corrupt bytes, invalidates the iterator. */
    method Next() returns (ok: bool)
      requires Valid()
      modifies this
      ensures Valid()
      ensures old(raw) == None ==> !ok && raw == None
      ensures old(raw).Some? ==>
        var data, from := old(raw).value, old(nextOff);
        var m := MoveFrom(data, from);
        && (ok <==> m.Element?)
        && (ok ==> off == from && On(data, m))
        && (!ok ==> raw == None && errOff == m.err)
    {
      hide FirstNul, Locate, LocateRegex;
      if raw == None {
        return false;
      }
      var data := raw.value;
      off := nextOff;
      key := off + 1;
      d1, d2, d3, d4 := 0, 0, 0, 0;
      var found, o := ScanNul(data, key);
      if !found {
        raw, nextOff := None, 0;
        return false;
      }
      d1 := o;
      var loc;
      if data[off] == 0x0B {
        loc, o := ScanRegex(data, off, o);
      } else {
        loc := Locate(data, off, o, data[off]);
      }
      if loc.Corrupt? {
        errOff := loc.err;
        raw, nextOff := None, 0;
        return false;
      }
      d2, d3, d4, nextOff := loc.d2, loc.d3, loc.d4, loc.next;
      if nextOff >= |data| {
        errOff := o;
        raw, nextOff := None, 0;
        return false;
      }
      errOff := 0;
      return true;
    }
  }
}
