/** Document validation: a recursive walk with the iterator, which decides the rules on trees. */
module Validate {
  import opened CInt
  import opened LittleEndian
  import opened BsonTree
  import opened BsonIter
  import opened BsonDecode
  import opened BsonRead
  import opened Utf8
  import opened ValidateRules

  // ---------------------------------------------------------------------------------------------------------
  // The same rules, on the bytes an iterator has yet to read
  // ---------------------------------------------------------------------------------------------------------

  ghost predicate RestOk(p: Params, data: bytes, from: nat, depth: nat)
    requires 4 <= from && |data| <= MAX_SIZE
  {
    DecodeFrom(data, from).Some? && ElementsOk(p, DecodeFrom(data, from).value, depth)
  }

  ghost predicate ElementOk(p: Params, data: bytes, off: nat, depth: nat)
    requires 4 <= off && |data| <= MAX_SIZE && MoveFrom(data, off).Element?
  {
    ElementValue(data, off).Some? && ValueOk(p, ElementValue(data, off).value, depth)
  }

  ghost predicate BytesOk(p: Params, data: bytes, depth: nat)
  {
    Decode(data).Some? && DocOk(p, Decode(data).value, depth)
  }

  // The document breaks the rule of an error code, if it is a document.

  ghost predicate RestBreaks(code: int, data: bytes, from: nat, depth: nat)
    requires 4 <= from && |data| <= MAX_SIZE
  {
    DecodeFrom(data, from).Some? ==> !ElementsMeet(code, DecodeFrom(data, from).value, depth)
  }

  ghost predicate ElementBreaks(code: int, data: bytes, off: nat, depth: nat)
    requires 4 <= off && |data| <= MAX_SIZE && MoveFrom(data, off).Element?
  {
    ElementValue(data, off).Some? ==> !ValueMeets(code, ElementValue(data, off).value, depth)
  }

  ghost predicate BytesBreak(code: int, data: bytes, depth: nat)
  {
    Decode(data).Some? ==> !DocMeets(code, Decode(data).value, depth)
  }

  lemma BreaksStep(code: int, data: bytes, from: nat, depth: nat)
    requires 4 <= from && |data| <= MAX_SIZE
    ensures var m := MoveFrom(data, from);
            if m.Element?
            then !KeyMeets(code, m.key) || ElementBreaks(code, data, from, depth) || RestBreaks(code, data, m.at.next, depth)
                 ==> RestBreaks(code, data, from, depth)
            else m.err != 0 ==> RestBreaks(code, data, from, depth)
  {
    hide MoveFrom, DecodeFrom, ElementValue, KeyMeets, ValueMeets, ElementsMeet;
    DecodeStep(data, from);
    if DecodeFrom(data, from).Some? && DecodeFrom(data, from).value.Cons? {
      MeetsCons(code, DecodeFrom(data, from).value, depth);
    }
  }

  lemma AllBreaks(data: bytes, from: nat, depth: nat)
    requires 4 <= from && |data| <= MAX_SIZE && MoveFrom(data, from).Element?
    ensures var m := MoveFrom(data, from);
            forall code ::
              !KeyMeets(code, m.key) || ElementBreaks(code, data, from, depth) || RestBreaks(code, data, m.at.next, depth)
              ==> RestBreaks(code, data, from, depth)
  {
    hide MoveFrom, KeyMeets, ElementBreaks, RestBreaks;
    forall code: int
      ensures var m := MoveFrom(data, from);
              !KeyMeets(code, m.key) || ElementBreaks(code, data, from, depth) || RestBreaks(code, data, m.at.next, depth)
              ==> RestBreaks(code, data, from, depth)
    {
      BreaksStep(code, data, from, depth);
    }
  }

  /** What breaks a database reference: a wrong type, order or key under code 2, and whatever breaks one of its elements. */
  lemma BreaksRef(code: int, data: bytes, from: nat, depth: nat)
    requires 4 <= from && |data| <= MAX_SIZE && MoveFrom(data, from).Element? && MoveFrom(data, from).key == REF && depth > 0
    ensures var m1 := MoveFrom(data, from);
            var m2 := MoveFrom(data, m1.at.next);
            || (code == 2 && (m1.t != 0x02 || !m2.Element? || m2.key != ID)) || ElementBreaks(code, data, from, depth)
            || (m2.Stop? && m2.err != 0)
            || (m2.Element? && m2.key == ID
                && (ElementBreaks(code, data, m1.at.next, depth) || AfterIdBreaks(code, data, m2.at.next, depth)))
            ==> RefBreaks(code, data, from, depth)
  {
    hide MoveFrom, DecodeFrom, ElementValue, ValueMeets, ElementsMeet, DocMeets, NoDollarKeys, DollarsInside;
    var m1 := MoveFrom(data, from);
    var m2 := MoveFrom(data, m1.at.next);
    DecodeStep(data, from);
    DecodeStep(data, m1.at.next);
    RefKeys();
    if DecodeFrom(data, from).Some? {
      MeetsRef(code, DecodeFrom(data, from).value, depth - 1);
      KindOfValue(data, from, ElementValue(data, from).value);
      BreaksCode2(DecodeFrom(data, from).value, depth - 1);
      if m2.Element? {
        var o3 := m2.at.next;
        DecodeStep(data, o3);
        if MoveFrom(data, o3).Element? {
          KindOfValue(data, o3, ElementValue(data, o3).value);
        }
      }
    }
  }

  lemma BreaksCode2(d: Doc, depth: nat)
    ensures DocMeets(2, d, depth) ==> DollarsOk(d)
  {
  }

  /** Any other first key with a dollar. */
  lemma BreaksDollar(code: int, data: bytes, from: nat, depth: nat)
    requires 4 <= from && |data| <= MAX_SIZE && MoveFrom(data, from).Element? && depth > 0
    requires var key := MoveFrom(data, from).key; Dollar(key) && key != REF && !KeyMeets(code, key)
    ensures RefBreaks(code, data, from, depth)
  {
    hide MoveFrom, DecodeFrom, ElementValue, ValueMeets, ElementsMeet, DocMeets, KeyMeets, Dollar;
    DecodeStep(data, from);
    RefKeys();
    if DecodeFrom(data, from).Some? {
      var d := DecodeFrom(data, from).value;
      BreaksCode2(d, depth - 1);
      if code != 2 {
        MeetsElements(code, d, depth - 1);
        MeetsCons(code, d, depth);
      }
    }
  }

  /** One step of decoding, in both directions. */
  lemma DecodeStep(data: bytes, from: nat)
    requires 4 <= from && |data| <= MAX_SIZE
    ensures var m := MoveFrom(data, from);
            if m.Element? then
              && (DecodeFrom(data, from).Some? <==> ElementValue(data, from).Some? && DecodeFrom(data, m.at.next).Some?)
              && (DecodeFrom(data, from).Some? ==>
                    DecodeFrom(data, from).value
                    == Cons(m.key, ElementValue(data, from).value, DecodeFrom(data, m.at.next).value))
            else DecodeFrom(data, from) == if m.err == 0 then Some(Nil) else None
  {
    hide Locate, ValueAt, FirstNul;
  }

  lemma RestStep(p: Params, data: bytes, from: nat, depth: nat)
    requires 4 <= from && |data| <= MAX_SIZE
    ensures var m := MoveFrom(data, from);
            if m.Element?
            then RestOk(p, data, from, depth)
                 <==> KeyOk(p, m.key) && ElementOk(p, data, from, depth) && RestOk(p, data, m.at.next, depth)
            else RestOk(p, data, from, depth) <==> m.err == 0
  {
    hide MoveFrom, DecodeFrom, ElementValue, KeyOk, ValueOk;
    DecodeStep(data, from);
  }

  // What each kind of element asks for, read off the iterator's fields.

  lemma ContainerOk(p: Params, data: bytes, off: nat, depth: nat)
    requires 4 <= off && |data| <= MAX_SIZE && MoveFrom(data, off).Element?
    requires data[off] == 0x03 || data[off] == 0x04
    ensures var (o, at) := (MoveFrom(data, off).o, MoveFrom(data, off).at);
            && o + 4 <= |data| && o + Read32(data, o) == at.next
            && (ElementOk(p, data, off, depth) <==> BytesOk(p, data[o..at.next], depth))
            && forall code :: BytesBreak(code, data[o..at.next], depth) ==> ElementBreaks(code, data, off, depth)
  {
    hide FirstNul, Read32, DecodeFrom, DocOk, TextOk, InitStatic, ValueMeets, DocMeets;
    var m := MoveFrom(data, off);
    var sub := Decode(data[m.o..m.at.next]);
    assert ValueAt(data, off, m.t, m.o, m.at).Some? <==> sub.Some?;
    if ElementValue(data, off).Some? {
      forall code | BytesBreak(code, data[m.o..m.at.next], depth) ensures ElementBreaks(code, data, off, depth) {
        MeetsInside(code, ElementValue(data, off).value, depth);
      }
    }
  }

  lemma ScopeOk(p: Params, data: bytes, off: nat, depth: nat)
    requires 4 <= off && |data| <= MAX_SIZE && MoveFrom(data, off).Element?
    requires data[off] == 0x0F
    ensures var (o, at) := (MoveFrom(data, off).o, MoveFrom(data, off).at);
            && at.d3 == o + 8 <= at.d4 - 1 && at.d4 <= at.next
            && (ElementOk(p, data, off, depth)
                <==> TextOk(p, data[at.d3..at.d4 - 1]) && BytesOk(SCOPE_PARAMS, data[at.d4..at.next], depth))
            && forall code ::
                 !TextMeets(code, data[at.d3..at.d4 - 1])
                 || ((code == 1 || code == 32) && BytesBreak(code, data[at.d4..at.next], depth))
                 ==> ElementBreaks(code, data, off, depth)
  {
    hide FirstNul, Read32, DecodeFrom, DocOk, TextOk, InitStatic, ValueMeets, DocMeets, TextMeets;
    var m := MoveFrom(data, off);
    var sub := Decode(data[m.at.d4..m.at.next]);
    assert ValueAt(data, off, m.t, m.o, m.at).Some? <==> sub.Some?;
    if ElementValue(data, off).Some? {
      forall code
        | !TextMeets(code, data[m.at.d3..m.at.d4 - 1])
          || ((code == 1 || code == 32) && BytesBreak(code, data[m.at.d4..m.at.next], depth))
        ensures ElementBreaks(code, data, off, depth)
      {
        MeetsInside(code, ElementValue(data, off).value, depth);
      }
    }
  }

  lemma StringOk(p: Params, data: bytes, off: nat, depth: nat)
    requires 4 <= off && |data| <= MAX_SIZE && MoveFrom(data, off).Element?
    requires IsStringType(data[off])
    ensures var (o, at) := (MoveFrom(data, off).o, MoveFrom(data, off).at);
            && o + 4 < |data| && at.d2 == o + 4 && 0 < Read32(data, o) <= |data| - at.d2
            && (ElementOk(p, data, off, depth) <==> TextOk(p, data[at.d2..at.d2 + Read32(data, o) - 1]))
            && forall code ::
                 !TextMeets(code, data[at.d2..at.d2 + Read32(data, o) - 1]) ==> ElementBreaks(code, data, off, depth)
  {
    hide FirstNul, Read32, DecodeFrom, Decode, DocOk, TextOk, Utf8Valid;
    var m := MoveFrom(data, off);
    assert ValueAt(data, off, m.t, m.o, m.at) == FlatValue(data, off, m.t, m.o, m.at);
  }

  lemma RegexOk(p: Params, data: bytes, off: nat, depth: nat)
    requires 4 <= off && |data| <= MAX_SIZE && MoveFrom(data, off).Element?
    requires data[off] == 0x0B
    ensures var (o, at) := (MoveFrom(data, off).o, MoveFrom(data, off).at);
            && o < at.d2 < at.next
            && (ElementOk(p, data, off, depth)
                <==> TextOk(p, data[o..at.d2 - 1]) && TextOk(p, data[at.d2..at.next - 1]))
            && forall code ::
                 !TextMeets(code, data[o..at.d2 - 1]) || !TextMeets(code, data[at.d2..at.next - 1])
                 ==> ElementBreaks(code, data, off, depth)
  {
    hide FirstNul, Read32, DecodeFrom, Decode, DocOk, TextOk, Utf8Valid;
    var m := MoveFrom(data, off);
    assert ValueAt(data, off, m.t, m.o, m.at) == FlatValue(data, off, m.t, m.o, m.at);
  }

  lemma PlainOk(p: Params, data: bytes, off: nat, depth: nat)
    requires 4 <= off && |data| <= MAX_SIZE && MoveFrom(data, off).Element?
    requires var t := data[off]; t != 0x03 && t != 0x04 && t != 0x0F && t != 0x0B && !IsStringType(t)
    ensures ElementOk(p, data, off, depth)
  {
    hide FirstNul, Read32, Read64, DecodeFrom, Decode, DocOk, TextOk, LocateBinary;
    var m := MoveFrom(data, off);
    assert ValueAt(data, off, m.t, m.o, m.at) == FlatValue(data, off, m.t, m.o, m.at);
  }

  predicate IsStringType(t: byte) {
    t == 0x02 || t == 0x0C || t == 0x0D || t == 0x0E
  }

  // ---------------------------------------------------------------------------------------------------------
  // The validator
  // ---------------------------------------------------------------------------------------------------------

  class Validator {
    const params: Params
    var errorCode: int
    var errorOffset: int

    constructor (params: Params)
      ensures this.params == params && errorCode == 0 && errorOffset == 0
    {
      this.params := params;
      errorCode, errorOffset := 0, 0;
    }

    /** The contract of every validating routine: a nonzero code is set exactly on failure. */
    twostate predicate Reported(ok: bool)
      reads this
    {
      if ok then errorCode == old(errorCode) else errorCode != 0
    }

    method Fail(offset: int, code: int) returns (ok: bool)
      requires code != 0
      modifies this
      ensures !ok && errorCode == code && errorOffset == offset
    {
      errorOffset, errorCode := offset, code;
      ok := false;
    }

    method MaybeValidateUtf8(offset: int, u8: bytes) returns (ok: bool)
      modifies this
      ensures ok <==> TextOk(params, u8)
      ensures Reported(ok) && (!ok ==> Enforced(params, errorCode) && !TextMeets(errorCode, u8))
    {
      if params.allowInvalidUtf8 || Utf8Valid(u8, params.allowNullInUtf8) {
        return true;
      }
      if !params.allowNullInUtf8 && Utf8Valid(u8, true) {
        ok := Fail(offset, VALIDATE_UTF8_ALLOW_NULL);
        return;
      }
      ok := Fail(offset, VALIDATE_UTF8);
    }

    method ValidateElementKey(it: Iter) returns (ok: bool)
      requires it.Valid() && it.raw.Some? && 4 <= it.off && it.On(it.raw.value, MoveFrom(it.raw.value, it.off))
      modifies this
      ensures ok <==> KeyOk(params, MoveFrom(it.raw.value, it.off).key)
      ensures Reported(ok)
      ensures !ok ==> Enforced(params, errorCode) && !KeyMeets(errorCode, MoveFrom(it.raw.value, it.off).key)
    {
      var key := it.raw.value[it.key..it.d1 - 1];
      assert key == MoveFrom(it.raw.value, it.off).key by { KeyOfMove(it.raw.value, it.off); }
      ok := MaybeValidateUtf8(it.off, key);
      if !ok { return; }
      if params.checkSpecialDollarKeys && key != [] && key[0] == DOLLAR {
        ok := Fail(it.off, VALIDATE_DOLLAR_KEYS);
        return;
      }
      if !params.allowEmptyKeys && key == [] {
        ok := Fail(it.off, VALIDATE_EMPTY_KEYS);
        return;
      }
      if !params.allowDotInKeys && DOT in key {
        ok := Fail(it.off, VALIDATE_DOT_KEYS);
        return;
      }
    }

    /** Advances the iterator and, if it stops on corrupt bytes, reports that. */
    method Advance(it: Iter) returns (ok: bool, done: bool)
      requires it.Valid() && it.raw.Some?
      modifies this, it
      ensures it.Valid()
      ensures var data, from := old(it.raw).value, old(it.nextOff);
              var m := MoveFrom(data, from);
              && (ok <==> m.Element? || m.err == 0)
              && (ok ==> (done <==> m.Stop?))
              && (ok && !done ==> it.raw == Some(data) && it.off == from && it.On(data, m))
      ensures Reported(ok) && (!ok ==> errorCode == 32)
    {
      var more := it.Next();
      done := !more;
      ok := true;
      if done && it.errOff != 0 {
        ok := Fail(it.errOff, VALIDATE_CORRUPT);
      }
    }

    method ValidateStringlikeElement(it: Iter, ghost depth: nat) returns (ok: bool)
      requires it.Valid() && it.raw.Some? && 4 <= it.off && it.On(it.raw.value, MoveFrom(it.raw.value, it.off))
      requires IsStringType(it.raw.value[it.off])
      modifies this
      ensures ok <==> ElementOk(params, it.raw.value, it.off, depth)
      ensures Reported(ok)
      ensures !ok ==> Enforced(params, errorCode) && ElementBreaks(errorCode, it.raw.value, it.off, depth)
    {
      hide MoveFrom, ElementOk, TextOk;
      var data := it.raw.value;
      StringOk(params, data, it.off, depth);
      var u8len := Read32(data, it.d1) - 1;
      ok := MaybeValidateUtf8(it.off, data[it.d2..it.d2 + u8len]);
    }

    method ValidateRegexElement(it: Iter, ghost depth: nat) returns (ok: bool)
      requires it.Valid() && it.raw.Some? && 4 <= it.off && it.On(it.raw.value, MoveFrom(it.raw.value, it.off))
      requires it.raw.value[it.off] == 0x0B
      modifies this
      ensures ok <==> ElementOk(params, it.raw.value, it.off, depth)
      ensures Reported(ok)
      ensures !ok ==> Enforced(params, errorCode) && ElementBreaks(errorCode, it.raw.value, it.off, depth)
    {
      hide MoveFrom, ElementOk, TextOk;
      var data := it.raw.value;
      RegexOk(params, data, it.off, depth);
      ok := MaybeValidateUtf8(it.off, data[it.d1..it.d2 - 1]);
      if !ok { return; }
      ok := MaybeValidateUtf8(it.off, data[it.d2..it.nextOff - 1]);
    }

    method ValidateCodeWithScope(it: Iter, depth: nat) returns (ok: bool)
      requires it.Valid() && it.raw.Some? && 4 <= it.off && it.On(it.raw.value, MoveFrom(it.raw.value, it.off))
      requires it.raw.value[it.off] == 0x0F
      modifies this
      ensures ok <==> ElementOk(params, it.raw.value, it.off, depth)
      ensures Reported(ok)
      ensures !ok ==> Enforced(params, errorCode) && ElementBreaks(errorCode, it.raw.value, it.off, depth)
      decreases |it.raw.value|, 0
    {
      hide MoveFrom, ElementOk, TextOk, BytesOk;
      var data := it.raw.value;
      ScopeOk(params, data, it.off, depth);
      var scope := data[it.d4..it.nextOff];
      BytesNeedHeader(SCOPE_PARAMS, scope, depth);
      if !InitStatic(scope) {
        ok := Fail(it.off, VALIDATE_CORRUPT);
        return;
      }
      ok := MaybeValidateUtf8(it.off, data[it.d3..it.d4 - 1]);
      if !ok { return; }
      var scopeValidator := new Validator(SCOPE_PARAMS);
      ok := scopeValidator.ValidateDoc(scope, depth);
      if !ok {
        errorCode := scopeValidator.errorCode;
        errorOffset := scopeValidator.errorOffset + it.off;
      }
    }

    /** The value of the element the iterator stands on, without its key. */
    method ValidateElementValue(it: Iter, depth: nat) returns (ok: bool)
      requires it.Valid() && it.raw.Some? && 4 <= it.off && it.On(it.raw.value, MoveFrom(it.raw.value, it.off))
      modifies this
      ensures ok <==> ElementOk(params, it.raw.value, it.off, depth)
      ensures Reported(ok)
      ensures !ok ==> Enforced(params, errorCode) && ElementBreaks(errorCode, it.raw.value, it.off, depth)
      decreases |it.raw.value|, 1
    {
      hide MoveFrom, ElementOk, BytesOk;
      var data := it.raw.value;
      var t := data[it.off];
      if IsStringType(t) {
        ok := ValidateStringlikeElement(it, depth);
      } else if t == 0x03 || t == 0x04 {
        ContainerOk(params, data, it.off, depth);
        var len := Read32(data, it.d1);
        var doc := data[it.d1..it.d1 + len];
        BytesNeedHeader(params, doc, depth);
        if !InitStatic(doc) {
          ok := Fail(it.off, VALIDATE_CORRUPT);
          return;
        }
        ok := ValidateDoc(doc, depth);
        if !ok {
          errorOffset := errorOffset + it.off + (it.d1 - it.key - 1) + 2;
        }
      } else if t == 0x0B {
        ok := ValidateRegexElement(it, depth);
      } else if t == 0x0F {
        ok := ValidateCodeWithScope(it, depth);
      } else {
        PlainOk(params, data, it.off, depth);
        ok := true;
      }
    }

    /** The elements from the one the iterator stands on. */
    method ValidateRemainingElements(it: Iter, depth: nat) returns (ok: bool)
      requires it.Valid() && it.raw.Some? && 4 <= it.off && it.On(it.raw.value, MoveFrom(it.raw.value, it.off))
      modifies this, it
      ensures ok <==> RestOk(params, old(it.raw).value, old(it.off), depth)
      ensures Reported(ok)
      ensures !ok ==> Enforced(params, errorCode) && RestBreaks(errorCode, old(it.raw).value, old(it.off), depth)
      decreases |it.raw.value|, 2, 0
    {
      hide MoveFrom, ElementOk, KeyOk, RestOk, RestBreaks, ElementBreaks, KeyMeets;
      var data := it.raw.value;
      ghost var from := it.off;
      var done := false;
      ok := true;
      while !done
        invariant it.Valid() && 4 <= from && errorCode == old(errorCode)
        invariant RestOk(params, data, from, depth) == RestOk(params, data, old(it.off), depth)
        invariant forall code :: RestBreaks(code, data, from, depth) ==> RestBreaks(code, data, old(it.off), depth)
        invariant !done ==> it.raw == Some(data) && it.off == from && it.On(data, MoveFrom(data, from))
        invariant done ==> MoveFrom(data, from) == Stop(0)
        decreases !done, |data| - from
      {
        RestStep(params, data, from, depth);
        AllBreaks(data, from, depth);
        ok := ValidateElementKey(it);
        if !ok { return; }
        ok := ValidateElementValue(it, depth);
        if !ok { return; }
        from := it.nextOff;
        RestStep(params, data, from, depth);
        BreaksStep(32, data, from, depth);
        ok, done := Advance(it);
        if !ok { return; }
      }
      RestStep(params, data, from, depth);
    }

    /** A document whose first key is $ref. */
    method ValidateDbRef(it: Iter, depth: nat) returns (ok: bool)
      requires it.Valid() && it.raw.Some? && 4 <= it.off && it.On(it.raw.value, MoveFrom(it.raw.value, it.off))
      requires MoveFrom(it.raw.value, it.off).key == REF && params.checkSpecialDollarKeys && depth > 0
      modifies this, it
      ensures ok <==> DecodeFrom(old(it.raw).value, old(it.off)).Some?
                      && DbRefOk(params, DecodeFrom(old(it.raw).value, old(it.off)).value, depth)
      ensures Reported(ok)
      ensures !ok ==> Enforced(params, errorCode) && RefBreaks(errorCode, old(it.raw).value, old(it.off), depth)
      decreases |it.raw.value|, 3, 0
    {
      hide MoveFrom, DecodeFrom, ElementOk, DbRefOk, AfterIdOk, ElementBreaks, AfterIdBreaks, RefBreaks;
      var data := it.raw.value;
      ghost var o1 := it.off;
      DbRefBytes(params, data, o1, depth);
      forall code: int { BreaksRef(code, data, o1, depth); }
      KeyOfMove(data, o1);
      if data[it.off] != 0x02 {
        ok := Fail(it.off, VALIDATE_DOLLAR_KEYS);
        return;
      }
      ok := ValidateElementValue(it, depth);
      if !ok { return; }
      var done;
      ghost var o2 := it.nextOff;
      ok, done := Advance(it);
      if !ok { return; }
      if !done { KeyOfMove(data, o2); }
      if done || data[it.key..it.d1 - 1] != ID {
        ok := Fail(it.off, VALIDATE_DOLLAR_KEYS);
        return;
      }
      ok := ValidateElementValue(it, depth);
      if !ok { return; }
      ok := ValidateAfterId(it, depth);
    }

    /** The rest of a database reference: a $db or any other elements, or nothing. */
    method ValidateAfterId(it: Iter, depth: nat) returns (ok: bool)
      requires it.Valid() && it.raw.Some? && params.checkSpecialDollarKeys
      modifies this, it
      ensures ok <==> AfterIdOk(params, old(it.raw).value, old(it.nextOff), depth)
      ensures Reported(ok)
      ensures !ok ==> Enforced(params, errorCode) && AfterIdBreaks(errorCode, old(it.raw).value, old(it.nextOff), depth)
      decreases |it.raw.value|, 2, 1
    {
      hide MoveFrom, DecodeFrom, ElementOk, RestOk, ElementBreaks, RestBreaks;
      var data := it.raw.value;
      ghost var o3 := it.nextOff;
      RestStep(params, data, o3, depth);
      BreaksStep(32, data, o3, depth);
      var done;
      ok, done := Advance(it);
      if !ok || done { return; }
      KeyOfMove(data, o3);
      if data[it.key..it.d1 - 1] == DB {
        if data[it.off] != 0x02 {
          ok := Fail(it.off, VALIDATE_DOLLAR_KEYS);
          return;
        }
        ok := ValidateElementValue(it, depth);
        if !ok { return; }
        RestStep(params, data, it.nextOff, depth);
        BreaksStep(32, data, it.nextOff, depth);
        ok, done := Advance(it);
        if !ok || done { return; }
      }
      ok := ValidateRemainingElements(it, depth);
    }

    method ValidateDoc(data: bytes, depth0: nat) returns (ok: bool)
      requires |data| <= MAX_SIZE && (|data| >= 5 ==> InitStatic(data))
      modifies this
      ensures ok <==> BytesOk(params, data, depth0)
      ensures Reported(ok)
      ensures !ok ==> Enforced(params, errorCode) && BytesBreak(errorCode, data, depth0)
      decreases |data|, 4
    {
      hide MoveFrom, DecodeFrom, KeyOk, RestOk, DbRefOk, BytesBreak, RefBreaks, RestBreaks;
      BytesNeedHeader(params, data, depth0);
      if InitStatic(data) { DocBytes(params, data, depth0); }
      DocBreaks(data, depth0);
      if depth0 > MAX_NESTING_DEPTH {
        ok := Fail(0, VALIDATE_CORRUPT);
        return;
      }
      var depth := depth0 + 1;
      var it := new Iter();
      ok := it.Init(data);
      if !ok {
        ok := Fail(0, VALIDATE_CORRUPT);
        return;
      }
      var done;
      RestStep(params, data, 4, depth);
      BreaksStep(32, data, 4, depth);
      ok, done := Advance(it);
      if !ok || done { return; }
      KeyOfMove(data, 4);
      if params.checkSpecialDollarKeys {
        var key := data[it.key..it.d1 - 1];
        if key != [] && key[0] == DOLLAR {
          ok := ValidateDollarDoc(it, depth);
          return;
        }
      }
      ok := ValidateRemainingElements(it, depth);
    }

    /** A document whose first key starts with a dollar: a database reference, or an error. */
    method ValidateDollarDoc(it: Iter, depth: nat) returns (ok: bool)
      requires it.Valid() && it.raw.Some? && 4 <= it.off && it.On(it.raw.value, MoveFrom(it.raw.value, it.off))
      requires params.checkSpecialDollarKeys && depth > 0
      requires var key := MoveFrom(it.raw.value, it.off).key; key != [] && key[0] == DOLLAR
      modifies this, it
      ensures ok <==> DecodeFrom(old(it.raw).value, old(it.off)).Some?
                      && DbRefOk(params, DecodeFrom(old(it.raw).value, old(it.off)).value, depth)
      ensures Reported(ok)
      ensures !ok ==> Enforced(params, errorCode) && RefBreaks(errorCode, old(it.raw).value, old(it.off), depth)
      decreases |it.raw.value|, 3, 1
    {
      hide DecodeFrom, MoveFrom, RefBreaks, KeyMeets;
      KeyOfMove(it.raw.value, it.off);
      ghost var (data, from) := (it.raw.value, it.off);
      if it.raw.value[it.key..it.d1 - 1] == REF {
        ok := ValidateDbRef(it, depth);
        return;
      }
      DecodeStep(it.raw.value, it.off);
      ok := ValidateElementKey(it);
      assert !ok;
      BreaksDollar(errorCode, data, from, depth);
    }
  }

  /** The rule for a whole document on the bytes. */
  lemma DocBytes(p: Params, data: bytes, depth: nat)
    requires InitStatic(data)
    ensures var m := MoveFrom(data, 4);
            BytesOk(p, data, depth)
            <==>
              && depth <= MAX_NESTING_DEPTH
              && if p.checkSpecialDollarKeys && m.Element? && m.key != [] && m.key[0] == DOLLAR
                 then DecodeFrom(data, 4).Some? && DbRefOk(p, DecodeFrom(data, 4).value, depth + 1)
                 else RestOk(p, data, 4, depth + 1)
  {
    hide MoveFrom, DecodeFrom, ElementsOk, DbRefOk;
    assert Decode(data) == DecodeFrom(data, 4);
    DecodeStep(data, 4);
  }

  /** The rule of a code on a whole document, broken in its elements or as a database reference. */
  lemma DocBreaks(data: bytes, depth: nat)
    ensures !InitStatic(data) || depth > 500 ==> BytesBreak(32, data, depth)
    ensures InitStatic(data) ==>
            var m := MoveFrom(data, 4);
            && (forall code ::
                  RestBreaks(code, data, 4, depth + 1) && (code == 2 ==> !(m.Element? && Dollar(m.key)))
                  ==> BytesBreak(code, data, depth))
            && (forall code :: RefBreaks(code, data, 4, depth + 1) ==> BytesBreak(code, data, depth))
  {
    hide MoveFrom, DecodeFrom, ElementsMeet;
    if InitStatic(data) {
      assert Decode(data) == DecodeFrom(data, 4);
      DecodeStep(data, 4);
      if DecodeFrom(data, 4).Some? {
        var d := DecodeFrom(data, 4).value;
        hide DocMeets;
        forall code: int
          ensures RestBreaks(code, data, 4, depth + 1) && (code == 2 ==> !(d.Cons? && Dollar(d.key)))
                  ==> BytesBreak(code, data, depth)
        {
          if code == 2 ==> !(d.Cons? && Dollar(d.key)) { MeetsElements(code, d, depth); }
        }
      }
    }
  }

  lemma BytesNeedHeader(p: Params, data: bytes, depth: nat)
    ensures BytesOk(p, data, depth) ==> InitStatic(data)
  {
    hide DecodeFrom, DocOk;
  }

  /** A database reference that breaks the rule of a code; in front of it stand depth - 1 documents. */
  ghost predicate RefBreaks(code: int, data: bytes, off: nat, depth: nat)
    requires 4 <= off && |data| <= MAX_SIZE
  {
    depth > 0 && (DecodeFrom(data, off).Some? ==> !DocMeets(code, DecodeFrom(data, off).value, depth - 1))
  }

  ghost predicate AfterIdBreaks(code: int, data: bytes, from: nat, depth: nat)
    requires 4 <= from && |data| <= MAX_SIZE
  {
    var m := MoveFrom(data, from);
    if m.Element? && m.key == DB
    then (code == 2 && m.t != 0x02) || ElementBreaks(code, data, from, depth) || RestBreaks(code, data, m.at.next, depth)
    else RestBreaks(code, data, from, depth)
  }

  ghost predicate AfterIdOk(p: Params, data: bytes, from: nat, depth: nat)
    requires 4 <= from && |data| <= MAX_SIZE
  {
    var m := MoveFrom(data, from);
    if m.Element? && m.key == DB
    then m.t == 0x02 && ElementOk(p, data, from, depth) && RestOk(p, data, m.at.next, depth)
    else RestOk(p, data, from, depth)
  }

  /** The rule for database references on the bytes. */
  lemma DbRefBytes(p: Params, data: bytes, from: nat, depth: nat)
    requires 4 <= from && |data| <= MAX_SIZE && MoveFrom(data, from).Element? && MoveFrom(data, from).key == REF
    ensures var m1 := MoveFrom(data, from);
            var m2 := MoveFrom(data, m1.at.next);
            (DecodeFrom(data, from).Some? && DbRefOk(p, DecodeFrom(data, from).value, depth))
            <==>
              && m1.t == 0x02 && ElementOk(p, data, from, depth)
              && m2.Element? && m2.key == ID && ElementOk(p, data, m1.at.next, depth)
              && AfterIdOk(p, data, m2.at.next, depth)
  {
    hide MoveFrom, DecodeFrom, ElementValue, ValueOk, ElementsOk;
    var m1 := MoveFrom(data, from);
    var m2 := MoveFrom(data, m1.at.next);
    DecodeStep(data, from);
    DecodeStep(data, m1.at.next);
    if ElementValue(data, from).Some? { KindOfValue(data, from, ElementValue(data, from).value); }
    if m2.Element? {
      var o3 := m2.at.next;
      DecodeStep(data, o3);
      if MoveFrom(data, o3).Element? && ElementValue(data, o3).Some? {
        KindOfValue(data, o3, ElementValue(data, o3).value);
      }
    }
  }

  lemma KeyOfMove(data: bytes, off: nat)
    requires 4 <= off && |data| <= MAX_SIZE && MoveFrom(data, off).Element?
    ensures var m := MoveFrom(data, off); off + 1 <= m.o - 1 <= |data| && m.key == data[off + 1..m.o - 1] && m.t == data[off]
  {
    hide Locate;
  }

  // ---------------------------------------------------------------------------------------------------------
  // The public entry point, and what it accepts
  // ---------------------------------------------------------------------------------------------------------

  method BsonValidate(data: bytes, flags: nat) returns (ok: bool, code: int, offset: int)
    requires |data| <= MAX_SIZE && (|data| >= 5 ==> InitStatic(data))
    ensures ok <==> Decode(data).Some? && Accepted(flags, Decode(data).value)
    ensures ok <==> BytesOk(ParamsOf(flags), data, 0)
    ensures ok <==> code == 0
    ensures !ok ==> code == 1 || code == 32
                    || (code == 2 && flags / 2 % 2 == 1) || (code == 4 && flags / 4 % 2 == 1) || (code == 16 && flags / 16 % 2 == 1)
                    || (code == 8 && flags % 2 == 1 && flags / 8 % 2 == 0)
    ensures !ok && Decode(data).Some? ==> !DocMeets(code, Decode(data).value, 0)
  {
    hide Accepted, DocOk, DocMeets;
    if Decode(data).Some? { AcceptedIff(flags, Decode(data).value); }
    var v := new Validator(ParamsOf(flags));
    ok := v.ValidateDoc(data, 0);
    code, offset := v.errorCode, v.errorOffset;
  }

  /** The bytes accepted are exactly the encodings of the trees that satisfy the rules. */
  lemma AcceptsExactly(p: Params, data: bytes)
    ensures BytesOk(p, data, 0) <==> exists d :: WellFormedDoc(d) && |data| <= MAX_SIZE && data == EncodeDoc(d) && DocOk(p, d, 0)
  {
    hide Decode, EncodeDoc, WellFormedDoc, DocOk;
    if BytesOk(p, data, 0) {
      DecodeIff(data, Decode(data).value);
    }
    forall d | WellFormedDoc(d) && |data| <= MAX_SIZE && data == EncodeDoc(d) && DocOk(p, d, 0)
      ensures BytesOk(p, data, 0)
    {
      DecodeIff(data, d);
    }
  }
}
