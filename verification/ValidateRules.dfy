/** What validation asks of a document, as a tree: by the parameters of the validator, and flag by flag. */
module ValidateRules {
  import opened CInt
  import opened LittleEndian
  import opened BsonTree
  import opened BsonRead
  import opened Utf8

  const MAX_NESTING_DEPTH := 500

  const VALIDATE_UTF8 := 1
  const VALIDATE_DOLLAR_KEYS := 2
  const VALIDATE_DOT_KEYS := 4
  const VALIDATE_UTF8_ALLOW_NULL := 8
  const VALIDATE_EMPTY_KEYS := 16
  const VALIDATE_CORRUPT := 32

  const REF: bytes := [0x24, 0x72, 0x65, 0x66]
  const ID: bytes := [0x24, 0x69, 0x64]
  const DB: bytes := [0x24, 0x64, 0x62]
  const DOLLAR: byte := 0x24

  datatype Params = Params(
    allowInvalidUtf8: bool,
    allowNullInUtf8: bool,
    allowEmptyKeys: bool,
    allowDotInKeys: bool,
    checkSpecialDollarKeys: bool)

  /** A scope is an opaque closure of JavaScript variables, whatever the rules for the document around it. */
  const SCOPE_PARAMS := Params(false, true, true, true, false)

  // ---------------------------------------------------------------------------------------------------------
  // The rules, on trees
  // ---------------------------------------------------------------------------------------------------------

  predicate TextOk(p: Params, s: bytes) {
    p.allowInvalidUtf8 || Utf8Valid(s, p.allowNullInUtf8)
  }

  predicate KeyOk(p: Params, key: bytes) {
    && TextOk(p, key)
    && (p.checkSpecialDollarKeys ==> key == [] || key[0] != DOLLAR)
    && (!p.allowEmptyKeys ==> key != [])
    && (!p.allowDotInKeys ==> DOT !in key)
  }

  predicate ValueOk(p: Params, v: Value, depth: nat)
    decreases v, 0
  {
    match v
    case Utf8(s) => TextOk(p, s)
    case Symbol(s) => TextOk(p, s)
    case Code(s) => TextOk(p, s)
    case DbPointer(s, _) => TextOk(p, s)
    case Regex(rx, opts) => TextOk(p, rx) && TextOk(p, opts)
    case Document(d) => DocOk(p, d, depth)
    case Array(d) => DocOk(p, d, depth)
    case CodeWithScope(js, _, d) => TextOk(p, js) && DocOk(SCOPE_PARAMS, d, depth)
    case _ => true
  }

  predicate ElementsOk(p: Params, d: Doc, depth: nat)
    decreases d, 0
  {
    d.Cons? ==> KeyOk(p, d.key) && ValueOk(p, d.value, depth) && ElementsOk(p, d.rest, depth)
  }

  /** A database reference: $ref (a string), then $id, then perhaps $db (a string), then ordinary elements. */
  predicate DbRefOk(p: Params, d: Doc, depth: nat)
    decreases d, 0
  {
    && d.Cons? && d.key == REF && d.value.Utf8? && ValueOk(p, d.value, depth)
    && d.rest.Cons? && d.rest.key == ID && ValueOk(p, d.rest.value, depth)
    && var tail := d.rest.rest;
    if tail.Cons? && tail.key == DB
    then tail.value.Utf8? && ValueOk(p, tail.value, depth) && ElementsOk(p, tail.rest, depth)
    else ElementsOk(p, tail, depth)
  }

  /** depth counts the documents around this one. */
  predicate DocOk(p: Params, d: Doc, depth: nat)
    decreases d, 1
  {
    && depth <= MAX_NESTING_DEPTH
    && if p.checkSpecialDollarKeys && d.Cons? && d.key != [] && d.key[0] == DOLLAR
       then DbRefOk(p, d, depth + 1)
       else ElementsOk(p, d, depth + 1)
  }

  predicate HasFlag(flags: nat, flag: nat)
    requires flag > 0
  {
    flags / flag % 2 == 1
  }

  function ParamsOf(flags: nat): Params {
    Params(!HasFlag(flags, VALIDATE_UTF8), HasFlag(flags, VALIDATE_UTF8_ALLOW_NULL), !HasFlag(flags, VALIDATE_EMPTY_KEYS),
           !HasFlag(flags, VALIDATE_DOT_KEYS), HasFlag(flags, VALIDATE_DOLLAR_KEYS))
  }

  /** How many documents, arrays and scopes are nested in one another below this document. */
  function Height(d: Doc): nat
    decreases d, 0
  {
    match d
    case Nil => 0
    case Cons(_, v, rest) =>
      var h := match v
        case Document(sub) => 1 + Height(sub)
        case Array(sub) => 1 + Height(sub)
        case CodeWithScope(_, _, sub) => 1 + Height(sub)
        case _ => 0;
      if h > Height(rest) then h else Height(rest)
  }

  predicate ScopeFree(d: Doc)
    decreases d, 0
  {
    match d
    case Nil => true
    case Cons(_, v, rest) =>
      && ScopeFree(rest)
      && match v
         case Document(sub) => ScopeFree(sub)
         case Array(sub) => ScopeFree(sub)
         case CodeWithScope(_, _, _) => false
         case _ => true
  }

  /** Nothing nested deeper than the limit is accepted, under any rules. */
  lemma {:induction false} DepthLimit(p: Params, d: Doc, depth: nat)
    requires DocOk(p, d, depth)
    ensures depth + Height(d) <= 500
    decreases d, 1
  {
    if p.checkSpecialDollarKeys && d.Cons? && d.key != [] && d.key[0] == DOLLAR {
      var tail := d.rest.rest;
      ValueDepthLimit(p, d.rest.key, d.rest.value, depth);
      assert Height(d) == Height(d.rest);
      var h := Height(Cons(d.rest.key, d.rest.value, Nil));
      assert Height(d.rest) == if h > Height(tail) then h else Height(tail);
      if tail.Cons? && tail.key == DB {
        assert Height(tail) == Height(tail.rest);
        ElementsDepthLimit(p, tail.rest, depth);
      } else {
        ElementsDepthLimit(p, tail, depth);
      }
    } else {
      ElementsDepthLimit(p, d, depth);
    }
  }

  lemma {:induction false} ValueDepthLimit(p: Params, key: bytes, v: Value, depth: nat)
    requires ValueOk(p, v, depth + 1) && depth <= MAX_NESTING_DEPTH
    ensures depth + Height(Cons(key, v, Nil)) <= MAX_NESTING_DEPTH
    decreases v, 0
  {
    match v
    case Document(sub) => DepthLimit(p, sub, depth + 1);
    case Array(sub) => DepthLimit(p, sub, depth + 1);
    case CodeWithScope(_, _, sub) => DepthLimit(SCOPE_PARAMS, sub, depth + 1);
    case _ =>
  }

  lemma {:induction false} ElementsDepthLimit(p: Params, d: Doc, depth: nat)
    requires ElementsOk(p, d, depth + 1) && depth <= MAX_NESTING_DEPTH
    ensures depth + Height(d) <= MAX_NESTING_DEPTH
    decreases d, 0
  {
    match d
    case Nil =>
    case Cons(key, v, rest) =>
      ValueDepthLimit(p, key, v, depth);
      ElementsDepthLimit(p, rest, depth);
  }

  /** With no flag set, the nesting limit is the only rule, except inside scopes, whose text is always checked. */
  lemma {:induction false} NoFlagsOnlyDepth(d: Doc, depth: nat)
    requires ScopeFree(d)
    ensures DocOk(ParamsOf(0), d, depth) <==> depth + Height(d) <= 500
    decreases d, 1
  {
    if DocOk(ParamsOf(0), d, depth) {
      DepthLimit(ParamsOf(0), d, depth);
    } else if depth + Height(d) <= MAX_NESTING_DEPTH {
      NoFlagsElements(d, depth);
    }
  }

  lemma {:induction false} NoFlagsElements(d: Doc, depth: nat)
    requires ScopeFree(d) && depth + Height(d) <= MAX_NESTING_DEPTH
    ensures ElementsOk(ParamsOf(0), d, depth + 1)
    decreases d, 0
  {
    match d
    case Nil =>
    case Cons(_, v, rest) =>
      NoFlagsElements(rest, depth);
      match v {
        case Document(sub) => NoFlagsElements(sub, depth + 1);
        case Array(sub) => NoFlagsElements(sub, depth + 1);
        case _ =>
      }
  }

  // ---------------------------------------------------------------------------------------------------------
  // The rules one by one
  // ---------------------------------------------------------------------------------------------------------

  /** Every key and every text outside scopes is UTF-8, with or without NULs. */
  predicate TextsValid(d: Doc, allowNull: bool)
    decreases d
  {
    d.Cons? ==> Utf8Valid(d.key, allowNull) && ValueTexts(d.value, allowNull) && TextsValid(d.rest, allowNull)
  }

  predicate ValueTexts(v: Value, allowNull: bool)
    decreases v
  {
    match v
    case Utf8(s) => Utf8Valid(s, allowNull)
    case Symbol(s) => Utf8Valid(s, allowNull)
    case Code(s) => Utf8Valid(s, allowNull)
    case DbPointer(s, _) => Utf8Valid(s, allowNull)
    case Regex(rx, opts) => Utf8Valid(rx, allowNull) && Utf8Valid(opts, allowNull)
    case CodeWithScope(js, _, _) => Utf8Valid(js, allowNull)
    case Document(d) => TextsValid(d, allowNull)
    case Array(d) => TextsValid(d, allowNull)
    case _ => true
  }

  /** No key outside scopes is empty. */
  predicate NoEmptyKeys(d: Doc)
    decreases d
  {
    d.Cons? ==>
      && d.key != [] && NoEmptyKeys(d.rest)
      && (d.value.Document? ==> NoEmptyKeys(d.value.doc)) && (d.value.Array? ==> NoEmptyKeys(d.value.items))
  }

  /** No key outside scopes has a dot. */
  predicate NoDots(d: Doc)
    decreases d
  {
    d.Cons? ==>
      && '.' as int !in d.key && NoDots(d.rest)
      && (d.value.Document? ==> NoDots(d.value.doc)) && (d.value.Array? ==> NoDots(d.value.items))
  }

  predicate Dollar(key: bytes) {
    key != [] && key[0] == '$' as int
  }

  /** A key that starts with a dollar stands only in a database reference. */
  predicate DollarsOk(d: Doc)
    decreases d, 1
  {
    if d.Cons? && Dollar(d.key) then IsDbRef(d) else NoDollarKeys(d)
  }

  predicate NoDollarKeys(d: Doc)
    decreases d, 0
  {
    d.Cons? ==> !Dollar(d.key) && DollarsInside(d.value) && NoDollarKeys(d.rest)
  }

  predicate DollarsInside(v: Value)
    decreases v, 0
  {
    (v.Document? ==> DollarsOk(v.doc)) && (v.Array? ==> DollarsOk(v.items))
  }

  /** $ref with a string, $id, and perhaps $db with a string, in this order and in front. */
  predicate IsDbRef(d: Doc)
    decreases d, 0
  {
    && d.Cons? && d.key == ['$' as int, 'r' as int, 'e' as int, 'f' as int] && d.value.Utf8?
    && d.rest.Cons? && d.rest.key == ['$' as int, 'i' as int, 'd' as int] && DollarsInside(d.rest.value)
    && var tail := d.rest.rest;
    if tail.Cons? && tail.key == ['$' as int, 'd' as int, 'b' as int] then tail.value.Utf8? && NoDollarKeys(tail.rest)
    else NoDollarKeys(tail)
  }

  /** Inside a scope, whatever the flags: keys and texts are UTF-8, NULs allowed. */
  predicate ScopesOk(d: Doc)
    decreases d
  {
    d.Cons? ==> ScopesInside(d.value) && ScopesOk(d.rest)
  }

  predicate ScopesInside(v: Value)
    decreases v
  {
    match v
    case Document(d) => ScopesOk(d)
    case Array(d) => ScopesOk(d)
    case CodeWithScope(_, _, d) => TextsValid(d, true) && ScopesOk(d)
    case _ => true
  }

  /** What bson_validate accepts under flags, which are powers of two: each switches on one rule. */
  predicate Accepted(flags: nat, d: Doc) {
    && Height(d) <= 500 && ScopesOk(d)
    && (flags % 2 == 1 ==> TextsValid(d, flags / 8 % 2 == 1))
    && (flags / 2 % 2 == 1 ==> DollarsOk(d))
    && (flags / 4 % 2 == 1 ==> NoDots(d))
    && (flags / 16 % 2 == 1 ==> NoEmptyKeys(d))
  }

  lemma AcceptedIff(flags: nat, d: Doc)
    ensures DocOk(ParamsOf(flags), d, 0) <==> Accepted(flags, d)
  {
    hide DocOk, Height, ScopesOk, TextsValid, DollarsOk, NoDots, NoEmptyKeys;
    DocRules(ParamsOf(flags), d, 0);
  }

  /** The rules of parameters but the one about dollar keys, which depends on where a document starts. */
  predicate Rules(p: Params, d: Doc) {
    && (!p.allowInvalidUtf8 ==> TextsValid(d, p.allowNullInUtf8))
    && (!p.allowEmptyKeys ==> NoEmptyKeys(d)) && (!p.allowDotInKeys ==> NoDots(d)) && ScopesOk(d)
  }

  predicate ValueRules(p: Params, v: Value) {
    && (!p.allowInvalidUtf8 ==> ValueTexts(v, p.allowNullInUtf8)) && ScopesInside(v)
    && (v.Document? ==> Rules(p, v.doc)) && (v.Array? ==> Rules(p, v.items))
    && (p.checkSpecialDollarKeys ==> DollarsInside(v))
  }

  function ValueHeight(v: Value): nat {
    match v
    case Document(sub) => 1 + Height(sub)
    case Array(sub) => 1 + Height(sub)
    case CodeWithScope(_, _, sub) => 1 + Height(sub)
    case _ => 0
  }

  lemma RulesCons(p: Params, d: Doc)
    requires d.Cons?
    ensures Rules(p, d) <==>
            && (!p.allowInvalidUtf8 ==> Utf8Valid(d.key, p.allowNullInUtf8) && ValueTexts(d.value, p.allowNullInUtf8))
            && (!p.allowEmptyKeys ==> d.key != []) && (!p.allowDotInKeys ==> DOT !in d.key) && ScopesInside(d.value)
            && (d.value.Document? ==> Rules(p, d.value.doc)) && (d.value.Array? ==> Rules(p, d.value.items))
            && Rules(p, d.rest)
  {
    hide Utf8Valid, TextsValid, NoEmptyKeys, NoDots, ScopesOk;
    TextsCons(d, p.allowNullInUtf8);
    EmptyCons(d);
    DotsCons(d);
    assert ScopesOk(d) <==> ScopesInside(d.value) && ScopesOk(d.rest) by { ScopesCons(d); }
  }

  lemma TextsCons(d: Doc, n: bool)
    requires d.Cons?
    ensures TextsValid(d, n) <==> Utf8Valid(d.key, n) && ValueTexts(d.value, n) && TextsValid(d.rest, n)
  {
  }

  lemma EmptyCons(d: Doc)
    requires d.Cons?
    ensures NoEmptyKeys(d) <==>
            && d.key != [] && NoEmptyKeys(d.rest)
            && (d.value.Document? ==> NoEmptyKeys(d.value.doc)) && (d.value.Array? ==> NoEmptyKeys(d.value.items))
  {
  }

  lemma DotsCons(d: Doc)
    requires d.Cons?
    ensures NoDots(d) <==>
            && DOT !in d.key && NoDots(d.rest)
            && (d.value.Document? ==> NoDots(d.value.doc)) && (d.value.Array? ==> NoDots(d.value.items))
  {
  }

  lemma ScopesCons(d: Doc)
    requires d.Cons?
    ensures ScopesOk(d) <==> ScopesInside(d.value) && ScopesOk(d.rest)
  {
  }

  lemma {:induction false} ValueDecides(p: Params, v: Value, depth: nat)
    requires depth <= 500
    ensures ValueOk(p, v, depth + 1) <==> ValueRules(p, v) && depth + ValueHeight(v) <= 500
    decreases v, 0
  {
    hide Utf8Valid, DocOk, Height, TextsValid, DollarsOk, ScopesOk, NoDots, NoEmptyKeys;
    match v
    case Document(d) => DocRules(p, d, depth + 1); DeepRules(p, d);
    case Array(d) => DocRules(p, d, depth + 1); DeepRules(p, d);
    case CodeWithScope(_, _, d) => DocRules(SCOPE_PARAMS, d, depth + 1);
    case _ =>
  }

  lemma DeepRules(p: Params, d: Doc)
    ensures Rules(p, d) ==> ScopesOk(d) && (!p.allowInvalidUtf8 ==> TextsValid(d, p.allowNullInUtf8))
  {
  }

  lemma {:induction false} ElementsRules(p: Params, d: Doc, depth: nat)
    requires depth <= 500
    ensures ElementsOk(p, d, depth + 1) <==>
            Rules(p, d) && (p.checkSpecialDollarKeys ==> NoDollarKeys(d)) && depth + Height(d) <= 500
    decreases d, 0
  {
    hide Utf8Valid, ValueOk, ValueTexts, ScopesInside;
    if d.Cons? {
      hide Rules, Height;
      ValueDecides(p, d.value, depth);
      ElementsRules(p, d.rest, depth);
      RulesCons(p, d);
      HeightCons(d);
    }
  }

  lemma HeightCons(d: Doc)
    requires d.Cons?
    ensures Height(d) == if ValueHeight(d.value) > Height(d.rest) then ValueHeight(d.value) else Height(d.rest)
  {
  }

  lemma {:induction false} DocRules(p: Params, d: Doc, depth: nat)
    ensures DocOk(p, d, depth) <==>
            Rules(p, d) && (p.checkSpecialDollarKeys ==> DollarsOk(d)) && depth + Height(d) <= 500
    decreases d, 1
  {
    hide Utf8Valid, ElementsOk, DbRefOk, Rules, Height, NoDollarKeys, IsDbRef;
    if depth <= 500 {
      if p.checkSpecialDollarKeys && d.Cons? && Dollar(d.key) {
        DbRefRules(p, d, depth);
      } else {
        ElementsRules(p, d, depth);
      }
    }
  }

  lemma {:induction false} DbRefRules(p: Params, d: Doc, depth: nat)
    requires depth <= 500 && p.checkSpecialDollarKeys && d.Cons? && Dollar(d.key)
    ensures DbRefOk(p, d, depth + 1) <==> Rules(p, d) && IsDbRef(d) && depth + Height(d) <= 500
    decreases d, 0
  {
    hide Utf8Valid, ValueOk, ElementsOk, Rules, Height, ValueTexts, ScopesInside, NoDollarKeys;
    RefKeys();
    RulesCons(p, d);
    HeightCons(d);
    ValueDecides(p, d.value, depth);
    if d.rest.Cons? {
      var tail := d.rest.rest;
      RulesCons(p, d.rest);
      HeightCons(d.rest);
      ValueDecides(p, d.rest.value, depth);
      ElementsRules(p, tail, depth);
      if tail.Cons? {
        RulesCons(p, tail);
        HeightCons(tail);
        ValueDecides(p, tail.value, depth);
        ElementsRules(p, tail.rest, depth);
      }
    }
  }

  /** The keys of a database reference pass every rule about keys but the one they are an exception to. */
  lemma RefKeys()
    ensures forall n :: Utf8Valid(REF, n) && Utf8Valid(ID, n) && Utf8Valid(DB, n)
    ensures DOT !in REF && DOT !in ID && DOT !in DB
    ensures REF == ['$' as int, 'r' as int, 'e' as int, 'f' as int]
    ensures ID == ['$' as int, 'i' as int, 'd' as int] && DB == ['$' as int, 'd' as int, 'b' as int]
  {
    forall n ensures Utf8Valid(REF, n) && Utf8Valid(ID, n) && Utf8Valid(DB, n) {
      PlainBytes(REF, n);
      PlainBytes(ID, n);
      PlainBytes(DB, n);
    }
  }

  lemma {:induction false} PlainBytes(s: bytes, allowNull: bool)
    requires forall i :: 0 <= i < |s| ==> 0 < s[i] < 0x80
    ensures Utf8Valid(s, allowNull)
    decreases |s|
  {
    if s != [] {
      PlainBytes(s[1..], allowNull);
      assert s[1..1] == [];
    }
  }

  // ---------------------------------------------------------------------------------------------------------
  // The rule an error code names
  // ---------------------------------------------------------------------------------------------------------

  /** The codes failures are reported under, given the parameters; scopes are always checked for UTF-8. */
  predicate Enforced(p: Params, code: int) {
    || code == 32 || code == 1
    || (code == 2 && p.checkSpecialDollarKeys) || (code == 4 && !p.allowDotInKeys) || (code == 16 && !p.allowEmptyKeys)
    || (code == 8 && !p.allowInvalidUtf8 && !p.allowNullInUtf8)
  }

  predicate TextMeets(code: int, s: bytes) {
    (code == 1 ==> Utf8Valid(s, true)) && (code == 8 ==> Utf8Valid(s, false))
  }

  predicate KeyMeets(code: int, key: bytes) {
    && TextMeets(code, key) && (code == 2 ==> !Dollar(key)) && (code == 4 ==> '.' as int !in key) && (code == 16 ==> key != [])
  }

  /** The document keeps the rule a code stands for; depth counts the documents around it. */
  predicate DocMeets(code: int, d: Doc, depth: nat) {
    && (code == 1 ==> TextsValid(d, true) && ScopesOk(d)) && (code == 8 ==> TextsValid(d, false))
    && (code == 2 ==> DollarsOk(d)) && (code == 4 ==> NoDots(d)) && (code == 16 ==> NoEmptyKeys(d))
    && (code == 32 ==> depth + Height(d) <= 500)
  }

  predicate ElementsMeet(code: int, d: Doc, depth: nat) {
    && (code == 1 ==> TextsValid(d, true) && ScopesOk(d)) && (code == 8 ==> TextsValid(d, false))
    && (code == 2 ==> NoDollarKeys(d)) && (code == 4 ==> NoDots(d)) && (code == 16 ==> NoEmptyKeys(d))
    && (code == 32 ==> depth + Height(d) <= 501)
  }

  predicate ValueMeets(code: int, v: Value, depth: nat) {
    && (code == 1 ==> ValueTexts(v, true) && ScopesInside(v)) && (code == 8 ==> ValueTexts(v, false))
    && (code == 2 ==> DollarsInside(v))
    && (code == 4 ==> (v.Document? ==> NoDots(v.doc)) && (v.Array? ==> NoDots(v.items)))
    && (code == 16 ==> (v.Document? ==> NoEmptyKeys(v.doc)) && (v.Array? ==> NoEmptyKeys(v.items)))
    && (code == 32 ==> depth + ValueHeight(v) <= 501)
  }

  lemma MeetsCons(code: int, d: Doc, depth: nat)
    requires d.Cons?
    ensures ElementsMeet(code, d, depth) ==>
            KeyMeets(code, d.key) && ValueMeets(code, d.value, depth) && ElementsMeet(code, d.rest, depth)
  {
    hide Utf8Valid, TextsValid, NoEmptyKeys, NoDots, ScopesOk, Height;
    TextsCons(d, true);
    TextsCons(d, false);
    EmptyCons(d);
    DotsCons(d);
    ScopesCons(d);
    HeightCons(d);
  }

  lemma MeetsInside(code: int, v: Value, depth: nat)
    ensures ValueMeets(code, v, depth) ==>
            && (v.Document? ==> DocMeets(code, v.doc, depth)) && (v.Array? ==> DocMeets(code, v.items, depth))
            && (v.CodeWithScope? ==> TextMeets(code, v.js) && (code == 1 || code == 32 ==> DocMeets(code, v.scope, depth)))
  {
    hide Utf8Valid, TextsValid, NoEmptyKeys, NoDots, ScopesOk, DollarsOk, Height;
  }

  /** A document and its elements, unless it starts like a database reference. */
  lemma MeetsElements(code: int, d: Doc, depth: nat)
    requires code == 2 ==> !(d.Cons? && Dollar(d.key))
    ensures DocMeets(code, d, depth) <==> ElementsMeet(code, d, depth + 1)
  {
  }

  /** What a database reference owes: its parts keep the rule, too. */
  lemma MeetsRef(code: int, d: Doc, depth: nat)
    requires d.Cons? && Dollar(d.key)
    ensures DocMeets(code, d, depth) ==>
            && ValueMeets(code, d.value, depth + 1)
            && (code == 2 ==> IsDbRef(d)) && (d.rest.Cons? ==> ValueMeets(code, d.rest.value, depth + 1))
            && (d.rest.Cons? ==>
                  var tail := d.rest.rest;
                  if tail.Cons? && tail.key == DB
                  then ValueMeets(code, tail.value, depth + 1) && ElementsMeet(code, tail.rest, depth + 1)
                  else ElementsMeet(code, tail, depth + 1))
  {
    hide Utf8Valid, TextsValid, NoEmptyKeys, NoDots, ScopesOk, Height, NoDollarKeys, ValueTexts, ScopesInside, Dollar;
    RefKeys();
    if code != 2 {
      MeetsElements(code, d, depth);
      MeetsCons(code, d, depth + 1);
      if d.rest.Cons? {
        MeetsCons(code, d.rest, depth + 1);
        if d.rest.rest.Cons? { MeetsCons(code, d.rest.rest, depth + 1); }
      }
    } else if DollarsOk(d) {
      assert IsDbRef(d);
    }
  }
}
