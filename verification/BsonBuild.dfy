/** Whole runs of the builder: what any balanced sequence of calls leaves in the buffer. */
module BsonBuild {
  import opened CInt
  import opened LittleEndian
  import opened BsonTree
  import opened BsonDecode
  import opened BsonArguments
  import opened BsonLayout
  import opened BsonBuilder

  /** A call on the deepest open document. */
  datatype Op =
    | Begin(key: bytes, isArray: bool)
    | End
    | Element(key: bytes, value: Value)
    | Splice(doc: Doc)

  /** A document waiting for the child open in it, and where that child will go. */
  datatype Pending = Pending(doc: Doc, key: bytes, isArray: bool)

  datatype State = State(outer: seq<Pending>, current: Doc)

  const START := State([], Nil)

  function Nested(isArray: bool, d: Doc): Value {
    if isArray then Array(d) else Document(d)
  }

  /** What a call means on trees; None for an end without a begin. */
  function Step(s: State, op: Op): Option<State> {
    match op
    case Begin(key, isArray) => Some(State(s.outer + [Pending(s.current, key, isArray)], Nil))
    case End =>
      if s.outer == [] then None
      else
        var p := s.outer[|s.outer| - 1];
        Some(State(s.outer[..|s.outer| - 1], Snoc(p.doc, p.key, Nested(p.isArray, s.current))))
    case Element(key, v) => Some(State(s.outer, Snoc(s.current, key, Stored(v))))
    case Splice(d) => Some(State(s.outer, Append(s.current, d)))
  }

  function Exec(s: State, ops: seq<Op>): Option<State>
    decreases |ops|
  {
    if ops == [] then Some(s)
    else
      var next := Step(s, ops[0]);
      if next == None then None else Exec(next.value, ops[1..])
  }

  lemma {:induction false} ExecSplit(s: State, xs: seq<Op>, ys: seq<Op>)
    ensures Exec(s, xs + ys) == (if Exec(s, xs) == None then None else Exec(Exec(s, xs).value, ys))
    decreases |xs|
  {
    if xs == [] {
      assert xs + ys == ys;
    } else {
      assert (xs + ys)[1..] == xs[1..] + ys;
      var next := Step(s, xs[0]);
      if next.Some? { ExecSplit(next.value, xs[1..], ys); }
    }
  }

  lemma ExecOne(s: State, op: Op)
    ensures Exec(s, [op]) == Step(s, op)
  {
    if Step(s, op).Some? { assert Exec(Step(s, op).value, []) == Step(s, op); }
  }

  /** What happens inside a child does not depend on the documents around it. */
  lemma {:induction false} ExecInside(outer: seq<Pending>, s: State, ops: seq<Op>)
    requires Exec(s, ops).Some?
    ensures Exec(State(outer + s.outer, s.current), ops)
         == Some(State(outer + Exec(s, ops).value.outer, Exec(s, ops).value.current))
    decreases |ops|
  {
    if ops != [] {
      var next := Step(s, ops[0]).value;
      ExecInside(outer, next, ops[1..]);
      assert Step(State(outer + s.outer, s.current), ops[0]) == Some(State(outer + next.outer, next.current)) by {
        match ops[0]
        case Begin(key, isArray) =>
          assert outer + s.outer + [Pending(s.current, key, isArray)] == outer + next.outer;
        case End =>
          assert (outer + s.outer)[..|outer + s.outer| - 1] == outer + next.outer;
        case _ =>
      }
    }
  }

  /** Building a child in place is appending the child built on its own. */
  lemma InPlaceIsWhole(s: State, key: bytes, isArray: bool, body: seq<Op>, d: Doc)
    requires Exec(START, body) == Some(State([], d))
    ensures Exec(s, [Begin(key, isArray)] + body + [End]) == Exec(s, [Element(key, Nested(isArray, d))])
  {
    hide Exec;
    var outer := s.outer + [Pending(s.current, key, isArray)];
    ExecOne(s, Begin(key, isArray));
    ExecSplit(s, [Begin(key, isArray)], body);
    ExecInside(outer, START, body);
    assert outer + [] == outer;
    ExecSplit(s, [Begin(key, isArray)] + body, [End]);
    ExecOne(State(outer, d), End);
    assert outer[..|outer| - 1] == s.outer;
    ExecOne(s, Element(key, Nested(isArray, d)));
  }

  // ---------------------------------------------------------------------------------------------------------
  // The bytes of a state
  // ---------------------------------------------------------------------------------------------------------

  ghost function Levels(s: State): (r: seq<bytes>)
    ensures |r| == |s.outer| + 1
  {
    seq(|s.outer|, i requires 0 <= i < |s.outer| => EncodeElements(s.outer[i].doc) + Head(s.outer[i].key, s.outer[i].isArray))
    + [EncodeElements(s.current)]
  }

  lemma LevelsBegin(s: State, key: bytes, isArray: bool)
    ensures Levels(Step(s, Begin(key, isArray)).value) == Extended(Levels(s), Head(key, isArray)) + [[]]
  {
    hide Head;
  }

  lemma LevelsElement(s: State, key: bytes, v: Value)
    ensures Levels(Step(s, Element(key, v)).value) == Extended(Levels(s), EncodeElement(key, Stored(v)))
  {
    hide Head, Snoc, Stored, EncodeElement;
    EncodeSnoc(s.current, key, Stored(v));
  }

  lemma LevelsSplice(s: State, d: Doc)
    ensures Levels(Step(s, Splice(d)).value) == Extended(Levels(s), EncodeElements(d))
  {
    hide Head, Append;
    EncodeAppend(s.current, d);
  }

  lemma LevelsEnd(s: State)
    requires s.outer != []
    ensures Levels(Step(s, End).value) == Joined(Levels(s))
  {
    hide Snoc, Frame, EncodeElements;
    var p := s.outer[|s.outer| - 1];
    var v := Nested(p.isArray, s.current);
    EncodeSnoc(p.doc, p.key, v);
    assert EncodeValue(v) == Frame(EncodeElements(s.current));
    assert EncodeElement(p.key, v) == Head(p.key, p.isArray) + EncodeValue(v);
    JoinAssoc(EncodeElements(p.doc), Head(p.key, p.isArray), EncodeValue(v));
  }

  /** The size of all open documents if they were closed now: every one needs a length and a terminator. */
  ghost function Total(levels: seq<bytes>): nat {
    if levels == [] then 0 else Total(levels[..|levels| - 1]) + |levels[|levels| - 1]| + 5
  }

  lemma {:induction false} ReservedSoFar(buf: bytes, exts: seq<Extent>, levels: seq<bytes>, i: nat)
    requires Layout(buf, exts, levels) && i < |exts|
    ensures exts[i].offset + i == Total(levels[..i])
  {
    if i > 0 {
      ReservedSoFar(buf, exts, levels, i - 1);
      assert levels[..i][..i - 1] == levels[..i - 1];
    } else {
      assert levels[..0] == [];
    }
  }

  /** What the deepest document has reserved is the size everything will have once closed. */
  lemma ReservedTotal(buf: bytes, exts: seq<Extent>, levels: seq<bytes>)
    requires Layout(buf, exts, levels)
    ensures var last := |exts| - 1; exts[last].offset + exts[last].len + last == Total(levels)
  {
    ReservedSoFar(buf, exts, levels, |exts| - 1);
  }

  /** No open document, nor the terminators it owes, reaches past what the deepest one has reserved. */
  lemma {:induction false} ReservedEverywhere(buf: bytes, exts: seq<Extent>, levels: seq<bytes>, i: nat)
    requires Layout(buf, exts, levels) && i < |exts|
    ensures var last := |exts| - 1; exts[i].offset + exts[i].len + i <= exts[last].offset + exts[last].len + last
    decreases |exts| - i
  {
    if i < |exts| - 1 { ReservedEverywhere(buf, exts, levels, i + 1); }
  }

  /** When a call succeeds on a buffer that can grow. */
  ghost predicate Accepts(s: State, op: Op) {
    match op
    case Begin(key, _) => 0 !in key && Total(Levels(s)) + |key| + 7 <= MAX_SIZE
    case End => true
    case Element(key, v) =>
      && 0 !in key && (v.Regex? ==> 0 !in v.pattern)
      && Total(Levels(s)) + |EncodeElement(key, Stored(v))| <= MAX_SIZE
    case Splice(d) => d == Nil || Total(Levels(s)) + |EncodeElements(d)| <= MAX_SIZE
  }

  ghost predicate AllAccepted(s: State, ops: seq<Op>)
    decreases |ops|
  {
    ops == [] || (Accepts(s, ops[0]) && Step(s, ops[0]).Some? && AllAccepted(Step(s, ops[0]).value, ops[1..]))
  }

  /** One call, on the deepest open document. */
  method Call(op: Op, chain: seq<Bson>, ghost s: State) returns (ok: bool, chain': seq<Bson>)
    requires Building(chain, Levels(s)) && Growable(chain) && Step(s, op).Some?
    requires op.Element? ==> CTyped(op.value)
    modifies chain, chain[0].store
    ensures ok == Accepts(s, op)
    ensures |chain'| > 0 && chain'[0] == chain[0]
    ensures Building(chain', Levels(if ok then Step(s, op).value else s)) && Growable(chain')
    ensures forall i :: 0 <= i < |chain'| ==> fresh(chain'[i]) || (i < |chain| && chain'[i] == chain[i])
    ensures chain[0].store == old(chain[0].store) || fresh(chain[0].store)
  {
    hide Layout, Levels, CTyped, Total, EncodeElement, EncodeElements;
    RoomIsTotal(chain, Levels(s));
    var last := Deepest(chain);
    var child := new Bson.Init();
    chain' := chain;
    match op
    case Begin(key, isArray) =>
      LevelsBegin(s, key, isArray);
      ok := last.AppendBegin(key, isArray, child, chain, Levels(s));
      if ok { chain' := chain + [child]; }
    case End =>
      chain' := Close(chain, s);
      ok := true;
    case Element(key, v) =>
      LevelsElement(s, key, v);
      ok := last.AppendElement(key, v, chain, Levels(s));
    case Splice(d) =>
      LevelsSplice(s, d);
      ok := last.Concatenate(EncodeDoc(d), d, chain, Levels(s));
  }

  method Close(chain: seq<Bson>, ghost s: State) returns (chain': seq<Bson>)
    requires Building(chain, Levels(s)) && s.outer != []
    modifies chain, chain[0].store
    ensures |chain| > 1 && chain' == chain[..|chain| - 1] && chain[0].store == old(chain[0].store)
    ensures Building(chain', Levels(Step(s, End).value)) && Growable(chain') == old(Growable(chain))
  {
    hide Layout, Levels;
    LevelsEnd(s);
    LayoutDeepest(chain[0].store[..], Exts(chain), Levels(s));
    var last := |chain| - 1;
    assert Link(chain, last) && Link(chain, last - 1);
    chain[last].parent.AppendEnd(chain[last], chain, Levels(s));
    return chain[..last];
  }

  lemma RoomIsTotal(chain: seq<Bson>, levels: seq<bytes>)
    requires Building(chain, levels) && Growable(chain)
    ensures forall n: nat :: HasRoom(chain, n) <==> Total(levels) + n <= 2147483647
  {
    ReservedTotal(chain[0].store[..], Exts(chain), levels);
    assert Link(chain, |chain| - 1);
  }

  /** A caller's run: the calls in order, until one fails. */
  method Run(ops: seq<Op>) returns (root: Bson, chain: seq<Bson>, done: nat)
    requires Exec(START, ops).Some?
    requires forall op <- ops :: op.Element? ==> CTyped(op.value)
    ensures done <= |ops| && Exec(START, ops[..done]).Some? && AllAccepted(START, ops[..done])
    ensures done < |ops| ==> !Accepts(Exec(START, ops[..done]).value, ops[done])
    ensures |chain| > 0 && chain[0] == root && Building(chain, Levels(Exec(START, ops[..done]).value))
    ensures done == |ops| && Exec(START, ops).value.outer == []
            ==> root.len <= root.store.Length && root.store[..root.len] == EncodeDoc(Exec(START, ops).value.current)
  {
    hide Exec, Layout, Levels, CTyped, EncodeElements, AllAccepted, Accepts;
    root := new Bson.Init();
    chain := [root];
    done := 0;
    RunStart();
    assert ops[..0] == [];
    ghost var s := START;
    while done < |ops|
      invariant done <= |ops| && Exec(START, ops[..done]) == Some(s) && AllAccepted(START, ops[..done])
      invariant |chain| > 0 && chain[0] == root && Building(chain, Levels(s)) && Growable(chain)
      invariant (forall i :: 0 <= i < |chain| ==> fresh(chain[i])) && fresh(root.store)
    {
      RunStep(ops, done, s);
      var ok;
      ok, chain := Call(ops[done], chain, s);
      if !ok {
        return;
      }
      s := Step(s, ops[done]).value;
      done := done + 1;
    }
    assert ops[..done] == ops;
    Finished(chain, s);
  }

  lemma RunStart()
    ensures Exec(START, []) == Some(START) && AllAccepted(START, []) && Levels(START) == [[]]
  {
  }

  lemma RunStep(ops: seq<Op>, i: nat, s: State)
    requires i < |ops| && Exec(START, ops).Some? && Exec(START, ops[..i]) == Some(s) && AllAccepted(START, ops[..i])
    ensures Step(s, ops[i]).Some? && Exec(START, ops[..i + 1]) == Step(s, ops[i])
    ensures Accepts(s, ops[i]) ==> AllAccepted(START, ops[..i + 1])
  {
    hide Exec, AllAccepted, Step;
    assert ops[..i + 1] == ops[..i] + [ops[i]];
    assert ops == ops[..i + 1] + ops[i + 1..];
    ExecSplit(START, ops[..i + 1], ops[i + 1..]);
    ExecSplit(START, ops[..i], [ops[i]]);
    ExecOne(s, ops[i]);
    if Accepts(s, ops[i]) { AcceptedSnoc(START, ops[..i], ops[i]); }
  }

  lemma {:induction false} AcceptedSnoc(s: State, ops: seq<Op>, op: Op)
    requires AllAccepted(s, ops) && Exec(s, ops + [op]).Some? && Exec(s, ops).Some?
    requires Accepts(Exec(s, ops).value, op) && Step(Exec(s, ops).value, op).Some?
    ensures AllAccepted(s, ops + [op])
    decreases |ops|
  {
    hide Accepts;
    if ops == [] {
      assert ops + [op] == [op] && [op][1..] == [];
    } else {
      assert (ops + [op])[1..] == ops[1..] + [op] && (ops + [op])[0] == ops[0];
      AcceptedSnoc(Step(s, ops[0]).value, ops[1..], op);
    }
  }

  lemma Finished(chain: seq<Bson>, s: State)
    requires Building(chain, Levels(s))
    ensures s.outer == [] ==> |chain| == 1 && chain[0].store != null && chain[0].len <= chain[0].store.Length
                              && chain[0].store[..chain[0].len] == EncodeDoc(s.current)
  {
    hide EncodeElements, Frame;
    if s.outer == [] {
      assert Levels(s) == [EncodeElements(s.current)];
      assert Link(chain, 0);
      LayoutDeepest(chain[0].store[..], Exts(chain), Levels(s));
      assert chain[0].store[..chain[0].len] == chain[0].store[..][..chain[0].len];
    }
  }

  // ---------------------------------------------------------------------------------------------------------
  // Decoding what was built
  // ---------------------------------------------------------------------------------------------------------

  predicate WellFormedState(s: State) {
    (forall p <- s.outer :: 0 !in p.key && WellFormedDoc(p.doc)) && WellFormedDoc(s.current)
  }

  predicate Typed(op: Op) {
    match op
    case Element(_, v) => CTyped(v)
    case Splice(d) => WellFormedDoc(d)
    case _ => true
  }

  lemma {:induction false} WellFormedAppend(d: Doc, e: Doc)
    requires WellFormedDoc(d) && WellFormedDoc(e)
    ensures WellFormedDoc(Append(d, e))
  {
    if d.Cons? { WellFormedAppend(d.rest, e); }
  }

  lemma WellFormedStep(s: State, op: Op)
    requires WellFormedState(s) && Typed(op) && Accepts(s, op) && Step(s, op).Some?
    ensures WellFormedState(Step(s, op).value)
  {
    hide Append, Total, Levels;
    match op
    case Begin(_, _) =>
    case End =>
      var p := s.outer[|s.outer| - 1];
      var v := Nested(p.isArray, s.current);
      assert p in s.outer && WellFormed(v);
      WellFormedAppend(p.doc, Cons(p.key, v, Nil));
    case Element(key, v) =>
      assert WellFormed(Stored(v));
      WellFormedAppend(s.current, Cons(key, Stored(v), Nil));
    case Splice(d) => WellFormedAppend(s.current, d);
  }

  lemma {:induction false} WellFormedRun(s: State, ops: seq<Op>)
    requires WellFormedState(s) && AllAccepted(s, ops) && forall op <- ops :: Typed(op)
    ensures Exec(s, ops).Some? && WellFormedState(Exec(s, ops).value)
    decreases |ops|
  {
    hide WellFormedState, Typed, Accepts, Step;
    if ops != [] {
      WellFormedStep(s, ops[0]);
      WellFormedRun(Step(s, ops[0]).value, ops[1..]);
    }
  }

  lemma TotalExtended(levels: seq<bytes>, x: bytes)
    requires |levels| > 0
    ensures Total(Extended(levels, x)) == Total(levels) + |x|
  {
    var last := |levels| - 1;
    assert Extended(levels, x)[..last] == levels[..last];
  }

  lemma TotalJoined(levels: seq<bytes>)
    requires |levels| >= 2
    ensures Total(Joined(levels)) == Total(levels)
  {
    hide Frame, Total;
    var n := |levels|;
    var outer := levels[..n - 2];
    TotalSnoc(outer, levels[n - 2]);
    TotalSnoc(levels[..n - 1], levels[n - 1]);
    TotalSnoc(outer, levels[n - 2] + Frame(levels[n - 1]));
    assert levels[..n - 1] == outer + [levels[n - 2]] && levels == levels[..n - 1] + [levels[n - 1]];
  }

  lemma TotalSnoc(levels: seq<bytes>, x: bytes)
    ensures Total(levels + [x]) == Total(levels) + |x| + 5
  {
    assert (levels + [x])[..|levels|] == levels;
  }

  /** Closing a child never needs room: the sizes add up to the same total before and after. */
  lemma TotalStep(s: State, op: Op)
    requires Accepts(s, op) && Step(s, op).Some? && Total(Levels(s)) <= MAX_SIZE
    ensures Total(Levels(Step(s, op).value)) <= 2147483647
    ensures op == End ==> Total(Levels(Step(s, op).value)) == Total(Levels(s))
  {
    hide Levels, Total, EncodeElements, EncodeElement, Stored, Extended, Joined;
    match op
    case Begin(key, isArray) =>
      LevelsBegin(s, key, isArray);
      TotalExtended(Levels(s), Head(key, isArray));
      TotalSnoc(Extended(Levels(s), Head(key, isArray)), []);
    case End =>
      LevelsEnd(s);
      TotalJoined(Levels(s));
    case Element(key, v) =>
      LevelsElement(s, key, v);
      TotalExtended(Levels(s), EncodeElement(key, Stored(v)));
    case Splice(d) =>
      LevelsSplice(s, d);
      TotalExtended(Levels(s), EncodeElements(d));
      assert d == Nil ==> EncodeElements(d) == [] by { ElementsInside(d); }
  }

  lemma {:induction false} TotalRun(s: State, ops: seq<Op>)
    requires AllAccepted(s, ops) && Exec(s, ops).Some? && Total(Levels(s)) <= MAX_SIZE
    ensures Total(Levels(Exec(s, ops).value)) <= 2147483647
    decreases |ops|
  {
    hide Total, Levels, Accepts;
    if ops != [] {
      TotalStep(s, ops[0]);
      TotalRun(Step(s, ops[0]).value, ops[1..]);
    }
  }

  lemma LevelsAlone(d: Doc)
    ensures Levels(State([], d)) == [EncodeElements(d)]
  {
    hide EncodeElements;
  }

  /** Iterating over what the append functions produced gives back what was appended. */
  lemma DecodeBuilt(ops: seq<Op>, d: Doc)
    requires AllAccepted(START, ops) && Exec(START, ops) == Some(State([], d)) && forall op <- ops :: Typed(op)
    ensures Decode(EncodeDoc(d)) == Some(d)
  {
    hide AllAccepted, Exec, Typed, Decode, EncodeElements, Levels;
    WellFormedRun(START, ops);
    RunStart();
    assert Total([[]]) == 5;
    TotalRun(START, ops);
    assert Levels(State([], d)) == [EncodeElements(d)] by { LevelsAlone(d); }
    assert |EncodeDoc(d)| == Total([EncodeElements(d)]);
    DecodeIff(EncodeDoc(d), d);
  }

  /** bson_concat joins the element sequences: the result decodes to the one followed by the other. */
  lemma ConcatDecodes(d: Doc, e: Doc)
    requires WellFormedDoc(d) && WellFormedDoc(e) && |EncodeElements(d)| + |EncodeElements(e)| + 5 <= MAX_SIZE
    ensures Decode(Frame(EncodeElements(d) + EncodeElements(e))) == Some(Append(d, e))
  {
    hide Decode, EncodeElements, Append, WellFormedDoc;
    WellFormedAppend(d, e);
    EncodeAppend(d, e);
    DecodeIff(EncodeDoc(Append(d, e)), Append(d, e));
  }
}
