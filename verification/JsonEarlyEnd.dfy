/** A text on which the reader is done before the text's outermost map has ended. */
module JsonEarlyEnd {
  import opened CInt
  import opened LittleEndian
  import opened BsonTree
  import opened JsonText
  import opened JsonMachine
  import opened JsonScalars
  import opened JsonRoundTrip
  import opened JsonShape
  import Utf8

  /** {"a": {"$timestamp": {"t": */
  function Opening(): seq<Event> {
    [StartMap, Key(Ascii("a")), StartMap, Key(Ascii("$timestamp")), StartMap, Key(Ascii("t"))]
  }

  /** {"x": null}, "i": null} */
  function Misleading(): seq<Event> {
    [StartMap, Key(Ascii("x")), Nothing, EndMap, Key(Ascii("i")), Nothing, EndMap]
  }

  lemma {:induction false} LevelsPath(path: seq<seq<Level>>, events: seq<Event>)
    requires |path| == |events| + 1
    requires forall i :: 0 <= i < |events| ==> Legal(path[i], events[i]) && After(path[i], events[i]) == path[i + 1]
    ensures LegalRun(path[0], events) && LevelsAfter(path[0], events) == path[|events|]
    decreases |events|
  {
    hide Legal, After;
    if events != [] { LevelsPath(path[1..], events[1..]); }
  }

  lemma {:induction false} LevelsSplit(levels: seq<Level>, xs: seq<Event>, ys: seq<Event>)
    requires LegalRun(levels, xs) && LegalRun(LevelsAfter(levels, xs), ys)
    ensures LegalRun(levels, xs + ys) && LevelsAfter(levels, xs + ys) == LevelsAfter(LevelsAfter(levels, xs), ys)
    decreases |xs|
  {
    hide Legal, After;
    if xs == [] {
      assert xs + ys == ys;
    } else {
      assert (xs + ys)[1..] == xs[1..] + ys && (xs + ys)[0] == xs[0];
      LevelsSplit(After(levels, xs[0]), xs[1..], ys);
    }
  }

  /** Two maps of the text are still open. */
  lemma StillOpen()
    ensures LegalRun([], Opening() + Misleading()) && LevelsAfter([], Opening() + Misleading()) == [Map(false), Map(false)]
  {
    hide Ascii, LegalRun, LevelsAfter;
    var (m, d) := (Map(false), Map(true));
    LevelsPath([[], [m], [d], [m, m], [m, d], [m, m, m], [m, m, d]], Opening());
    LevelsPath([[m, m, d], [m, m, m, m], [m, m, m, d], [m, m, m, m], [m, m, m], [m, m, d], [m, m, m], [m, m]], Misleading());
    LevelsSplit([], Opening(), Misleading());
  }

  lemma FirstKey(s: Machine, k: bytes, c: Conversions)
    requires s.read == InStartMap && CanPush(s) && Utf8.Utf8Valid(k, false) && (s.n >= 0 ==> SpecialKey(k) == Ordinary)
    ensures Step(s, Key(k), c) == Push(s.(read := Regular), DocFrame, KeyOf(s)).(key := Some(k))
  {
    hide StepNull, StepFloat, StepInteger, StepBoolean, StepText, StepEndMap, StepStartMap, StepStartArray, StepEndArray,
      Utf8.Utf8Valid, SpecialKey, TypeKey;
  }

  lemma WrapperKey(s: Machine, c: Conversions)
    requires s.read == InStartMap && s.n >= 0 && !s.failed
    ensures Step(s, Key(Ascii("$timestamp")), c) == InWrapper(s).(wrapper := TimestampType, read := TimestampStartMap)
  {
    hide StepNull, StepFloat, StepInteger, StepBoolean, StepText, StepEndMap, StepStartMap, StepStartArray, StepEndArray,
      Utf8.Utf8Valid, SpecialKey, TypeKey, Ascii;
    SpecialKeys2();
    LiteralValid("$timestamp");
    MapKey(s, Ascii("$timestamp"));
  }

  lemma NullStep(s: Machine, k: bytes, c: Conversions)
    requires s.read == Regular && s.n >= 0 && Kind(s) == DocFrame && s.key == Some(k)
    ensures Step(s, Nothing, c) == AppendTo(s, k, Null)
  {
    hide StepText, StepFloat, StepInteger, StepBoolean, StepKey, StepEndMap, StepStartMap, StepStartArray, StepEndArray;
  }

  lemma EndStep(s: Machine, c: Conversions)
    requires s.read == Regular && s.n >= 0 && Kind(s) == DocFrame
    ensures Step(s, EndMap, c) == if s.n == 0 then Pop(s).(read := Done) else Pop(s)
  {
    hide StepText, StepFloat, StepInteger, StepBoolean, StepKey, StepNull, StepStartMap, StepStartArray, StepEndArray;
  }

  lemma MiddleStart(s: Machine, c: Conversions)
    requires s.read == TimestampValues
    ensures Step(s, StartMap, c) == s.(read := InStartMap)
  {
    hide StepText, StepFloat, StepInteger, StepBoolean, StepKey, StepNull, StepEndMap, StepStartArray, StepEndArray;
  }

  lemma OrdinaryLetter()
    ensures SpecialKey(Ascii("x")) == Ordinary
  {
    hide Ascii;
  }

  /** In the middle of the timestamp, only the root has a frame. */
  predicate AtTime(u: Machine) {
    !u.failed && u.read == TimestampValues && u.n == 0 && Kind(u) == DocFrame
  }

  lemma Opened(target: Doc, c: Conversions)
    ensures AtTime(Run(Start(target), Opening(), c))
  {
    hide Run, Step, Ascii, SpecialKey, Utf8.Utf8Valid, Push, Start;
    var s := Start(target);
    AtStart(target);
    RootStarts(target, c);
    LiteralValid("a");
    LiteralValid("t");
    var s1 := s.(read := InStartMap);
    var s2 := Push(s, DocFrame, []).(key := Some(Ascii("a")));
    RootReady(target, DocFrame);
    FirstKey(s1, Ascii("a"), c);
    StartMapStep(s2, c);
    RegularIdle(s2);
    var s3 := s2.(read := InStartMap);
    WrapperKey(s3, c);
    var s4 := InWrapper(s3).(wrapper := TimestampType, read := TimestampStartMap);
    StartInside(s4, c);
    var s5 := s4.(read := TimestampValues);
    KeyInside(s5, Ascii("t"), TimestampType, SeekT, c);
    RunPath([s, s1, s2, s3, s4, s5, s5.(sought := SeekT)], Opening(), c);
  }

  lemma Misled(u: Machine, c: Conversions)
    requires AtTime(u)
    ensures var t := Run(u, Misleading(), c); t.read == Done && !t.failed
  {
    hide Run, Step, Ascii, SpecialKey, Utf8.Utf8Valid, AppendTo, Push, AtTime;
    var i := Ascii("i");
    LiteralValid("i");
    var (xs, ys) := ([StartMap, Key(Ascii("x")), Nothing, EndMap], [Key(i), Nothing, EndMap]);
    MapRead(u, c);
    var s := Run(u, xs, c);
    assert Misleading() == xs + ys;
    RunSplit(u, xs, ys, c);
    RegularKey(s, i, c);
    var s1 := s.(key := Some(i));
    NullStep(s1, i, c);
    var s2 := AppendTo(s1, i, Null);
    DocAppend(s1, i, Null);
    EndStep(s2, c);
    RunPath([s, s1, s2, Pop(s2).(read := Done)], ys, c);
  }

  /** The map that is out of place is read as a document; after it the reader has forgotten the timestamp. */
  lemma MapRead(u: Machine, c: Conversions)
    requires AtTime(u)
    ensures var t := Run(u, [StartMap, Key(Ascii("x")), Nothing, EndMap], c);
            !t.failed && t.read == Regular && t.n == 0 && Kind(t) == DocFrame
  {
    hide Run, Step, Ascii, SpecialKey, Utf8.Utf8Valid, AppendTo, Push;
    LiteralValid("x");
    OrdinaryLetter();
    var x := Ascii("x");
    var u1 := u.(read := InStartMap);
    MiddleStart(u, c);
    FirstKey(u1, x, c);
    var u2 := Push(u1.(read := Regular), DocFrame, KeyOf(u1)).(key := Some(x));
    Pushed(u1.(read := Regular), DocFrame, KeyOf(u1));
    NullStep(u2, x, c);
    var u3 := AppendTo(u2, x, Null);
    DocAppend(u2, x, Null);
    EndStep(u3, c);
    DocAppend(u3.(n := 0), u3.stack[1].key, Document(u3.stack[1].doc));
    RunPath([u, u1, u2, u3, Pop(u3)], [StartMap, Key(x), Nothing, EndMap], c);
  }

  lemma DocAppend(s: Machine, k: bytes, v: Value)
    requires s.n >= 0
    ensures var t := AppendTo(s, k, v);
            && t.n == s.n && t.read == s.read && t.failed == s.failed && t.key == s.key
            && (forall i :: 0 <= i < STACK_MAX ==> t.stack[i].kind == s.stack[i].kind && t.stack[i].key == s.stack[i].key)
  {
  }

  /** Done, and nothing has failed, although the text's outermost map is open. */
  lemma DoneTooEarly(target: Doc, c: Conversions)
    ensures var events := Opening() + Misleading();
            var t := Run(Start(target), events, c);
            && t.read == Done && !t.failed
            && LegalRun([], events) && LevelsAfter([], events) != []
  {
    hide Run;
    StillOpen();
    Opened(target, c);
    Misled(Run(Start(target), Opening(), c), c);
    RunSplit(Start(target), Opening(), Misleading(), c);
  }
}
