/** How far the reader's containers fall behind the text's, over every run; when it is done on time. */
module JsonLag {
  import opened LittleEndian
  import opened BsonTree
  import opened JsonMachine
  import opened JsonShape

  // ---------------------------------------------------------------------------------------------------------
  // Containers that lack some maps
  // ---------------------------------------------------------------------------------------------------------

  /** x is y without some of its maps (true); the arrays (false) are all there. */
  predicate Fits(x: seq<bool>, y: seq<bool>)
    decreases |y|
  {
    if y == [] then x == []
    else
      var rest := y[..|y| - 1];
      var same := x != [] && x[|x| - 1] == y[|y| - 1] && Fits(x[..|x| - 1], rest);
      same || (y[|y| - 1] && Fits(x, rest))
  }

  lemma {:induction false} FitsSelf(x: seq<bool>)
    ensures Fits(x, x)
  {
    if x != [] { FitsSelf(x[..|x| - 1]); }
  }

  lemma FitsPush(x: seq<bool>, y: seq<bool>, b: bool)
    requires Fits(x, y)
    ensures Fits(x + [b], y + [b])
  {
    assert (x + [b])[..|x|] == x && (y + [b])[..|y|] == y;
  }

  /** A map that the reader does not have. */
  lemma FitsLose(x: seq<bool>, y: seq<bool>)
    requires Fits(x, y)
    ensures Fits(x, y + [true])
  {
    assert (y + [true])[..|y|] == y;
  }

  lemma {:induction false} FitsDrop(x: seq<bool>, y: seq<bool>)
    requires Fits(x + [true], y)
    ensures Fits(x, y)
    decreases |y|
  {
    if y != [] {
      assert (x + [true])[..|x|] == x;
      var rest := y[..|y| - 1];
      if Fits(x + [true], rest) { FitsDrop(x, rest); }
    }
  }

  lemma FitsPop(x: seq<bool>, y: seq<bool>, b: bool)
    requires Fits(x + [b], y + [b])
    ensures Fits(x, y)
  {
    assert (x + [b])[..|x|] == x && (y + [b])[..|y|] == y;
    if b && Fits(x + [b], y) { FitsDrop(x, y); }
  }

  /** The end of a map of the text where the reader is in an array or in nothing. */
  lemma FitsAbsorb(x: seq<bool>, y: seq<bool>)
    requires Fits(x, y + [true]) && (x != [] ==> !x[|x| - 1])
    ensures Fits(x, y)
  {
    assert (y + [true])[..|y|] == y;
  }

  predicate AllMaps(x: seq<bool>) {
    forall i :: 0 <= i < |x| ==> x[i]
  }

  lemma {:induction false} FitsCounts(x: seq<bool>, y: seq<bool>)
    requires Fits(x, y)
    ensures |x| <= |y| && (|x| == |y| ==> x == y) && (AllMaps(x) <==> AllMaps(y))
    decreases |y|
  {
    if y != [] {
      var (rest, last) := (y[..|y| - 1], y[|y| - 1]);
      assert y == rest + [last];
      if x != [] && x[|x| - 1] == last && Fits(x[..|x| - 1], rest) {
        assert x == x[..|x| - 1] + [last];
        FitsCounts(x[..|x| - 1], rest);
        SnocMaps(x[..|x| - 1], last);
      } else {
        FitsCounts(x, rest);
      }
      SnocMaps(rest, last);
    }
  }

  lemma SnocMaps(x: seq<bool>, b: bool)
    ensures AllMaps(x + [b]) <==> AllMaps(x) && b
  {
    if AllMaps(x + [b]) {
      assert (x + [b])[|x|] == b;
      forall i | 0 <= i < |x| ensures x[i] { assert (x + [b])[i]; }
    }
  }

  /** The maps below the outermost array. */
  function Bottom(x: seq<bool>): (n: nat)
    ensures n <= |x|
  {
    if AllMaps(x) then |x| else Bottom(x[..|x| - 1])
  }

  lemma BottomSnoc(x: seq<bool>, b: bool)
    ensures Bottom(x + [b]) == if AllMaps(x) && b then |x| + 1 else Bottom(x)
  {
    SnocMaps(x, b);
    assert (x + [b])[..|x|] == x;
  }

  // ---------------------------------------------------------------------------------------------------------
  // What one event does to the containers of both
  // ---------------------------------------------------------------------------------------------------------

  /** The reader's containers go from x to x', the text's from y to y'; lost says how many maps the reader loses. */
  predicate Moves(x: seq<bool>, y: seq<bool>, x': seq<bool>, y': seq<bool>, lost: nat, absorbed: bool) {
    || (lost == 0 && !absorbed && x' == x && y' == y)
    || (exists b :: Together(x, y, x', y', b) && lost == 0 && !absorbed)
    || (lost == 0 && absorbed && x' == x && y == y' + [true] && x != [] && !x[|x| - 1])
    || (lost == 1 && !absorbed && y' == y && x == x' + [true])
    || (lost == 1 && !absorbed && x' == x && y' == y + [true])
    || (lost == 2 && !absorbed && x == x' + [true] && y' == y + [true])
  }

  predicate Together(x: seq<bool>, y: seq<bool>, x': seq<bool>, y': seq<bool>, b: bool) {
    (x' == x + [b] && y' == y + [b]) || (x == x' + [b] && y == y' + [b])
  }

  /** The lag grows by what is lost and shrinks by what an array absorbs; below the first array nothing is absorbed. */
  lemma MovesLag(x: seq<bool>, y: seq<bool>, x': seq<bool>, y': seq<bool>, lost: nat, absorbed: bool)
    requires Fits(x, y) && Moves(x, y, x', y', lost, absorbed)
    ensures Fits(x', y') && |y'| - |x'| == |y| - |x| + lost - if absorbed then 1 else 0
    ensures Bottom(y') - Bottom(x') == Bottom(y) - Bottom(x) + if AllMaps(y) then lost else 0
  {
    hide Fits, AllMaps, Bottom, Together;
    if lost == 0 && absorbed {
      AbsorbLag(x, y, y');
    } else if lost == 0 {
      if !(x' == x && y' == y) {
        var b :| Together(x, y, x', y', b);
        TogetherLag(x, y, x', y', b);
      }
    } else {
      LostLag(x, y, x', y');
    }
  }

  lemma AbsorbLag(x: seq<bool>, y: seq<bool>, y': seq<bool>)
    requires Fits(x, y) && y == y' + [true] && x != [] && !x[|x| - 1]
    ensures Fits(x, y') && Bottom(y') == Bottom(y)
  {
    hide Fits, Bottom;
    FitsAbsorb(x, y');
    FitsCounts(x, y');
    BottomSnoc(y', true);
  }

  lemma LostLag(x: seq<bool>, y: seq<bool>, x': seq<bool>, y': seq<bool>)
    requires Fits(x, y) && (x == x' || x == x' + [true]) && (y' == y || y' == y + [true])
    ensures Fits(x', y') && |y'| - |x'| - (|y| - |x|) >= 0
    ensures Bottom(y') - Bottom(x') == Bottom(y) - Bottom(x) + if AllMaps(y) then |y'| - |x'| - (|y| - |x|) else 0
  {
    hide Fits, AllMaps, Bottom;
    FitsCounts(x, y);
    if AllMaps(x) { BottomAll(x); BottomAll(y); }
    if x == x' + [true] {
      FitsDrop(x', y);
      FitsCounts(x', y);
      BottomSnoc(x', true);
      if AllMaps(x') { BottomAll(x'); }
    }
    if y' == y + [true] {
      FitsLose(x', y);
      BottomSnoc(y, true);
    }
  }

  lemma BottomAll(x: seq<bool>)
    requires AllMaps(x)
    ensures Bottom(x) == |x|
  {
  }

  lemma TogetherLag(x: seq<bool>, y: seq<bool>, x': seq<bool>, y': seq<bool>, b: bool)
    requires Fits(x, y) && Together(x, y, x', y', b)
    ensures Fits(x', y') && |y'| - |x'| == |y| - |x| && Bottom(y') - Bottom(x') == Bottom(y) - Bottom(x)
  {
    hide Fits, AllMaps, Bottom;
    if x' == x + [b] && y' == y + [b] {
      FitsPush(x, y, b);
      FitsCounts(x, y);
      BottomSnoc(x, b);
      BottomSnoc(y, b);
      if AllMaps(x) { BottomAll(x); BottomAll(y); }
    } else {
      FitsPop(x', y', b);
      FitsCounts(x', y');
      BottomSnoc(x', b);
      BottomSnoc(y', b);
      if AllMaps(x') { BottomAll(x'); BottomAll(y'); }
    }
  }

  // ---------------------------------------------------------------------------------------------------------
  // States and texts
  // ---------------------------------------------------------------------------------------------------------

  function Top(levels: seq<Level>): Level
    requires levels != []
  {
    levels[|levels| - 1]
  }

  /** Only the innermost map of a text can be due a value. */
  predicate Buried(levels: seq<Level>) {
    forall i :: 0 <= i < |levels| - 1 ==> levels[i] != Map(true)
  }

  lemma BuriedAfter(levels: seq<Level>, e: Event)
    requires Buried(levels) && Legal(levels, e)
    ensures Buried(After(levels, e)) && (e.EndMap? || e.EndArray? ==> After(levels, e) == [] || Top(After(levels, e)) != Map(true))
  {
  }

  /** What ties the state to the text, besides the containers. */
  predicate Linked(s: Machine, levels: seq<Level>) {
    && Buried(levels) && (s.n >= 0 ==> s.stack[0].kind == DocFrame || s.stack[0].kind == ArrayFrame)
    && (s.n < 0 ==> s.read == InStartMap || s.read == Done || (s.read == Regular && levels == []))
    && (s.read == Done ==> s.n < 0)
    && (s.read == InStartMap || s.read == InScope || s.read == InDbPointer ==> levels != [] && Top(levels) == Map(false))
    && (s.read == ScopeStartMap ==> levels != [] && Top(levels) == Map(true))
    && (levels != [] && Top(levels) == Map(true) ==> SoughtInside(s))
  }

  /** The reader has the containers of the text, except that some maps may be missing. */
  predicate Trailing(s: Machine, levels: seq<Level>) {
    Fits(Shape(s), IsMap(levels)) && Linked(s, levels) && ScopesOk(s)
  }

  /** The reader has exactly the containers of the text. */
  predicate Synchronous(s: Machine, levels: seq<Level>) {
    Shape(s) == IsMap(levels) && Linked(s, levels) && ScopesOk(s)
  }

  /** The maps of the text the reader loses at an event. */
  function Lost(s: Machine, e: Event, c: Conversions): nat {
    if Misplaced(s, e) then |Pending(s.read)| else if Misread(s, e, c) then 1 else 0
  }

  /** The end of a map that the reader, being in an array, passes over. */
  predicate Absorbed(s: Machine, e: Event) {
    e.EndMap? && s.read == Regular && Kind(s) == ArrayFrame
  }

  /** An event of the text is delivered below the depth limit, and does not fail. */
  predicate Delivered(s: Machine, levels: seq<Level>, e: Event, c: Conversions) {
    !s.failed && Room(s, e, c) && Legal(levels, e) && !Step(s, e, c).failed
  }

  /** What holds after it. */
  ghost predicate Follows(s: Machine, levels: seq<Level>, e: Event, c: Conversions) {
    Legal(levels, e) &&
    var (t, after) := (Step(s, e, c), After(levels, e));
    && Linked(t, after) && ScopesOk(t) && (t.n < 0 ==> t.read != Regular)
    && Moves(Shape(s), IsMap(levels), Shape(t), IsMap(after), Lost(s, e, c), Absorbed(s, e))
  }

  /** The reader goes along with the text; or a map is lost that the reader had, the text going on. */
  lemma MovesAlong(x: seq<bool>, y: seq<bool>, x': seq<bool>, y': seq<bool>)
    ensures x' == x && y' == y ==> Moves(x, y, x', y', 0, false)
    ensures forall b :: Together(x, y, x', y', b) ==> Moves(x, y, x', y', 0, false)
    ensures x == x' + [true] && y' == y ==> Moves(x, y, x', y', 1, false)
    ensures x' == x && y' == y + [true] ==> Moves(x, y, x', y', 1, false)
    ensures x == x' + [true] && y' == y + [true] ==> Moves(x, y, x', y', 2, false)
  {
  }

  lemma KeptShape(s: Machine, t: Machine)
    requires t.n == s.n && SameKinds(s, t, s.n + 1)
    ensures FrameShapes(t.stack, t.n + 1) == FrameShapes(s.stack, s.n + 1)
    ensures ScopeFrames(t.stack, t.n + 1) == ScopeFrames(s.stack, s.n + 1)
  {
    SameShapes(s, t, s.n + 1);
  }

  lemma PushedShape(s: Machine, t: Machine, kind: FrameKind)
    requires PushedOn(s, t, kind)
    ensures FrameShapes(t.stack, t.n + 1) == FrameShapes(s.stack, s.n + 1) + FrameShape(kind)
    ensures ScopeFrames(t.stack, t.n + 1) == ScopeFrames(s.stack, s.n + 1) + if kind == ScopeFrame then 1 else 0
    ensures s.n >= 0 ==> t.stack[0].kind == s.stack[0].kind
  {
    hide FrameShape;
    SameShapes(s, t, s.n + 1);
  }

  lemma PoppedShape(s: Machine, t: Machine)
    requires PoppedOff(s, t) && s.n >= 0
    ensures FrameShapes(s.stack, s.n + 1) == FrameShapes(t.stack, t.n + 1) + FrameShape(Kind(s))
    ensures ScopeFrames(s.stack, s.n + 1) == ScopeFrames(t.stack, t.n + 1) + if Kind(s) == ScopeFrame then 1 else 0
    ensures t.n >= 0 ==> t.stack[0].kind == s.stack[0].kind
  {
    hide FrameShape;
    SameShapes(s, t, s.n);
  }

  lemma SettledIsMap(levels: seq<Level>)
    ensures IsMap(Settled(levels)) == IsMap(levels) && (levels == [] <==> Settled(levels) == [])
    ensures levels != [] ==> Top(Settled(levels)) != Map(true)
  {
  }

  lemma IsMapSnoc(levels: seq<Level>, top: Level)
    ensures IsMap(levels + [top]) == IsMap(levels) + [top.Map?] && Top(levels + [top]) == top
  {
  }

  lemma IsMapTop(levels: seq<Level>)
    requires levels != []
    ensures IsMap(levels) == IsMap(levels[..|levels| - 1]) + [Top(levels).Map?]
  {
    assert levels == levels[..|levels| - 1] + [Top(levels)];
  }

  lemma KeyLevels(levels: seq<Level>)
    requires levels != [] && Top(levels) == Map(false)
    ensures var after := levels[..|levels| - 1] + [Map(true)];
            IsMap(after) == IsMap(levels) && after != [] && Top(after) == Map(true)
  {
  }

  lemma Snoc(f: seq<bool>)
    ensures f + [true, true] == (f + [true]) + [true] && f + [] == f
  {
  }

  /** Under an array of the text there is an array of the reader, and nothing is pending. */
  lemma ArrayTop(s: Machine, levels: seq<Level>)
    requires levels != [] && Fits(Shape(s), IsMap(levels)) && Top(levels) == Arr
    ensures Pending(s.read) == [] && SoughtInside(s) && s.n >= 0 && Kind(s) == ArrayFrame
  {
    hide FrameShapes;
    var (f, p) := (FrameShapes(s.stack, s.n + 1), Pending(s.read));
    assert !IsMap(levels)[|levels| - 1];
    assert f + p != [] && !(f + p)[|f + p| - 1];
    LastOf(f, s.read);
    assert f + [] == f;
    TopFrame(s);
  }

  lemma LastOf(f: seq<bool>, read: ReadState)
    ensures var p := Pending(read); p != [] ==> (f + p)[|f + p| - 1]
  {
  }

  /** The last container of a nonempty stack of frames is its top frame. */
  lemma TopFrame(s: Machine)
    requires FrameShapes(s.stack, s.n + 1) != []
    ensures s.n >= 0
    ensures var f := FrameShapes(s.stack, s.n + 1); f[|f| - 1] <==> Kind(s) != ArrayFrame
  {
  }

  lemma FollowScalar(s: Machine, levels: seq<Level>, e: Event, c: Conversions)
    requires Trailing(s, levels) && Delivered(s, levels, e, c) && (e.Nothing? || e.Boolean? || e.Float? || e.Integer?)
    ensures Follows(s, levels, e, c)
  {
    hide Step, Shape, ScopesOk, Fits, Buried, Settled, Room, TypeOperator, Moves, Together;
    BuriedAfter(levels, e);
    ScalarKept(s, e, c);
    KeptFrames(s, Step(s, e, c));
    SettledIsMap(levels);
    MovesAlong(Shape(s), IsMap(levels), Shape(Step(s, e, c)), IsMap(After(levels, e)));
  }

  lemma KeptFrames(s: Machine, t: Machine)
    requires Kept(s, t) && Pending(t.read) == Pending(s.read) && ScopesOk(s)
    ensures Shape(t) == Shape(s) && (s.n >= 0 ==> t.stack[0].kind == s.stack[0].kind)
    ensures (t.read == ScopeStartMap || t.read == InScope ==> !t.code.inScope) ==> ScopesOk(t)
  {
    hide FrameShapes, ScopeFrames, Pending;
    KeptShape(s, t);
  }

  lemma FollowText(s: Machine, levels: seq<Level>, text: bytes, c: Conversions)
    requires Trailing(s, levels) && Delivered(s, levels, Text(text), c)
    ensures Follows(s, levels, Text(text), c)
  {
    hide Step, Misread, IsMap, SoughtInside, Fits, ScopesOk, Buried, SameKinds, Follows;
    if Top(levels) == Arr { ArrayTop(s, levels); }
    TextShape(s, text, c);
    if Step(s, Text(text), c).n > s.n {
      TextPushes(s, levels, text, c);
    } else {
      TextKeeps(s, levels, text, c);
    }
  }

  lemma TextKeeps(s: Machine, levels: seq<Level>, text: bytes, c: Conversions)
    requires Trailing(s, levels) && Delivered(s, levels, Text(text), c)
    requires var t := Step(s, Text(text), c); Kept(s, t) && t.read == s.read && !Misread(s, Text(text), c) && TakesText(s)
    ensures Follows(s, levels, Text(text), c)
  {
    hide Step, FrameShapes, ScopeFrames, Misread, IsMap, Settled, SoughtInside, Fits, Buried, Pending, Room,
      TypeOperator, Moves, Together;
    BuriedAfter(levels, Text(text));
    SettledIsMap(levels);
    KeptShape(s, Step(s, Text(text), c));
    MovesAlong(Shape(s), IsMap(levels), Shape(Step(s, Text(text), c)), IsMap(After(levels, Text(text))));
  }

  lemma TextPushes(s: Machine, levels: seq<Level>, text: bytes, c: Conversions)
    requires Trailing(s, levels) && Delivered(s, levels, Text(text), c)
    requires var t := Step(s, Text(text), c);
             && PushedOn(s, t, DocFrame) && t.read == Regular && t.code == s.code
             && (s.read == InBsonType || Misread(s, Text(text), c))
    ensures Follows(s, levels, Text(text), c)
  {
    hide Step, FrameShapes, ScopeFrames, Misread, IsMap, Settled, SoughtInside, Fits, Buried, Room, TypeOperator, Moves, Together;
    BuriedAfter(levels, Text(text));
    SettledIsMap(levels);
    MisreadState(s, text, c);
    Snoc(FrameShapes(s.stack, s.n + 1));
    PushedShape(s, Step(s, Text(text), c), DocFrame);
    MovesAlong(Shape(s), IsMap(levels), Shape(Step(s, Text(text), c)), IsMap(After(levels, Text(text))));
  }

  lemma MisreadState(s: Machine, text: bytes, c: Conversions)
    ensures Misread(s, Text(text), c) ==> s.read == BinaryValues
  {
    hide TypeOperator;
  }

  lemma FollowStartMap(s: Machine, levels: seq<Level>, c: Conversions)
    requires Trailing(s, levels) && Delivered(s, levels, StartMap, c)
    ensures Follows(s, levels, StartMap, c)
  {
    hide Step, Shape, ScopesOk, Fits, IsMap, Settled, Buried, Room, TypeOperator, Misplaced, Moves, SoughtInside;
    BuriedAfter(levels, StartMap);
    var t := Step(s, StartMap, c);
    StartMapShape(s, c);
    StartMapFrames(s, c);
    SettledIsMap(levels);
    IsMapSnoc(Settled(levels), Map(false));
    var (x, y, x', y') := (Shape(s), IsMap(levels), Shape(t), IsMap(After(levels, StartMap)));
    if Lost(s, StartMap, c) == 0 { assert Together(x, y, x', y', true); }
    MovesAlong(x, y, x', y');
  }

  /** A map is opened, unless it is misplaced: then the level of a wrapper's middle map is lost, too. */
  lemma StartMapFrames(s: Machine, c: Conversions)
    requires Room(s, StartMap, c) && !s.failed && !Step(s, StartMap, c).failed && ScopesOk(s)
    requires s.read != InStartMap && s.read != InScope && s.read != InDbPointer
    ensures var t := Step(s, StartMap, c);
            var (x, x') := (Shape(s), Shape(t));
            && Lost(s, StartMap, c) <= 2 && (Lost(s, StartMap, c) == 0 ==> x' == x + [true])
            && (Lost(s, StartMap, c) == 1 ==> x' == x) && (Lost(s, StartMap, c) == 2 ==> x == x' + [true])
            && ScopesOk(t) && (s.n >= 0 ==> t.stack[0].kind == s.stack[0].kind)
  {
    hide Step, FrameShapes, ScopeFrames, Room, SoughtInside;
    var t := Step(s, StartMap, c);
    StartMapShape(s, c);
    Snoc(FrameShapes(s.stack, s.n + 1));
    if Kept(s, t) {
      KeptShape(s, t);
    } else {
      PushedShape(s, t, DocFrame);
    }
  }

  lemma FollowStartArray(s: Machine, levels: seq<Level>, c: Conversions)
    requires Trailing(s, levels) && Delivered(s, levels, StartArray, c)
    ensures Follows(s, levels, StartArray, c)
  {
    hide Step, Shape, ScopesOk, Fits, IsMap, Settled, Buried, Room, TypeOperator, Moves;
    BuriedAfter(levels, StartArray);
    var t := Step(s, StartArray, c);
    StartArrayShape(s, c);
    StartArrayFrames(s, c);
    SettledIsMap(levels);
    IsMapSnoc(Settled(levels), Arr);
    var (x, y, x', y') := (Shape(s), IsMap(levels), Shape(t), IsMap(After(levels, StartArray)));
    assert Together(x, y, x', y', false);
    MovesAlong(x, y, x', y');
  }

  lemma StartArrayFrames(s: Machine, c: Conversions)
    requires Room(s, StartArray, c) && !s.failed && !Step(s, StartArray, c).failed && ScopesOk(s)
    ensures var t := Step(s, StartArray, c);
            && Shape(t) == Shape(s) + [false] && ScopesOk(t)
            && (s.n >= 0 ==> t.stack[0].kind == s.stack[0].kind)
  {
    hide Step, FrameShapes, ScopeFrames, Room;
    var t := Step(s, StartArray, c);
    StartArrayShape(s, c);
    PushedShape(s, t, ArrayFrame);
    Snoc(FrameShapes(s.stack, s.n + 1));
    Snoc(FrameShapes(t.stack, t.n + 1));
  }

  lemma FollowEndArray(s: Machine, levels: seq<Level>, c: Conversions)
    requires Trailing(s, levels) && Delivered(s, levels, EndArray, c)
    ensures Follows(s, levels, EndArray, c)
  {
    hide Step, FrameShapes, ScopeFrames, IsMap, Fits, SoughtInside, Buried, Settled, Room, TypeOperator;
    BuriedAfter(levels, EndArray);
    var t := Step(s, EndArray, c);
    IsMapTop(levels);
    ArrayTop(s, levels);
    EndArrayShape(s, c);
    PoppedShape(s, t);
    Snoc(FrameShapes(s.stack, s.n + 1));
    Snoc(FrameShapes(t.stack, t.n + 1));
    assert Together(Shape(s), IsMap(levels), Shape(t), IsMap(After(levels, EndArray)), false);
  }

  lemma FollowKey(s: Machine, levels: seq<Level>, k: bytes, c: Conversions)
    requires Trailing(s, levels) && Delivered(s, levels, Key(k), c)
    ensures Follows(s, levels, Key(k), c)
  {
    hide Step, Fits, Buried, Follows, ScopesOk, SoughtInside, IsMap;
    if Step(s, Key(k), c).n > s.n { KeyPushes(s, levels, k, c); } else { KeyKeeps(s, levels, k, c); }
  }

  lemma KeyKeeps(s: Machine, levels: seq<Level>, k: bytes, c: Conversions)
    requires Trailing(s, levels) && Delivered(s, levels, Key(k), c) && Step(s, Key(k), c).n <= s.n
    ensures Follows(s, levels, Key(k), c)
  {
    hide Step, FrameShapes, ScopeFrames, IsMap, TakesText, Settled, Fits, Buried, Room, Pending, SoughtInside, Moves, Together;
    BuriedAfter(levels, Key(k));
    KeyShape(s, k, c);
    KeyLevels(levels);
    KeptShape(s, Step(s, Key(k), c));
    MovesAlong(Shape(s), IsMap(levels), Shape(Step(s, Key(k), c)), IsMap(After(levels, Key(k))));
  }

  lemma KeyPushes(s: Machine, levels: seq<Level>, k: bytes, c: Conversions)
    requires Trailing(s, levels) && Delivered(s, levels, Key(k), c) && Step(s, Key(k), c).n > s.n
    ensures Follows(s, levels, Key(k), c)
  {
    hide Step, Shape, ScopesOk, IsMap, TakesText, Settled, Fits, Buried, Room, Moves, Together, TypeOperator, SoughtInside;
    BuriedAfter(levels, Key(k));
    KeyShape(s, k, c);
    KeyFrames(s, k, c);
    KeyLevels(levels);
    NotDue(Step(s, Key(k), c));
    MovesAlong(Shape(s), IsMap(levels), Shape(Step(s, Key(k), c)), IsMap(After(levels, Key(k))));
  }

  /** A frame is pushed for the map that was pending. */
  lemma KeyFrames(s: Machine, k: bytes, c: Conversions)
    requires Room(s, Key(k), c) && !s.failed && !Step(s, Key(k), c).failed && Step(s, Key(k), c).n > s.n && ScopesOk(s)
    ensures var t := Step(s, Key(k), c);
            && Shape(t) == Shape(s) && ScopesOk(t) && t.read == Regular
            && (s.n >= 0 ==> t.stack[0].kind == s.stack[0].kind)
            && (t.n == 0 ==> t.stack[0].kind == DocFrame || s.read == InScope || s.read == InDbPointer)
  {
    hide Step, FrameShapes, ScopeFrames, Room, SoughtInside;
    var t := Step(s, Key(k), c);
    KeyShape(s, k, c);
    Snoc(FrameShapes(t.stack, t.n + 1));
    Snoc(FrameShapes(s.stack, s.n + 1));
    PushedShape(s, t, t.stack[t.n].kind);
  }

  lemma FollowEndMap(s: Machine, levels: seq<Level>, c: Conversions)
    requires Trailing(s, levels) && Delivered(s, levels, EndMap, c)
    ensures Follows(s, levels, EndMap, c)
  {
    hide Step, Shape, ScopesOk, ScopeFrames, IsMap, Fits, SoughtInside, Settled, Buried, Room;
    BuriedAfter(levels, EndMap);
    IsMapTop(levels);
    if Absorbed(s, EndMap) {
      Passed(s, c);
      PushedTop(s);
      NotDue(s);
    } else {
      EndMapLess(s, levels, c);
      assert Together(Shape(s), IsMap(levels), Shape(Step(s, EndMap, c)), IsMap(After(levels, EndMap)), true);
    }
  }

  lemma NotDue(s: Machine)
    ensures s.read == Regular ==> SoughtInside(s)
  {
  }

  lemma EndMapLess(s: Machine, levels: seq<Level>, c: Conversions)
    requires Trailing(s, levels) && Delivered(s, levels, EndMap, c) && !Absorbed(s, EndMap)
    ensures var t := Step(s, EndMap, c);
            && Shape(s) == Shape(t) + [true] && ScopesOk(t)
            && (t.n >= 0 ==> t.stack[0].kind == DocFrame || t.stack[0].kind == ArrayFrame)
            && (t.n < 0 ==> t.read == Done) && (t.read == Done ==> t.n < 0)
            && t.read != InStartMap && t.read != InScope && t.read != InDbPointer && t.read != ScopeStartMap
  {
    hide Step, FrameShapes, ScopeFrames, IsMap, TakesText, Fits, SoughtInside, Buried, Settled, Room, TypeOperator;
    var t := Step(s, EndMap, c);
    EndMapShape(s, c);
    if s.read == Regular { PoppedShape(s, t); } else { KeptShape(s, t); }
    OneMapLess(s, t);
  }

  /** A frame of one map is gone, or of two and one is pending; or one less is pending. */
  lemma OneMapLess(s: Machine, t: Machine)
    requires s.read == Regular && s.n >= 0 ==>
               && FrameShapes(s.stack, s.n + 1) == FrameShapes(t.stack, t.n + 1) + FrameShape(Kind(s)) && Kind(s) != ArrayFrame
               && |Pending(t.read)| == if Kind(s) == ScopeFrame || Kind(s) == DbPointerFrame then 1 else 0
    requires s.read != Regular || s.n < 0 ==>
               && FrameShapes(s.stack, s.n + 1) == FrameShapes(t.stack, t.n + 1)
               && |Pending(s.read)| == |Pending(t.read)| + 1
    ensures Shape(s) == Shape(t) + [true]
  {
    hide FrameShapes;
    Snoc(FrameShapes(s.stack, s.n + 1));
    Snoc(FrameShapes(t.stack, t.n + 1));
  }

  lemma Passed(s: Machine, c: Conversions)
    requires Absorbed(s, EndMap)
    ensures Step(s, EndMap, c) == s && s.n >= 0
  {
  }

  lemma PushedTop(s: Machine)
    requires s.n >= 0 && Kind(s) == ArrayFrame && s.read == Regular
    ensures var x := Shape(s); x != [] && !x[|x| - 1]
  {
    Snoc(FrameShapes(s.stack, s.n + 1));
  }

  // ---------------------------------------------------------------------------------------------------------
  // One step
  // ---------------------------------------------------------------------------------------------------------

  /** The maps of the text that the reader does not have. */
  function Lag(s: Machine, levels: seq<Level>): int {
    |IsMap(levels)| - |Shape(s)|
  }

  /** Those of them below the outermost array of the text. */
  function RootLag(s: Machine, levels: seq<Level>): int {
    Bottom(IsMap(levels)) - Bottom(Shape(s))
  }

  predicate ArrayFree(levels: seq<Level>) {
    AllMaps(IsMap(levels))
  }

  /** Every event keeps the reader trailing; the lag is accounted for exactly. */
  lemma StepTrails(s: Machine, levels: seq<Level>, e: Event, c: Conversions)
    requires Trailing(s, levels) && Delivered(s, levels, e, c)
    ensures var (t, after) := (Step(s, e, c), After(levels, e));
            && Trailing(t, after) && (t.n < 0 ==> t.read != Regular)
            && Lag(t, after) == Lag(s, levels) + Lost(s, e, c) - (if Absorbed(s, e) then 1 else 0)
            && RootLag(t, after) == RootLag(s, levels) + if ArrayFree(levels) then Lost(s, e, c) else 0
  {
    hide Step, After, Linked, ScopesOk, Shape, IsMap, Fits, Bottom, AllMaps, Lost, Absorbed, Moves, Legal, Room;
    match e {
      case StartMap => FollowStartMap(s, levels, c);
      case EndMap => FollowEndMap(s, levels, c);
      case StartArray => FollowStartArray(s, levels, c);
      case EndArray => FollowEndArray(s, levels, c);
      case Key(k) => FollowKey(s, levels, k, c);
      case Text(text) => FollowText(s, levels, text, c);
      case _ => FollowScalar(s, levels, e, c);
    }
    var (t, after) := (Step(s, e, c), After(levels, e));
    MovesLag(Shape(s), IsMap(levels), Shape(t), IsMap(after), Lost(s, e, c), Absorbed(s, e));
  }

  lemma SynchronousIff(s: Machine, levels: seq<Level>)
    ensures Synchronous(s, levels) <==> Trailing(s, levels) && Lag(s, levels) == 0
  {
    hide Linked, ScopesOk, Shape, IsMap, Fits;
    FitsSelf(Shape(s));
    if Fits(Shape(s), IsMap(levels)) { FitsCounts(Shape(s), IsMap(levels)); }
  }

  /**
   * A step from a state in step with the text stays in step with it exactly unless a map stands where a wrapper takes
   * no map, or a text in the middle map of a binary takes the way out meant for query operators.
   */
  lemma StepInStep(s: Machine, levels: seq<Level>, e: Event, c: Conversions)
    requires Synchronous(s, levels) && Delivered(s, levels, e, c)
    ensures Synchronous(Step(s, e, c), After(levels, e)) <==> !Misplaced(s, e) && !Misread(s, e, c)
  {
    hide Step, After, Synchronous, Trailing, Lag, RootLag, ArrayFree, Room, Legal, Misplaced, Misread, Lost, Absorbed;
    SynchronousIff(s, levels);
    StepTrails(s, levels, e, c);
    SynchronousIff(Step(s, e, c), After(levels, e));
    NothingNegative(Step(s, e, c), After(levels, e));
    LostIff(s, e, c);
  }

  lemma NothingNegative(s: Machine, levels: seq<Level>)
    requires Trailing(s, levels)
    ensures Lag(s, levels) >= 0
  {
    hide Linked, ScopesOk, Shape, IsMap, Fits;
    FitsCounts(Shape(s), IsMap(levels));
  }

  lemma LostIff(s: Machine, e: Event, c: Conversions)
    ensures Lost(s, e, c) > 0 <==> Misplaced(s, e) || Misread(s, e, c)
    ensures Lost(s, e, c) > 0 ==> !Absorbed(s, e)
  {
    hide TypeOperator;
  }

  /** Without a lag below the outermost array the reader is done exactly when the text has ended; with one, it has not. */
  lemma DoneIff(s: Machine, levels: seq<Level>)
    requires Trailing(s, levels) && (s.n < 0 ==> s.read != Regular)
    ensures RootLag(s, levels) == 0 ==> (s.read == Done <==> levels == [])
    ensures RootLag(s, levels) > 0 ==> levels != []
  {
    hide ScopesOk, FrameShapes;
    var (x, y) := (Shape(s), IsMap(levels));
    FitsCounts(x, y);
    if s.read == Done {
      NoFrames(s);
      assert x == [] && AllMaps(x);
    }
    if levels == [] {
      assert x == [] && |x| == |FrameShapes(s.stack, s.n + 1)| + |Pending(s.read)|;
      NoFrames(s);
    }
  }

  lemma NoFrames(s: Machine)
    ensures FrameShapes(s.stack, s.n + 1) == [] <==> s.n == -1
  {
  }

  /**
   * A map never starts where the start of a map is called unreachable: right inside a wrapper the value sought is one
   * whose key leads there.
   */
  lemma StartMapReachable(s: Machine, levels: seq<Level>)
    requires Trailing(s, levels) && Legal(levels, StartMap)
    ensures !(s.read == InBsonType && SoughtElsewhere(s.sought))
  {
    hide FrameShapes, ScopesOk;
    if levels == [] {
      FitsCounts(Shape(s), IsMap(levels));
    } else if Top(levels) == Arr {
      ArrayTop(s, levels);
    }
  }

  // ---------------------------------------------------------------------------------------------------------
  // Whole runs
  // ---------------------------------------------------------------------------------------------------------

  /** The events of a text are all delivered: below the depth limit, without a failure. */
  predicate DeliveredRun(s: Machine, levels: seq<Level>, events: seq<Event>, c: Conversions)
    decreases |events|
  {
    events == []
    || (Delivered(s, levels, events[0], c) && DeliveredRun(Step(s, events[0], c), After(levels, events[0]), events[1..], c))
  }

  /** Along the run no map is misplaced and no subtype misread. */
  predicate Undisturbed(s: Machine, events: seq<Event>, c: Conversions)
    decreases |events|
  {
    events == []
    || (!Misplaced(s, events[0]) && !Misread(s, events[0], c) && Undisturbed(Step(s, events[0], c), events[1..], c))
  }

  predicate InStepThroughout(s: Machine, levels: seq<Level>, events: seq<Event>, c: Conversions)
    requires LegalRun(levels, events)
    decreases |events|
  {
    && Synchronous(s, levels)
    && (events == [] || InStepThroughout(Step(s, events[0], c), After(levels, events[0]), events[1..], c))
  }

  /** Reader and text are in step all along exactly when nothing is misplaced and nothing misread. */
  lemma {:induction false} AlwaysInStep(s: Machine, levels: seq<Level>, events: seq<Event>, c: Conversions)
    requires Synchronous(s, levels) && LegalRun(levels, events) && DeliveredRun(s, levels, events, c)
    ensures InStepThroughout(s, levels, events, c) <==> Undisturbed(s, events, c)
    decreases |events|
  {
    hide Step, After, Synchronous, Delivered, Legal, Misplaced, Misread;
    if events != [] {
      var (t, after) := (Step(s, events[0], c), After(levels, events[0]));
      StepInStep(s, levels, events[0], c);
      if Synchronous(t, after) { AlwaysInStep(t, after, events[1..], c); }
      NotInStep(t, after, events[1..], c);
    }
  }

  lemma NotInStep(s: Machine, levels: seq<Level>, events: seq<Event>, c: Conversions)
    requires LegalRun(levels, events)
    ensures InStepThroughout(s, levels, events, c) ==> Synchronous(s, levels)
  {
    hide Synchronous, Step, After;
  }

  /** Somewhere in the run a map is misplaced or a subtype misread while no array is open in the text. */
  predicate RootDisturbed(s: Machine, levels: seq<Level>, events: seq<Event>, c: Conversions)
    requires LegalRun(levels, events)
    decreases |events|
  {
    events != []
    && ((ArrayFree(levels) && (Misplaced(s, events[0]) || Misread(s, events[0], c)))
        || RootDisturbed(Step(s, events[0], c), After(levels, events[0]), events[1..], c))
  }

  /** The lag below the outermost array never shrinks, and grows exactly at such a place. */
  lemma {:induction false} RunTrails(s: Machine, levels: seq<Level>, events: seq<Event>, c: Conversions)
    requires Trailing(s, levels) && LegalRun(levels, events) && DeliveredRun(s, levels, events, c)
    ensures var (t, after) := (Run(s, events, c), LevelsAfter(levels, events));
            && Trailing(t, after) && (events != [] && t.n < 0 ==> t.read != Regular)
            && RootLag(t, after) >= RootLag(s, levels)
            && (RootLag(t, after) > RootLag(s, levels) <==> RootDisturbed(s, levels, events, c))
    decreases |events|
  {
    hide Step, After, Trailing, RootLag, Lag, ArrayFree, Misplaced, Misread, Lost, Absorbed, Legal;
    if events != [] {
      var (t, after) := (Step(s, events[0], c), After(levels, events[0]));
      StepTrails(s, levels, events[0], c);
      LostIff(s, events[0], c);
      RunTrails(t, after, events[1..], c);
    }
  }

  /** After every event the reader is done exactly when the outermost container of the text has ended. */
  predicate DoneOnTime(s: Machine, levels: seq<Level>, events: seq<Event>, c: Conversions)
    requires LegalRun(levels, events)
    decreases |events|
  {
    events == []
    || (var (t, after) := (Step(s, events[0], c), After(levels, events[0]));
        (t.read == Done <==> after == []) && DoneOnTime(t, after, events[1..], c))
  }

  lemma {:induction false} OnTime(s: Machine, levels: seq<Level>, events: seq<Event>, c: Conversions)
    requires Trailing(s, levels) && LegalRun(levels, events) && DeliveredRun(s, levels, events, c)
    requires RootLag(s, levels) == 0 && !RootDisturbed(s, levels, events, c)
    ensures DoneOnTime(s, levels, events, c)
    decreases |events|
  {
    hide Step, After, Trailing, RootLag, Lag, ArrayFree, Misplaced, Misread, Lost, Absorbed, Legal;
    if events != [] {
      var (t, after) := (Step(s, events[0], c), After(levels, events[0]));
      StepTrails(s, levels, events[0], c);
      LostIff(s, events[0], c);
      DoneIff(t, after);
      OnTime(t, after, events[1..], c);
    }
  }

  lemma {:induction false} OnTimeAtTheEnd(s: Machine, levels: seq<Level>, events: seq<Event>, c: Conversions)
    requires LegalRun(levels, events) && events != [] && DeliveredRun(s, levels, events, c)
    requires DoneOnTime(s, levels, events, c)
    ensures Run(s, events, c).read == Done <==> LevelsAfter(levels, events) == []
    decreases |events|
  {
    hide Step, After, Legal;
    if |events| > 1 {
      OnTimeAtTheEnd(Step(s, events[0], c), After(levels, events[0]), events[1..], c);
    }
  }

  lemma StartTrails(target: Doc)
    ensures var s: Machine := Initialized(target); !s.failed && Synchronous(s, []) && Trailing(s, []) && RootLag(s, []) == 0
  {
  }

  /**
   * A run that has come to an end, for the reader or in the text, has been done on time all along exactly when nothing
   * was misplaced or misread outside the arrays of the text: an array takes up the ends of the maps the reader lost,
   * and outside arrays nothing does.
   */
  lemma DoneOnTimeIff(target: Doc, events: seq<Event>, c: Conversions)
    requires events != [] && LegalRun([], events) && DeliveredRun(Initialized(target), [], events, c)
    requires Run(Initialized(target), events, c).read == Done || LevelsAfter([], events) == []
    ensures DoneOnTime(Initialized(target), [], events, c) <==> !RootDisturbed(Initialized(target), [], events, c)
  {
    hide Trailing, RootLag, LegalRun, LevelsAfter, DeliveredRun, RootDisturbed, DoneOnTime, Run;
    var s: Machine := Initialized(target);
    StartTrails(target);
    RunTrails(s, [], events, c);
    DoneIff(Run(s, events, c), LevelsAfter([], events));
    if DoneOnTime(s, [], events, c) { OnTimeAtTheEnd(s, [], events, c); }
    if !RootDisturbed(s, [], events, c) { OnTime(s, [], events, c); }
  }

  /** Along the run, up to a failure, there is room for every frame: the text is below the depth limit. */
  predicate RoomRun(s: Machine, events: seq<Event>, c: Conversions)
    decreases |events|
  {
    events == [] || s.failed || (Room(s, events[0], c) && RoomRun(Step(s, events[0], c), events[1..], c))
  }

  /** A text below the depth limit is delivered exactly when nothing fails. */
  lemma {:induction false} DeliveredIff(s: Machine, levels: seq<Level>, events: seq<Event>, c: Conversions)
    requires !s.failed && LegalRun(levels, events) && RoomRun(s, events, c)
    ensures DeliveredRun(s, levels, events, c) <==> !Run(s, events, c).failed
    decreases |events|
  {
    hide Step, After, Legal, Room;
    if events != [] {
      var t := Step(s, events[0], c);
      FailedStays(t, events[1..], c);
      if !t.failed { DeliveredIff(t, After(levels, events[0]), events[1..], c); }
    }
  }

  /** A whole text that is delivered without a failure ends with the reader done, and done at no time before. */
  lemma WholeTextOnTime(target: Doc, events: seq<Event>, c: Conversions)
    requires events != [] && LegalRun([], events) && LevelsAfter([], events) == []
    requires DeliveredRun(Initialized(target), [], events, c)
    ensures Run(Initialized(target), events, c).read == Done && DoneOnTime(Initialized(target), [], events, c)
  {
    hide Trailing, RootLag, LegalRun, LevelsAfter, DeliveredRun, RootDisturbed, DoneOnTime, Run;
    var s: Machine := Initialized(target);
    StartTrails(target);
    RunTrails(s, [], events, c);
    DoneIff(Run(s, events, c), LevelsAfter([], events));
    OnTime(s, [], events, c);
  }

  /**
   * Of the texts below the depth limit, whole ones are accepted exactly when nothing fails. One that breaks off is
   * accepted only if something was misplaced or misread outside its arrays.
   */
  lemma AcceptedTexts(target: Doc, events: seq<Event>, c: Conversions)
    requires events != [] && LegalRun([], events) && RoomRun(Initialized(target), events, c)
    ensures var t := Run(Initialized(target), events, c);
            && (LevelsAfter([], events) == [] && !t.failed ==> t.read == Done)
            && (t.read == Done && !t.failed ==>
                  (LevelsAfter([], events) == [] <==> !RootDisturbed(Initialized(target), [], events, c)))
  {
    hide Trailing, RootLag, LegalRun, LevelsAfter, DeliveredRun, RootDisturbed, Run, RoomRun;
    var s: Machine := Initialized(target);
    StartTrails(target);
    DeliveredIff(s, [], events, c);
    if !Run(s, events, c).failed {
      RunTrails(s, [], events, c);
      DoneIff(Run(s, events, c), LevelsAfter([], events));
    }
  }

  /** On no text, up to any point, does a map start where its start is called unreachable. */
  lemma NeverUnreachable(target: Doc, events: seq<Event>, c: Conversions)
    requires LegalRun([], events) && DeliveredRun(Initialized(target), [], events, c)
    requires Legal(LevelsAfter([], events), StartMap)
    ensures var t := Run(Initialized(target), events, c); !(t.read == InBsonType && SoughtElsewhere(t.sought))
  {
    hide Trailing, RootLag, DeliveredRun, RootDisturbed, Run;
    StartTrails(target);
    RunTrails(Initialized(target), [], events, c);
    StartMapReachable(Run(Initialized(target), events, c), LevelsAfter([], events));
  }

  // ---------------------------------------------------------------------------------------------------------
  // The stack index
  // ---------------------------------------------------------------------------------------------------------

  /** The maps that are open but are type wrappers, or not yet known to be documents. */
  function Wrappers(s: Machine): nat {
    WrappedFrames(s.stack, s.n + 1) + |Pending(s.read)|
  }

  function WrappedFrames(stack: seq<Frame>, m: nat): nat
    requires m <= |stack|
  {
    if m == 0 then 0
    else WrappedFrames(stack, m - 1)
         + if stack[m - 1].kind == ScopeFrame || stack[m - 1].kind == DbPointerFrame then 1 else 0
  }

  lemma {:induction false} CountFrames(stack: seq<Frame>, m: nat)
    requires m <= |stack|
    ensures |FrameShapes(stack, m)| == m + WrappedFrames(stack, m)
  {
    if m > 0 { CountFrames(stack, m - 1); }
  }

  /** The stack index counts the open containers that are not wrappers, except those that were lost. */
  lemma StackIndexCounts(s: Machine, levels: seq<Level>)
    requires Trailing(s, levels)
    ensures s.n + 1 == |levels| - Wrappers(s) - Lag(s, levels) && Lag(s, levels) >= 0
    ensures Synchronous(s, levels) <==> Lag(s, levels) == 0
  {
    hide FrameShapes, Pending, WrappedFrames, Linked, Fits;
    CountFrames(s.stack, s.n + 1);
    NothingNegative(s, levels);
    SynchronousIff(s, levels);
  }
}
