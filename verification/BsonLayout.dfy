/** How a document under construction and the children open inside it lie in one buffer. */
module BsonLayout {
  import opened LittleEndian
  import opened BsonTree

  predicate IsPower(n: nat) {
    n == 1 || (n > 0 && n % 2 == 0 && IsPower(n / 2))
  }

  /** The next power of two, which bson_next_power_of_two finds by smearing bits. */
  function NextPowerOfTwo(v: nat, p: nat): (r: nat)
    requires IsPower(p) && (p == 1 || p < 2 * v)
    ensures IsPower(r) && v <= r && (r == 1 || r < 2 * v)
    decreases if p < v then v - p else 0
  {
    if v <= p then p else NextPowerOfTwo(v, 2 * p)
  }

  /** Rounds an allocation up without exceeding the maximum size, unless it already does. */
  function RoundUpAllocSize(size: nat): (r: nat)
    ensures size <= r
    ensures if size <= 2147483647 then r == 2147483647 || (IsPower(r) && (r == 1 || r < 2 * size)) else r == size
    ensures r <= MAX_SIZE <==> size <= MAX_SIZE
  {
    if size <= MAX_SIZE then
      var p := NextPowerOfTwo(size, 1);
      if p < MAX_SIZE then p else MAX_SIZE
    else size
  }

  function Concat(args: seq<bytes>): bytes {
    if args == [] then [] else args[0] + Concat(args[1..])
  }

  lemma ConcatEmpty()
    ensures Concat([]) == []
  {
  }

  lemma {:induction false} ConcatSnoc(args: seq<bytes>, a: bytes)
    ensures Concat(args + [a]) == Concat(args) + a
  {
    if args == [] {
      assert args + [a] == [a];
    } else {
      ConcatSnoc(args[1..], a);
      assert (args + [a])[1..] == args[1..] + [a];
    }
  }

  lemma JoinAssoc(a: bytes, b: bytes, c: bytes)
    ensures a + b + c == a + (b + c)
  {
  }

  lemma {:induction false} ConcatSplit(xs: seq<bytes>, ys: seq<bytes>)
    ensures Concat(xs + ys) == Concat(xs) + Concat(ys)
  {
    if xs == [] {
      assert xs + ys == ys;
    } else {
      ConcatSplit(xs[1..], ys);
      assert (xs + ys)[1..] == xs[1..] + ys && (xs + ys)[0] == xs[0];
      JoinAssoc(xs[0], Concat(xs[1..]), Concat(ys));
    }
  }

  lemma ConcatPrefix(args: seq<bytes>, i: nat)
    requires i <= |args|
    ensures |Concat(args[..i])| <= |Concat(args)|
  {
    hide Concat;
    ConcatSplit(args[..i], args[i..]);
    assert args[..i] + args[i..] == args;
  }

  /** Where an open document starts, and the length its bson_t believes it has. */
  datatype Extent = Extent(offset: nat, len: nat)

  /**
   * The buffer holds the open documents, each one inside the one before. levels[i] are the bytes of document i
   * that are final: its elements so far and, when a child is open in it, the head of that child's element. Only
   * the deepest document is complete; the others have yet to learn their length and get their terminator back.
   */
  ghost predicate Layout(buf: bytes, exts: seq<Extent>, levels: seq<bytes>) {
    && |exts| == |levels| > 0 && exts[0].offset == 0
    && (forall i :: 0 < i < |exts| ==> exts[i].offset == exts[i - 1].offset + |levels[i - 1]| + 4)
    && (forall i :: 0 <= i < |exts| - 1 ==> exts[i].len == |levels[i]| + 10)
    && (forall i :: 0 <= i < |exts| - 1 ==> HoldsAt(buf, exts[i].offset + 4, levels[i]))
    && var last := |exts| - 1;
    && exts[last].len == |levels[last]| + 5
    && HoldsAt(buf, exts[last].offset, Frame(levels[last]))
  }

  ghost predicate HoldsAt(buf: bytes, o: nat, x: bytes) {
    o + |x| <= |buf| && buf[o..o + |x|] == x
  }

  lemma PrefixShrinks(a: bytes, b: bytes, m: nat, n: nat)
    requires m <= n <= |a| && n <= |b| && a[..n] == b[..n]
    ensures a[..m] == b[..m]
  {
    assert a[..m] == a[..n][..m] && b[..m] == b[..n][..m];
  }

  lemma HoldsElsewhere(buf: bytes, buf': bytes, o: nat, x: bytes, p: nat)
    requires HoldsAt(buf, o, x) && o + |x| <= p <= |buf| && p <= |buf'| && buf'[..p] == buf[..p]
    ensures HoldsAt(buf', o, x)
  {
    assert buf'[o..o + |x|] == buf'[..p][o..o + |x|] == buf[..p][o..o + |x|] == buf[o..o + |x|];
  }

  lemma LayoutDeepest(buf: bytes, exts: seq<Extent>, levels: seq<bytes>)
    requires Layout(buf, exts, levels)
    ensures var last := |exts| - 1;
            && |levels| == last + 1 > 0
            && exts[last].len == |levels[last]| + 5 && HoldsAt(buf, exts[last].offset, Frame(levels[last]))
  {
  }

  /** The documents above the deepest one lie entirely before it. */
  lemma {:induction false} BodyEnds(buf: bytes, exts: seq<Extent>, levels: seq<bytes>, i: nat, j: nat)
    requires Layout(buf, exts, levels) && i < j < |exts|
    ensures exts[i].offset + 4 + |levels[i]| <= exts[j].offset
    decreases j - i
  {
    if i + 1 < j { BodyEnds(buf, exts, levels, i + 1, j); }
  }

  /** A change from document j on keeps the layout of what is before it, if j is the deepest now and holds level. */
  lemma LayoutChange(buf: bytes, buf': bytes, exts: seq<Extent>, levels: seq<bytes>, j: nat, level: bytes)
    requires Layout(buf, exts, levels) && j < |exts|
    requires var o := exts[j].offset; o <= |buf| && o <= |buf'| && buf'[..o] == buf[..o] && HoldsAt(buf', o, Frame(level))
    ensures Layout(buf', exts[..j] + [Extent(exts[j].offset, |level| + 5)], levels[..j] + [level])
  {
    hide Frame, HoldsAt;
    forall i | 0 <= i < j ensures HoldsAt(buf', exts[i].offset + 4, levels[i]) {
      BodyEnds(buf, exts, levels, i, j);
      HoldsElsewhere(buf, buf', exts[i].offset + 4, levels[i], exts[j].offset);
    }
  }

  lemma HoldsInside(buf: bytes, o: nat, f: bytes, i: nat, x: bytes)
    requires HoldsAt(buf, o, f) && i + |x| <= |f| && f[i..i + |x|] == x
    ensures HoldsAt(buf, o + i, x)
  {
    forall k | 0 <= k < |x| ensures buf[o + i + k] == x[k] {
      assert buf[o..o + |f|][i + k] == f[i..i + |x|][k];
    }
  }

  lemma FrameParts(x: bytes, y: bytes)
    ensures Frame(x + y)[4..4 + |x|] == x && Frame(x + y)[4 + |x|..4 + |x| + |y|] == y
  {
    hide LE32;
  }

  lemma EmptyFrame()
    ensures Frame([]) == [5, 0, 0, 0, 0]
  {
    assert LE(0, 1) == [0] + LE(0, 0);
    assert LE(0, 2) == [0] + LE(0, 1);
    assert LE(0, 3) == [0] + LE(0, 2);
    assert LE(5, 4) == [5] + LE(0, 3);
  }

  /** The empty document appended last becomes the open child. */
  lemma LayoutBegin(buf: bytes, exts: seq<Extent>, levels: seq<bytes>, level: bytes)
    requires Layout(buf, exts, levels) && levels[|levels| - 1] == level + Frame([])
    ensures var last := |exts| - 1;
            Layout(buf, exts + [Extent(exts[last].offset + exts[last].len - 6, 5)], levels[last := level] + [[]])
  {
    hide LE32, Frame, HoldsAt;
    var last := |exts| - 1;
    var f := Frame(level + Frame([]));
    FrameParts(level, Frame([]));
    HoldsInside(buf, exts[last].offset, f, 4, level);
    HoldsInside(buf, exts[last].offset, f, 4 + |level|, Frame([]));
    var exts' := exts + [Extent(exts[last].offset + exts[last].len - 6, 5)];
    var levels' := levels[last := level] + [[]];
    forall i | 0 <= i <= last ensures HoldsAt(buf, exts'[i].offset + 4, levels'[i]) {
      if i == last {
        assert levels'[i] == level;
      } else {
        assert levels'[i] == levels[i];
      }
    }
  }

  /** The buffer with the length n written at o and a terminator at e. */
  function Sealed(buf: bytes, o: nat, n: nat, e: nat): (r: bytes)
    requires o + 4 <= e < |buf|
    ensures |r| == |buf|
  {
    (buf[..o] + LE32(n) + buf[o + 4..])[e := 0]
  }

  lemma SealedParts(buf: bytes, o: nat, n: nat, e: nat)
    requires o + 4 <= e < |buf|
    ensures Sealed(buf, o, n, e)[..o] == buf[..o]
    ensures Sealed(buf, o, n, e)[o..o + 4] == LE32(n)
    ensures Sealed(buf, o, n, e)[o + 4..e] == buf[o + 4..e]
    ensures Sealed(buf, o, n, e)[e] == 0
  {
    hide LE32;
  }

  /** The bytes an append leaves: the old elements, the new ones over the old terminator, a length and a terminator. */
  lemma FrameGrown(was: bytes, buf: bytes, o: nat, level: bytes, x: bytes)
    requires HoldsAt(was, o, Frame(level)) && o + |level| + |x| + 5 <= |buf|
    requires var e := o + 4 + |level|; buf[..e] == was[..e] && buf[e..e + |x|] == x
    ensures var e := o + 4 + |level| + |x|; HoldsAt(Sealed(buf, o, e - o + 1, e), o, Frame(level + x))
  {
    var s := o + 4 + |level|;
    assert level == was[o + 4..s] by {
      assert level + [] == level;
      FrameParts(level, []);
      HoldsInside(was, o, Frame(level), 4, level);
    }
    var (e, n) := (s + |x|, |level| + |x| + 5);
    SealedParts(buf, o, n, e);
    assert Frame(level + x) == LE32(n) + (level + x) + [0];
    hide Frame, LE32, Sealed;
    var buf' := Sealed(buf, o, n, e);
    assert buf[o + 4..e] == buf[..s][o + 4..] + buf[s..e] == level + x;
    assert buf'[o..e + 1] == buf'[o..o + 4] + buf'[o + 4..e] + [buf'[e]];
  }

  lemma LastTwo(buf: bytes, exts: seq<Extent>, levels: seq<bytes>)
    requires Layout(buf, exts, levels) && |exts| >= 2
    ensures var n := |exts|;
            && |levels| == n && exts[n - 2].len == |levels[n - 2]| + 10 && exts[n - 1].len == |levels[n - 1]| + 5
            && exts[n - 1].offset == exts[n - 2].offset + 4 + |levels[n - 2]|
            && HoldsAt(buf, exts[n - 2].offset + 4, levels[n - 2])
            && HoldsAt(buf, exts[n - 1].offset, Frame(levels[n - 1]))
  {
    hide HoldsAt, Frame;
  }

  /** Closing the child: its bytes join the parent's, whose terminator and length are written again. */
  lemma LayoutEnd(buf: bytes, exts: seq<Extent>, levels: seq<bytes>)
    requires Layout(buf, exts, levels) && |exts| >= 2
    requires exts[|exts| - 1].offset + exts[|exts| - 1].len < |buf|
    ensures var n := |exts|;
            var (p, c) := (exts[n - 2], exts[n - 1]);
            && |levels| == n && p.len >= 10 && c.len >= 5 && c.offset == p.offset + p.len - 6
            && Layout(Sealed(buf, p.offset, p.len + c.len - 5, c.offset + c.len),
                      exts[..n - 2] + [Extent(p.offset, p.len + c.len - 5)],
                      levels[..n - 2] + [levels[n - 2] + Frame(levels[n - 1])])
  {
    hide Frame, LE32, Sealed, HoldsAt, Layout;
    LastTwo(buf, exts, levels);
    var n := |exts|;
    var (p, c) := (exts[n - 2], exts[n - 1]);
    SealedParts(buf, p.offset, p.len + c.len - 5, c.offset + c.len);
    ClosedFrame(buf, p, c, levels[n - 2], levels[n - 1]);
    LayoutChange(buf, Sealed(buf, p.offset, p.len + c.len - 5, c.offset + c.len), exts, levels, n - 2,
                 levels[n - 2] + Frame(levels[n - 1]));
  }

  lemma ClosedFrame(buf: bytes, p: Extent, c: Extent, x: bytes, y: bytes)
    requires p.len == |x| + 10 && c.offset == p.offset + 4 + |x| && c.len == |y| + 5
    requires HoldsAt(buf, p.offset + 4, x) && HoldsAt(buf, c.offset, Frame(y)) && c.offset + c.len < |buf|
    ensures HoldsAt(Sealed(buf, p.offset, p.len + c.len - 5, c.offset + c.len), p.offset, Frame(x + Frame(y)))
  {
    var level := x + Frame(y);
    var (e, n) := (c.offset + c.len, p.len + c.len - 5);
    SealedParts(buf, p.offset, n, e);
    assert Frame(level) == LE32(n) + level + [0];
    hide LE32, Frame, Sealed;
    var buf' := Sealed(buf, p.offset, n, e);
    assert buf[p.offset + 4..e] == buf[p.offset + 4..c.offset] + buf[c.offset..e] == level;
    assert buf'[p.offset..e + 1] == buf'[p.offset..p.offset + 4] + buf'[p.offset + 4..e] + [buf'[e]];
  }
}
