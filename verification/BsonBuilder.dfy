/** Documents under construction: one buffer, shared by a document and the children open inside it. */
module BsonBuilder {
  import opened CInt
  import opened LittleEndian
  import opened BsonTree
  import opened BsonArguments
  import opened BsonLayout
  import opened BsonWire

  const INLINE_SIZE := 120

  /** Document i knows its place, its parent, and the outermost document, whose store it shares. */
  ghost predicate Link(chain: seq<Bson>, i: nat)
    requires i < |chain|
    reads chain
  {
    && chain[i].depth == i && chain[i].isChild == (i > 0) && chain[i].inChild == (i < |chain| - 1)
    && (if i == 0
        then chain[0].indirect == null && chain[0].parent == null && chain[0].offset == 0
        else chain[i].indirect == chain[0] && chain[i].parent == chain[i - 1] && !chain[i].isInline
             && chain[i].canRealloc == chain[0].canRealloc)
  }

  /** The open documents, outermost first. */
  ghost predicate Linked(chain: seq<Bson>)
    reads chain
  {
    && |chain| > 0 && Link(chain, 0) && Link(chain, |chain| - 1)
    && (forall i :: 0 <= i < |chain| ==> Link(chain, i))
    && (chain[0].isInline ==> |chain| == 1 && chain[0].store != null && chain[0].store.Length == INLINE_SIZE)
  }

  lemma Distinct(chain: seq<Bson>)
    requires Linked(chain)
    ensures forall i, j :: 0 <= i < j < |chain| ==> chain[i] != chain[j]
  {
    forall i, j | 0 <= i < j < |chain| ensures chain[i] != chain[j] {
      assert Link(chain, i) && Link(chain, j);
    }
  }

  ghost function Exts(chain: seq<Bson>): (r: seq<Extent>)
    reads chain
    ensures |r| == |chain|
  {
    seq(|chain|, i requires 0 <= i < |chain| reads chain => Extent(chain[i].offset, chain[i].len))
  }

  function Deepest(chain: seq<Bson>): Bson
    requires |chain| > 0
  {
    chain[|chain| - 1]
  }

  /** Room, in the shared store, for the deepest document and the terminators its ancestors get back. */
  ghost predicate Fits(chain: seq<Bson>)
    requires |chain| > 0
    reads chain
  {
    && chain[0].store != null
    && Deepest(chain).offset + Deepest(chain).len + Deepest(chain).depth <= chain[0].store.Length <= MAX_SIZE
  }

  /** The state between two calls: levels are the bytes every open document holds. */
  ghost predicate Building(chain: seq<Bson>, levels: seq<bytes>)
    reads chain, set b | b in chain :: b.store
  {
    Linked(chain) && Fits(chain) && Layout(chain[0].store[..], Exts(chain), levels)
  }

  /** Every byte of every open document. */
  ghost function Documents(chain: seq<Bson>): bytes
    requires |chain| > 0 && Fits(chain)
    reads chain, set b | b in chain :: b.store
  {
    chain[0].store[..Deepest(chain).offset + Deepest(chain).len]
  }

  /** Appending n bytes needs this much room. */
  ghost predicate HasRoom(chain: seq<Bson>, n: nat)
    requires |chain| > 0 && Fits(chain)
    reads chain
  {
    var need := Deepest(chain).offset + Deepest(chain).len + Deepest(chain).depth + n;
    need <= chain[0].store.Length || (need <= MAX_SIZE && Growable(chain))
  }

  ghost predicate Growable(chain: seq<Bson>)
    requires |chain| > 0
    reads chain
  {
    chain[0].isInline || chain[0].canRealloc
  }

  ghost function Extended(levels: seq<bytes>, x: bytes): seq<bytes>
    requires |levels| > 0
  {
    levels[..|levels| - 1] + [levels[|levels| - 1] + x]
  }

  /** What a child's element starts with. */
  function Head(key: bytes, isArray: bool): bytes {
    [if isArray then 4 else 3] + key + [0]
  }

  lemma HeadArguments(key: bytes, isArray: bool)
    ensures Concat([[if isArray then 4 else 3], key, [0], Frame([])]) == Head(key, isArray) + Frame([])
  {
    hide Frame;
    Concat3([if isArray then 4 else 3], key, [0]);
    ConcatSnoc([[if isArray then 4 else 3], key, [0]], Frame([]));
    assert [[if isArray then 4 else 3], key, [0]] + [Frame([])] == [[if isArray then 4 else 3], key, [0], Frame([])];
  }

  /** The deepest document becomes part of the one around it. */
  ghost function Joined(levels: seq<bytes>): seq<bytes>
    requires |levels| >= 2
  {
    var n := |levels|;
    levels[..n - 2] + [levels[n - 2] + Frame(levels[n - 1])]
  }

  /**
   * A bson_t. Its bytes are in its own store, which is the 120 bytes inside the object while isInline holds and a
   * heap buffer afterwards, or, for a child, in the store of the outermost document, from offset on.
   */
  class Bson {
    var isInline: bool
    var inChild: bool
    var isChild: bool
    var canRealloc: bool
    var len: nat
    var parent: Bson?
    var indirect: Bson?
    var offset: nat
    var depth: nat
    var store: array?<byte>

    function Owner(): Bson
      reads this
    {
      if indirect == null then this else indirect
    }

    /** What Grow relies on: the owner has room for this document and the terminators of its ancestors. */
    ghost predicate Roomy()
      reads this, Owner()
    {
      && Owner().store != null
      && offset + len + depth <= Owner().store.Length <= MAX_SIZE
      && (isInline ==> indirect == null && parent == null && offset == 0 && depth == 0)
    }

    ghost predicate CanGrow(n: nat)
      requires Roomy()
      reads this, Owner()
    {
      || offset + len + depth + n <= Owner().store.Length
      || (offset + len + depth + n <= MAX_SIZE && (isInline || canRealloc))
    }

    method InlineGrow(n: nat) returns (ok: bool)
      requires Roomy() && isInline && n <= MAX_SIZE
      modifies this
      ensures Roomy() && SameBut(0)
      ensures ok == old(CanGrow(n))
      ensures ok ==> len + n <= store.Length && store[..len] == old(store[..len])
      ensures isInline == (len + n <= old(store.Length) || !ok)
      ensures isInline ==> store == old(store)
      ensures !isInline ==> fresh(store) && canRealloc
    {
      var need := len + n;
      if need <= store.Length {
        return true;
      }
      need := RoundUpAllocSize(need);
      if need <= MAX_SIZE {
        var data := new byte[need];
        Copy(data, 0, store[..len]);
        isInline := false;
        parent, depth, indirect, offset := null, 0, null, 0;
        store := data;
        canRealloc := true;
        return true;
      }
      return false;
    }

    method AllocGrow(n: nat) returns (ok: bool)
      requires Roomy() && !isInline && n <= MAX_SIZE
      modifies Owner()`store
      ensures Roomy()
      ensures ok == old(CanGrow(n))
      ensures ok ==> offset + len + depth + n <= Owner().store.Length
      ensures Owner().store == old(Owner().store) || fresh(Owner().store)
      ensures !ok ==> Owner().store == old(Owner().store)
      ensures Owner().store[..offset + len] == old(Owner().store[..offset + len])
    {
      var need := offset + len + n + depth;
      var owner := Owner();
      if need <= owner.store.Length {
        return true;
      }
      need := RoundUpAllocSize(need);
      if need <= MAX_SIZE && canRealloc {
        var data := new byte[need];
        Copy(data, 0, owner.store[..]);
        assert data[..offset + len] == data[..owner.store.Length][..offset + len] == owner.store[..offset + len];
        owner.store := data;
        return true;
      }
      return false;
    }

    method Grow(n: nat) returns (ok: bool)
      requires Roomy() && n <= MAX_SIZE
      modifies this, Owner()`store
      ensures Roomy() && SameBut(0)
      ensures ok == old(CanGrow(n))
      ensures ok ==> offset + len + depth + n <= Owner().store.Length
      ensures Owner().store == old(Owner().store) || fresh(Owner().store)
      ensures !ok ==> Owner().store == old(Owner().store)
      ensures Owner().store[..offset + len] == old(Owner().store[..offset + len])
      ensures isInline == old(isInline && (len + n <= store.Length || !CanGrow(n)))
      ensures old(isInline) && !isInline ==> fresh(store) && canRealloc
      ensures (isInline || canRealloc) == old(isInline || canRealloc)
      ensures isInline ==> store == old(store)
    {
      if isInline {
        ok := InlineGrow(n);
      } else {
        ok := AllocGrow(n);
      }
    }

    /** bson_init. */
    constructor Init()
      ensures fresh(store) && store.Length == 120 && isInline && Growable([this]) && Building([this], [[]])
    {
      isInline, inChild, isChild, canRealloc := true, false, false, false;
      len, offset, depth, parent, indirect := 5, 0, 0, null, null;
      store := new byte[INLINE_SIZE];
      new;
      store[0], store[1], store[2], store[3], store[4] := 5, 0, 0, 0, 0;
      EmptyFrame();
      assert store[..5] == Frame([]);
    }

    /** bson_sized_new, for a size the object cannot hold itself. */
    constructor Sized(size: nat)
      requires INLINE_SIZE < size <= MAX_SIZE
      ensures fresh(store) && store.Length == size && Growable([this]) && Building([this], [[]])
    {
      isInline, inChild, isChild, canRealloc := false, false, false, true;
      len, offset, depth, parent, indirect := 5, 0, 0, null, null;
      store := new byte[size];
      new;
      store[0], store[1], store[2], store[3], store[4] := 5, 0, 0, 0, 0;
      EmptyFrame();
      assert store[..5] == Frame([]);
    }

    /** The copying loop of an append: every argument goes in at data, and len grows with it. */
    method CopyArguments(args: seq<bytes>, buf: array<byte>, at: nat) returns (data: nat)
      requires at + |Concat(args)| <= buf.Length
      modifies `len, buf
      ensures data == at + |Concat(args)| && len == old(len) + |Concat(args)|
      ensures buf[..at] == old(buf[..at]) && buf[at..data] == Concat(args)
    {
      hide Concat;
      data := at;
      var i := 0;
      ConcatEmpty();
      while i < |args|
        invariant 0 <= i <= |args|
        invariant data == at + |Concat(args[..i])| <= buf.Length && len == old(len) + |Concat(args[..i])|
        invariant buf[..at] == old(buf[..at])
        invariant buf[at..data] == Concat(args[..i])
      {
        assert args[..i] + [args[i]] == args[..i + 1];
        ConcatSnoc(args[..i], args[i]);
        ConcatPrefix(args, i + 1);
        Copy(buf, data, args[i]);
        assert buf[at..data + |args[i]|] == buf[at..data] + buf[data..data + |args[i]|];
        len := len + |args[i]|;
        data := data + |args[i]|;
        i := i + 1;
      }
      assert args[..i] == args;
    }

    /** Appends the arguments over the terminator, then writes the length and the terminator again. */
    method ApplyArguments(args: seq<bytes>, n: nat, ghost level: bytes) returns (ok: bool)
      requires Roomy() && n == |Concat(args)| <= MAX_SIZE
      requires len == |level| + 5 && HoldsAt(Owner().store[..], offset, Frame(level))
      modifies this, Owner()`store, Owner().store
      ensures Roomy()
      ensures ok == old(CanGrow(n))
      ensures SameBut(if ok then n else 0)
      ensures isInline ==> store == old(store)
      ensures (isInline || canRealloc) == old(isInline || canRealloc)
      ensures HoldsAt(Owner().store[..], offset, Frame(if ok then level + Concat(args) else level))
      ensures Owner().store == old(Owner().store) || fresh(Owner().store)
      ensures !ok ==> Owner().store == old(Owner().store) && Owner().store[..] == old(Owner().store[..])
      ensures Owner().store[..offset] == old(Owner().store[..offset])
    {
      hide LE32, Concat, Frame, HoldsAt, Sealed;
      ghost var was := Owner().store[..];
      if n > MAX_SIZE - len {
        return false;
      }
      ok := Grow(n);
      if !ok {
        return false;
      }
      PrefixShrinks(Owner().store[..], was, offset, offset + len);
      HoldsElsewhere(was, Owner().store[..], offset, Frame(level), offset + len);
      WriteArguments(args, level);
    }

    method WriteArguments(args: seq<bytes>, ghost level: bytes)
      requires Roomy() && offset + len + |Concat(args)| <= Owner().store.Length
      requires len == |level| + 5 && HoldsAt(Owner().store[..], offset, Frame(level))
      modifies `len, Owner().store
      ensures len == old(len) + |Concat(args)|
      ensures HoldsAt(Owner().store[..], offset, Frame(level + Concat(args)))
      ensures Owner().store[..offset] == old(Owner().store[..offset])
    {
      hide LE32, Concat, Frame, HoldsAt, Sealed;
      var buf := Owner().store;
      ghost var was := buf[..];
      var data := offset + len - 1;
      data := CopyArguments(args, buf, data);
      ghost var copied := buf[..];
      PrefixShrinks(copied, was, offset, offset + |level| + 4);
      FrameGrown(was, copied, offset, level, Concat(args));
      Seal(buf, offset, len, data);
    }

    /** An append to the deepest open document: all of it or nothing. */
    method AppendArguments(args: seq<bytes>, n: nat, ghost chain: seq<Bson>, ghost levels: seq<bytes>)
      returns (ok: bool)
      requires Building(chain, levels) && this == Deepest(chain) && n == |Concat(args)| <= MAX_SIZE
      modifies this, Owner()`store, Owner().store
      ensures isInline ==> old(isInline)
      ensures ok == old(HasRoom(chain, n))
      ensures Building(chain, if ok then Extended(levels, Concat(args)) else levels)
      ensures !ok ==> Documents(chain) == old(Documents(chain)) && Exts(chain) == old(Exts(chain))
      ensures Growable(chain) == old(Growable(chain)) && (chain[0].store == old(chain[0].store) || fresh(chain[0].store))
    {
      hide Concat, Frame, HoldsAt, Layout;
      var last := |chain| - 1;
      Distinct(chain);
      assert chain[0] == Owner();
      ghost var exts := Exts(chain);
      ghost var was := chain[0].store[..];
      LayoutDeepest(was, exts, levels);
      ok := ApplyArguments(args, n, levels[last]);
      forall i | 0 <= i < |chain| ensures Link(chain, i) {
        assert old(Link(chain, i));
      }
      if ok {
        LayoutChange(was, chain[0].store[..], exts, levels, last, levels[last] + Concat(args));
        assert Exts(chain) == exts[..last] + [Extent(offset, len)];
      } else {
        assert Exts(chain) == exts;
      }
    }

    /** The bson_append_ family: an element whose value is already complete. */
    method AppendElement(key: bytes, v: Value, ghost chain: seq<Bson>, ghost levels: seq<bytes>) returns (ok: bool)
      requires Building(chain, levels) && this == Deepest(chain) && CTyped(v)
      modifies this, Owner()`store, Owner().store
      ensures ok == (0 !in key && (v.Regex? ==> 0 !in v.pattern) && old(HasRoom(chain, |EncodeElement(key, Stored(v))|)))
      ensures Building(chain, if ok then Extended(levels, EncodeElement(key, Stored(v))) else levels)
      ensures v.Regex? ==> RegexBytes(EncodeElement(key, Stored(v)), key, v.pattern, v.options)
      ensures !ok ==> Documents(chain) == old(Documents(chain)) && Exts(chain) == old(Exts(chain))
      ensures Growable(chain) == old(Growable(chain)) && (chain[0].store == old(chain[0].store) || fresh(chain[0].store))
    {
      hide Concat, Layout, EncodeElement, ValueArguments, Stored, RegexBytes;
      ArgumentsEncode(key, v);
      StoredRegex(key, v);
      if 0 in key || (v.Regex? && 0 in v.pattern) {
        return false;
      }
      var fits, args, n := CollectArguments([[TypeByte(v)], key, [0]] + ValueArguments(v));
      if !fits {
        return false;
      }
      ok := AppendArguments(args, n, chain, levels);
    }

    /** bson_concat, from the bytes of a finished document. */
    method Concatenate(src: bytes, ghost e: Doc, ghost chain: seq<Bson>, ghost levels: seq<bytes>) returns (ok: bool)
      requires Building(chain, levels) && this == Deepest(chain) && src == EncodeDoc(e)
      modifies this, Owner()`store, Owner().store
      ensures ok == (e == Nil || old(HasRoom(chain, |EncodeElements(e)|)))
      ensures Building(chain, if ok then Extended(levels, EncodeElements(e)) else levels)
      ensures !ok ==> Documents(chain) == old(Documents(chain)) && Exts(chain) == old(Exts(chain))
      ensures Growable(chain) == old(Growable(chain)) && (chain[0].store == old(chain[0].store) || fresh(chain[0].store))
    {
      hide Concat, Layout, EncodeElements, EncodeDoc;
      ElementsInside(e);
      LayoutDeepest(chain[0].store[..], Exts(chain), levels);
      if |src| == 5 || src[4] == 0 {
        assert levels[|levels| - 1] + [] == levels[|levels| - 1];
        assert Extended(levels, []) == levels;
        return true;
      }
      ConcatOne(EncodeElements(e));
      var fits, args, n := CollectArguments([src[4..|src| - 1]]);
      if !fits {
        return false;
      }
      ok := AppendArguments(args, n, chain, levels);
    }

    /** bson_append_document_begin and bson_append_array_begin. */
    method AppendBegin(key: bytes, isArray: bool, child: Bson, ghost chain: seq<Bson>, ghost levels: seq<bytes>)
      returns (ok: bool)
      requires Building(chain, levels) && this == Deepest(chain) && child !in chain
      modifies this, Owner()`store, Owner().store, child
      ensures ok == (0 !in key && old(HasRoom(chain, |key| + 7)))
      ensures ok ==> Building(chain + [child], Extended(levels, Head(key, isArray)) + [[]])
      ensures !ok ==> Building(chain, levels)
      ensures !ok ==> Documents(chain) == old(Documents(chain)) && Exts(chain) == old(Exts(chain))
      ensures Growable(chain) == old(Growable(chain)) && (chain[0].store == old(chain[0].store) || fresh(chain[0].store))
    {
      hide Concat, Layout, Frame, HoldsAt;
      if 0 in key {
        return false;
      }
      LayoutDeepest(chain[0].store[..], Exts(chain), levels);
      if isInline {
        Promote(chain, levels);
      }
      EmptyFrame();
      HeadArguments(key, isArray);
      var fits, args, n := CollectArguments([[if isArray then 4 else 3], key, [0], [5, 0, 0, 0, 0]]);
      if !fits {
        return false;
      }
      ok := AppendArguments(args, n, chain, levels);
      if ok {
        OpenChild(child, Head(key, isArray), chain, levels);
      }
    }

    method InitChild(child: Bson)
      requires child != this && len >= 6
      modifies child
      ensures !child.isInline && !child.inChild && child.isChild && child.canRealloc == canRealloc
      ensures child.depth == (if isChild then depth + 1 else 1) && child.parent == this && child.indirect == Owner()
      ensures child.offset == offset + len - 6 && child.len == 5 && child.store == null
    {
      child.isInline, child.inChild, child.isChild, child.canRealloc := false, false, true, canRealloc;
      child.depth := if isChild then depth + 1 else 1;
      child.parent, child.indirect := this, Owner();
      child.offset, child.len, child.store := offset + len - 6, 5, null;
    }

    /** Points the child at the empty document just appended. */
    method OpenChild(child: Bson, ghost head: bytes, ghost chain: seq<Bson>, ghost levels: seq<bytes>)
      requires |levels| > 0 && Building(chain, Extended(levels, head + Frame([])))
      requires this == Deepest(chain) && !isInline && child !in chain
      modifies `inChild, child
      ensures Building(chain + [child], Extended(levels, head) + [[]]) && chain[0].store == old(chain[0].store)
    {
      hide Layout, Frame, HoldsAt;
      ghost var last := |chain| - 1;
      ghost var exts := Exts(chain);
      Distinct(chain);
      ghost var before := Extended(levels, head + Frame([]));
      LayoutDeepest(chain[0].store[..], exts, before);
      JoinAssoc(levels[last], head, Frame([]));
      assert len == |levels[last]| + |head| + 10;
      LayoutBegin(chain[0].store[..], exts, before, levels[last] + head);
      assert Owner() == chain[0] && depth == last && isChild == (last > 0) && canRealloc == chain[0].canRealloc;
      assert child != this && child != chain[0];
      inChild := true;
      InitChild(child);
      ghost var chain' := chain + [child];
      forall i | 0 <= i < last ensures Link(chain', i) {
        assert old(Link(chain, i));
        assert chain'[i] == chain[i] && (i > 0 ==> chain'[i - 1] == chain[i - 1]);
      }
      assert chain'[0] == chain[0] && chain'[last] == this && chain'[last + 1] == child;
      assert Link(chain', last) && Link(chain', last + 1);
      assert Exts(chain') == exts + [Extent(child.offset, 5)];
      assert before[last := levels[last] + head] == Extended(levels, head);
    }

    /** An inline document moves to the heap before its first child opens. */
    method Promote(ghost chain: seq<Bson>, ghost levels: seq<bytes>)
      requires Building(chain, levels) && this == Deepest(chain) && isInline
      modifies this
      ensures Building(chain, levels) && !isInline && Growable(chain) && fresh(store)
      ensures Documents(chain) == old(Documents(chain)) && Exts(chain) == old(Exts(chain)) && SameBut(0)
    {
      hide Frame, HoldsAt, Layout;
      ghost var was := store[..];
      ghost var exts := Exts(chain);
      assert chain == [this] && exts == [Extent(0, len)];
      LayoutDeepest(was, exts, levels);
      var grown := Grow(128 - len);
      assert grown && !isInline;
      HoldsElsewhere(was, store[..], 0, Frame(levels[0]), len);
      LayoutChange(was, store[..], exts, levels, 0, levels[0]);
      assert Exts(chain) == exts == exts[..0] + [Extent(0, len)];
      assert levels == levels[..0] + [levels[0]];
    }

    /** bson_append_document_end and bson_append_array_end. */
    method AppendEnd(child: Bson, ghost chain: seq<Bson>, ghost levels: seq<bytes>)
      requires Building(chain, levels) && |chain| >= 2 && child == Deepest(chain) && this == child.parent
      modifies this, Owner().store
      ensures chain[0].store == old(chain[0].store) && Growable(chain) == old(Growable(chain))
      ensures |levels| == |chain| && Building(chain[..|chain| - 1], Joined(levels))
    {
      hide Frame, HoldsAt, Layout, LE32, Sealed;
      ghost var exts := Exts(chain);
      ghost var n := |chain|;
      Distinct(chain);
      assert Link(chain, n - 2);
      assert exts[n - 2] == Extent(offset, len) && exts[n - 1] == Extent(child.offset, child.len);
      LayoutEnd(chain[0].store[..], exts, levels);
      inChild := false;
      len := len + child.len - 5;
      Seal(Owner().store, offset, len, offset + len - 1);
      ghost var chain' := chain[..n - 1];
      forall i | 0 <= i < n - 1 ensures Link(chain', i) {
        assert old(Link(chain, i));
      }
      assert Exts(chain') == exts[..n - 2] + [Extent(offset, len)];
    }

    twostate predicate SameBut(n: int)
      reads this
    {
      && len == old(len) + n && inChild == old(inChild) && isChild == old(isChild) && parent == old(parent)
      && indirect == old(indirect) && offset == old(offset) && depth == old(depth)
      && (old(isInline) || (canRealloc == old(canRealloc) && !isInline))
    }
  }

  method Seal(buf: array<byte>, o: nat, n: nat, e: nat)
    requires o + 4 <= e < buf.Length
    modifies buf
    ensures buf[..] == Sealed(old(buf[..]), o, n, e) && buf[..o] == old(buf[..o])
  {
    hide LE32;
    Copy(buf, o, LE32(n));
    buf[e] := 0;
  }

  method Copy(dst: array<byte>, at: nat, src: bytes)
    requires at + |src| <= dst.Length
    modifies dst
    ensures dst[..] == old(dst[..at]) + src + old(dst[at + |src|..])
    ensures dst[at..at + |src|] == src
  {
    var i := 0;
    while i < |src|
      invariant 0 <= i <= |src|
      invariant dst[..at] == old(dst[..at]) && dst[at + |src|..] == old(dst[at + |src|..])
      invariant dst[at..at + i] == src[..i]
    {
      dst[at + i] := src[i];
      i := i + 1;
    }
    assert dst[..] == dst[..at] + dst[at..at + |src|] + dst[at + |src|..];
  }
}
