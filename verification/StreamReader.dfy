/** Reading a stream of documents: out of memory, and out of a buffer refilled by a read callback. */
module StreamReader {
  import opened CInt
  import opened LittleEndian
  import opened BsonDecode

  const FIRST_BUFFER := 1024
  const DECLARED_MAX := 0x4000_0000

  // ---------------------------------------------------------------------------------------------------------
  // What a stream holds
  // ---------------------------------------------------------------------------------------------------------

  /** A cast to int32_t. */
  function AsInt32(n: nat): (i: int)
    ensures i <= n && (n <= INT_MAX ==> i == n)
  {
    Signed32(n % TWO_32)
  }

  /** What stands at a position: a document, bytes no document starts with, or less than a document. */
  datatype Frame = Document(size: nat) | Refused | Cut

  function FrameAt(s: bytes, pos: nat): (f: Frame)
    requires pos <= |s|
    ensures f.Document? ==> 5 <= f.size && pos + f.size <= |s| && InitStatic(s[pos..pos + f.size])
  {
    if |s| - pos < 4 then Cut
    else
      var blen := Signed32(Read32(s, pos));
      if blen < 5 then Refused
      else if blen > |s| - pos then Cut
      else if InitStatic(s[pos..pos + blen]) then Document(blen)
      else Refused
  }

  /** Less than a document is left. */
  predicate CutAt(s: bytes, pos: nat) {
    pos <= |s| && FrameAt(s, pos).Cut?
  }

  /** The documents from a position on, up to the first place where there is none. */
  function Documents(s: bytes, pos: nat): seq<bytes>
    requires pos <= |s|
    decreases |s| - pos
  {
    match FrameAt(s, pos)
    case Document(size) => [s[pos..pos + size]] + Documents(s, pos + size)
    case _ => []
  }

  /** Where that place is. */
  function Stop(s: bytes, pos: nat): (p: nat)
    requires pos <= |s|
    ensures pos <= p <= |s| && !FrameAt(s, p).Document?
    decreases |s| - pos
  {
    match FrameAt(s, pos)
    case Document(size) => Stop(s, pos + size)
    case _ => pos
  }

  /** No document reached declares a length above 2^30, so that the buffer stays within the int range. */
  predicate Moderate(s: bytes, pos: nat)
    requires pos <= |s|
    decreases |s| - pos
  {
    && (|s| - pos >= 4 ==> Signed32(Read32(s, pos)) <= DECLARED_MAX)
    && (FrameAt(s, pos).Document? ==> Moderate(s, pos + FrameAt(s, pos).size))
  }

  function Join(docs: seq<bytes>): bytes {
    if docs == [] then [] else docs[0] + Join(docs[1..])
  }

  /** The documents tile the stream up to where reading stops. */
  lemma {:induction false} DocumentsTile(s: bytes, pos: nat)
    requires pos <= |s|
    ensures Join(Documents(s, pos)) == s[pos..Stop(s, pos)]
    decreases |s| - pos
  {
    hide FrameAt, Documents, Stop;
    Unfold(s, pos);
    if FrameAt(s, pos).Document? {
      var n := FrameAt(s, pos).size;
      DocumentsTile(s, pos + n);
      assert Documents(s, pos)[1..] == Documents(s, pos + n);
      assert s[pos..Stop(s, pos)] == s[pos..pos + n] + s[pos + n..Stop(s, pos)];
    }
  }

  /** Documents written one after another are framed as they were, whatever follows that is not a document. */
  lemma {:induction false} JoinedFrames(before: bytes, docs: seq<bytes>, after: bytes)
    requires forall i :: 0 <= i < |docs| ==> InitStatic(docs[i])
    requires !FrameAt(after, 0).Document?
    ensures Documents(before + Join(docs) + after, |before|) == docs
    decreases |docs|
  {
    hide InitStatic, FrameAt, Documents;
    var s := before + Join(docs) + after;
    Unfold(s, |before|);
    if docs == [] {
      assert s == before + after;
      SameFrame(s, |before|, after);
    } else {
      FirstFrame(s, |before|, docs[0]);
      assert s == before + docs[0] + Join(docs[1..]) + after;
      JoinedFrames(before + docs[0], docs[1..], after);
      assert docs == [docs[0]] + docs[1..];
    }
  }

  lemma SameFrame(s: bytes, pos: nat, rest: bytes)
    requires pos <= |s| && s[pos..] == rest
    ensures FrameAt(s, pos) == FrameAt(rest, 0)
  {
    hide InitStatic, Read;
    if |rest| >= 4 {
      SameRead(s, pos, rest, 0, 4);
      var n := Signed32(Read32(s, pos));
      assert 5 <= n <= |rest| ==> s[pos..pos + n] == rest[0..0 + n];
    }
  }

  lemma FirstFrame(s: bytes, pos: nat, doc: bytes)
    requires pos + |doc| <= |s| && s[pos..pos + |doc|] == doc && InitStatic(doc)
    ensures FrameAt(s, pos) == Document(|doc|)
  {
    hide Read;
    SameRead(s, pos, doc, 0, 4);
  }

  lemma {:induction false} SameRead(s: bytes, i: nat, t: bytes, j: nat, k: nat)
    requires i + k <= |s| && j + k <= |t| && s[i..i + k] == t[j..j + k]
    ensures Read(s, i, k) == Read(t, j, k)
    decreases k
  {
    if k > 0 {
      assert s[i] == s[i..i + k][0] == t[j];
      assert s[i + 1..i + k] == s[i..i + k][1..] == t[j + 1..j + k];
      SameRead(s, i + 1, t, j + 1, k - 1);
    }
  }

  lemma Unfold(s: bytes, pos: nat)
    requires pos <= |s|
    ensures var f := FrameAt(s, pos);
            if f.Document? then
              && Documents(s, pos) == [s[pos..pos + f.size]] + Documents(s, pos + f.size)
              && Stop(s, pos) == Stop(s, pos + f.size) && (Moderate(s, pos) ==> Moderate(s, pos + f.size))
            else Documents(s, pos) == [] && Stop(s, pos) == pos
  {
    hide FrameAt, Read;
  }

  // ---------------------------------------------------------------------------------------------------------
  // The reader over a block of memory
  // ---------------------------------------------------------------------------------------------------------

  class DataReader {
    const data: bytes
    var offset: nat

    constructor (data: bytes)
      ensures this.data == data && offset == 0
    {
      this.data := data;
      offset := 0;
    }

    method Read() returns (doc: Option<bytes>, reachedEof: bool)
      requires offset <= |data|
      modifies this
      ensures var f := FrameAt(data, old(offset)); doc.Some? <==> f.Document? && f.size <= AsInt32(|data| - old(offset))
      ensures doc.Some? ==> offset == old(offset) + |doc.value| <= |data| && doc.value == data[old(offset)..offset] && !reachedEof
      ensures doc.Some? ==> |doc.value| == FrameAt(data, old(offset)).size
      ensures doc == None ==> offset == old(offset) && reachedEof == (offset == |data|)
    {
      hide InitStatic, LittleEndian.Read;
      if offset + 4 < |data| {
        var blen := Signed32(Read32(data, offset));
        if blen < 5 {
          return None, false;
        }
        if blen > AsInt32(|data| - offset) {
          return None, false;
        }
        if !InitStatic(data[offset..offset + blen]) {
          return None, false;
        }
        doc := Some(data[offset..offset + blen]);
        offset := offset + blen;
        return doc, false;
      }
      return None, offset == |data|;
    }

    /** All that is left, by reading until there is nothing; of a block beyond the int range, until a cast hides the next. */
    method ReadAll() returns (docs: seq<bytes>, reachedEof: bool)
      requires offset <= |data|
      modifies this
      ensures docs <= Documents(data, old(offset)) && old(offset) + |Join(docs)| == offset <= |data|
      ensures var f := FrameAt(data, offset); f.Document? ==> f.size > AsInt32(|data| - offset)
      ensures |data| <= INT_MAX ==> docs == Documents(data, old(offset)) && offset == Stop(data, old(offset))
      ensures reachedEof == (offset == |data|)
    {
      hide FrameAt, Documents, Stop, Moderate, AsInt32;
      docs := [];
      while true
        invariant old(offset) + |Join(docs)| == offset <= |data|
        invariant docs + Documents(data, offset) == Documents(data, old(offset))
        invariant Stop(data, offset) == Stop(data, old(offset))
        decreases |data| - offset
      {
        var doc;
        ghost var at := offset;
        doc, reachedEof := Read();
        Unfold(data, at);
        if doc == None {
          return;
        }
        JoinSnoc(docs, doc.value);
        docs := docs + [doc.value];
      }
    }
  }

  // ---------------------------------------------------------------------------------------------------------
  // The read callback
  // ---------------------------------------------------------------------------------------------------------

  /** A stream handed out in pieces of any size; a faulty one may report an error at any time. */
  class Source {
    const stream: bytes
    const faulty: bool
    var position: nat
    /** An error has been reported. */
    var broken: bool

    ghost predicate Valid()
      reads this
    {
      position <= |stream| && (broken ==> faulty)
    }

    constructor (stream: bytes, faulty: bool)
      ensures Valid() && this.stream == stream && this.faulty == faulty && position == 0 && !broken
    {
      this.stream, this.faulty, this.position, this.broken := stream, faulty, 0, false;
    }

    /** Every caller asks for at least one byte. */
    method Read(buffer: array<byte>, at: nat, n: nat) returns (ret: int)
      requires Valid() && n > 0 && at + n <= buffer.Length
      modifies this, buffer
      ensures Valid() && ret <= n && buffer[..at] == old(buffer[..at])
      ensures ret > 0 ==> position == old(position) + ret && broken == old(broken)
      ensures ret > 0 ==> buffer[at..at + ret] == stream[old(position)..position]
      ensures ret <= 0 ==> position == old(position) && buffer[..] == old(buffer[..])
      ensures ret == 0 ==> position == |stream| && broken == old(broken)
      ensures ret < 0 ==> broken
    {
      if faulty {
        if * {
          broken := true;
          return -1;
        }
      }
      if position == |stream| {
        return 0;
      }
      var k: nat :| 1 <= k <= n && position + k <= |stream|;
      forall i | 0 <= i < k {
        buffer[at + i] := stream[position + i];
      }
      assert buffer[at..at + k] == stream[position..position + k];
      position := position + k;
      return k;
    }
  }

  // ---------------------------------------------------------------------------------------------------------
  // The reader over a refillable buffer
  // ---------------------------------------------------------------------------------------------------------

  /** bson_realloc keeps what the old block held. */
  method Realloc(data: array<byte>, size: nat) returns (grown: array<byte>)
    requires size >= data.Length
    ensures fresh(grown) && grown.Length == size && grown[..data.Length] == data[..]
  {
    grown := new byte[size](_ => 0);
    forall i | 0 <= i < data.Length {
      grown[i] := data[i];
    }
  }

  /** The first size doubled k times. */
  function BufferSize(k: nat): (n: nat)
    ensures n >= FIRST_BUFFER
  {
    if k == 0 then FIRST_BUFFER else 2 * BufferSize(k - 1)
  }

  /** Where the cast of the size is at least some number, the size is within the int range: greater ones are cast away. */
  lemma {:induction false} CastSize(k: nat)
    ensures BufferSize(k) <= INT_MAX || AsInt32(BufferSize(k)) <= 0
    ensures k <= 20 ==> BufferSize(k) <= 0x4000_0000
    ensures k == 21 ==> BufferSize(k) == 0x8000_0000
    ensures k >= 22 ==> BufferSize(k) % TWO_32 == 0
    ensures k == 20 ==> BufferSize(k) == 0x4000_0000
  {
    SizeOf20();
    if k <= 20 {
      SizeBelow(k);
    } else {
      CastSize(k - 1);
    }
  }

  lemma {:induction false} SizeBelow(k: nat)
    requires k <= 20
    ensures BufferSize(k) <= BufferSize(20)
    decreases 20 - k
  {
    if k < 20 { SizeBelow(k + 1); }
  }

  lemma SizeOf20()
    ensures BufferSize(20) == 0x4000_0000
  {
    assert BufferSize(5) == 0x8000;
    assert BufferSize(10) == 0x10_0000;
    assert BufferSize(15) == 0x200_0000;
  }

  /** The buffer from one place to another is the stream up to a position. */
  ghost predicate Window(data: array<byte>, offset: nat, end: nat, stream: bytes, position: nat)
    reads data
  {
    offset <= end <= data.Length && end - offset <= position <= |stream|
    && data[offset..end] == stream[position - end + offset..position]
  }

  lemma TwoPieces(data: array<byte>, n: nat, end: nat)
    requires n <= end <= data.Length
    ensures data[0..end] == data[..n] + data[n..end]
  {
    var (whole, joined) := (data[0..end], data[..n] + data[n..end]);
    assert |whole| == end == |joined|;
    forall i | 0 <= i < end ensures whole[i] == joined[i] {
      assert whole[i] == data[i];
      if i < n { assert joined[i] == data[..n][i]; } else { assert joined[i] == data[n..end][i - n]; }
    }
  }

  class HandleReader {
    const source: Source
    var data: array<byte>
    var done: bool
    var failed: bool
    var end: nat
    var len: nat
    var offset: nat
    var bytesRead: nat
    ghost var doublings: nat

    /** The buffer holds the part of the stream before the source's position. */
    ghost predicate Buffered()
      reads this, data, source
    {
      && source.Valid() && len == data.Length == BufferSize(doublings)
      && offset <= end <= len && bytesRead == source.position && end <= bytesRead
      && Window(data, offset, end, source.stream, bytesRead)
    }

    ghost predicate Valid()
      reads this, data, source
    {
      && Buffered()
      && (!done ==> !source.broken && !failed && (offset == end == 0 ==> bytesRead == 0))
      && (done && !source.broken ==> !failed && bytesRead == |source.stream| && Exhausted())
      && (done && source.broken ==> (failed <==> bytesRead > 0))
    }

    /** Less than a document is left in the buffer, or more than an int can tell. */
    ghost predicate Exhausted()
      requires end - offset <= bytesRead
      reads this, source
    {
      CutAt(source.stream, bytesRead - end + offset) || end - offset > INT_MAX
    }

    /** What is in the buffer stays within the int range, because the stream does or because no length declared is great. */
    ghost predicate Fair()
      requires Valid()
      reads this, data, source
    {
      |source.stream| <= INT_MAX || (len <= INT_MAX && Moderate(source.stream, Tell()))
    }

    /** _bson_reader_handle_tell. */
    function Tell(): nat
      requires end <= bytesRead
      reads this
    {
      bytesRead - end + offset
    }

    constructor (source: Source)
      requires source.Valid() && source.position == 0 && !source.broken
      modifies source
      ensures Valid() && fresh(data) && this.source == source && Tell() == 0 && len == 1024
    {
      this.source := source;
      data := new byte[FIRST_BUFFER](_ => 0);
      done, failed, end, len, offset, bytesRead, doublings := false, false, 0, FIRST_BUFFER, 0, 0, 0;
      new;
      hide CutAt;
      NothingLeft(source.stream);
      assert Window(data, 0, 0, source.stream, 0);
      hide Window;
      FillBuffer();
    }

    /** The memmove: what is left goes to the front. */
    method MoveToHead()
      requires Buffered()
      modifies this`offset, this`end, data
      ensures Buffered() && offset == 0 && end == old(end - offset) && Tell() == old(Tell())
    {
      ghost var left := data[offset..end];
      var n := end - offset;
      forall i | 0 <= i < n {
        data[i] := data[offset + i];
      }
      end := n;
      offset := 0;
      assert data[0..n] == left;
    }

    /** Asks for as much as there is room for behind what is left. */
    method ReadMore() returns (ret: int)
      requires Buffered() && offset == 0 && end < len && !source.broken
      modifies this`end, this`bytesRead, data, source
      ensures Buffered() && Tell() == old(Tell()) && failed == old(failed) && done == old(done)
      ensures ret > 0 ==> source.position > old(source.position) && end > 0 && !source.broken
      ensures ret <= 0 ==> source.position == old(source.position) && end == old(end)
      ensures ret == 0 ==> source.position == |source.stream| && !source.broken
      ensures ret < 0 ==> source.broken
    {
      ghost var left := data[..end];
      ghost var n := end;
      assert data[0..end] == left;
      ret := source.Read(data, end, len - end);
      assert data[..n] == left;
      if ret > 0 {
        bytesRead := bytesRead + ret;
        end := end + ret;
        TwoPieces(data, n, end);
        Contiguous(source.stream, bytesRead - end, bytesRead - ret, bytesRead);
      } else {
        assert data[0..end] == data[..n];
      }
    }

    /** Moves what is left to the front and asks for as much as there is room for; the first read moves nothing. */
    method FillBuffer()
      requires Valid() && !done && end - offset < len
      requires bytesRead == |source.stream| ==> Exhausted()
      modifies this, data, source
      ensures Valid() && data == old(data) && len == old(len) && Tell() == old(Tell()) && (old(Fair()) ==> Fair())
      ensures done || source.position > old(source.position)
    {
      hide CutAt, Window;
      if !done && offset == 0 && end == 0 {
        var ret := ReadMore();
        if ret <= 0 {
          done := true;
        }
        return;
      }
      MoveToHead();
      var ret := ReadMore();
      if ret <= 0 {
        done := true;
        failed := ret < 0;
      }
    }

    /** _bson_reader_handle_grow_buffer. */
    method GrowBuffer()
      requires Valid()
      modifies this`data, this`len, this`doublings
      ensures Valid() && fresh(data) && len == 2 * old(len)
    {
      hide CutAt;
      var size := len * 2;
      var grown := Realloc(data, size);
      forall i | offset <= i < end ensures grown[i] == data[i] {
        assert grown[i] == grown[..len][i] == data[..][i];
      }
      assert grown[offset..end] == data[offset..end];
      data := grown;
      len := size;
      doublings := doublings + 1;
    }

    /** Makes room for a document of the given length if there seems not to be enough, and reads on. */
    method FillFor(blen: nat)
      requires Valid() && !done && 0 < blen && AsInt32(end - offset) < blen
      requires bytesRead == |source.stream| ==> Exhausted()
      modifies this, data, source
      ensures Valid() && (data == old(data) || fresh(data)) && Tell() == old(Tell())
      ensures old(Fair()) && (|source.stream| <= INT_MAX || blen <= DECLARED_MAX) ==> Fair()
      ensures done || source.position > old(source.position)
    {
      hide CutAt, Window, Moderate;
      CastSize(doublings);
      if blen > AsInt32(len) {
        GrowBuffer();
      }
      FillBuffer();
    }

    method DeclaredLength() returns (blen: int)
      requires Valid() && end - offset >= 4
      ensures blen == Signed32(Read32(source.stream, Tell()))
    {
      SubSlice(data[..], offset, end, source.stream, Tell(), 4);
      SameRead(data[..], offset, source.stream, Tell(), 4);
      blen := Signed32(Read32(data[..], offset));
    }

    /** Hands out a document that is in the buffer as a whole. */
    method Take(blen: nat) returns (doc: Option<bytes>)
      requires Valid() && !done && 5 <= blen <= end - offset && Signed32(Read32(source.stream, Tell())) == blen
      modifies this`offset
      ensures Valid() && (old(Fair()) ==> Fair()) && (doc == None ==> Ended(false))
      ensures FrameAt(source.stream, old(Tell())) == (if doc.Some? then Document(blen) else Refused)
      ensures Tell() == old(Tell()) + if doc.Some? then blen else 0
      ensures doc.Some? ==> doc.value == source.stream[old(Tell())..old(Tell()) + blen]
    {
      hide InitStatic, LittleEndian.Read, Documents, Stop, Moderate;
      Unfold(source.stream, Tell());
      SubSlice(data[..], offset, end, source.stream, Tell(), blen);
      if !InitStatic(data[offset..offset + blen]) {
        return None;
      }
      doc := Some(data[offset..offset + blen]);
      SubSliceEnd(data[..], offset, end, source.stream, Tell(), blen);
      offset := offset + blen;
    }

    /**
     * The next document is the one that stands at the position told. If the callback never fails, the end of the
     * stream is reported for a cut document too; a failure of the very first read is taken for the end. More than an
     * int can tell in the buffer may be taken for the end as well, which cannot be unless a great length is declared.
     */
    method Read() returns (doc: Option<bytes>, reachedEof: bool)
      requires Valid()
      modifies this, data, source
      ensures Valid() && (data == old(data) || fresh(data)) && (old(Fair()) ==> Fair())
      ensures doc.Some? ==> FrameAt(source.stream, old(Tell())) == Document(|doc.value|) && !reachedEof
      ensures doc.Some? ==> Tell() == old(Tell()) + |doc.value| && doc.value == source.stream[old(Tell())..Tell()]
      ensures doc == None ==> Tell() == old(Tell())
      ensures doc == None && !source.broken ==> Ended(reachedEof) || (reachedEof && |source.stream| - Tell() > INT_MAX)
      ensures doc == None && !source.broken && old(Fair()) ==> Ended(reachedEof)
      ensures doc == None && source.broken ==> reachedEof == (source.position == 0)
    {
      hide FrameAt, Window, InitStatic, LittleEndian.Read, AsInt32, Fair, Exhausted, Ended;
      ghost var at := Tell();
      while !done
        invariant Valid() && Tell() == at && (data == old(data) || fresh(data)) && (old(Fair()) ==> Fair())
        decreases !done, |source.stream| - source.position
      {
        if end - offset < 4 {
          Short();
          FillBuffer();
          continue;
        }
        var blen := DeclaredLength();
        if blen < 5 {
          Refusal();
          return None, false;
        }
        if blen > AsInt32(end - offset) {
          Hidden();
          FillFor(blen);
          continue;
        }
        CastBelow(end - offset);
        doc := Take(blen);
        return doc, false;
      }
      AllRead();
      return None, done && !failed;
    }

    /** Less than a length is left in the buffer. */
    lemma Short()
      requires Valid() && end - offset < 4
      ensures end - offset < len && (bytesRead == |source.stream| ==> Exhausted())
    {
      hide InitStatic, LittleEndian.Read, Window;
    }

    lemma Refusal()
      requires Valid() && end - offset >= 4 && Signed32(Read32(source.stream, Tell())) < 5
      ensures Ended(false)
    {
      hide InitStatic, LittleEndian.Read, Window;
    }

    /** There seems to be less than the length declared in the buffer. */
    lemma Hidden()
      requires Valid() && end - offset >= 4
      requires Signed32(Read32(source.stream, Tell())) > AsInt32(end - offset) && Signed32(Read32(source.stream, Tell())) >= 5
      ensures bytesRead == |source.stream| ==> Exhausted()
      ensures Fair() ==> |source.stream| <= INT_MAX || Signed32(Read32(source.stream, Tell())) <= DECLARED_MAX
    {
      hide InitStatic, LittleEndian.Read, Window;
      SmallCast(end - offset);
    }

    /** The stream has been read to its end. */
    lemma AllRead()
      requires Valid() && done
      ensures !source.broken ==> Ended(true) || |source.stream| - Tell() > INT_MAX
      ensures !source.broken && Fair() ==> Ended(true)
    {
      hide InitStatic, LittleEndian.Read, Window, FrameAt;
    }

    /** No document stands at the position told, and the end is reported if a part of one does. */
    ghost predicate Ended(reachedEof: bool)
      requires offset <= end <= bytesRead <= |source.stream|
      reads this, source
    {
      var f := FrameAt(source.stream, bytesRead - end + offset);
      !f.Document? && reachedEof == f.Cut?
    }

    /** All that is left, by reading until there is nothing. */
    method ReadAll() returns (docs: seq<bytes>, reachedEof: bool)
      requires Valid()
      modifies this, data, source
      ensures Valid()
      ensures !source.broken && old(Fair()) ==>
              && docs == Documents(source.stream, old(Tell())) && Tell() == Stop(source.stream, old(Tell()))
              && reachedEof == FrameAt(source.stream, Tell()).Cut?
      ensures !source.broken && docs != Documents(source.stream, old(Tell())) ==>
              reachedEof && |source.stream| - Tell() > INT_MAX
      ensures docs <= Documents(source.stream, old(Tell())) && Tell() == old(Tell()) + |Join(docs)|
    {
      hide FrameAt, Documents, Stop, Moderate;
      docs := [];
      while true
        invariant Valid() && (data == old(data) || fresh(data)) && (old(Fair()) ==> Fair())
        invariant docs + Documents(source.stream, Tell()) == Documents(source.stream, old(Tell()))
        invariant Stop(source.stream, Tell()) == Stop(source.stream, old(Tell()))
        invariant Tell() == old(Tell()) + |Join(docs)|
        decreases |source.stream| - Tell()
      {
        var doc;
        ghost var at := Tell();
        doc, reachedEof := Read();
        Unfold(source.stream, at);
        if doc == None {
          return;
        }
        JoinSnoc(docs, doc.value);
        docs := docs + [doc.value];
      }
    }
  }

  lemma SmallCast(n: nat)
    ensures n <= INT_MAX ==> AsInt32(n) == n
  {
  }

  lemma CastBelow(n: nat)
    ensures AsInt32(n) <= n
  {
  }

  lemma SubSlice(d: bytes, i: nat, end: nat, s: bytes, at: nat, n: nat)
    requires i + n <= end <= |d| && at + (end - i) <= |s| && d[i..end] == s[at..at + (end - i)]
    ensures d[i..i + n] == s[at..at + n]
  {
    assert d[i..i + n] == d[i..end][..n];
    assert s[at..at + n] == s[at..at + (end - i)][..n];
  }

  lemma SubSliceEnd(d: bytes, i: nat, end: nat, s: bytes, at: nat, n: nat)
    requires i + n <= end <= |d| && at + (end - i) <= |s| && d[i..end] == s[at..at + (end - i)]
    ensures d[i + n..end] == s[at + n..at + (end - i)]
  {
    assert d[i + n..end] == d[i..end][n..];
    assert s[at + n..at + (end - i)] == s[at..at + (end - i)][n..];
  }

  lemma Contiguous(s: bytes, i: nat, j: nat, k: nat)
    requires i <= j <= k <= |s|
    ensures s[i..j] + s[j..k] == s[i..k]
  {
  }

  lemma NothingLeft(s: bytes)
    ensures s == [] ==> CutAt(s, 0)
  {
  }

  lemma {:induction false} JoinSnoc(docs: seq<bytes>, doc: bytes)
    ensures Join(docs + [doc]) == Join(docs) + doc
  {
    if docs == [] {
      assert [] + [doc] == [doc] && [doc][1..] == [];
    } else {
      assert (docs + [doc])[1..] == docs[1..] + [doc];
      JoinSnoc(docs[1..], doc);
    }
  }

  /**
   * However the callback splits the stream, the buffered reader gives the documents the reader over the whole
   * block gives and stops at the same place, within the int range. The two agree on the end of the stream unless
   * the stream ends in part of a document. Beyond the int range neither gives anything but documents of the stream,
   * in order, and the buffered reader gives them all if no length declared is great.
   */
  method ReadBothWays(stream: bytes) returns (fromHandle: seq<bytes>, fromData: seq<bytes>, handleEof: bool, dataEof: bool)
    ensures |stream| <= INT_MAX ==> fromHandle == fromData == Documents(stream, 0)
    ensures |stream| <= INT_MAX ==>
            handleEof == FrameAt(stream, Stop(stream, 0)).Cut? && dataEof == (Stop(stream, 0) == |stream|)
    ensures fromHandle <= Documents(stream, 0) && fromData <= Documents(stream, 0)
    ensures Moderate(stream, 0) ==> fromHandle == Documents(stream, 0)
  {
    hide FrameAt, Documents, Stop, Moderate;
    var source := new Source(stream, false);
    var handle := new HandleReader(source);
    fromHandle, handleEof := handle.ReadAll();
    var data := new DataReader(stream);
    fromData, dataEof := data.ReadAll();
  }
}
