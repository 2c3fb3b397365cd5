/** The base64 encoder, the four-state decoder, and the pass that only measures. */
module Base64Codec {
  import opened CInt
  import opened LittleEndian
  import opened Base64
  import opened Base64Text

  const RMAP_SPECIAL: byte := 0xF0
  const RMAP_END: byte := 0xFD
  const RMAP_SPACE: byte := 0xFE
  const RMAP_INVALID: byte := 0xFF

  function ReverseMap(c: byte): byte {
    if c == 0 || c == PAD then RMAP_END
    else if IsSpace(c) then RMAP_SPACE
    else if Digit(c).Some? then Digit(c).value
    else RMAP_INVALID
  }

  method InitializeReverseMap() returns (rmap: array<byte>)
    ensures fresh(rmap) && rmap.Length == 256
    ensures forall c: byte :: rmap[c] == ReverseMap(c)
  {
    rmap := new byte[256];
    rmap[0] := RMAP_END;
    for i := 1 to 256
      invariant rmap[0] == RMAP_END
      invariant forall c: byte :: c < i && Digit(c) == None ==> rmap[c] == ReverseMap(c)
    {
      rmap[i] := if IsSpace(i) then RMAP_SPACE else if i == PAD then RMAP_END else RMAP_INVALID;
    }
    for i := 0 to 64
      invariant forall c: byte :: Digit(c) == None ==> rmap[c] == ReverseMap(c)
      invariant forall x: sextet :: x < i ==> rmap[Letter(x)] == x
    {
      rmap[Letter(i)] := i;
    }
    forall c: byte ensures rmap[c] == ReverseMap(c) {
      if Digit(c).Some? {
        DigitIff(c, Digit(c).value);
        assert rmap[Letter(Digit(c).value)] == Digit(c).value;
      }
    }
  }

  method Put(target: array<byte>, at: nat, group: bytes)
    requires |group| == 4 && at + 4 <= target.Length
    modifies target
    ensures target[..at + 4] == old(target[..at]) + group && target[..at] == old(target[..at])
  {
    target[at], target[at + 1], target[at + 2], target[at + 3] := group[0], group[1], group[2], group[3];
  }

  method PutGroup(target: array<byte>, at: nat, g: bytes)
    requires |g| == 3 && at + 4 <= target.Length
    modifies target
    ensures target[..at + 4] == old(target[..at]) + EncodeGroup(g)
  {
    var (a: int, b: int, c: int) := (g[0], g[1], g[2]);
    Put(target, at, [Letter(a / 4), Letter(a % 4 * 16 + b / 16), Letter(b % 16 * 4 + c / 64), Letter(c % 64)]);
  }

  /** The padded group: missing bytes count as zero. */
  method PutLast(target: array<byte>, at: nat, g: bytes)
    requires 1 <= |g| <= 2 && at + 4 <= target.Length
    modifies target
    ensures target[..at + 4] == old(target[..at]) + EncodeGroup(g)
  {
    var (a: int, b: int) := (g[0], if |g| > 1 then g[1] else 0);
    Put(target, at, [Letter(a / 4), Letter(a % 4 * 16 + b / 16), if |g| == 1 then PAD else Letter(b % 16 * 4), PAD]);
  }

  method Ntop(src: bytes, target: array<byte>) returns (n: int)
    modifies target
    ensures n == (if |Encode(src)| < target.Length then |Encode(src)| else -1)
    ensures n >= 0 ==> target[..n] == Encode(src) && target[n] == 0
    ensures n >= 0 ==> n == (|src| + 2) / 3 * 4 && forall i :: 0 <= i < n ==> target[i] == TextAt(src, i)
  {
    hide Encode, EncodeGroup, TextAt;
    var i, length := 0, 0;
    while |src| - i > 2
      invariant i <= |src| && length <= target.Length
      invariant length + |Encode(src[i..])| == |Encode(src)|
      invariant target[..length] + Encode(src[i..]) == Encode(src)
    {
      EncodeFrom(src, i);
      if length + 4 > target.Length {
        return -1;
      }
      Regrouped(target[..length], EncodeGroup(src[i..i + 3]), Encode(src[i + 3..]));
      PutGroup(target, length, src[i..i + 3]);
      i, length := i + 3, length + 4;
    }
    EncodeStep(src[i..]);
    if i < |src| {
      if length + 4 > target.Length {
        return -1;
      }
      PutLast(target, length, src[i..]);
      length := length + 4;
    }
    if length >= target.Length {
      return -1;
    }
    assert target[..length] == Encode(src);
    EncodedLetters(src);
    forall i | 0 <= i < length ensures target[i] == TextAt(src, i) {
      EncodedText(src, i);
      assert target[i] == target[..length][i];
    }
    target[length] := 0;
    return length;
  }

  lemma EncodeFrom(s: bytes, i: nat)
    requires i + 3 <= |s|
    ensures Encode(s[i..]) == EncodeGroup(s[i..i + 3]) + Encode(s[i + 3..])
  {
    hide Encode, EncodeGroup;
    EncodeStep(s[i..]);
    assert s[i..][3..] == s[i + 3..] && s[i..][..3] == s[i..i + 3];
  }

  lemma Regrouped(a: bytes, b: bytes, c: bytes)
    ensures a + (b + c) == a + b + c
  {
  }

  lemma EncodeStep(s: bytes)
    ensures Encode(s) == if |s| == 0 then [] else if |s| < 3 then EncodeGroup(s) else EncodeGroup(s[..3]) + Encode(s[3..])
  {
  }

  /** mcommon_b64_ntop_calculate_target_size: exactly the room Ntop needs, its NUL included. */
  function NtopTargetSize(size: nat): nat {
    var chars := (size * 8 + 5) / 6;
    4 * ((chars + 3) / 4) + 1
  }

  lemma NtopTargetSizeExact(data: bytes)
    ensures NtopTargetSize(|data|) == |Encode(data)| + 1
  {
    hide Encode;
    EncodedLetters(data);
  }

  /** mcommon_b64_pton_calculate_target_size: room for whatever a text of this length decodes to. */
  function PtonTargetSize(size: nat): nat {
    size * 6 / 8
  }

  lemma PtonTargetSizeEnough(text: bytes)
    ensures DecodedSize(|Digits(Strip(text))|) <= PtonTargetSize(|text|)
  {
    hide Digits, Strip;
  }

  // ---------------------------------------------------------------------------------------------------------
  // The decoder
  // ---------------------------------------------------------------------------------------------------------

  /** The high bits of the byte the last digits have begun. */
  function Partial(d: seq<sextet>): byte {
    if |d| % 4 == 0 then 0
    else
      var x: int := d[|d| - 1];
      if |d| % 4 == 1 then x * 4 else if |d| % 4 == 2 then x % 16 * 16 else x % 4 * 64
  }

  /** The part of the next digit that completes the byte begun. */
  function Completion(n: nat, x: sextet): nat {
    if n % 4 == 1 then x / 16 else if n % 4 == 2 then x / 4 else x
  }

  lemma BytesSnoc(d: seq<sextet>, x: sextet)
    ensures |d| % 4 == 0 ==> Bytes(d + [x]) == Bytes(d)
    ensures |d| % 4 != 0 ==> Partial(d) + Completion(|d|, x) < 256
    ensures |d| % 4 != 0 ==> Bytes(d + [x]) == Bytes(d) + [Partial(d) + Completion(|d|, x)]
  {
    hide Bytes;
    var q := |d| / 4 * 4;
    var (whole, r) := (d[..q], d[q..]);
    assert d == whole + r && d + [x] == whole + (r + [x]);
    BytesWhole(whole, r);
    BytesWhole(whole, r + [x]);
    assert r != [] ==> r[|r| - 1] == d[|d| - 1];
    BytesSnocInGroup(r, x);
    if |d| % 4 != 0 {
      assert Partial(r) == Partial(d);
      Base64.Assoc(Bytes(whole), Bytes(r), [Partial(d) + Completion(|d|, x)]);
    }
  }

  lemma BytesSnocInGroup(r: seq<sextet>, x: sextet)
    requires |r| < 4
    ensures |r| == 0 ==> Bytes(r + [x]) == Bytes(r)
    ensures |r| != 0 ==> Partial(r) + Completion(|r|, x) < 256
    ensures |r| != 0 ==> Bytes(r + [x]) == Bytes(r) + [Partial(r) + Completion(|r|, x)]
  {
    hide Bytes;
    if |r| == 0 {
      SmallBytes(x, 0, 0, 0);
      assert r + [x] == [x];
      NoDigits();
    } else if |r| == 1 {
      SmallBytes(r[0], x, 0, 0);
      assert r == [r[0]] && r + [x] == [r[0], x];
    } else if |r| == 2 {
      SmallBytes(r[0], r[1], x, 0);
      assert r == [r[0], r[1]] && r + [x] == [r[0], r[1], x];
    } else {
      SmallBytes(r[0], r[1], r[2], x);
      assert r == [r[0], r[1], r[2]] && r + [x] == [r[0], r[1], r[2], x];
    }
  }

  lemma SmallBytes(a: sextet, b: sextet, c: sextet, d: sextet)
    ensures Bytes([a]) == []
    ensures Bytes([a, b]) == [a as int * 4 + b as int / 16]
    ensures Bytes([a, b, c]) == [a as int * 4 + b as int / 16, b as int % 16 * 16 + c as int / 4]
    ensures Bytes([a, b, c, d])
         == [a as int * 4 + b as int / 16, b as int % 16 * 16 + c as int / 4, c as int % 4 * 64 + d as int]
  {
    PartialGroup(a, b, c);
    assert [a, b, c, d] + [] == [a, b, c, d];
    BytesGroup([a, b, c, d], []);
    NoDigits();
  }

  lemma {:induction false} BytesWhole(whole: seq<sextet>, r: seq<sextet>)
    requires |whole| % 4 == 0
    ensures Bytes(whole + r) == Bytes(whole) + Bytes(r)
  {
    hide Bytes;
    if whole == [] {
      NoDigits();
      assert whole + r == r;
    } else {
      var (g, rest) := (whole[..4], whole[4..]);
      assert whole == g + rest && whole + r == g + (rest + r);
      BytesGroup(g, rest + r);
      BytesGroup(g, rest);
      BytesWhole(rest, r);
      Base64.Assoc(Triple(g), Bytes(rest), Bytes(r));
    }
  }

  /** What the decoder knows between two characters: the digits d behind it, the text without spaces before it. */
  ghost predicate Reading(src: bytes, i: nat, d: seq<sextet>) {
    var t := Strip(src);
    i <= |src| && |d| <= |t| && t[|d|..] == Strip(src[i..]) && Digits(t) == d + Digits(t[|d|..])
  }

  lemma ReadingStart(src: bytes)
    ensures Reading(src, 0, [])
  {
    assert src[0..] == src && Strip(src)[0..] == Strip(src);
  }

  lemma StripHead(src: bytes, j: nat)
    requires j <= |src|
    ensures j == |src| ==> Strip(src[j..]) == []
    ensures j < |src| ==> Strip(src[j..]) == (if IsSpace(src[j]) then [] else [src[j]]) + Strip(src[j + 1..])
  {
    if j < |src| { assert src[j..][0] == src[j] && src[j..][1..] == src[j + 1..]; }
  }

  lemma DigitsHead(c: byte, rest: bytes)
    ensures Digits([c] + rest) == if Digit(c) == None then [] else [Digit(c).value] + Digits(rest)
  {
    assert ([c] + rest)[1..] == rest;
  }

  lemma ReadingNext(src: bytes, i: nat, d: seq<sextet>)
    requires Reading(src, i, d) && i < |src|
    ensures IsSpace(src[i]) ==> Reading(src, i + 1, d)
    ensures Digit(src[i]).Some? ==> Reading(src, i + 1, d + [Digit(src[i]).value])
    ensures !IsSpace(src[i]) && Digit(src[i]) == None ==>
            Digits(Strip(src)) == d && Strip(src)[|d|..] == [src[i]] + Strip(src[i + 1..])
  {
    hide Digit, IsSpace, Strip, Digits, Reading;
    DigitNotSpace(src[i]);
    if IsSpace(src[i]) {
      ReadingSpace(src, i, d);
    } else if Digit(src[i]).Some? {
      ReadingDigit(src, i, d);
    } else {
      ReadingOther(src, i, d);
    }
  }

  lemma ReadingSpace(src: bytes, i: nat, d: seq<sextet>)
    requires Reading(src, i, d) && i < |src| && IsSpace(src[i])
    ensures Reading(src, i + 1, d)
  {
    hide Digit, IsSpace, Strip, Digits;
    StripHead(src, i);
    assert [] + Strip(src[i + 1..]) == Strip(src[i + 1..]);
  }

  lemma ReadingDigit(src: bytes, i: nat, d: seq<sextet>)
    requires Reading(src, i, d) && i < |src| && !IsSpace(src[i]) && Digit(src[i]).Some?
    ensures Reading(src, i + 1, d + [Digit(src[i]).value])
  {
    hide Digit, IsSpace, Strip, Digits;
    var rest := Strip(src[i + 1..]);
    StripHead(src, i);
    DigitsHead(src[i], rest);
    BehindHead(Strip(src), |d|, src[i], rest);
    SnocAssoc(d, Digit(src[i]).value, Digits(rest));
  }

  lemma ReadingOther(src: bytes, i: nat, d: seq<sextet>)
    requires Reading(src, i, d) && i < |src| && !IsSpace(src[i]) && Digit(src[i]) == None
    ensures Digits(Strip(src)) == d && Strip(src)[|d|..] == [src[i]] + Strip(src[i + 1..])
  {
    hide Digit, IsSpace, Strip, Digits;
    StripHead(src, i);
    DigitsHead(src[i], Strip(src[i + 1..]));
    assert d + [] == d;
  }

  lemma BehindHead(t: bytes, n: nat, c: byte, rest: bytes)
    requires n <= |t| && t[n..] == [c] + rest
    ensures n < |t| && t[n + 1..] == rest
  {
    assert t[n + 1..] == t[n..][1..];
  }

  lemma SnocAssoc(d: seq<sextet>, x: sextet, e: seq<sextet>)
    ensures d + ([x] + e) == d + [x] + e
  {
  }

  lemma DigitNotSpace(c: byte)
    ensures Digit(c).Some? ==> !IsSpace(c)
  {
  }

  lemma ReadingEnd(src: bytes, d: seq<sextet>)
    requires Reading(src, |src|, d)
    ensures Digits(Strip(src)) == d && Strip(src)[|d|..] == []
  {
    assert src[|src|..] == [] && Strip([]) == [] && Digits([]) == [];
    assert d + [] == d;
  }

  /** Skips the spaces from i on. */
  method SkipSpace(src: bytes, i: nat, rmap: array<byte>) returns (j: nat)
    requires i <= |src| && 0 !in src && rmap.Length == 256 && forall c: byte :: rmap[c] == ReverseMap(c)
    ensures i <= j <= |src| && Strip(src[j..]) == Strip(src[i..])
    ensures j < |src| ==> !IsSpace(src[j])
  {
    j := i;
    while j < |src| && rmap[src[j]] == RMAP_SPACE
      invariant i <= j <= |src| && Strip(src[j..]) == Strip(src[i..])
    {
      assert src[j..][0] == src[j] && src[j..][1..] == src[j + 1..];
      assert [] + Strip(src[j + 1..]) == Strip(src[j + 1..]);
      j := j + 1;
    }
  }

  /** What may follow the first pad, which stands before i: after two digits a second one, then only space. */
  method PadsEnd(src: bytes, i: nat, state: nat, rmap: array<byte>) returns (ok: bool)
    requires i <= |src| && 0 !in src && rmap.Length == 256 && forall c: byte :: rmap[c] == ReverseMap(c)
    requires state < 4
    ensures ok <==> (state == 2 && Strip(src[i..]) == [PAD]) || (state == 3 && Strip(src[i..]) == [])
  {
    if state < 2 {
      return false;
    }
    var j := i;
    if state == 2 {
      j := SkipSpace(src, j, rmap);
      StripHead(src, j);
      if j == |src| || src[j] != PAD {
        assert j < |src| ==> Strip(src[j..])[0] == src[j];
        return false;
      }
      j := j + 1;
    }
    ghost var k := j;
    j := SkipSpace(src, j, rmap);
    StripHead(src, j);
    ok := j == |src|;
    assert ok <==> Strip(src[k..]) == [];
  }

  /** The four states: how a digit goes into the byte begun and begins the next one. */
  method PutDigit(target: array<byte>, at: nat, ghost d: seq<sextet>, ofs: sextet, state: nat) returns (next: nat)
    requires state == |d| % 4 && at == DecodedSize(|d|) < target.Length && target[..at] == Bytes(d)
    requires state != 0 ==> target[at] == Partial(d)
    requires state == 1 || state == 2 ==> at + 1 < target.Length
    modifies target
    ensures next == DecodedSize(|d| + 1) <= target.Length && target[..next] == Bytes(d + [ofs])
    ensures state != 3 ==> next < target.Length && target[next] == Partial(d + [ofs])
  {
    hide Bytes;
    BytesSnoc(d, ofs);
    var x: int := ofs;
    if state == 0 {
      target[at] := x * 4;
      return at;
    } else if state == 1 {
      target[at] := target[at] + x / 16;
      target[at + 1] := x % 16 * 16;
    } else if state == 2 {
      target[at] := target[at] + x / 4;
      target[at + 1] := x % 4 * 64;
    } else {
      target[at] := target[at] + x;
    }
    assert target[..at + 1] == old(target[..at]) + [target[at]];
    return at + 1;
  }

  /** The room the decoder needs for n digits: one byte more than it decodes if the last group is incomplete. */
  function RoomFor(n: nat): nat {
    DecodedSize(n) + if n % 4 == 0 then 0 else 1
  }

  /** Where the decoder gives up for lack of room in front of digit n, there is too little for all m. */
  lemma Cramped(n: nat, m: nat, length: nat)
    requires n < m && DecodedSize(n) + (if n % 4 == 1 || n % 4 == 2 then 1 else 0) >= length
    requires n % 4 == 3 ==> DecodedSize(n) < length
    ensures length < RoomFor(m)
  {
    assert n / 4 <= m / 4;
  }

  lemma Roomy(n: nat, length: nat)
    requires if n % 4 == 0 then DecodedSize(n) <= length else DecodedSize(n) < length
    ensures length >= RoomFor(n)
  {
  }

  /** mongoc_b64_pton_do, on a C string. */
  method PtonDo(src: bytes, target: array<byte>, rmap: array<byte>) returns (n: int)
    requires 0 !in src && rmap != target && rmap.Length == 256 && forall c: byte :: rmap[c] == ReverseMap(c)
    modifies target
    ensures -1 <= n <= target.Length
    ensures n >= 0 ==> Decode(Strip(src)) == Some(target[..n])
    ensures n >= 0 <==> Decode(Strip(src)).Some? && target.Length >= RoomFor(|Digits(Strip(src))|)
  {
    hide Digits, Strip, Bytes, WellPadded, Reading, Digit, IsSpace, RoomFor;
    var i, state, at := 0, 0, 0;
    ghost var d: seq<sextet> := [];
    ReadingStart(src);
    NoDigits();
    while i < |src| && rmap[src[i]] != RMAP_END
      invariant i <= |src| && Reading(src, i, d) && state == |d| % 4 && at == DecodedSize(|d|) <= target.Length
      invariant target[..at] == Bytes(d)
      invariant state != 0 ==> at < target.Length && target[at] == Partial(d)
    {
      var ofs: int := rmap[src[i]];
      ReadingNext(src, i, d);
      RmapCases(src[i]);
      if ofs >= RMAP_SPECIAL {
        if ofs != RMAP_SPACE {
          BadCharacter(Strip(src), d);
          return -1;
        }
      } else {
        DigitsLater(src, i + 1, d + [ofs]);
        if at >= target.Length || ((state == 1 || state == 2) && at + 1 >= target.Length) {
          Cramped(|d|, |Digits(Strip(src))|, target.Length);
          return -1;
        }
        at := PutDigit(target, at, d, ofs, state);
        state := (state + 1) % 4;
        d := d + [ofs];
      }
      i := i + 1;
    }
    if i < |src| {
      ReadingNext(src, i, d);
      RmapCases(src[i]);
      var ok := PadsEnd(src, i + 1, state, rmap);
      PadsThenWellPadded(Strip(src), d, Strip(src[i + 1..]));
      if !ok || target[at] != 0 {
        return -1;
      }
    } else {
      ReadingEnd(src, d);
      EndThenWellPadded(Strip(src), d);
      if state != 0 {
        return -1;
      }
    }
    Roomy(|d|, target.Length);
    return at;
  }

  lemma RmapCases(c: byte)
    ensures ReverseMap(c) == RMAP_SPACE <==> IsSpace(c)
    ensures ReverseMap(c) < RMAP_SPECIAL <==> Digit(c).Some?
    ensures Digit(c).Some? ==> ReverseMap(c) == Digit(c).value
    ensures c != 0 ==> (ReverseMap(c) == RMAP_END <==> c == PAD)
    ensures c == PAD ==> Digit(c) == None && !IsSpace(c)
  {
  }

  lemma BadCharacter(t: bytes, d: seq<sextet>)
    requires Digits(t) == d && |d| < |t| && t[|d|] != PAD
    ensures !WellPadded(t)
  {
    hide Digits;
    assert t[|d|..][0] == t[|d|];
  }

  lemma DigitsLater(src: bytes, i: nat, d: seq<sextet>)
    requires Reading(src, i, d)
    ensures |d| <= |Digits(Strip(src))|
  {
    hide Digits, Strip;
  }

  lemma PadsThenWellPadded(t: bytes, d: seq<sextet>, rest: bytes)
    requires Digits(t) == d && |d| <= |t| && t[|d|..] == [PAD] + rest
    ensures WellPadded(t) <==> (|d| % 4 == 2 && rest == [PAD]) || (|d| % 4 == 3 && rest == [])
    ensures |d| % 4 >= 2 ==> (Partial(d) == 0 <==> Leftover(d) == 0)
  {
    hide Digits;
    assert ([PAD] + rest)[1..] == rest;
  }

  lemma EndThenWellPadded(t: bytes, d: seq<sextet>)
    requires Digits(t) == d && |d| <= |t| && t[|d|..] == []
    ensures WellPadded(t) <==> |d| % 4 == 0
    ensures |d| % 4 == 0 ==> Leftover(d) == 0
  {
    hide Digits;
  }

  /** mongoc_b64_pton_len: the same reading without a target, blind to the bits of an incomplete byte. */
  method PtonLength(src: bytes, rmap: array<byte>) returns (n: int)
    requires 0 !in src && rmap.Length == 256 && forall c: byte :: rmap[c] == ReverseMap(c)
    ensures n == (if WellPadded(Strip(src)) then DecodedSize(|Digits(Strip(src))|) else -1)
  {
    hide Digits, Strip, Bytes, WellPadded, Reading, Digit, IsSpace;
    var i, state, at := 0, 0, 0;
    ghost var d: seq<sextet> := [];
    ReadingStart(src);
    while i < |src| && rmap[src[i]] != RMAP_END
      invariant i <= |src| && Reading(src, i, d) && state == |d| % 4 && at == DecodedSize(|d|)
    {
      var ofs: int := rmap[src[i]];
      ReadingNext(src, i, d);
      RmapCases(src[i]);
      if ofs >= RMAP_SPECIAL {
        if ofs != RMAP_SPACE {
          BadCharacter(Strip(src), d);
          return -1;
        }
      } else {
        if state != 0 { at := at + 1; }
        state := (state + 1) % 4;
        d := d + [ofs];
      }
      i := i + 1;
    }
    if i < |src| {
      ReadingNext(src, i, d);
      RmapCases(src[i]);
      var ok := PadsEnd(src, i + 1, state, rmap);
      PadsThenWellPadded(Strip(src), d, Strip(src[i + 1..]));
      if !ok {
        return -1;
      }
    } else {
      ReadingEnd(src, d);
      EndThenWellPadded(Strip(src), d);
      if state != 0 {
        return -1;
      }
    }
    return at;
  }

  /** The caller's protocol: measure, allocate one byte more, decode; it fails on more texts than the measuring does. */
  method Pton(src: bytes) returns (size: int, n: int, target: array<byte>)
    requires 0 !in src
    ensures size >= 0 ==> (n == size <==> Leftover(Digits(Strip(src))) == 0)
    ensures n == -1 || n == size
    ensures (n >= 0 <==> Decode(Strip(src)).Some?) && (n >= 0 ==> n <= target.Length && Some(target[..n]) == Decode(Strip(src)))
  {
    hide Digits, Strip, Bytes, WellPadded;
    var rmap := InitializeReverseMap();
    size := PtonLength(src, rmap);
    target := new byte[if size < 0 then 0 else size + 1];
    n := PtonDo(src, target, rmap);
  }
}
