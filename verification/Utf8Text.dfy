/** What valid UTF-8 is: the sequences of section 3 of RFC 3629, one after another, and the library's two-byte NUL. */
module Utf8Text {
  import opened CInt
  import opened LittleEndian
  import opened Utf8

  datatype Character = Scalar(c: nat) | LongNul

  /** Code points up to 10FFFF but for the surrogates; a NUL of either length only where NULs are allowed. */
  predicate Allowed(x: Character, allowNull: bool) {
    match x
    case Scalar(c) => c <= 0x10FFFF && !(0xD800 <= c <= 0xDFFF) && (c == 0 ==> allowNull)
    case LongNul => allowNull
  }

  /** The bytes of a code point, most significant bits first. */
  function Encoded(c: nat): (r: bytes)
    requires c < 0x110000
    ensures 1 <= |r| <= 4
  {
    if c < 0x80 then [c]
    else if c < 0x800 then [0xC0 + c / 64, 0x80 + c % 64]
    else if c < 0x10000 then [0xE0 + c / 4096, 0x80 + c / 64 % 64, 0x80 + c % 64]
    else [0xF0 + c / 262144, 0x80 + c / 4096 % 64, 0x80 + c / 64 % 64, 0x80 + c % 64]
  }

  function Bytes(x: Character): (r: bytes)
    requires Allowed(x, true)
    ensures 1 <= |r| <= 4
  {
    match x
    case Scalar(c) => Encoded(c)
    case LongNul => [0xC0, 0x80]
  }

  predicate AllAllowed(xs: seq<Character>, allowNull: bool) {
    forall x <- xs :: Allowed(x, true) && Allowed(x, allowNull)
  }

  function Text(xs: seq<Character>): bytes
    requires AllAllowed(xs, true)
  {
    if xs == [] then [] else Bytes(xs[0]) + Text(xs[1..])
  }

  /** Whether the text starts with a valid sequence, as Utf8Valid looks at it. */
  predicate FirstValid(s: bytes, allowNull: bool)
    requires s != []
  {
    var n := SequenceLength(s[0]);
    && 0 < n <= |s|
    && var c := CodePoint(s[1..n], FirstBits(s[0]));
    && c.Some?
    && (allowNull || 0 !in s[..n])
    && c.value <= 0x10_FFFF
    && !(0xD800 <= c.value < 0xE000)
    && ShortestForm(c.value, n, allowNull)
  }

  lemma Next(s: bytes, i: nat, n: nat, c: nat)
    requires i <= n <= |s|
    ensures CodePoint(s[i..n], c) == if i == n then Some(c)
                                     else if 0x80 <= s[i] < 0xC0 then CodePoint(s[i + 1..n], c * 64 + s[i] % 64)
                                     else None
  {
    if i < n { assert s[i..n][1..] == s[i + 1..n]; }
  }

  /** The bits of the bytes behind the first, six each. */
  function Joined(s: bytes, n: nat, a: nat): nat
    requires 1 <= n <= |s|
  {
    if n == 1 then a
    else if n == 2 then a * 64 + s[1] % 64
    else if n == 3 then (a * 64 + s[1] % 64) * 64 + s[2] % 64
    else ((a * 64 + s[1] % 64) * 64 + s[2] % 64) * 64 + s[3] % 64
  }

  lemma Continued(s: bytes, n: nat, a: nat)
    requires 1 <= n <= 4 && n <= |s|
    ensures CodePoint(s[1..n], a).Some? <==> forall i :: 1 <= i < n ==> 0x80 <= s[i] < 0xC0
    ensures CodePoint(s[1..n], a).Some? ==> CodePoint(s[1..n], a).value == Joined(s, n, a)
  {
    hide CodePoint;
    Next(s, 1, n, a);
    if n > 1 {
      var b := a * 64 + s[1] % 64;
      Next(s, 2, n, b);
      if n > 2 {
        Next(s, 3, n, b * 64 + s[2] % 64);
        if n > 3 { Next(s, 4, n, (b * 64 + s[2] % 64) * 64 + s[3] % 64); }
      }
    }
  }

  /** The bytes of a character are a valid sequence. */
  lemma CharacterValid(x: Character, rest: bytes, allowNull: bool)
    requires Allowed(x, true) && Allowed(x, allowNull)
    ensures var s := Bytes(x) + rest; SequenceLength(s[0]) == |Bytes(x)| && FirstValid(s, allowNull)
  {
    hide CodePoint, Joined;
    var (s, n) := (Bytes(x) + rest, |Bytes(x)|);
    Continued(s, n, FirstBits(s[0]));
    assert s[..n] == Bytes(x);
    EncodedJoined(x, s);
  }

  /** A code point cut into groups of six bits: as many as the sequence has bytes. */
  predicate Groups(c: nat, g: seq<nat>) {
    && 1 <= |g| <= 4 && (forall i :: 1 <= i < |g| ==> g[i] < 64)
    && c == (if |g| == 1 then g[0]
             else if |g| == 2 then g[0] * 64 + g[1]
             else if |g| == 3 then (g[0] * 64 + g[1]) * 64 + g[2]
             else ((g[0] * 64 + g[1]) * 64 + g[2]) * 64 + g[3])
  }

  function GroupsOf(c: nat): (g: seq<nat>)
    requires c < 0x110000
    ensures Groups(c, g)
  {
    Reassembled(c);
    if c < 0x80 then [c]
    else if c < 0x800 then [c / 64, c % 64]
    else if c < 0x10000 then [c / 4096, c / 64 % 64, c % 64]
    else [c / 262144, c / 4096 % 64, c / 64 % 64, c % 64]
  }

  lemma Reassembled(c: nat)
    ensures c / 64 * 64 + c % 64 == c && (c / 4096 * 64 + c / 64 % 64) * 64 + c % 64 == c
    ensures ((c / 262144 * 64 + c / 4096 % 64) * 64 + c / 64 % 64) * 64 + c % 64 == c
  {
    assert c / 64 / 64 == c / 4096 && c / 4096 / 64 == c / 262144;
  }

  lemma SixBits(q: nat, r: nat)
    requires r < 64
    ensures (q * 64 + r) / 64 == q && (q * 64 + r) % 64 == r
  {
  }

  lemma Twice(c: nat)
    ensures c / 4096 == c / 64 / 64 && c / 262144 == c / 64 / 64 / 64
  {
  }

  /** The groups are unique for their number. */
  lemma SameGroups(c: nat, g: seq<nat>)
    requires c < 0x110000 && Groups(c, g) && |g| == |GroupsOf(c)|
    ensures g == GroupsOf(c)
  {
    Twice(c);
    if |g| >= 2 { SixBits(g[0], g[1]); }
    if |g| >= 3 { SixBits(g[0] * 64 + g[1], g[2]); }
    if |g| >= 4 { SixBits((g[0] * 64 + g[1]) * 64 + g[2], g[3]); }
  }

  /** The first byte of a sequence for each length. */
  lemma FirstByte(c: byte)
    ensures var n := SequenceLength(c);
            && (n == 1 ==> FirstBits(c) == c) && (n == 2 ==> FirstBits(c) == c - 0xC0 < 32)
            && (n == 3 ==> FirstBits(c) == c - 0xE0 < 16) && (n == 4 ==> FirstBits(c) == c - 0xF0 < 8)
  {
  }

  lemma EncodedGroups(c: nat)
    requires c < 0x110000
    ensures var (g, b) := (GroupsOf(c), Encoded(c));
            && |b| == |g| && b[0] == g[0] + (if |g| == 1 then 0 else if |g| == 2 then 0xC0 else if |g| == 3 then 0xE0 else 0xF0)
            && forall i :: 1 <= i < |g| ==> b[i] == 0x80 + g[i]
  {
  }

  /** A sequence whose first byte announces its length, joined: the groups of its bytes. */
  lemma JoinedGroups(s: bytes, n: nat)
    requires 1 <= n <= 4 && n <= |s| && n == SequenceLength(s[0]) && forall i :: 1 <= i < n ==> 0x80 <= s[i] < 0xC0
    ensures Groups(Joined(s, n, FirstBits(s[0])), seq(n, i requires 0 <= i < n => if i == 0 then FirstBits(s[0]) else s[i] - 0x80))
  {
    hide SequenceLength, FirstBits;
    forall i | 1 <= i < n ensures s[i] % 64 == s[i] - 0x80 { SixBits(2, s[i] - 0x80); }
  }

  lemma EncodedJoined(x: Character, s: bytes)
    requires Allowed(x, true) && Bytes(x) <= s
    ensures var n := |Bytes(x)|; SequenceLength(s[0]) == n && Joined(s, n, FirstBits(s[0])) == if x.LongNul? then 0 else x.c
    ensures forall i :: 1 <= i < |Bytes(x)| ==> 0x80 <= s[i] < 0xC0
    ensures x.Scalar? && x.c > 0 ==> 0 !in Bytes(x)
    ensures x.Scalar? ==> ShortestForm(x.c, |Bytes(x)|, true)
  {
    hide Encoded, FirstBits, Joined, Groups;
    var (b, n) := (Bytes(x), |Bytes(x)|);
    assert forall i :: 0 <= i < |b| ==> s[i] == b[i];
    if x.Scalar? {
      var g := GroupsOf(x.c);
      EncodedGroups(x.c);
      FirstByte(s[0]);
      JoinedGroups(s, n);
      var h := seq(n, i requires 0 <= i < n => if i == 0 then FirstBits(s[0]) else s[i] - 0x80);
      assert h == g;
      SameNumber(x.c, Joined(s, n, FirstBits(s[0])), g);
    } else {
      LongNulJoined(s);
    }
  }

  lemma LongNulJoined(s: bytes)
    requires [0xC0, 0x80] <= s
    ensures Joined(s, 2, FirstBits(s[0])) == 0
  {
    assert s[0] == [0xC0, 0x80][0] && s[1] == [0xC0, 0x80][1];
  }

  lemma SameNumber(c: nat, d: nat, g: seq<nat>)
    requires Groups(c, g) && Groups(d, g)
    ensures c == d
  {
  }

  /** A valid sequence is the bytes of a character. */
  lemma SequenceIsCharacter(s: bytes, allowNull: bool) returns (x: Character)
    requires s != [] && FirstValid(s, allowNull)
    ensures Allowed(x, true) && Allowed(x, allowNull) && s[..SequenceLength(s[0])] == Bytes(x)
  {
    hide CodePoint;
    var n := SequenceLength(s[0]);
    Continued(s, n, FirstBits(s[0]));
    var c := CodePoint(s[1..n], FirstBits(s[0])).value;
    x := if n == 2 && c == 0 then LongNul else Scalar(c);
    Split(s, n, c);
  }

  lemma Split(s: bytes, n: nat, c: nat)
    requires 1 <= n <= 4 && n <= |s| && (forall i :: 1 <= i < n ==> 0x80 <= s[i] < 0xC0) && n == SequenceLength(s[0])
    requires c == Joined(s, n, FirstBits(s[0])) && c <= 0x10FFFF && ShortestForm(c, n, true)
    ensures s[..n] == if n == 2 && c == 0 then [0xC0, 0x80] else Encoded(c)
  {
    hide Encoded, FirstBits, Joined, Groups;
    JoinedGroups(s, n);
    FirstByte(s[0]);
    var h := seq(n, i requires 0 <= i < n => if i == 0 then FirstBits(s[0]) else s[i] - 0x80);
    if n == 2 && c == 0 {
      NoBits(h);
      assert s[..2] == [s[0], s[1]];
    } else {
      SameGroups(c, h);
      EncodedGroups(c);
      assert s[..n] == Encoded(c);
    }
  }

  lemma NoBits(g: seq<nat>)
    requires Groups(0, g) && |g| == 2
    ensures g[0] == 0 && g[1] == 0
  {
  }

  lemma {:induction false} TextValid(xs: seq<Character>, allowNull: bool)
    requires AllAllowed(xs, allowNull)
    ensures AllAllowed(xs, true) && Utf8Valid(Text(xs), allowNull)
    decreases |xs|
  {
    hide CodePoint, Bytes, SequenceLength, FirstBits, ShortestForm;
    if xs != [] {
      TextValid(xs[1..], allowNull);
      CharacterValid(xs[0], Text(xs[1..]), allowNull);
      var s := Text(xs);
      assert s[|Bytes(xs[0])|..] == Text(xs[1..]);
    }
  }

  lemma {:induction false} ValidText(s: bytes, allowNull: bool) returns (xs: seq<Character>)
    requires Utf8Valid(s, allowNull)
    ensures AllAllowed(xs, allowNull) && AllAllowed(xs, true) && s == Text(xs)
    decreases |s|
  {
    hide CodePoint, Bytes, SequenceLength, FirstBits, ShortestForm, Allowed;
    xs := [];
    if s != [] {
      var n := SequenceLength(s[0]);
      var x := SequenceIsCharacter(s, allowNull);
      var rest := ValidText(s[n..], allowNull);
      xs := [x] + rest;
      assert xs[1..] == rest && s == s[..n] + s[n..];
    }
  }

  /** A text is valid exactly when it is the sequences of some characters that are allowed. */
  lemma ValidIff(s: bytes, allowNull: bool)
    ensures Utf8Valid(s, allowNull) <==> exists xs :: AllAllowed(xs, allowNull) && AllAllowed(xs, true) && s == Text(xs)
  {
    hide Utf8Valid, Text, Allowed;
    if Utf8Valid(s, allowNull) { var xs := ValidText(s, allowNull); }
    if exists xs :: AllAllowed(xs, allowNull) && AllAllowed(xs, true) && s == Text(xs) {
      var xs :| AllAllowed(xs, allowNull) && AllAllowed(xs, true) && s == Text(xs);
      TextValid(xs, allowNull);
    }
  }

  // ---------------------------------------------------------------------------------------------------------
  // The validator
  // ---------------------------------------------------------------------------------------------------------

  lemma LeadingBits(b: bv8)
    ensures b & 0x80 == 0 <==> b < 0x80
    ensures b & 0xE0 == 0xC0 <==> 0xC0 <= b < 0xE0
    ensures b & 0xF0 == 0xE0 <==> 0xE0 <= b < 0xF0
    ensures b & 0xF8 == 0xF0 <==> 0xF0 <= b < 0xF8
    ensures b & 0xC0 == 0x80 <==> 0x80 <= b < 0xC0
  {
  }

  /** mcommon_utf8_get_sequence: the length, and one more than the mask of the bits of the first byte that count. */
  method GetSequence(c: byte) returns (length: nat, power: nat)
    ensures length == SequenceLength(c) && (length > 0 ==> power > 0 && c % power == FirstBits(c))
  {
    var b := c as bv8;
    LeadingBits(b);
    if b & 0x80 == 0 {
      length, power := 1, 0x80;
    } else if b & 0xE0 == 0xC0 {
      length, power := 2, 0x20;
    } else if b & 0xF0 == 0xE0 {
      length, power := 3, 0x10;
    } else if b & 0xF8 == 0xF0 {
      length, power := 4, 0x08;
    } else {
      length, power := 0, 1;
    }
  }

  /** The bytes behind the first: their bits joined to its own, or none if one is no continuation. */
  method ReadContinuations(utf8: bytes, i: nat, end: nat, first: byte) returns (c: Option<nat>)
    requires i < end <= |utf8|
    ensures c == CodePoint(utf8[i + 1..end], first)
  {
    hide CodePoint;
    var joined: nat := first;
    for j := i + 1 to end
      invariant CodePoint(utf8[i + 1..end], first) == CodePoint(utf8[j..end], joined)
    {
      Next(utf8, j, end, joined);
      joined := joined * 64 + utf8[j] % 64;
      LeadingBits(utf8[j] as bv8);
      if utf8[j] as bv8 & 0xC0 != 0x80 {
        return None;
      }
    }
    Next(utf8, end, end, joined);
    return Some(joined);
  }

  /** bson_utf8_validate. */
  method Validate(utf8: bytes, allowNull: bool) returns (valid: bool)
    ensures valid == Utf8Valid(utf8, allowNull)
    ensures valid <==> exists xs :: AllAllowed(xs, allowNull) && AllAllowed(xs, true) && utf8 == Text(xs)
  {
    hide CodePoint, SequenceLength, FirstBits, Utf8Valid, FirstValid, AllAllowed;
    ValidIff(utf8, allowNull);
    var i := 0;
    assert utf8[0..] == utf8;
    while i < |utf8|
      invariant i <= |utf8| && Utf8Valid(utf8, allowNull) == Utf8Valid(utf8[i..], allowNull)
    {
      OneSequence(utf8, i, allowNull);
      var n, power := GetSequence(utf8[i]);
      if n == 0 || |utf8| - i < n {
        return false;
      }
      var c := ReadContinuations(utf8, i, i + n, utf8[i] % power);
      if c == None {
        return false;
      }
      if !allowNull {
        var nul := FindNul(utf8, i, i + n);
        if nul {
          return false;
        }
      }
      if c.value > 0x10_FFFF || 0xD800 <= c.value < 0xE000 || !ShortestForm(c.value, n, allowNull) {
        return false;
      }
      i := i + n;
    }
    NothingValid(utf8, i, allowNull);
    return true;
  }

  method FindNul(utf8: bytes, i: nat, end: nat) returns (found: bool)
    requires i <= end <= |utf8|
    ensures found <==> 0 in utf8[i..end]
  {
    for j := i to end
      invariant 0 !in utf8[i..j]
    {
      if utf8[j] == 0 {
        assert utf8[i..end][j - i] == 0;
        return true;
      }
    }
    return false;
  }

  /** What is left is valid when the sequence at its start is, and what is behind that. */
  lemma OneSequence(s: bytes, i: nat, allowNull: bool)
    requires i < |s|
    ensures var n := SequenceLength(s[i]);
            Utf8Valid(s[i..], allowNull) <==>
            && 0 < n <= |s| - i
            && var c := CodePoint(s[i + 1..i + n], FirstBits(s[i]));
            && c.Some? && (allowNull || 0 !in s[i..i + n]) && c.value <= 0x10_FFFF && !(0xD800 <= c.value < 0xE000)
            && ShortestForm(c.value, n, allowNull) && Utf8Valid(s[i + n..], allowNull)
  {
    hide CodePoint, SequenceLength, FirstBits;
    var (t, n) := (s[i..], SequenceLength(s[i]));
    if 0 < n <= |t| {
      assert t[1..n] == s[i + 1..i + n] && t[..n] == s[i..i + n] && t[n..] == s[i + n..];
    }
  }

  lemma NothingValid(s: bytes, i: nat, allowNull: bool)
    requires i == |s|
    ensures Utf8Valid(s[i..], allowNull)
  {
  }
}
