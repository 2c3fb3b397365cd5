/** Escaping of strings in JSON, section 7 of RFC 8259. */
module JsonEscape {
  import opened CInt
  import opened LittleEndian
  import opened JsonText
  import opened Utf8Text

  const QUOTE: byte := 0x22
  const BACKSLASH: byte := 0x5C
  const LONG_NUL: byte := 0xC0

  // ---------------------------------------------------------------------------------------------------------
  // Byte by byte
  // ---------------------------------------------------------------------------------------------------------

  /** A backslash, u, and the four hexadecimal digits of a number. */
  function HexChar(c: nat): (r: bytes)
    requires c < 0x10000
    ensures |r| == 6
  {
    [BACKSLASH, 117, HexDigit(c / 4096), HexDigit(c / 256 % 16), HexDigit(c / 16 % 16), HexDigit(c % 16)]
  }

  /** The letter of a two-character escape, or zero. */
  function ShortEscape(c: byte): byte {
    if c == QUOTE || c == BACKSLASH then c
    else if c == 8 then 98 // b
    else if c == 12 then 102 // f
    else if c == 10 then 110 // n
    else if c == 13 then 114 // r
    else if c == 9 then 116 // t
    else 0
  }

  function EscapeByte(c: byte): (r: bytes)
    ensures r != []
  {
    if ShortEscape(c) != 0 then [BACKSLASH, ShortEscape(c)] else if c < 0x20 then HexChar(c) else [c]
  }

  /** C0 80 stands for NUL. */
  predicate IsLongNul(s: bytes) {
    |s| >= 2 && s[0] == LONG_NUL && s[1] == 0x80
  }

  /** What each byte is escaped to. */
  lemma EscapeTable(c: byte)
    ensures EscapeByte(c) == if c == '"' as int then ['\\' as int, '"' as int]
                             else if c == '\\' as int then ['\\' as int, '\\' as int]
                             else if c == 8 then ['\\' as int, 'b' as int]
                             else if c == 9 then ['\\' as int, 't' as int]
                             else if c == 10 then ['\\' as int, 'n' as int]
                             else if c == 12 then ['\\' as int, 'f' as int]
                             else if c == 13 then ['\\' as int, 'r' as int]
                             else if c < 32 then
                               ['\\' as int, 'u' as int, '0' as int, '0' as int, HexLetter(c / 16), HexLetter(c % 16)]
                             else [c]
  {
    hide HexDigit, HexLetter;
    if c < 32 {
      HexLetters(0);
      HexLetters(c / 16);
      HexLetters(c % 16);
    }
  }

  /** The escaped string; None for a NUL of either length that is not allowed. */
  function Escape(s: bytes, allowNul: bool): Option<bytes> {
    if s == [] then Some([])
    else if IsLongNul(s) then (if allowNul then Put(HexChar(0), Escape(s[2..], allowNul)) else None)
    else if s[0] == 0 && !allowNul then None
    else Put(EscapeByte(s[0]), Escape(s[1..], allowNul))
  }

  function Put(front: bytes, rest: Option<bytes>): Option<bytes> {
    if rest == None then None else Some(front + rest.value)
  }

  // ---------------------------------------------------------------------------------------------------------
  // Decoding, by the grammar of the standard
  // ---------------------------------------------------------------------------------------------------------

  /** The number of the four digits behind a backslash and u at the start of a text. */
  function FourDigits(t: bytes): (c: Option<nat>)
    ensures c.Some? ==> c.value < 0x10000
  {
    if |t| >= 6 && t[0] == BACKSLASH && t[1] == 117 && IsHex(t[2]) && IsHex(t[3]) && IsHex(t[4]) && IsHex(t[5]) then
      Some(HexValue(t[2]) * 4096 + HexValue(t[3]) * 256 + HexValue(t[4]) * 16 + HexValue(t[5]))
    else None
  }

  /** What a two-character escape stands for. */
  function ShortMeaning(c: byte): Option<byte> {
    if c == QUOTE || c == BACKSLASH || c == 47 then Some(c)
    else if c == 98 then Some(8)
    else if c == 102 then Some(12)
    else if c == 110 then Some(10)
    else if c == 114 then Some(13)
    else if c == 116 then Some(9)
    else None
  }

  /** The inside of a JSON string decoded: no control byte, no quote, and a backslash only at the start of an escape. */
  function Unescape(t: bytes): Option<bytes> {
    if t == [] then Some([])
    else if t[0] < 0x20 || t[0] == QUOTE then None
    else if t[0] != BACKSLASH then Put([t[0]], Unescape(t[1..]))
    else if |t| >= 2 && ShortMeaning(t[1]).Some? then Put([ShortMeaning(t[1]).value], Unescape(t[2..]))
    else
      var c := FourDigits(t);
      if c == None then None
      else if 0xD800 <= c.value < 0xDC00 then
        var low := FourDigits(t[6..]);
        if low == None || !(0xDC00 <= low.value < 0xE000) then None
        else Put(Encoded(0x10000 + (c.value - 0xD800) * 1024 + (low.value - 0xDC00)), Unescape(t[12..]))
      else if 0xDC00 <= c.value < 0xE000 then None
      else Put(Encoded(c.value), Unescape(t[6..]))
  }

  /** The string with C0 80 read as NUL. */
  function ShortNuls(s: bytes): bytes {
    if s == [] then []
    else if IsLongNul(s) then [0] + ShortNuls(s[2..])
    else [s[0]] + ShortNuls(s[1..])
  }

  ghost predicate HasNul(s: bytes) {
    exists i :: 0 <= i < |s| && NulAt(s, i)
  }

  /** A NUL of either length. */
  predicate NulAt(s: bytes, i: nat)
    requires i < |s|
  {
    s[i] == 0 || IsLongNul(s[i..])
  }

  lemma HexCharBack(c: nat, rest: bytes)
    requires c < 0x20
    ensures FourDigits(HexChar(c) + rest) == Some(c)
  {
  }

  lemma Unescaped(front: bytes, rest: bytes, c: byte)
    requires (front == [c] && c >= 0x20 && c != QUOTE && c != BACKSLASH)
             || (ShortEscape(c) != 0 && front == [BACKSLASH, ShortEscape(c)])
             || (c < 0x20 && front == HexChar(c))
    ensures Unescape(front + rest) == Put([c], Unescape(rest))
  {
    hide Unescape, HexChar, ShortEscape;
    if front == [c] && c >= 0x20 && c != QUOTE && c != BACKSLASH {
      PlainUnescaped(rest, c);
    } else if ShortEscape(c) != 0 && front == [BACKSLASH, ShortEscape(c)] {
      ShortUnescaped(rest, c);
    } else {
      HexUnescaped(rest, c);
    }
  }

  lemma PlainUnescaped(rest: bytes, c: byte)
    requires c >= 0x20 && c != QUOTE && c != BACKSLASH
    ensures Unescape([c] + rest) == Put([c], Unescape(rest))
  {
    assert ([c] + rest)[1..] == rest;
  }

  lemma ShortUnescaped(rest: bytes, c: byte)
    requires ShortEscape(c) != 0
    ensures Unescape([BACKSLASH, ShortEscape(c)] + rest) == Put([c], Unescape(rest))
  {
    hide FourDigits;
    assert ([BACKSLASH, ShortEscape(c)] + rest)[2..] == rest;
  }

  lemma HexUnescaped(rest: bytes, c: byte)
    requires c < 0x20
    ensures Unescape(HexChar(c) + rest) == Put([c], Unescape(rest))
  {
    hide FourDigits, HexDigit;
    var t := HexChar(c) + rest;
    assert t[6..] == rest && t[0] == BACKSLASH && t[1] == 117;
    HexCharBack(c, rest);
    assert ShortMeaning(117) == None;
  }

  /** Decoding the escaped string gives the string back, with its long NULs read as NUL. */
  lemma {:induction false} UnescapeEscape(s: bytes, allowNul: bool)
    requires Escape(s, allowNul).Some?
    ensures Unescape(Escape(s, allowNul).value) == Some(ShortNuls(s))
    decreases |s|
  {
    hide Unescape;
    if s == [] {
      NothingUnescaped();
    } else if IsLongNul(s) {
      UnescapeEscape(s[2..], allowNul);
      Unescaped(HexChar(0), Escape(s[2..], allowNul).value, 0);
    } else {
      UnescapeEscape(s[1..], allowNul);
      Unescaped(EscapeByte(s[0]), Escape(s[1..], allowNul).value, s[0]);
    }
  }

  lemma NothingUnescaped()
    ensures Unescape([]) == Some([])
  {
  }

  /** Escaping fails exactly when there is a NUL and none is allowed. */
  lemma {:induction false} EscapeIff(s: bytes, allowNul: bool)
    ensures Escape(s, allowNul).Some? <==> allowNul || !HasNul(s)
    decreases |s|
  {
    if s != [] {
      var n := if IsLongNul(s) then 2 else 1;
      EscapeIff(s[n..], allowNul);
      NulBehind(s, n);
    }
  }

  lemma NulBehind(s: bytes, n: nat)
    requires 1 <= n <= |s| && n == if IsLongNul(s) then 2 else 1
    ensures HasNul(s) <==> s[0] == 0 || IsLongNul(s) || HasNul(s[n..])
  {
    hide NulAt;
    NulFirst(s);
    if HasNul(s[n..]) {
      var i :| 0 <= i < |s[n..]| && NulAt(s[n..], i);
      NulShift(s, n, i);
    }
    if HasNul(s) {
      var i :| 0 <= i < |s| && NulAt(s, i);
      if i >= n { NulShift(s, n, i - n); }
    }
  }

  lemma NulFirst(s: bytes)
    requires s != []
    ensures NulAt(s, 0) <==> s[0] == 0 || IsLongNul(s)
    ensures IsLongNul(s) ==> !NulAt(s, 1)
  {
    assert s[0..] == s;
  }

  lemma NulShift(s: bytes, n: nat, i: nat)
    requires n + i < |s|
    ensures NulAt(s[n..], i) <==> NulAt(s, n + i)
  {
    assert s[n..][i..] == s[n + i..];
  }

  /** No control byte is left, and every quote has a backslash before it. */
  lemma {:induction false} EscapedIsClean(s: bytes, allowNul: bool)
    requires Escape(s, allowNul).Some?
    ensures var t := Escape(s, allowNul).value;
            forall i :: 0 <= i < |t| ==> t[i] >= 0x20 && (t[i] == QUOTE ==> i > 0 && t[i - 1] == BACKSLASH)
    decreases |s|
  {
    if s != [] {
      var (n, front) := if IsLongNul(s) then (2, HexChar(0)) else (1, EscapeByte(s[0]));
      EscapedIsClean(s[n..], allowNul);
      var (t, rest) := (Escape(s, allowNul).value, Escape(s[n..], allowNul).value);
      assert t == front + rest;
      forall i | 0 <= i < |t| ensures t[i] >= 0x20 && (t[i] == QUOTE ==> i > 0 && t[i - 1] == BACKSLASH) {
        if i >= |front| {
          assert t[i] == rest[i - |front|];
          assert i > |front| ==> t[i - 1] == rest[i - 1 - |front|];
        }
      }
    }
  }

  // ---------------------------------------------------------------------------------------------------------
  // Run by run
  // ---------------------------------------------------------------------------------------------------------

  /** The 256-bit table of the bytes that need a look. */
  function Table(i: bv8): bv64 {
    if i == 0 then 0x00000004ffffffff
    else if i == 1 then 0x0000000010000000
    else if i == 2 then 0
    else 0x0000000000000001
  }

  predicate InTable(b: bv8) {
    Table(b >> 6) & ((1 as bv64) << (b & 0x3f)) != 0
  }

  predicate Special(c: byte) {
    InTable(c as bv8)
  }

  lemma TableBits(b: bv8)
    ensures InTable(b) <==> b < 0x20 || b == 0x22 || b == 0x5C || b == 0xC0
  {
  }

  /** The table holds the control bytes, quote, backslash, and the first byte of a long NUL. */
  lemma TableHolds(c: byte)
    ensures Special(c) <==> c < 0x20 || c == QUOTE || c == BACKSLASH || c == LONG_NUL
  {
    hide InTable;
    TableBits(c as bv8);
  }

  /** How many bytes from the start of a string need no look. */
  method CountNonSpecial(s: bytes, at: nat) returns (result: nat)
    requires at <= |s|
    ensures at + result <= |s| && (forall i :: at <= i < at + result ==> !Special(s[i]))
    ensures at + result < |s| ==> Special(s[at + result])
  {
    result := 0;
    while at + result < |s|
      invariant at + result <= |s| && forall i :: at <= i < at + result ==> !Special(s[i])
    {
      if Special(s[at + result]) {
        break;
      }
      result := result + 1;
    }
  }

  /** A run that is copied as it is: no byte of it is special, unless a C0 that starts no long NUL comes first. */
  ghost predicate Run(s: bytes, at: nat, n: nat) {
    && at + n <= |s| && (forall i :: at < i < at + n ==> !Special(s[i]))
    && (n > 0 ==> !Special(s[at]) || (s[at] == LONG_NUL && !IsLongNul(s[at..])))
    && (at + n < |s| ==> Special(s[at + n]))
  }

  /** Escaping a run copies it. */
  lemma {:induction false} EscapeRun(s: bytes, at: nat, n: nat, allowNul: bool)
    requires Run(s, at, n)
    ensures Escape(s[at..], allowNul) == Put(s[at..at + n], Escape(s[at + n..], allowNul))
    decreases n
  {
    hide Special;
    if n == 0 {
      PutNothing(Escape(s[at..], allowNul));
    } else {
      TableHolds(s[at]);
      if n > 1 { TableHolds(s[at + 1]); }
      EscapeRun(s, at + 1, n - 1, allowNul);
      assert s[at..][1..] == s[at + 1..] && EscapeByte(s[at]) == [s[at]];
      PutTwice([s[at]], s[at + 1..at + n], Escape(s[at + n..], allowNul));
      assert [s[at]] + s[at + 1..at + n] == s[at..at + n];
    }
  }

  lemma PutNothing(r: Option<bytes>)
    ensures Put([], r) == r
  {
    if r.Some? { assert [] + r.value == r.value; }
  }

  lemma PutTwice(a: bytes, b: bytes, r: Option<bytes>)
    ensures Put(a, Put(b, r)) == Put(a + b, r)
  {
    if r.Some? { assert a + (b + r.value) == a + b + r.value; }
  }

  /** The string a printer writes to. */
  class Output {
    var text: bytes

    constructor ()
      ensures text == []
    {
      text := [];
    }

    method Append(more: bytes)
      modifies this
      ensures text == old(text) + more
    {
      text := text + more;
    }
  }

  /** One byte that is special, or a long NUL: its escape is appended, or it is refused. */
  method AppendSpecial(append: Output, s: bytes, at: nat, allowNul: bool) returns (ok: bool, n: nat)
    requires at < |s| && Special(s[at]) && (s[at] == LONG_NUL ==> IsLongNul(s[at..]))
    modifies append
    ensures !ok ==> Escape(s[at..], allowNul) == None && append.text == old(append.text)
    ensures ok ==> n >= 1 && at + n <= |s| && old(append.text) <= append.text
    ensures ok ==> Put(old(append.text), Escape(s[at..], allowNul)) == Put(append.text, Escape(s[at + n..], allowNul))
  {
    hide Special;
    TableHolds(s[at]);
    var c := s[at];
    var escape: bytes;
    n := 1;
    if c == QUOTE {
      escape := [BACKSLASH, QUOTE];
    } else if c == BACKSLASH {
      escape := [BACKSLASH, BACKSLASH];
    } else if c == 8 {
      escape := [BACKSLASH, 98];
    } else if c == 12 {
      escape := [BACKSLASH, 102];
    } else if c == 10 {
      escape := [BACKSLASH, 110];
    } else if c == 13 {
      escape := [BACKSLASH, 114];
    } else if c == 9 {
      escape := [BACKSLASH, 116];
    } else if c == 0 {
      if !allowNul {
        return false, 0;
      }
      escape := HexChar(0);
    } else if c == LONG_NUL {
      if !allowNul {
        return false, 0;
      }
      escape := HexChar(0);
      n := 2;
    } else {
      assert 0 < c < 0x20;
      escape := HexChar(c);
    }
    assert s[at..][n..] == s[at + n..];
    PutTwice(append.text, escape, Escape(s[at + n..], allowNul));
    append.Append(escape);
    return true, n;
  }

  /** mcommon_json_append_escaped. */
  method AppendEscaped(append: Output, s: bytes, allowNul: bool) returns (ok: bool)
    modifies append
    ensures ok <==> allowNul || !HasNul(s)
    ensures ok ==> Some(append.text) == Put(old(append.text), Escape(s, allowNul))
    ensures old(append.text) <= append.text
  {
    hide Escape, Special, HasNul, Run, IsLongNul, Put;
    EscapeIff(s, allowNul);
    ghost var whole := Put(append.text, Escape(s, allowNul));
    PutSome(append.text, Escape(s, allowNul));
    var at := 0;
    var run := CountNonSpecial(s, 0);
    RunCounted(s, 0, run);
    assert s[0..] == s;
    while at < |s|
      invariant at <= |s| && (at < |s| ==> Run(s, at, run)) && old(append.text) <= append.text
      invariant whole == Put(append.text, Escape(s[at..], allowNul))
      decreases |s| - at, |s| - at - run
    {
      RunWithin(s, at, run);
      RunPut(append.text, s, at, run, allowNul);
      append.Append(s[at..at + run]);
      at := at + run;
      if at < |s| {
        ghost var from := at;
        ok, at, run := PassSpecial(append, s, at, allowNul);
        if !ok {
          PutSome(append.text, Escape(s[from..], allowNul));
          return false;
        }
      }
    }
    NothingLeft(append.text, s, at, allowNul);
    return true;
  }

  /** What stops a run: a C0 that starts no long NUL begins the next one, anything else is escaped or refused. */
  method PassSpecial(append: Output, s: bytes, at: nat, allowNul: bool) returns (ok: bool, at': nat, run: nat)
    requires at < |s| && Special(s[at])
    modifies append
    ensures !ok ==> Escape(s[at..], allowNul) == None && append.text == old(append.text)
    ensures ok ==> at <= at' <= |s| && (at' < |s| ==> Run(s, at', run)) && (at' == at ==> run > 0)
    ensures ok ==> Put(old(append.text), Escape(s[at..], allowNul)) == Put(append.text, Escape(s[at'..], allowNul))
    ensures old(append.text) <= append.text
  {
    hide Escape, Special, Run, IsLongNul, Put;
    at', run := at, 0;
    if s[at] == LONG_NUL && !(|s| - at >= 2 && s[at + 1] == 0x80) {
      run := CountNonSpecial(s, at + 1);
      NotLong(s, at);
      RunFromLong(s, at, run);
      return true, at, run + 1;
    }
    LongNulAt(s, at);
    var n;
    ok, n := AppendSpecial(append, s, at, allowNul);
    if ok {
      at' := at + n;
      run := CountNonSpecial(s, at');
      RunCounted(s, at', run);
    }
  }

  lemma RunPut(text: bytes, s: bytes, at: nat, n: nat, allowNul: bool)
    requires Run(s, at, n)
    ensures Put(text, Escape(s[at..], allowNul)) == Put(text + s[at..at + n], Escape(s[at + n..], allowNul))
  {
    hide Escape, Special, IsLongNul, Put;
    EscapeRun(s, at, n, allowNul);
    PutTwice(text, s[at..at + n], Escape(s[at + n..], allowNul));
  }

  lemma RunWithin(s: bytes, at: nat, n: nat)
    requires Run(s, at, n)
    ensures at + n <= |s| && (at + n < |s| ==> Special(s[at + n]))
  {
  }

  lemma RunCounted(s: bytes, at: nat, n: nat)
    requires at + n <= |s| && (forall i :: at <= i < at + n ==> !Special(s[i])) && (at + n < |s| ==> Special(s[at + n]))
    ensures Run(s, at, n)
  {
    hide Special, IsLongNul;
  }

  lemma RunFromLong(s: bytes, at: nat, n: nat)
    requires at + 1 + n <= |s| && s[at] == LONG_NUL && !IsLongNul(s[at..])
    requires (forall i :: at + 1 <= i < at + 1 + n ==> !Special(s[i])) && (at + 1 + n < |s| ==> Special(s[at + 1 + n]))
    ensures Run(s, at, n + 1)
  {
    hide Special, IsLongNul;
  }

  lemma NotLong(s: bytes, at: nat)
    requires at < |s| && !(|s| - at >= 2 && s[at + 1] == 0x80)
    ensures !IsLongNul(s[at..])
  {
  }

  lemma LongNulAt(s: bytes, at: nat)
    requires at < |s|
    ensures s[at] == LONG_NUL && |s| - at >= 2 && s[at + 1] == 0x80 ==> IsLongNul(s[at..])
  {
  }

  lemma PutSome(a: bytes, r: Option<bytes>)
    ensures Put(a, r).Some? <==> r.Some?
  {
  }

  lemma NothingLeft(a: bytes, s: bytes, at: nat, allowNul: bool)
    requires at == |s|
    ensures Put(a, Escape(s[at..], allowNul)) == Some(a)
  {
    assert a + [] == a;
  }

  /** Printing a string and decoding it by the standard. */
  method EscapeAndDecode(s: bytes) returns (text: bytes)
    ensures Unescape(text) == Some(ShortNuls(s))
  {
    hide Escape, Unescape;
    var append := new Output();
    var ok := AppendEscaped(append, s, true);
    text := append.text;
    UnescapeEscape(s, true);
    EscapeIff(s, true);
    PutNothing(Escape(s, true));
  }
}
