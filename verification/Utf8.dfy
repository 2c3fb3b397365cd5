/** UTF-8 validation as the library performs it: the two bytes C0 80 also stand for a NUL. */
module Utf8 {
  import opened CInt

  /** The length of the sequence a first byte announces; zero when it cannot start one. */
  function SequenceLength(c: byte): (n: nat)
    ensures n <= 4
  {
    if c < 0x80 then 1
    else if 0xC0 <= c < 0xE0 then 2
    else if 0xE0 <= c < 0xF0 then 3
    else if 0xF0 <= c < 0xF8 then 4
    else 0
  }

  function FirstBits(c: byte): nat {
    if c < 0x80 then c else if c < 0xE0 then c % 0x20 else if c < 0xF0 then c % 0x10 else c % 8
  }

  /** The code point of a sequence, or none if a continuation byte is malformed. */
  function CodePoint(s: seq<byte>, c: nat): Option<nat> {
    if s == [] then Some(c)
    else if 0x80 <= s[0] < 0xC0 then CodePoint(s[1..], c * 0x40 + s[0] % 0x40)
    else None
  }

  predicate ShortestForm(c: nat, n: nat, allowNull: bool) {
    if n == 1 then c <= 0x7F
    else if n == 2 then 0x80 <= c <= 0x7FF || (c == 0 && allowNull)
    else if n == 3 then 0x800 <= c <= 0xFFFF
    else 0x1_0000 <= c <= 0x10_FFFF
  }

  predicate Utf8Valid(s: seq<byte>, allowNull: bool)
    decreases |s|
  {
    s == [] ||
    var n := SequenceLength(s[0]);
    && 0 < n <= |s|
    && var c := CodePoint(s[1..n], FirstBits(s[0]));
    && c.Some?
    && (allowNull || 0 !in s[..n])
    && c.value <= 0x10_FFFF
    && !(0xD800 <= c.value < 0xE000)
    && ShortestForm(c.value, n, allowNull)
    && Utf8Valid(s[n..], allowNull)
  }
}
