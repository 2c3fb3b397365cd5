/** Base64 text, section 4 of RFC 4648: a specification by groups of four characters. */
module Base64 {
  import opened CInt
  import opened LittleEndian

  type sextet = x: int | 0 <= x < 64

  const PAD: byte := 61

  function Letter(x: sextet): (c: byte)
    ensures c != PAD && !IsSpace(c) && c != 0
  {
    if x < 26 then 65 + x
    else if x < 52 then 97 + (x - 26)
    else if x < 62 then 48 + (x - 52)
    else if x == 62 then 43
    else 47
  }

  predicate IsSpace(c: byte) {
    9 <= c <= 13 || c == 32
  }

  function Digit(c: byte): Option<sextet> {
    if 65 <= c <= 90 then Some(c - 65)
    else if 97 <= c <= 122 then Some(c - 97 + 26)
    else if 48 <= c <= 57 then Some(c - 48 + 52)
    else if c == 43 then Some(62)
    else if c == 47 then Some(63)
    else None
  }

  lemma DigitIff(c: byte, x: sextet)
    ensures Digit(c) == Some(x) <==> c == Letter(x)
  {
  }

  /** The letters of 1, 2 or 3 bytes, padded to four. */
  function EncodeGroup(g: bytes): (r: bytes)
    requires 1 <= |g| <= 3
    ensures |r| == 4
  {
    var (a, b, c) := (g[0], if |g| > 1 then g[1] else 0, if |g| > 2 then g[2] else 0);
    [Letter(a / 4), Letter(a % 4 * 16 + b / 16),
     if |g| > 1 then Letter(b % 16 * 4 + c / 64) else PAD,
     if |g| > 2 then Letter(c % 64) else PAD]
  }

  function Encode(data: bytes): bytes {
    if |data| == 0 then [] else if |data| < 3 then EncodeGroup(data) else EncodeGroup(data[..3]) + Encode(data[3..])
  }

  /** The three bytes of four digits. */
  function Triple(d: seq<sextet>): (r: bytes)
    requires |d| == 4
    ensures |r| == 3
  {
    var (w: int, x: int, y: int, z: int) := (d[0], d[1], d[2], d[3]);
    [w * 4 + x / 16, x % 16 * 16 + y / 4, y % 4 * 64 + z]
  }

  function Triples(d: seq<sextet>): (r: bytes)
    requires |d| % 4 == 0
    ensures |r| == |d| / 4 * 3
  {
    if d == [] then [] else Triple(d[..4]) + Triples(d[4..])
  }

  function Strip(s: bytes): (r: bytes)
    ensures |r| <= |s|
  {
    if s == [] then [] else (if IsSpace(s[0]) then [] else [s[0]]) + Strip(s[1..])
  }

  /** The digits at the start of a text without spaces, and what comes after them. */
  function Digits(t: bytes): (r: seq<sextet>)
    ensures |r| <= |t|
  {
    if t == [] || Digit(t[0]) == None then [] else [Digit(t[0]).value] + Digits(t[1..])
  }

  /** Full groups of digits, then nothing, or two digits and "==", or three and "=". */
  predicate WellPadded(t: bytes) {
    var n := |Digits(t)|;
    if n % 4 == 0 then t[n..] == []
    else if n % 4 == 2 then t[n..] == [PAD, PAD]
    else n % 4 == 3 && t[n..] == [PAD]
  }

  /** The bits of the last, incomplete byte: they must be zero. */
  function Leftover(d: seq<sextet>): nat {
    if |d| % 4 == 2 then d[|d| - 1] % 16 else if |d| % 4 == 3 then d[|d| - 1] % 4 else 0
  }

  function DecodedSize(n: nat): nat {
    n / 4 * 3 + (if n % 4 == 0 then 0 else n % 4 - 1)
  }

  /** The bytes of any number of digits: complete the last group with zeros and drop the incomplete byte. */
  function Bytes(d: seq<sextet>): (r: bytes)
    ensures |r| == DecodedSize(|d|)
  {
    var zeros := [0, 0, 0, 0][..(4 - |d| % 4) % 4];
    Triples(d + zeros)[..DecodedSize(|d|)]
  }

  function Decode(t: bytes): Option<bytes> {
    if WellPadded(t) && Leftover(Digits(t)) == 0 then Some(Bytes(Digits(t))) else None
  }

  // ---------------------------------------------------------------------------------------------------------
  // Decoding undoes encoding
  // ---------------------------------------------------------------------------------------------------------

  lemma {:induction false} DigitsGroup(a: sextet, b: sextet, c: sextet, d: sextet, t: bytes)
    ensures Digits([Letter(a), Letter(b), Letter(c), Letter(d)] + t) == [a, b, c, d] + Digits(t)
  {
    hide Digit, Letter;
    DigitsCons(d, t);
    DigitsCons(c, [Letter(d)] + t);
    DigitsCons(b, [Letter(c)] + ([Letter(d)] + t));
    DigitsCons(a, [Letter(b)] + ([Letter(c)] + ([Letter(d)] + t)));
    assert [Letter(a), Letter(b), Letter(c), Letter(d)] + t == [Letter(a)] + ([Letter(b)] + ([Letter(c)] + ([Letter(d)] + t)));
  }

  lemma DigitsCons(x: sextet, t: bytes)
    ensures Digits([Letter(x)] + t) == [x] + Digits(t)
  {
    DigitIff(Letter(x), x);
    hide Digit, Letter;
    assert ([Letter(x)] + t)[1..] == t;
  }

  /** Every group of three bytes encodes to four letters that decode to it. */
  lemma GroupDecodes(g: bytes, t: bytes)
    requires |g| == 3
    ensures var d := Digits(EncodeGroup(g) + t);
            |d| == 4 + |Digits(t)| && d[4..] == Digits(t) && Triple(d[..4]) == g
  {
    var (x: int, y: int, z: int) := (g[0], g[1], g[2]);
    DigitsGroup(x / 4, x % 4 * 16 + y / 16, y % 16 * 4 + z / 64, z % 64, t);
    hide Digits, Letter;
    var d := [x / 4, x % 4 * 16 + y / 16, y % 16 * 4 + z / 64, z % 64];
    assert (d + Digits(t))[..4] == d;
    assert (x / 4) * 4 + (x % 4 * 16 + y / 16) / 16 == x;
    assert (x % 4 * 16 + y / 16) % 16 * 16 + (y % 16 * 4 + z / 64) / 4 == y;
    assert (y % 16 * 4 + z / 64) % 4 * 64 + z % 64 == z;
    assert g == [x, y, z];
  }

  lemma BytesGroup(q: seq<sextet>, d: seq<sextet>)
    requires |q| == 4
    ensures Bytes(q + d) == Triple(q) + Bytes(d)
  {
    var zeros := [0, 0, 0, 0][..(4 - |d| % 4) % 4];
    assert |q + d| % 4 == |d| % 4;
    assert (q + d) + zeros == q + (d + zeros);
    assert (q + (d + zeros))[..4] == q && (q + (d + zeros))[4..] == d + zeros;
    assert Triples(q + (d + zeros)) == Triple(q) + Triples(d + zeros);
  }

  lemma LastByteDecodes(x: byte)
    ensures var t := EncodeGroup([x]); WellPadded(t) && Leftover(Digits(t)) == 0 && Bytes(Digits(t)) == [x]
  {
    var x': int := x;
    var (a, b) := (x' / 4, x' % 4 * 16);
    var t := EncodeGroup([x]);
    assert t == [Letter(a)] + ([Letter(b)] + [PAD, PAD]);
    hide EncodeGroup, Digits, Letter, Bytes, WellPadded;
    OnlyPads();
    DigitsCons(b, [PAD, PAD]);
    DigitsCons(a, [Letter(b)] + [PAD, PAD]);
    assert [a] + ([b] + []) == [a, b];
    PaddedTwo(t, [a, b]);
    PartialGroup(a, b, 0);
  }

  lemma LastTwoBytesDecode(x: byte, y: byte)
    ensures var t := EncodeGroup([x, y]); WellPadded(t) && Leftover(Digits(t)) == 0 && Bytes(Digits(t)) == [x, y]
  {
    var (x': int, y': int) := (x, y);
    var (a, b, c) := (x' / 4, x' % 4 * 16 + y' / 16, y' % 16 * 4);
    var t := EncodeGroup([x, y]);
    assert t == [Letter(a)] + ([Letter(b)] + ([Letter(c)] + [PAD]));
    hide EncodeGroup, Digits, Letter, Bytes, WellPadded;
    OnlyPads();
    DigitsCons(c, [PAD]);
    DigitsCons(b, [Letter(c)] + [PAD]);
    DigitsCons(a, [Letter(b)] + ([Letter(c)] + [PAD]));
    assert [a] + ([b] + ([c] + [])) == [a, b, c];
    PaddedThree(t, [a, b, c]);
    PartialGroup(a, b, c);
  }

  lemma PaddedTwo(t: bytes, d: seq<sextet>)
    requires Digits(t) == d && |d| == 2 && |t| == 4 && t[2] == PAD && t[3] == PAD
    ensures WellPadded(t)
  {
    assert t[2..] == [PAD, PAD];
  }

  lemma PaddedThree(t: bytes, d: seq<sextet>)
    requires Digits(t) == d && |d| == 3 && |t| == 4 && t[3] == PAD
    ensures WellPadded(t)
  {
    assert t[3..] == [PAD];
  }

  lemma OnlyPads()
    ensures Digits([PAD]) == [] && Digits([PAD, PAD]) == []
  {
  }

  lemma PartialGroup(a: sextet, b: sextet, c: sextet)
    ensures Bytes([a, b]) == [a as int * 4 + b as int / 16]
    ensures Bytes([a, b, c]) == [a as int * 4 + b as int / 16, b as int % 16 * 16 + c as int / 4]
  {
    assert [a, b, 0, 0][..4] == [a, b, 0, 0] && [a, b, c, 0][..4] == [a, b, c, 0];
    assert [a, b] + [0, 0, 0, 0][..2] == [a, b, 0, 0];
    assert [a, b, c] + [0, 0, 0, 0][..1] == [a, b, c, 0];
  }

  /** Decoding undoes encoding, for every byte string. */
  lemma {:induction false} DecodeEncode(data: bytes)
    ensures Decode(Encode(data)) == Some(data)
  {
    hide Digits, EncodeGroup, Triple, Bytes, Triples;
    if |data| == 0 {
      assert Digits([]) == [] && Bytes([]) == [] by { NoDigits(); }
    } else if |data| == 1 {
      LastByteDecodes(data[0]);
      assert data == [data[0]];
    } else if |data| == 2 {
      LastTwoBytesDecode(data[0], data[1]);
      assert data == [data[0], data[1]];
    } else {
      var t := Encode(data[3..]);
      var d := Digits(EncodeGroup(data[..3]) + t);
      DecodeEncode(data[3..]);
      GroupDecodes(data[..3], t);
      BytesGroup(d[..4], d[4..]);
      assert d == d[..4] + d[4..];
      assert (EncodeGroup(data[..3]) + t)[|d|..] == t[|d| - 4..];
      assert data == data[..3] + data[3..];
    }
  }

  lemma NoDigits()
    ensures Digits([]) == [] && Bytes([]) == []
  {
  }

  lemma Assoc(a: bytes, b: bytes, c: bytes)
    ensures a + (b + c) == a + b + c
  {
  }

  lemma {:induction false} StripAppend(s: bytes, t: bytes)
    ensures Strip(s + t) == Strip(s) + Strip(t)
  {
    if s == [] {
      assert s + t == t;
    } else {
      hide IsSpace;
      StripAppend(s[1..], t);
      assert (s + t)[1..] == s[1..] + t && (s + t)[0] == s[0];
      Assoc(if IsSpace(s[0]) then [] else [s[0]], Strip(s[1..]), Strip(t));
    }
  }

  /** Space put anywhere in a text does not change what it decodes to. */
  lemma SpaceAnywhere(s: bytes, space: bytes, t: bytes)
    requires forall c <- space :: IsSpace(c)
    ensures Decode(Strip(s + space + t)) == Decode(Strip(s + t))
  {
    hide Decode, Strip;
    StripAppend(s + space, t);
    StripAppend(s, space);
    StripAppend(s, t);
    AllSpace(space);
    assert Strip(s) + [] == Strip(s);
  }

  lemma {:induction false} AllSpace(space: bytes)
    requires forall c <- space :: IsSpace(c)
    ensures Strip(space) == []
  {
    if space != [] { AllSpace(space[1..]); }
  }

  lemma {:induction false} NothingToStrip(t: bytes)
    requires forall c <- t :: !IsSpace(c)
    ensures Strip(t) == t
  {
    if t != [] { NothingToStrip(t[1..]); }
  }

  lemma GroupLetters(g: bytes)
    requires 1 <= |g| <= 3
    ensures forall c <- EncodeGroup(g) :: c != 0 && !IsSpace(c)
  {
    hide Letter;
  }

  lemma {:induction false} EncodedLetters(data: bytes)
    ensures forall c <- Encode(data) :: c != 0 && !IsSpace(c)
    ensures |Encode(data)| == (|data| + 2) / 3 * 4
  {
    hide Letter, IsSpace;
    if |data| >= 3 {
      EncodedLetters(data[3..]);
      GroupLetters(data[..3]);
    } else if |data| > 0 {
      GroupLetters(data);
    }
  }
}
