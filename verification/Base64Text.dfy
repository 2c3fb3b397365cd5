/** Base64 text character by character, and exactly which texts decode. */
module Base64Text {
  import opened CInt
  import opened LittleEndian
  import opened Base64

  const UPPER: string := "ABCDEFGHIJKLMNOPQRSTUVWXYZ"
  const LOWER: string := "abcdefghijklmnopqrstuvwxyz"
  const FIGURES: string := "0123456789+/"

  /** Table 1 of RFC 4648, section 4. */
  const ALPHABET: string := UPPER + LOWER + FIGURES

  function Character(x: sextet): int {
    assert |ALPHABET| == 64;
    ALPHABET[x] as int
  }

  lemma AlphabetLetter(x: sextet)
    ensures Letter(x) == Character(x)
  {
    if x < 26 {
      UpperCase(x);
      assert Character(x) == UPPER[x] as int;
    } else if x < 52 {
      LowerCase(x - 26);
      assert Character(x) == LOWER[x - 26] as int;
    } else {
      Figure(x - 52);
      assert Character(x) == FIGURES[x - 52] as int;
    }
  }

  lemma UpperCase(x: nat)
    requires x < |UPPER|
    ensures UPPER[x] as int == 65 + x
  {
  }

  lemma LowerCase(x: nat)
    requires x < |LOWER|
    ensures LOWER[x] as int == 97 + x
  {
  }

  lemma Figure(x: nat)
    requires x < |FIGURES|
    ensures FIGURES[x] as int == if x < 10 then 48 + x else if x == 10 then 43 else 47
  {
  }

  function ByteAt(data: bytes, k: nat): (b: nat)
    ensures b < 256
  {
    if k < |data| then data[k] else 0
  }

  /** Three bytes as one number of 24 bits; missing ones count as zero. */
  function Bits24(data: bytes, g: nat): nat {
    65536 * ByteAt(data, 3 * g) + 256 * ByteAt(data, 3 * g + 1) + ByteAt(data, 3 * g + 2)
  }

  function SixBits(bits: nat, j: nat): sextet {
    if j == 0 then bits / 262144 % 64 else if j == 1 then bits / 4096 % 64 else if j == 2 then bits / 64 % 64 else bits % 64
  }

  /** The character at a place of the text: six bits through the table, or "=" where there is no byte. */
  function TextAt(data: bytes, i: nat): int {
    var (g, j) := (i / 4, i % 4);
    if j > 1 && 3 * g + j - 1 >= |data| then '=' as int else Character(SixBits(Bits24(data, g), j))
  }

  /** The encoding of any bytes is that text. */
  lemma {:induction false} EncodedText(data: bytes, i: nat)
    requires i < |Encode(data)|
    ensures |Encode(data)| == (|data| + 2) / 3 * 4 && Encode(data)[i] == TextAt(data, i)
    decreases |data|
  {
    hide EncodeGroup, TextAt;
    EncodedLetters(data);
    if |data| < 3 {
      GroupText(data, i);
    } else if i < 4 {
      GroupText(data[..3], i);
      FirstText(data, i);
    } else {
      EncodedText(data[3..], i - 4);
      NextText(data, i);
    }
  }

  lemma GroupText(g: bytes, i: nat)
    requires 1 <= |g| <= 3 && i < 4
    ensures EncodeGroup(g)[i] == TextAt(g, i)
  {
    hide Letter, Character, SixBits, ByteAt;
    var (a, b, c) := (ByteAt(g, 0), ByteAt(g, 1), ByteAt(g, 2));
    GroupBytes(g);
    Sextets(a, b, c);
    AlphabetLetter(a / 4);
    AlphabetLetter(a % 4 * 16 + b / 16);
    AlphabetLetter(b % 16 * 4 + c / 64);
    AlphabetLetter(c % 64);
  }

  lemma GroupBytes(g: bytes)
    requires 1 <= |g| <= 3
    ensures ByteAt(g, 0) == g[0] && ByteAt(g, 1) == (if |g| > 1 then g[1] else 0) && ByteAt(g, 2) == if |g| > 2 then g[2] else 0
  {
  }

  lemma Sextets(a: nat, b: nat, c: nat)
    requires a < 256 && b < 256 && c < 256
    ensures var n := 65536 * a + 256 * b + c;
            && SixBits(n, 0) == a / 4 && SixBits(n, 1) == a % 4 * 16 + b / 16
            && SixBits(n, 2) == b % 16 * 4 + c / 64 && SixBits(n, 3) == c % 64
  {
    var n := 65536 * a + 256 * b + c;
    Quotient(n, 262144, a / 4, a % 4 * 65536 + 256 * b + c);
    Quotient(n, 4096, a * 16 + b / 16, b % 16 * 256 + c);
    Quotient(n, 64, a * 1024 + b * 4 + c / 64, c % 64);
    Quotient(a * 16 + b / 16, 64, a / 4, a % 4 * 16 + b / 16);
    Quotient(a * 1024 + b * 4 + c / 64, 64, a * 16 + b / 16, b % 16 * 4 + c / 64);
  }

  lemma Quotient(n: nat, m: nat, q: nat, r: nat)
    requires m > 0 && n == q * m + r && r < m
    ensures n / m == q && n % m == r
  {
    var k := n / m - q;
    assert k * m == r - n % m;
    if k > 0 { Multiples(k, m); }
    if k < 0 { Multiples(-k, m); }
  }

  lemma Multiples(k: int, m: int)
    requires k > 0 && m > 0
    ensures k * m >= m
  {
  }

  lemma FirstText(data: bytes, i: nat)
    requires |data| >= 3 && i < 4
    ensures TextAt(data[..3], i) == TextAt(data, i)
  {
    hide Character, SixBits;
    assert Bits24(data[..3], 0) == Bits24(data, 0);
  }

  lemma NextText(data: bytes, i: nat)
    requires |data| >= 3 && i >= 4
    ensures TextAt(data[3..], i - 4) == TextAt(data, i)
  {
    hide Character, SixBits;
    assert (i - 4) / 4 == i / 4 - 1 && (i - 4) % 4 == i % 4;
    assert Bits24(data[3..], i / 4 - 1) == Bits24(data, i / 4);
  }

  // ---------------------------------------------------------------------------------------------------------
  // Decoding
  // ---------------------------------------------------------------------------------------------------------

  lemma {:induction false} DigitsAre(t: bytes, i: nat)
    requires i < |Digits(t)|
    ensures t[i] == Letter(Digits(t)[i])
  {
    DigitIff(t[0], Digits(t)[0]);
    if i > 0 { DigitsAre(t[1..], i - 1); }
  }

  /** What decodes is the encoding of what it decodes to. */
  lemma {:induction false} EncodeDecode(t: bytes)
    requires Decode(t).Some?
    ensures Encode(Decode(t).value) == t
    decreases |t|
  {
    hide Digits, Letter, EncodeGroup, Triple, Triples, Bytes;
    var d := Digits(t);
    forall i | 0 <= i < |d| ensures t[i] == Letter(d[i]) { DigitsAre(t, i); }
    if |d| >= 4 {
      FirstGroup(t);
      EncodeDecode(t[4..]);
      var (g, rest) := (Triple(d[..4]), Bytes(d[4..]));
      BytesGroup(d[..4], d[4..]);
      assert d == d[..4] + d[4..];
      GroupBack(d[..4]);
      assert (g + rest)[..3] == g && (g + rest)[3..] == rest;
    } else {
      LastGroup(t);
    }
  }

  lemma FirstGroup(t: bytes)
    requires Decode(t).Some? && |Digits(t)| >= 4 && forall i :: 0 <= i < |Digits(t)| ==> t[i] == Letter(Digits(t)[i])
    ensures var d := Digits(t);
            && Digits(t[4..]) == d[4..] && Decode(t[4..]) == Some(Bytes(d[4..]))
            && t == [Letter(d[0]), Letter(d[1]), Letter(d[2]), Letter(d[3])] + t[4..]
  {
    hide Letter, Bytes, Digits;
    var (d, rest) := (Digits(t), t[4..]);
    assert t == [Letter(d[0]), Letter(d[1]), Letter(d[2]), Letter(d[3])] + rest;
    DigitsGroup(d[0], d[1], d[2], d[3], rest);
    assert d[4..] == Digits(rest);
    assert rest[|d| - 4..] == t[|d|..];
  }

  lemma GroupBack(q: seq<sextet>)
    requires |q| == 4
    ensures EncodeGroup(Triple(q)) == [Letter(q[0]), Letter(q[1]), Letter(q[2]), Letter(q[3])]
  {
    hide Letter;
    var (w: int, x: int, y: int, z: int) := (q[0], q[1], q[2], q[3]);
    assert (w * 4 + x / 16) / 4 == w && (w * 4 + x / 16) % 4 * 16 + (x % 16 * 16 + y / 4) / 16 == x;
    assert (x % 16 * 16 + y / 4) % 16 * 4 + (y % 4 * 64 + z) / 64 == y && (y % 4 * 64 + z) % 64 == z;
  }

  lemma LastGroup(t: bytes)
    requires Decode(t).Some? && |Digits(t)| < 4 && forall i :: 0 <= i < |Digits(t)| ==> t[i] == Letter(Digits(t)[i])
    ensures Encode(Decode(t).value) == t
  {
    hide Letter, Digits, Bytes;
    var d := Digits(t);
    assert t == t[..|d|] + t[|d|..];
    if |d| == 0 {
      NoDigits();
    } else {
      var c := if |d| == 3 then d[2] else 0;
      PartialGroup(d[0], d[1], c);
      assert d == if |d| == 2 then [d[0], d[1]] else [d[0], d[1], d[2]];
      LastBits(d[0], d[1], c);
    }
  }

  lemma LastBits(a: sextet, b: sextet, c: sextet)
    ensures var (x, y) := (a as int * 4 + b as int / 16, b as int % 16 * 16 + c as int / 4);
            && x / 4 == a && (b % 16 == 0 ==> x % 4 * 16 == b)
            && x % 4 * 16 + y / 16 == b && (c % 4 == 0 ==> y % 16 * 4 == c)
  {
  }

  /** A text decodes to some bytes exactly when, without its spaces, it is their encoding. */
  lemma DecodeIff(s: bytes, data: bytes)
    ensures Decode(Strip(s)) == Some(data) <==> Strip(s) == Encode(data)
  {
    hide Decode, Strip, Encode;
    if Decode(Strip(s)).Some? { EncodeDecode(Strip(s)); }
    DecodeEncode(data);
  }

  /** Only these bytes are passed over, wherever they stand. */
  lemma {:induction false} Stripped(s: bytes, i: nat)
    requires i < |s|
    ensures Strip(s) == Strip(s[..i])
                        + (if s[i] == 9 || s[i] == 10 || s[i] == 11 || s[i] == 12 || s[i] == 13 || s[i] == 32 then [] else [s[i]])
                        + Strip(s[i + 1..])
  {
    var one := [s[i]];
    StripAppend(s[..i], one);
    StripAppend(s[..i] + one, s[i + 1..]);
    assert s == s[..i] + one + s[i + 1..];
    assert Strip(one) == (if IsSpace(s[i]) then [] else one) + Strip([]);
  }
}
