/** Decimal128 by the standard: the bits as section 3.5.2 of IEEE 754-2008 lays them out, and the texts written out. */
module Decimal128Ieee {
  import opened LittleEndian
  import opened Decimal
  import opened Decimal128
  import opened JsonText

  /**
   * The bits of a number: its sign, 14 bits of exponent biased by 6176, 113 bits of coefficient; the coefficient has at
   * most 34 digits and the exponent is between -6176 and 6111.
   */
  lemma FieldsIff(d: Bits, negative: bool, c: int, e: int)
    ensures Canonical(d) && Negative(d) == negative && Stored(d) == c && Exponent(d) == e <==>
            && 0 <= c < 10_000_000_000_000_000_000_000_000_000_000_000 && -6176 <= e <= 6111
            && d.high == (if negative then 0x8000_0000_0000_0000 else 0) + (e + 6176) * 0x2_0000_0000_0000
                         + c / 0x1_0000_0000_0000_0000
            && d.low == c % 0x1_0000_0000_0000_0000
  {
    hide Pow10, Canonical, Stored, Exponent, Negative;
    PowTable();
    if Canonical(d) {
      PackUnpacked(d);
      IsBelow(d);
    }
    if 0 <= c < 10_000_000_000_000_000_000_000_000_000_000_000 && -6176 <= e <= 6111 {
      PackFields(negative, c, e);
    }
  }

  lemma IsBelow(d: Bits)
    requires Canonical(d)
    ensures Stored(d) < Pow10(34)
  {
  }

  /** The bits that are no number: the five bits behind the sign are 11110 for an infinity and 11111 for a NaN. */
  lemma SpecialsIff(d: Bits)
    ensures IsInfinite(d) <==> 0x7800_0000_0000_0000 <= d.high % 0x8000_0000_0000_0000 < 0x7C00_0000_0000_0000
    ensures IsNaN(d) <==> 0x7C00_0000_0000_0000 <= d.high % 0x8000_0000_0000_0000
    ensures Negative(d) <==> d.high >= 0x8000_0000_0000_0000
  {
  }

  /** The short form, which any other first two bits of the exponent than 11 select: 14 and 113 bits. */
  lemma ShortForm(d: Bits, s: nat, b: nat, h: nat)
    requires s <= 1 && b < 0x3000 && h < 0x2_0000_0000_0000
    requires d.high == s * 0x8000_0000_0000_0000 + b * 0x2_0000_0000_0000 + h
    ensures !IsNaN(d) && !IsInfinite(d) && (Negative(d) <==> s == 1)
    ensures Exponent(d) == b - 6176 && Coefficient(d) == h * 0x1_0000_0000_0000_0000 + d.low
  {
    HighFields(s, b, h);
    assert h / TWO_46 * TWO_46 + h % TWO_46 == h;
  }

  /** The long form, with 11 behind the sign: the exponent is two bits further down, and the coefficient counts as zero. */
  lemma LongFormIs(d: Bits, s: nat, b: nat, r: nat)
    requires s <= 1 && b < 0x3000 && r < 0x8000_0000_0000
    requires d.high == s * 0x8000_0000_0000_0000 + 0x6000_0000_0000_0000 + b * 0x8000_0000_0000 + r
    ensures !IsNaN(d) && !IsInfinite(d) && (Negative(d) <==> s == 1)
    ensures Exponent(d) == b - 6176 && Coefficient(d) == 0
  {
    LongParts(s, b, r);
    LongForm(d);
  }

  lemma LongParts(s: nat, b: nat, r: nat)
    requires s <= 1 && b < 0x3000 && r < 0x8000_0000_0000
    ensures var high := s * 0x8000_0000_0000_0000 + 0x6000_0000_0000_0000 + b * 0x8000_0000_0000 + r;
            high / TWO_58 % 32 == 24 + b / 0x800 && high / TWO_47 % 0x4000 == b
  {
    var high := s * TWO_63 + 0x6000_0000_0000_0000 + b * TWO_47 + r;
    assert high == (s * 32 + 24 + b / 0x800) * TWO_58 + (b % 0x800 * TWO_47 + r);
    DivMod(s * 32 + 24 + b / 0x800, TWO_58, b % 0x800 * TWO_47 + r);
    DivMod(s, 32, 24 + b / 0x800);
    assert high == (s * 0x10000 + 0xC000 + b) * TWO_47 + r;
    DivMod(s * 0x10000 + 0xC000 + b, TWO_47, r);
    DivMod(s * 4 + 3, 0x4000, b);
  }

  /** The letters of a number's digits. */
  lemma Letters(c: nat)
    ensures var (s, d) := (Chars(Digits(c)), Digits(c));
            |s| == |d| && Num(d) == c && (c > 0 ==> s[0] != '0' as int) && forall i :: 0 <= i < |s| ==> s[i] == '0' as int + d[i]
  {
    NumDigits(c);
  }

  /** What is no number is written out by name. */
  lemma SpecialText(d: Bits)
    ensures IsNaN(d) ==> Text(d) == Ascii("NaN")
    ensures IsInfinite(d) ==> Text(d) == Ascii(if Negative(d) then "-Infinity" else "Infinity")
  {
  }

  /**
   * The digits s of a number whose last one has the exponent e: written plainly if e is not positive and the first digit
   * stands at most six places behind the point; otherwise with one digit before the point and an exponent.
   */
  function NumberLetters(sign: bytes, s: bytes, e: int): bytes
    requires s != []
  {
    var n := |s| + e;
    if e == 0 then sign + s
    else if e < 0 && 0 < n then sign + s[..n] + ['.' as int] + s[n..]
    else if e < 0 && -6 < n then sign + ['0' as int, '.' as int] + seq(-n, _ => '0' as int) + s
    else
      sign + [s[0]] + (if |s| > 1 then ['.' as int] + s[1..] else [])
      + ['E' as int, if n > 0 then '+' as int else '-' as int] + Chars(Digits(if n > 0 then n - 1 else 1 - n))
  }

  /** Every number of at most 34 digits is written that way, nothing cut off. */
  lemma NumberText(d: Bits)
    requires Canonical(d)
    ensures Text(d) == NumberLetters(if Negative(d) then ['-' as int] else [], Chars(Digits(Stored(d))), Exponent(d))
  {
    hide Digits, Stored, Exponent, Combination, Chars, FiniteText, NumberLetters;
    CoefficientFits();
    CoefficientDigits(Stored(d));
    FiniteLetters(Sign(d), Digits(Stored(d)), Exponent(d));
  }

  lemma FiniteLetters(sign: bytes, d: seq<digit>, e: int)
    requires 1 <= |d| <= 34 && |sign| <= 1
    ensures FiniteText(sign, d, e) == NumberLetters(sign, Chars(d), e)
  {
    hide Digits;
    var n := |d| + e;
    if e == 0 {
    } else if e < 0 && 0 < n {
      assert Chars(d[..n]) == Chars(d)[..n] && Chars(d[n..]) == Chars(d)[n..];
    } else if e < 0 && -6 < n {
      assert Chars(Zeros(-n)) == seq(-n, _ => '0' as int);
    } else {
      Scientific(sign, d, e);
    }
  }

  lemma Scientific(sign: bytes, d: seq<digit>, e: int)
    requires 1 <= |d| <= 34 && |sign| <= 1 && !(e < 0 && -6 < |d| + e) && e != 0
    ensures ScientificText(sign, d, e) == NumberLetters(sign, Chars(d), e)
  {
    hide Digits;
    assert Chars(d[..1]) == [Chars(d)[0]] && Chars(d[1..|d|]) == Chars(d)[1..];
  }
}
