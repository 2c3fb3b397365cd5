/** bson_decimal128_from_string: reading, normalising, and packing a decimal text. */
module Decimal128Parse {
  import opened CInt
  import opened LittleEndian
  import opened Decimal
  import opened Decimal128
  import opened Decimal128Scan
  import opened JsonText

  function Min(a: nat, b: nat): nat {
    if a < b then a else b
  }

  /** The number of zeros a digit string starts with. */
  function Leading(d: seq<digit>): (z: nat)
    ensures z <= |d| && (z < |d| ==> d[z] > 0)
  {
    if d == [] || d[0] > 0 then 0 else 1 + Leading(d[1..])
  }

  /** The digits from the first nonzero one on. */
  function Significand(d: seq<digit>): (r: seq<digit>)
    ensures r != [] ==> r[0] > 0
  {
    d[Leading(d)..]
  }

  lemma {:induction false} LeadingGrows(d: seq<digit>, x: digit)
    ensures Leading(d + [x]) == if Leading(d) < |d| || x > 0 then Leading(d) else |d| + 1
  {
    if d == [] {
      assert [] + [x] == [x] && [x][1..] == [];
    } else {
      assert (d + [x])[1..] == d[1..] + [x] && (d + [x])[0] == d[0];
      LeadingGrows(d[1..], x);
    }
  }

  lemma LeadingSnoc(d: seq<digit>, x: digit)
    ensures Significand(d + [x]) == if Significand(d) == [] && x == 0 then [] else Significand(d) + [x]
    ensures Significand(d) == [] ==> Leading(d) == |d|
    ensures Significand(d) != [] || x > 0 ==> Leading(d + [x]) == Leading(d)
  {
    hide Leading;
    LeadingGrows(d, x);
    var z := Leading(d);
    if z == |d| {
      assert d[z..] == [];
      assert (d + [x])[z..] == [x] == [] + [x];
      assert x == 0 ==> (d + [x])[z + 1..] == [];
    } else {
      assert |d[z..]| > 0;
      SliceSnoc(d, x, z);
    }
  }

  lemma SliceSnoc(d: seq<digit>, x: digit, z: nat)
    requires z <= |d|
    ensures (d + [x])[z..] == d[z..] + [x]
  {
  }

  lemma {:induction false} NumSignificand(d: seq<digit>)
    ensures Num(Significand(d)) == Num(d)
  {
    var z := Leading(d);
    AllZeros(d);
    assert d == Zeros(z) + d[z..];
    LeadingZeros(z, d[z..]);
  }

  lemma {:induction false} AllZeros(d: seq<digit>)
    ensures forall i :: 0 <= i < Leading(d) ==> d[i] == 0
  {
    if d != [] && d[0] == 0 {
      AllZeros(d[1..]);
      forall i | 0 <= i < Leading(d) ensures d[i] == 0 {
        if i > 0 { assert d[i] == d[1..][i - 1]; }
      }
    }
  }

  /** The digits array holds the first 34 digits of d and zeros. */
  ghost predicate Holds34(digits: array<digit>, d: seq<digit>)
    reads digits
  {
    && digits.Length == MAX_DIGITS && digits[..Min(MAX_DIGITS, |d|)] == d[..Min(MAX_DIGITS, |d|)]
    && forall i :: Min(MAX_DIGITS, |d|) <= i < MAX_DIGITS ==> digits[i] == 0
  }

  method KeepDigit(digits: array<digit>, ghost d: seq<digit>, stored: nat, x: digit)
    requires Holds34(digits, d) && stored == |d| < MAX_DIGITS
    modifies digits
    ensures Holds34(digits, d + [x])
  {
    digits[stored] := x;
    assert digits[..stored] == d;
    assert digits[..stored + 1] == d + [x];
    assert (d + [x])[..stored + 1] == d + [x];
  }

  lemma FullArray(digits: array<digit>, d: seq<digit>, x: digit)
    requires Holds34(digits, d) && |d| >= MAX_DIGITS
    ensures Holds34(digits, d + [x])
  {
    assert (d + [x])[..MAX_DIGITS] == d[..MAX_DIGITS];
  }

  /** The first reading loop: which digits there are, and which of them are kept. */
  method ReadNumeral(text: bytes, start: nat, digits: array<digit>)
    returns (ok: bool, i: nat, stored: nat, ndigits: nat, nread: nat, radixPosition: nat, sawRadix: bool, firstNonzero: nat)
    requires 0 !in text && start <= |text| && Holds34(digits, [])
    modifies digits
    ensures ok == ReadDigits(text, start, Numeral([], 0, false, start)).Some?
    ensures ok ==> var n := ReadDigits(text, start, Numeral([], 0, false, start)).value;
                   && i == n.end && nread == |n.digits| && radixPosition == n.after && sawRadix == n.point
                   && ndigits == |Significand(n.digits)| && stored == Min(MAX_DIGITS, ndigits)
                   && Holds34(digits, Significand(n.digits)) && firstNonzero == (if ndigits > 0 then Leading(n.digits) else 0)
  {
    hide Leading, Significand, Holds34, ReadDigits;
    i, stored, ndigits, nread, radixPosition, sawRadix, firstNonzero := start, 0, 0, 0, 0, false, 0;
    var foundNonzero := false;
    ghost var n := Numeral([], 0, false, start);
    NothingRead();
    while i < |text| && (IsDigit(text[i]) || text[i] == POINT)
      invariant i <= |text| && n.end == i && nread == |n.digits| && n.after == radixPosition <= nread && n.point == sawRadix
      invariant ReadDigits(text, i, n) == ReadDigits(text, start, Numeral([], 0, false, start))
      invariant ndigits == |Significand(n.digits)| && stored == Min(MAX_DIGITS, ndigits)
      invariant Holds34(digits, Significand(n.digits)) && firstNonzero == (if ndigits > 0 then Leading(n.digits) else 0)
      invariant foundNonzero == (ndigits > 0)
    {
      ReadStep(text, i, n);
      if text[i] == POINT {
        if sawRadix {
          return false, 0, 0, 0, 0, 0, true, 0;
        }
        sawRadix := true;
        i := i + 1;
        n := Numeral(n.digits, n.after, true, i);
        continue;
      }
      var x: digit := text[i] as int - 48;
      LeadingSnoc(n.digits, x);
      if stored < MAX_DIGITS {
        if x != 0 || foundNonzero {
          if !foundNonzero {
            firstNonzero := nread;
          }
          foundNonzero := true;
          KeepDigit(digits, Significand(n.digits), stored, x);
          stored := stored + 1;
        }
      } else {
        FullArray(digits, Significand(n.digits), x);
      }
      if foundNonzero {
        ndigits := ndigits + 1;
      }
      if sawRadix {
        radixPosition := radixPosition + 1;
      }
      nread, i := nread + 1, i + 1;
      n := Numeral(n.digits + [x], radixPosition, sawRadix, i);
    }
    ReadStep(text, i, n);
    ok := true;
  }

  lemma NothingRead()
    ensures Significand([]) == []
  {
  }

  /** Digits up to the last one that is not zero. */
  function SignificantCount(d: seq<digit>): (k: nat)
    ensures k <= |d| && (forall j :: k <= j < |d| ==> d[j] == 0) && (k > 0 ==> d[k - 1] != 0)
  {
    if d == [] || d[|d| - 1] != 0 then |d| else SignificantCount(d[..|d| - 1])
  }

  /** The digits marked as significant: trailing zeros are not, except that the marking stops at a point. */
  function Marked(n: Numeral): (r: nat)
    requires n.after <= |n.digits| && Leading(n.digits) < |n.digits|
    ensures SignificantCount(Significand(n.digits)) <= r <= |Significand(n.digits)|
  {
    var (z, whole, count) := (Leading(n.digits), |n.digits| - n.after, SignificantCount(Significand(n.digits)));
    if n.point && z + count < whole then whole - z else count
  }

  /** The digit found where digit j is looked for: the one behind it if a point is still to come, none on the point. */
  function Seen(n: Numeral, j: nat): Option<digit>
    requires n.after <= |n.digits| && j < |n.digits|
  {
    var whole := |n.digits| - n.after;
    if n.point && j + 1 == whole then None else if n.point && j + 1 < whole then Some(n.digits[j + 1]) else Some(n.digits[j])
  }

  /** The character the source takes for digit j, whose place it computes as if a point always stood in front. */
  lemma SeenAt(text: bytes, start: nat, n: Numeral, j: nat)
    requires Laid(text, start, n) && j < |n.digits|
    ensures var seen := At(text, start + j + if n.point then 1 else 0);
            if Seen(n, j) == None then seen == POINT else seen == 48 + Seen(n, j).value as int
  {
    var whole := |n.digits| - n.after;
    var k := if n.point && j + 1 < whole then j + 1 else j;
    if !(n.point && j + 1 == whole) {
      assert At(text, Place(start, n, k)) == 48 + n.digits[k] as int;
    }
  }

  /** Marks trailing zeros as not significant; stops at a point. */
  method CountSignificant(text: bytes, start: nat, ghost n: Numeral, ndigits: nat, firstNonzero: nat, sawRadix: bool)
    returns (significant: nat)
    requires Laid(text, start, n) && sawRadix == n.point
    requires ndigits == |Significand(n.digits)| > 0 && firstNonzero == Leading(n.digits)
    ensures 1 <= significant <= ndigits
    ensures forall j :: significant <= j < ndigits ==> Significand(n.digits)[j] == 0
    ensures significant == Marked(n)
  {
    hide Leading, SignificantCount;
    ghost var whole := |n.digits| - n.after;
    significant := ndigits;
    while At(text, firstNonzero + significant - 1 + start + if sawRadix then 1 else 0) == 48
      invariant 1 <= significant <= ndigits && (n.point && firstNonzero < whole ==> firstNonzero + significant >= whole)
      invariant forall j :: significant <= j < ndigits ==> Significand(n.digits)[j] == 0
      decreases significant
    {
      ghost var j := firstNonzero + significant - 1;
      assert n.point && j < whole ==> j == whole - 1;
      assert n.digits[j] == Significand(n.digits)[significant - 1];
      significant := significant - 1;
    }
    ghost var j := firstNonzero + significant - 1;
    if !(n.point && j < whole) {
      assert n.digits[j] == Significand(n.digits)[significant - 1];
    }
    CountStops(Significand(n.digits), significant);
  }

  lemma CountStops(d: seq<digit>, k: nat)
    requires 0 < k <= |d| && forall j :: k <= j < |d| ==> d[j] == 0
    ensures SignificantCount(d) <= k && (d[k - 1] != 0 ==> SignificantCount(d) == k)
  {
    hide SignificantCount;
  }

  /** Moves an exponent that is too great into the coefficient, if there is room for its zeros. */
  method ShiftUp(last: nat, significant: nat, exponent: int) returns (ok: bool, last': nat, exponent': int)
    requires last < MAX_DIGITS
    ensures exponent <= EXPONENT_MAX ==> ok && last' == last && exponent' == exponent
    ensures exponent > EXPONENT_MAX ==> (ok <==> significant == 0 || last + (exponent - EXPONENT_MAX) < MAX_DIGITS)
    ensures exponent > EXPONENT_MAX && ok ==>
            exponent' == EXPONENT_MAX && (significant > 0 ==> last' == last + (exponent - EXPONENT_MAX))
    ensures ok && significant > 0 ==> last' < MAX_DIGITS
  {
    last', exponent' := last, exponent;
    while exponent' > EXPONENT_MAX
      invariant last' < MAX_DIGITS && last' - last == exponent - exponent' >= 0
      invariant exponent > EXPONENT_MAX ==> exponent' >= EXPONENT_MAX
      invariant exponent <= EXPONENT_MAX ==> exponent' == exponent
      decreases exponent'
    {
      last' := last' + 1;
      if last' >= MAX_DIGITS {
        if significant == 0 {
          return true, last', EXPONENT_MAX;
        }
        return false, last', exponent';
      }
      exponent' := exponent' - 1;
    }
    ok := true;
  }

  /**
   * Drops digits that were not kept, and then kept zeros, while the exponent is too small. The character looked at
   * for a digit that was not kept is the right one only if the text has no leading zeros.
   */
  method ShiftDown(text: bytes, start: nat, sawRadix: bool, digits: array<digit>, stored: nat, ndigits: nat, last: nat,
                   significant: nat, exponent: int)
    returns (ok: bool, last': nat, exponent': int)
    requires digits.Length == MAX_DIGITS && 0 < stored <= ndigits && exponent <= EXPONENT_MAX
    requires exponent < EXPONENT_MIN || stored < ndigits ==> last == stored - 1 < MAX_DIGITS
    requires stored < ndigits ==> stored == MAX_DIGITS
    ensures ok ==> EXPONENT_MIN <= exponent' <= EXPONENT_MAX
    ensures exponent >= EXPONENT_MIN && stored == ndigits ==> ok && last' == last && exponent' == exponent
    ensures significant == 0 && stored == 1 == ndigits ==>
            ok && exponent' == if exponent < EXPONENT_MIN then EXPONENT_MIN else exponent
    ensures significant > 0 ==>
            var e := exponent + (ndigits - stored);
            var k := Missing(e);
            && (ok ==> last' == last - k && exponent' == e + k)
            && (ok <==> && e <= EXPONENT_MAX && AllZero(text, start + stored + (if sawRadix then 1 else 0), ndigits - stored)
                        && k <= last && forall i :: last - k < i <= last && i < MAX_DIGITS ==> digits[i] == 0)
  {
    hide AllZero;
    ok, last', exponent' := true, last, exponent;
    var n := ndigits;
    ghost var first := start + stored + if sawRadix then 1 else 0;
    OneMoreZero(text, first + (ndigits - stored), 0);
    while exponent' < EXPONENT_MIN || stored < n
      invariant stored <= n <= ndigits && last' <= last && exponent' <= EXPONENT_MAX
      invariant exponent' == exponent + (ndigits - n) + (last - last')
      invariant exponent' < EXPONENT_MIN || stored < n ==> last' < MAX_DIGITS
      invariant n > stored ==> last' == last == MAX_DIGITS - 1
      invariant last' < last ==> exponent' <= EXPONENT_MIN
      invariant significant > 0 ==> AllZero(text, first + (n - stored), ndigits - n)
      invariant forall i :: last' < i <= last && i < MAX_DIGITS ==> digits[i] == 0
      invariant exponent >= EXPONENT_MIN && stored == ndigits ==> n == ndigits && last' == last
      decreases n + last'
    {
      if last' == 0 {
        if significant == 0 {
          return true, 0, EXPONENT_MIN;
        }
        return false, 0, exponent';
      }
      if stored < n {
        OneMoreZero(text, first + (n - 1 - stored), ndigits - n);
        FewerZeros(text, first, n - 1 - stored, ndigits - stored);
        if At(text, n - 1 + start + if sawRadix then 1 else 0) as int - 48 != 0 && significant != 0 {
          return false, 0, exponent';
        }
        n := n - 1;
      } else {
        if digits[last'] != 0 {
          return false, 0, exponent';
        }
        last' := last' - 1;
      }
      if exponent' < EXPONENT_MAX {
        exponent' := exponent' + 1;
      } else {
        return false, 0, exponent';
      }
    }
  }

  /** How far an exponent is below the least one. */
  function Missing(e: int): nat {
    if e < EXPONENT_MIN then EXPONENT_MIN - e else 0
  }

  predicate AllZero(text: bytes, i: nat, count: nat) {
    forall j :: i <= j < i + count ==> At(text, j) == 48
  }

  lemma OneMoreZero(text: bytes, i: nat, count: nat)
    ensures AllZero(text, i, 0)
    ensures AllZero(text, i, count + 1) <==> At(text, i) == 48 && AllZero(text, i + 1, count)
  {
  }

  lemma FewerZeros(text: bytes, i: nat, j: nat, count: nat)
    requires j < count
    ensures AllZero(text, i, count) ==> At(text, i + j) == 48
  {
  }

  // ---------------------------------------------------------------------------------------------------------
  // Packing
  // ---------------------------------------------------------------------------------------------------------

  /** _mul_64x64: the product of two 64-bit words, from four 32-bit products, with no carry lost. */
  method Multiply64(left: word, right: word) returns (high: word, low: word)
    ensures high * TWO_64 + low == left * right
  {
    if left == 0 && right == 0 {
      return 0, 0;
    }
    var (leftHigh: int, leftLow: int) := (left / TWO_32, left % TWO_32);
    var (rightHigh: int, rightLow: int) := (right / TWO_32, right % TWO_32);
    HalfProducts(leftHigh, leftLow, rightHigh, rightLow);
    var productHigh := leftHigh * rightHigh;
    var productMid := leftHigh * rightLow;
    var productMid2 := leftLow * rightHigh;
    var productLow := leftLow * rightLow;
    productHigh := productHigh + productMid / TWO_32;
    productMid := productMid % TWO_32 + productMid2 + productLow / TWO_32;
    assert productMid < TWO_64;
    productHigh := productHigh + productMid / TWO_32;
    low := productMid % TWO_32 * TWO_32 + productLow % TWO_32;
    Recombined(left, right, productHigh, low);
    high := productHigh;
  }

  lemma HalfProducts(a: nat, b: nat, c: nat, d: nat)
    requires a < TWO_32 && b < TWO_32 && c < TWO_32 && d < TWO_32
    ensures 0 <= a * c <= (TWO_32 - 1) * (TWO_32 - 1) && 0 <= a * d <= (TWO_32 - 1) * (TWO_32 - 1)
    ensures 0 <= b * c <= (TWO_32 - 1) * (TWO_32 - 1) && 0 <= b * d <= (TWO_32 - 1) * (TWO_32 - 1)
    ensures (a * TWO_32 + b) * (c * TWO_32 + d) == a * c * TWO_64 + (a * d + b * c) * TWO_32 + b * d
  {
    Bounded(a, c, TWO_32 - 1);
    Bounded(a, d, TWO_32 - 1);
    Bounded(b, c, TWO_32 - 1);
    Bounded(b, d, TWO_32 - 1);
    assert a * TWO_32 * (c * TWO_32) == a * c * TWO_64;
    assert a * TWO_32 * d == a * d * TWO_32 && b * (c * TWO_32) == b * c * TWO_32;
  }

  lemma Bounded(a: nat, b: nat, m: nat)
    requires a <= m && b <= m
    ensures 0 <= a * b <= m * m
  {
    NonNegative(a, m - b);
    NonNegative(m - a, m);
    assert a * (m - b) == a * m - a * b && (m - a) * m == m * m - a * m;
  }

  lemma NonNegative(x: int, y: int)
    requires x >= 0 && y >= 0
    ensures x * y >= 0
  {
  }

  lemma Recombined(left: word, right: word, high: int, low: int)
    requires 0 <= low < TWO_64 && high * TWO_64 + low == left * right
    ensures 0 <= high < TWO_64
  {
    Bounded(left, right, TWO_64 - 1);
  }

  lemma NumNext(d: seq<digit>, i: nat)
    requires i < |d|
    ensures Num(d[..i + 1]) == Num(d[..i]) * 10 + d[i]
  {
    assert d[..i + 1] == d[..i] + [d[i]];
    NumSnoc(d[..i], d[i]);
  }

  /** The number of a run of at most 17 digits, which fits a 64-bit word. */
  method RunValue(digits: array<digit>, first: nat, end: nat) returns (value: word)
    requires first < end <= digits.Length && end - first <= 17
    ensures value == Num(digits[first..end])
  {
    hide Num, Pow10;
    ghost var run := digits[first..end];
    OneDigit(run);
    value := digits[first];
    var i := first + 1;
    while i < end
      invariant first < i <= end && value == Num(run[..i - first])
    {
      NumNext(run, i - first);
      FitsWord(run[..i - first + 1]);
      var v: int := value;
      value := v * 10 + digits[i];
      i := i + 1;
    }
    assert run[..end - first] == run;
  }

  lemma OneDigit(d: seq<digit>)
    requires d != []
    ensures Num(d[..1]) == d[0]
  {
    assert d[..1][..0] == [];
  }

  lemma FitsWord(d: seq<digit>)
    requires |d| <= 17
    ensures Num(d) < Pow10(17) < TWO_64
  {
    PowTable();
    hide Pow10, Num;
    NumBound(d);
    MorePower(|d|, 17);
  }

  lemma MorePower(m: nat, n: nat)
    requires m <= n
    ensures Pow10(m) <= Pow10(n)
  {
    hide Pow10;
    PowSplit(m, n - m);
    Times(Pow10(m), Pow10(n - m));
  }

  lemma Times(a: nat, b: nat)
    requires b > 0
    ensures a * b >= a
  {
  }

  /** The significand in two halves of 17 digits. */
  method EncodeSignificand(digits: array<digit>, last: nat, significant: nat) returns (high: word, low: word)
    requires digits.Length == MAX_DIGITS && (significant > 0 ==> last < MAX_DIGITS)
    ensures high * Pow10(17) + low == if significant == 0 then 0 else Num(digits[..last + 1])
    ensures high < Pow10(17) && low < Pow10(17)
  {
    hide Num;
    PowTable();
    if significant == 0 {
      return 0, 0;
    } else if last < 17 {
      low := RunValue(digits, 0, last + 1);
      assert digits[0..last + 1] == digits[..last + 1];
      FitsWord(digits[..last + 1]);
      high := 0;
    } else {
      high := RunValue(digits, 0, last - 16);
      low := RunValue(digits, last - 16, last + 1);
      FitsWord(digits[0..last - 16]);
      FitsWord(digits[last - 16..last + 1]);
      assert digits[..last + 1] == digits[0..last - 16] + digits[last - 16..last + 1];
      NumSplit(digits[0..last - 16], digits[last - 16..last + 1]);
    }
  }

  /** Joins the halves, carrying into the high word, and puts sign, exponent and significand into the bits. */
  method PackBits(negative: bool, high17: word, low17: word, exponent: int, ghost c: nat) returns (dec: Bits)
    requires c == high17 * Pow10(17) + low17 && c < Pow10(MAX_DIGITS) && EXPONENT_MIN <= exponent <= EXPONENT_MAX
    ensures dec == Pack(negative, c, exponent)
  {
    hide Pow10;
    PowTable();
    CoefficientFits();
    var high, low := Multiply64(high17, 100_000_000_000_000_000);
    var sum := (low + low17) % TWO_64;
    var top: int := if sum < low17 then high + 1 else high;
    CarryKept(high, low, low17);
    DivMod(top, TWO_64, sum);
    SmallTop(c);
    dec := Bits(HighBits(negative, exponent + EXPONENT_BIAS, top), sum);
  }

  lemma CarryKept(high: nat, low: word, addend: word)
    ensures var sum := (low + addend) % TWO_64;
            (if sum < addend then high + 1 else high) * TWO_64 + sum == high * TWO_64 + low + addend
  {
  }

  lemma SmallTop(c: nat)
    requires c < TWO_113
    ensures c / TWO_64 < TWO_49
  {
  }

  /** The high word; bit 49 of the significand decides the form of the combination field. */
  function HighBits(negative: bool, biased: nat, top: nat): (high: word)
    requires biased < 0x3000 && top < TWO_64
    ensures top < TWO_49 ==> high == top + biased * TWO_49 + (if negative then TWO_63 else 0)
  {
    var form := if top / TWO_49 % 2 == 1 then 3 * 0x2000_0000_0000_0000 + biased % 0x4000 * TWO_47 + top % TWO_47
                else biased * TWO_49 + top % TWO_49;
    form + if negative then TWO_63 else 0
  }

  lemma JoinedFits(high: nat, low: nat)
    requires high < Pow10(17) && low < Pow10(17)
    ensures high * Pow10(17) + low < Pow10(MAX_DIGITS)
  {
    PowTable();
  }

  // ---------------------------------------------------------------------------------------------------------
  // The whole conversion
  // ---------------------------------------------------------------------------------------------------------

  const NAN_BITS := Bits(NAN_HIGH, 0)

  function InfinityBits(negative: bool): Bits {
    Bits(INFINITY_HIGH + if negative then TWO_63 else 0, 0)
  }

  /** The branch that keeps the exponent from overflowing; it forgets the exponent whatever the digits are. */
  predicate ExponentLost(exponent: int, after: nat) {
    exponent <= after && after > exponent + 0x4000
  }

  /** The exponent of the last digit that was read. */
  function LastExponent(exponent: int, after: nat): int {
    if ExponentLost(exponent, after) then EXPONENT_MIN else exponent - after
  }

  function Clamp(e: int): int {
    if e < EXPONENT_MIN then EXPONENT_MIN else if e > EXPONENT_MAX then EXPONENT_MAX else e
  }

  /** How many of the digits make the coefficient: at most 34, and fewer while the exponent is too small. */
  function Keeps(d: seq<digit>, x: int): int {
    var kept := Min(MAX_DIGITS, |d|);
    kept - Missing(x + (|d| - kept))
  }

  /**
   * What holds of the coefficient c and the exponent e stored for digits d (without leading zeros) at exponent x:
   * they are the digits kept and the exponent of the last of these, they are the same number if at most 34 digits are
   * significant, and they are d and x themselves where those fit.
   */
  ghost predicate Exact(c: nat, e: int, d: seq<digit>, x: int) {
    && (d == [] ==> c == 0 && e == Clamp(x))
    && (d != [] && x <= EXPONENT_MAX ==> var m := Keeps(d, x); 0 < m <= |d| && c == Num(d[..m]) && e == x + (|d| - m))
    && (SignificantCount(d) <= MAX_DIGITS && d != [] ==> SameValue(c, e, Num(d), x))
    && (0 < |d| <= MAX_DIGITS && EXPONENT_MIN <= x <= EXPONENT_MAX ==> c == Num(d) && e == x)
    && (0 < |d| <= MAX_DIGITS && x > EXPONENT_MAX ==> e == EXPONENT_MAX)
  }

  /** The digits kept after shifting up: zeros of the array join the coefficient. */
  lemma ShiftedUp(digits: array<digit>, d: seq<digit>, last: nat)
    requires Holds34(digits, d) && 0 < |d| <= last + 1 <= MAX_DIGITS
    ensures Num(digits[..last + 1]) == Num(d) * Pow10(last + 1 - |d|)
  {
    hide Num, Pow10;
    var n := last + 1 - |d|;
    assert d[..|d|] == d;
    assert digits[..last + 1] == d + Zeros(n);
    TrailingZeros(d, n);
  }

  /** The digits kept after shifting down: what was dropped was zeros. */
  lemma ShiftedDown(digits: array<digit>, d: seq<digit>, stored: nat, last: nat)
    requires Holds34(digits, d) && d != [] && stored == Min(MAX_DIGITS, |d|) && last < stored
    requires forall i :: last < i < stored ==> digits[i] == 0
    requires SignificantCount(d) <= MAX_DIGITS
    ensures Num(d) == Num(digits[..last + 1]) * Pow10(|d| - (last + 1))
  {
    hide Num, Pow10, SignificantCount;
    var n := |d| - (last + 1);
    forall i | last < i < |d| ensures d[i] == 0 {
      if i < stored { assert d[i] == d[..stored][i] == digits[..stored][i]; }
    }
    assert digits[..last + 1] == digits[..stored][..last + 1] == d[..stored][..last + 1] == d[..last + 1];
    assert d == d[..last + 1] + Zeros(n);
    TrailingZeros(d[..last + 1], n);
  }

  /**
   * Whether the last k digits can be dropped: they must be zeros, and fewer than all digits; and they must not begin
   * with the digit right before the point, because the digit to be rounded is then looked for one character too far.
   */
  predicate Shortens(n: Numeral, k: nat)
    requires n.after <= |n.digits|
  {
    var d := Significand(n.digits);
    SignificantCount(d) + k <= |d| && !(n.point && Leading(n.digits) + (|d| - k) + 1 == |n.digits| - n.after)
  }

  predicate ZerosSeen(n: Numeral, first: nat, end: nat)
    requires n.after <= |n.digits| && end <= |n.digits|
  {
    forall j :: first <= j < end ==> Seen(n, j) == Some(0)
  }

  /**
   * Which numbers are accepted, for digits ending at exponent x. Too great an exponent needs room for its zeros. Of
   * more than 34 digits those past the first 34 must be zeros where they are looked for; then zeros are dropped until
   * the exponent is great enough; and if a digit marked as significant is now past the last, a zero must be found there.
   */
  predicate Accepts(n: Numeral, x: int)
    requires n.after <= |n.digits|
  {
    var d := Significand(n.digits);
    var kept := Min(MAX_DIGITS, |d|);
    var e := x + (|d| - kept);
    d == [] ||
    if x > EXPONENT_MAX then |d| + (x - EXPONENT_MAX) <= MAX_DIGITS
    else
      && e <= EXPONENT_MAX && 0 < Keeps(d, x)
      && ZerosSeen(n, kept, |d|)
      && (forall i :: Keeps(d, x) <= i < kept ==> d[i] == 0)
      && (Keeps(d, x) < Marked(n) ==> Seen(n, Leading(n.digits) + Keeps(d, x)) == Some(0))
  }

  /** Of at most 34 digits the trailing zeros alone decide, unless the point is looked at in place of a digit. */
  lemma AcceptsShort(n: Numeral, x: int)
    requires n.after <= |n.digits| && 0 < |Significand(n.digits)| <= MAX_DIGITS
    ensures EXPONENT_MIN <= x <= EXPONENT_MAX ==> Accepts(n, x)
    ensures x > EXPONENT_MAX ==> (Accepts(n, x) <==> |Significand(n.digits)| + (x - EXPONENT_MAX) <= MAX_DIGITS)
    ensures x < EXPONENT_MIN ==> (Accepts(n, x) <==> Shortens(n, EXPONENT_MIN - x))
  {
    hide Leading, SignificantCount;
    var d := Significand(n.digits);
    if x < EXPONENT_MIN {
      var k := EXPONENT_MIN - x;
      DroppedZeros(d, k);
      if SignificantCount(d) + k <= |d| && |d| - k < Marked(n) {
        SeenZero(n, |d| - k);
      }
    }
  }

  /** Among the digits before the point, behind the last that is not zero, only zeros and the point are seen. */
  lemma SeenZero(n: Numeral, keep: nat)
    requires n.after <= |n.digits| && Leading(n.digits) < |n.digits|
    requires SignificantCount(Significand(n.digits)) <= keep < Marked(n)
    ensures Seen(n, Leading(n.digits) + keep) ==
            if Leading(n.digits) + keep + 1 == |n.digits| - n.after then None else Some(0)
  {
    hide Leading, SignificantCount;
    var (z, whole) := (Leading(n.digits), |n.digits| - n.after);
    assert z + keep < whole;
    if z + keep + 1 < whole {
      assert n.digits[z + keep + 1] == Significand(n.digits)[keep + 1];
    }
  }

  /** At most 34 digits are significant, and zeros put on or taken off bring the exponent into range. */
  predicate Fitting(d: seq<digit>, x: int) {
    var s := SignificantCount(d);
    s <= MAX_DIGITS && EXPONENT_MIN <= x + (|d| - s) && x + |d| <= EXPONENT_MAX + MAX_DIGITS
  }

  /** The point is looked at in place of a digit: right behind the first digit dropped, or behind the 34th digit. */
  predicate PointInTheWay(n: Numeral, x: int)
    requires n.after <= |n.digits|
  {
    var (d, whole) := (Significand(n.digits), |n.digits| - n.after);
    n.point && (Leading(n.digits) + Keeps(d, x) + 1 == whole || MAX_DIGITS < whole <= |d|)
  }

  /** How far to the left of the digits past the 34th the source looks: as far as there are zeros in front. */
  function TooFarLeft(n: Numeral): int
    requires n.after <= |n.digits|
  {
    Leading(n.digits) - if n.point && |Significand(n.digits)| < |n.digits| - n.after then 1 else 0
  }

  /** The digits found there are zeros. */
  predicate ZerosToTheLeft(n: Numeral)
    requires n.after <= |n.digits|
  {
    var d := Significand(n.digits);
    forall k :: 0 <= k < |d| && MAX_DIGITS <= k + TooFarLeft(n) < |d| ==> d[k] == 0
  }

  /** Numbers that fit are accepted unless the point is in the way, or digits are taken for those past the 34th. */
  lemma AcceptsFitting(n: Numeral, x: int)
    requires n.after <= |n.digits| && Significand(n.digits) != [] && Fitting(Significand(n.digits), x)
    ensures Accepts(n, x) <==> x > EXPONENT_MAX || (!PointInTheWay(n, x) && ZerosToTheLeft(n))
  {
    hide Leading, SignificantCount, Seen, ZerosSeen, ZerosToTheLeft;
    var d := Significand(n.digits);
    if x <= EXPONENT_MAX {
      var keep := Keeps(d, x);
      FirstSignificant(d);
      assert SignificantCount(d) <= keep <= Min(MAX_DIGITS, |d|);
      SeenInstead(n);
      if keep < Marked(n) { SeenZero(n, keep); }
    }
  }

  lemma FirstSignificant(d: seq<digit>)
    requires d != [] && d[0] > 0
    ensures SignificantCount(d) > 0
  {
    hide SignificantCount;
  }

  /** What is seen in place of the digits past the 34th. */
  lemma SeenInstead(n: Numeral)
    requires n.after <= |n.digits| && Significand(n.digits) != []
    ensures var (d, whole) := (Significand(n.digits), |n.digits| - n.after);
            ZerosSeen(n, Min(MAX_DIGITS, |d|), |d|) <==> !(n.point && MAX_DIGITS < whole <= |d|) && ZerosToTheLeft(n)
  {
    hide Leading;
    var (d, z, whole) := (Significand(n.digits), Leading(n.digits), |n.digits| - n.after);
    if n.point && MAX_DIGITS < whole <= |d| {
      assert Seen(n, whole - 1) == None;
    } else if |d| > MAX_DIGITS {
      AllZeros(n.digits);
      forall j | MAX_DIGITS <= j < |d|
        ensures var k := j - TooFarLeft(n); Seen(n, j) == Some(if k < 0 then 0 else d[k])
      {
        assert j - TooFarLeft(n) >= 0 ==> n.digits[z..][j - TooFarLeft(n)] == n.digits[z + (j - TooFarLeft(n))];
      }
      if ZerosSeen(n, MAX_DIGITS, |d|) {
        forall k | 0 <= k < |d| && MAX_DIGITS <= k + TooFarLeft(n) < |d| ensures d[k] == 0 {
          assert Seen(n, k + TooFarLeft(n)) == Some(0);
        }
      }
    }
  }

  /** Accepted numbers fit, if at most 34 of their digits are significant. */
  lemma AcceptedFits(n: Numeral, x: int)
    requires n.after <= |n.digits| && Significand(n.digits) != [] && Accepts(n, x)
    requires SignificantCount(Significand(n.digits)) <= MAX_DIGITS
    ensures Fitting(Significand(n.digits), x)
  {
    hide Leading, SignificantCount, Seen, ZerosSeen, Marked;
    var d := Significand(n.digits);
    if x <= EXPONENT_MAX {
      CountStops(d, Keeps(d, x));
    }
  }

  /** The characters looked at for digits that were not kept. */
  lemma SeenBehind(text: bytes, start: nat, n: Numeral, first: nat, end: nat)
    requires Laid(text, start, n) && first <= end <= |n.digits|
    ensures AllZero(text, start + first + (if n.point then 1 else 0), end - first) <==>
            ZerosSeen(n, first, end)
  {
    hide Seen;
    var from := start + first + if n.point then 1 else 0;
    forall j | first <= j < end ensures Seen(n, j) == Some(0) <==> At(text, from + (j - first)) == 48 {
      SeenAt(text, start, n, j);
    }
    if forall j :: first <= j < end ==> Seen(n, j) == Some(0) {
      forall i | from <= i < from + (end - first) ensures At(text, i) == 48 {
        assert Seen(n, i - from + first) == Some(0);
      }
    }
  }

  /** Everything between reading and packing: the coefficient's last digit and the exponent it ends up with. */
  method Normalize(text: bytes, start: nat, ghost n: Numeral, digits: array<digit>, stored0: nat, ndigits0: nat,
                   sawRadix: bool, radixPosition: nat, firstNonzero: nat, exponent0: int)
    returns (ok: bool, last: nat, significant: nat, exponent: int)
    requires Laid(text, start, n) && sawRadix == n.point && radixPosition == n.after
    requires ndigits0 == |Significand(n.digits)| && stored0 == Min(MAX_DIGITS, ndigits0)
    requires Holds34(digits, Significand(n.digits)) && (ndigits0 > 0 ==> firstNonzero == Leading(n.digits))
    requires INT_MIN <= exponent0 <= INT_MAX
    ensures ok ==> EXPONENT_MIN <= exponent <= EXPONENT_MAX && (significant == 0 <==> ndigits0 == 0)
    ensures ok && significant > 0 ==> last < MAX_DIGITS
    ensures var (d, x) := (Significand(n.digits), LastExponent(exponent0, n.after));
            && (ok ==> Exact(if significant == 0 then 0 else Num(digits[..last + 1]), exponent, d, x))
            && (ok <==> Accepts(n, x))
  {
    hide Num, Pow10, Leading, SignificantCount, SameValue, Exact, Marked, Seen, AllZero, Laid, ZerosSeen;
    ghost var d := Significand(n.digits);
    ghost var x := LastExponent(exponent0, n.after);
    var stored, ndigits := stored0, ndigits0;
    last, significant := 0, 0;
    if stored == 0 {
      stored, ndigits := 1, 1;
    } else {
      last := stored - 1;
      significant := CountSignificant(text, start, n, ndigits, firstNonzero, sawRadix);
    }
    exponent := if exponent0 <= radixPosition && radixPosition > exponent0 + 0x4000 then EXPONENT_MIN
                else exponent0 - radixPosition;
    ok, last, exponent := ShiftUp(last, significant, exponent);
    if !ok {
      return;
    }
    if d != [] {
      SeenBehind(text, start, n, stored, ndigits);
      KeptZeros(digits, d, Missing(x + (|d| - stored)));
    }
    ok, last, exponent := ShiftDown(text, start, sawRadix, digits, stored, ndigits, last, significant, exponent);
    if !ok {
      return;
    }
    if last + 1 < significant {
      assert d != [];
      SeenAt(text, start, n, Leading(n.digits) + last + 1);
      var roundDigit := At(text, firstNonzero + last + start + (if sawRadix then 1 else 0) + 1) as int - 48;
      if roundDigit != 0 {
        ok := false;
        return;
      }
    }
    if d == [] {
      ExactZero(x);
    } else {
      if x > EXPONENT_MAX {
        ExactUp(digits, d, last, x);
      } else {
        ExactDown(digits, d, last, exponent, x);
      }
    }
  }

  /** The last k of the digits kept are the zeros of the array. */
  lemma KeptZeros(digits: array<digit>, d: seq<digit>, k: nat)
    requires Holds34(digits, d) && d != []
    ensures var kept := Min(MAX_DIGITS, |d|);
            k < kept ==> ((forall i :: kept - 1 - k < i <= kept - 1 && i < MAX_DIGITS ==> digits[i] == 0)
                          <==> (forall i :: kept - k <= i < kept ==> d[i] == 0))
  {
    var kept := Min(MAX_DIGITS, |d|);
    forall i | 0 <= i < kept ensures digits[i] == d[i] {
      assert digits[..kept][i] == d[..kept][i];
    }
  }

  /** The last k of the digits can be dropped exactly when they are zeros and not all of the digits. */
  lemma DroppedZeros(d: seq<digit>, k: nat)
    requires d != [] && d[0] > 0
    ensures (k < |d| && forall i :: |d| - k <= i < |d| ==> d[i] == 0) <==> SignificantCount(d) + k <= |d|
  {
    hide SignificantCount;
    if k < |d| && forall i :: |d| - k <= i < |d| ==> d[i] == 0 {
      CountStops(d, |d| - k);
    }
  }

  lemma ExactZero(x: int)
    ensures Exact(0, Clamp(x), [], x)
  {
  }

  lemma ExactUp(digits: array<digit>, d: seq<digit>, last: nat, x: int)
    requires Holds34(digits, d) && d != [] && x > EXPONENT_MAX && last + 1 == |d| + (x - EXPONENT_MAX) <= MAX_DIGITS
    ensures Exact(Num(digits[..last + 1]), EXPONENT_MAX, d, x)
  {
    hide Num, Pow10, SignificantCount;
    ShiftedUp(digits, d, last);
  }

  lemma ExactDown(digits: array<digit>, d: seq<digit>, last: nat, e: int, x: int)
    requires Holds34(digits, d) && d != [] && x <= EXPONENT_MAX && last < Min(MAX_DIGITS, |d|)
    requires last + 1 == Keeps(d, x) && e == x + (|d| - Keeps(d, x))
    requires forall i :: last < i < Min(MAX_DIGITS, |d|) ==> digits[i] == 0
    ensures Exact(Num(digits[..last + 1]), e, d, x)
  {
    hide Num, Pow10, SignificantCount;
    if SignificantCount(d) <= MAX_DIGITS {
      ShiftedDown(digits, d, Min(MAX_DIGITS, |d|), last);
    }
    var kept := Min(MAX_DIGITS, |d|);
    assert digits[..last + 1] == digits[..kept][..last + 1] == d[..kept][..last + 1] == d[..last + 1];
    if |d| <= MAX_DIGITS && last == |d| - 1 {
      assert d[..last + 1] == d;
    }
  }

  /**
   * The outcome for a number: accepted numbers of at most 34 significant digits are stored exactly, and it is known
   * which numbers are accepted.
   */
  ghost predicate Stores(negative: bool, n: Numeral, exponent: int, ok: bool, dec: Bits)
    requires n.after <= |n.digits|
  {
    var (d, x) := (Significand(n.digits), LastExponent(exponent, n.after));
    && (ok ==> Canonical(dec) && Negative(dec) == negative && Exact(Stored(dec), Exponent(dec), d, x)
               && EXPONENT_MIN <= Exponent(dec) <= EXPONENT_MAX)
    && (ok <==> Accepts(n, x))
  }

  /** What a text is converted to; a failure leaves not-a-number. */
  ghost predicate Converted(p: Parsed, ok: bool, dec: Bits) {
    && (!ok ==> dec == NAN_BITS)
    && match p
       case Malformed => !ok
       case Infinity(negative) => ok && dec == InfinityBits(negative)
       case NotANumber => ok && dec == NAN_BITS
       case Number(negative, n, exponent) => n.after <= |n.digits| && Stores(negative, n, exponent, ok, dec)
  }

  /** bson_decimal128_from_string, on a C string. */
  method FromString(text: bytes) returns (ok: bool, dec: Bits)
    requires 0 !in text
    ensures Converted(Parse(text), ok, dec)
  {
    hide ReadDigits, ExponentAt, SameLetters, Stores;
    var start := StartOf(text);
    var isNegative := At(text, 0) == MINUS;
    if !IsDigit(At(text, start)) && At(text, start) != POINT {
      var rest := text[start..];
      if SameLetters(rest, INF) || SameLetters(rest, INFINITY) {
        return true, InfinityBits(isNegative);
      }
      return SameLetters(rest, NAN), NAN_BITS;
    }
    ok, dec := ReadNumber(text, start, isNegative);
  }

  method ReadNumber(text: bytes, start: nat, isNegative: bool) returns (ok: bool, dec: Bits)
    requires 0 !in text && start == StartOf(text) && isNegative == (At(text, 0) == MINUS)
    requires IsDigit(At(text, start)) || At(text, start) == POINT
    ensures Converted(Parse(text), ok, dec)
  {
    hide ReadDigits, ExponentAt, Significand, Leading, Holds34, Laid, SameLetters, Stores;
    var digits := new digit[MAX_DIGITS](_ => 0);
    EmptyArray(digits);
    var i, stored, ndigits, nread, radixPosition, sawRadix, firstNonzero;
    ok, i, stored, ndigits, nread, radixPosition, sawRadix, firstNonzero := ReadNumeral(text, start, digits);
    if !ok || (sawRadix && nread == 0) {
      return false, NAN_BITS;
    }
    var exponent := ExponentAt(text, i);
    if exponent == None || exponent.value.1 < |text| {
      return false, NAN_BITS;
    }
    ghost var n := ReadDigits(text, start, Numeral([], 0, false, start)).value;
    NothingLaid(text, start);
    ReadLaid(text, start, start, Numeral([], 0, false, start));
    ok, dec := Store(text, start, n, isNegative, digits, stored, ndigits, sawRadix, radixPosition, firstNonzero, exponent.value.0);
  }

  lemma NothingLaid(text: bytes, start: nat)
    requires start <= |text|
    ensures Laid(text, start, Numeral([], 0, false, start))
  {
  }

  /** The digits and the exponent that were read become bits. */
  method Store(text: bytes, start: nat, ghost n: Numeral, isNegative: bool, digits: array<digit>, stored: nat, ndigits: nat,
               sawRadix: bool, radixPosition: nat, firstNonzero: nat, exponent: int)
    returns (ok: bool, dec: Bits)
    requires Laid(text, start, n) && sawRadix == n.point && radixPosition == n.after
    requires ndigits == |Significand(n.digits)| && stored == Min(MAX_DIGITS, ndigits)
    requires Holds34(digits, Significand(n.digits)) && (ndigits > 0 ==> firstNonzero == Leading(n.digits))
    requires INT_MIN <= exponent <= INT_MAX
    ensures !ok ==> dec == NAN_BITS
    ensures n.after <= |n.digits| && Stores(isNegative, n, exponent, ok, dec)
  {
    hide Significand, Leading, Num, Pow10, Stored, Exponent, Negative, Pack, Combination, Exact, Accepts;
    var last, significant, e;
    ok, last, significant, e :=
      Normalize(text, start, n, digits, stored, ndigits, sawRadix, radixPosition, firstNonzero, exponent);
    if !ok {
      return false, NAN_BITS;
    }
    var high, low := EncodeSignificand(digits, last, significant);
    JoinedFits(high, low);
    ghost var c: nat := if significant == 0 then 0 else Num(digits[..last + 1]);
    dec := PackBits(isNegative, high, low, e, c);
    PackFields(isNegative, c, e);
  }

  lemma EmptyArray(digits: array<digit>)
    requires digits.Length == MAX_DIGITS && forall i :: 0 <= i < MAX_DIGITS ==> digits[i] == 0
    ensures Holds34(digits, [])
  {
  }
}
