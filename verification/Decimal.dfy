/** Decimal digit strings and powers of ten. */
module Decimal {

  type digit = x: int | 0 <= x < 10

  function Pow10(n: nat): (r: nat)
    ensures r > 0
  {
    if n == 0 then 1 else 10 * Pow10(n - 1)
  }

  /** The number a digit string stands for, most significant digit first. */
  function Num(d: seq<digit>): nat {
    if d == [] then 0 else Num(d[..|d| - 1]) * 10 + d[|d| - 1]
  }

  /** The digits of a number, without leading zeros; zero has one digit. */
  function Digits(n: nat): (r: seq<digit>)
    ensures |r| > 0 && (n > 0 ==> r[0] > 0) && (n == 0 ==> r == [0])
  {
    if n < 10 then [n] else Digits(n / 10) + [n % 10]
  }

  lemma NumSnoc(d: seq<digit>, x: digit)
    ensures Num(d + [x]) == Num(d) * 10 + x
  {
    assert (d + [x])[..|d|] == d;
  }

  lemma {:induction false} PowSplit(m: nat, n: nat)
    ensures Pow10(m + n) == Pow10(m) * Pow10(n)
  {
    if m > 0 {
      PowSplit(m - 1, n);
      assert Pow10(m + n) == 10 * Pow10(m - 1 + n);
    }
  }

  lemma {:induction false} NumSplit(a: seq<digit>, b: seq<digit>)
    ensures Num(a + b) == Num(a) * Pow10(|b|) + Num(b)
    decreases |b|
  {
    if b == [] {
      assert a + b == a;
    } else {
      var (b', x) := (b[..|b| - 1], b[|b| - 1]);
      NumSplit(a, b');
      assert a + b == (a + b') + [x];
      NumSnoc(a + b', x);
      Distribute(Num(a), Pow10(|b'|), Num(b'), x);
    }
  }

  lemma Distribute(a: nat, p: nat, b: nat, x: nat)
    ensures (a * p + b) * 10 + x == a * (10 * p) + (b * 10 + x)
  {
  }

  lemma {:induction false} NumBound(d: seq<digit>)
    ensures Num(d) < Pow10(|d|)
  {
    if d != [] { NumBound(d[..|d| - 1]); }
  }

  lemma {:induction false} NumLower(d: seq<digit>)
    requires d != [] && d[0] > 0
    ensures Num(d) >= Pow10(|d| - 1)
  {
    if |d| == 1 {
      assert d[..0] == [];
    } else {
      NumLower(d[..|d| - 1]);
    }
  }

  lemma {:induction false} NumDigits(n: nat)
    ensures Num(Digits(n)) == n
  {
    if n >= 10 {
      NumDigits(n / 10);
      NumSnoc(Digits(n / 10), n % 10);
    } else {
      assert [n][..0] == [];
    }
  }

  /** A digit string without leading zeros is the digits of its number. */
  lemma {:induction false} DigitsNum(d: seq<digit>)
    requires d != [] && d[0] > 0
    ensures Digits(Num(d)) == d
  {
    if |d| == 1 {
      assert d[..0] == [] && Num(d) == d[0];
    } else {
      var (d', x) := (d[..|d| - 1], d[|d| - 1]);
      DigitsNum(d');
      NumLower(d');
      assert Num(d) / 10 == Num(d') && Num(d) % 10 == x;
      assert d == d' + [x];
    }
  }

  function Zeros(n: nat): (r: seq<digit>)
    ensures |r| == n && forall i :: 0 <= i < n ==> r[i] == 0
  {
    seq(n, _ => 0)
  }

  lemma {:induction false} NumZeros(n: nat)
    ensures Num(Zeros(n)) == 0
  {
    if n > 0 {
      NumZeros(n - 1);
      assert Zeros(n)[..n - 1] == Zeros(n - 1);
    }
  }

  lemma LeadingZeros(n: nat, d: seq<digit>)
    ensures Num(Zeros(n) + d) == Num(d)
  {
    NumZeros(n);
    NumSplit(Zeros(n), d);
  }

  lemma TrailingZeros(d: seq<digit>, n: nat)
    ensures Num(d + Zeros(n)) == Num(d) * Pow10(n)
  {
    NumZeros(n);
    NumSplit(d, Zeros(n));
  }

  /** c times ten to the e is v times ten to the x, without leaving the integers. */
  predicate SameValue(c: nat, e: int, v: nat, x: int) {
    if e >= x then c * Pow10(e - x) == v else c == v * Pow10(x - e)
  }

  /** The same nonzero coefficient stands for the same number only at the same exponent. */
  lemma SameCoefficient(v: nat, e: int, x: int)
    requires v > 0
    ensures SameValue(v, e, v, x) ==> e == x
  {
    if e != x {
      var k := if e > x then e - x else x - e;
      assert Pow10(k) == 10 * Pow10(k - 1);
      Grows(v, Pow10(k));
    }
  }

  lemma Grows(v: nat, p: nat)
    requires v > 0 && p > 1
    ensures v * p > v
  {
  }
}
