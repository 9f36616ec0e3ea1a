/** Decimal numerals, as ASCII. */
module Decimal {
  import opened Common

  /** The ASCII numeral of `n`, without leading zeros. */
  function Numeral(n: nat): (s: seq<Byte>)
    ensures s != []
  {
    if n < 10 then [0x30 + n] else Numeral(n / 10) + [0x30 + n % 10]
  }

  function Pow10(n: nat): (p: nat)
    ensures p > 0
  {
    if n == 0 then 1 else 10 * Pow10(n - 1)
  }

  /** The last `width` digits of `n`, zero-filled. */
  function Fixed(n: nat, width: nat): (s: seq<Byte>)
    ensures |s| == width
  {
    if width == 0 then [] else Fixed(n / 10, width - 1) + [0x30 + n % 10]
  }

  /** Zero-filled to at least `width` digits, as `{:0<width>}` writes it. */
  function Filled(n: nat, width: nat): seq<Byte> {
    if n < Pow10(width) then Fixed(n, width) else Numeral(n)
  }

  predicate IsDigit(b: Byte) {
    0x30 <= b <= 0x39
  }

  predicate AllDigits(s: seq<Byte>) {
    forall b :: b in s ==> IsDigit(b)
  }

  /** The number that digits spell, place by place. */
  function ValueOf(digits: seq<Byte>): int {
    if digits == [] then 0
    else 10 * ValueOf(digits[..|digits| - 1]) + (digits[|digits| - 1] as int - 0x30)
  }

  /** What is written reads back. */
  lemma {:induction false} FixedReads(n: nat, width: nat)
    ensures AllDigits(Fixed(n, width))
    ensures n < Pow10(width) ==> ValueOf(Fixed(n, width)) == n
  {
    if width > 0 {
      FixedReads(n / 10, width - 1);
      assert Fixed(n, width)[..width - 1] == Fixed(n / 10, width - 1);
    }
  }

  lemma {:induction false} NumeralReads(n: nat)
    ensures AllDigits(Numeral(n)) && ValueOf(Numeral(n)) == n
    ensures Numeral(n)[0] == 0x30 <==> n == 0
  {
    if n >= 10 {
      NumeralReads(n / 10);
      assert Numeral(n)[..|Numeral(n)| - 1] == Numeral(n / 10);
    } else {
      assert Numeral(n)[..0] == [];
    }
  }

  /** A zero-filled number reads back, and has no zero in front beyond its width. */
  lemma FilledReads(n: nat, width: nat)
    ensures var s := Filled(n, width);
            AllDigits(s) && ValueOf(s) == n && |s| >= width && (|s| > width > 0 ==> s[0] != 0x30)
  {
    if n < Pow10(width) {
      FixedReads(n, width);
    } else {
      NumeralReads(n);
      NumeralLength(n);
      Pow10Reflects(width, |Numeral(n)|);
    }
  }

  lemma {:induction false} NumeralLength(n: nat)
    ensures n < Pow10(|Numeral(n)|)
    ensures n > 0 ==> Pow10(|Numeral(n)| - 1) <= n
  {
    if n >= 10 {
      NumeralLength(n / 10);
      assert Numeral(n)[..|Numeral(n)| - 1] == Numeral(n / 10);
    } else {
      assert Pow10(1) == 10;
    }
  }

  lemma {:induction false} Pow10Grows(a: nat, b: nat)
    requires a <= b
    ensures Pow10(a) <= Pow10(b)
    decreases b - a
  {
    if a < b {
      Pow10Grows(a, b - 1);
    }
  }

  lemma Pow10Reflects(a: nat, b: nat)
    requires Pow10(a) < Pow10(b)
    ensures a < b
  {
    if b <= a {
      Pow10Grows(b, a);
    }
  }

  lemma NumeralLengthGrows(a: nat, b: nat)
    requires a <= b
    ensures |Numeral(a)| <= |Numeral(b)|
  {
    NumeralLength(a);
    NumeralLength(b);
    if a > 0 {
      Pow10Reflects(|Numeral(a)| - 1, |Numeral(b)|);
    }
  }

  lemma {:induction false} NumeralIsShort(n: nat)
    ensures |Numeral(n)| <= n / 10 + 1
  {
    if n >= 10 {
      NumeralIsShort(n / 10);
    }
  }

  lemma {:induction false} FixedInjective(a: nat, b: nat, width: nat)
    requires a < Pow10(width) && b < Pow10(width) && Fixed(a, width) == Fixed(b, width)
    ensures a == b
  {
    if width > 0 {
      assert Fixed(a, width)[..width - 1] == Fixed(a / 10, width - 1);
      assert Fixed(b, width)[..width - 1] == Fixed(b / 10, width - 1);
      assert Fixed(a, width)[width - 1] == Fixed(b, width)[width - 1];
      FixedInjective(a / 10, b / 10, width - 1);
    }
  }

  /** A numeral is the number written at its own width. */
  lemma {:induction false} NumeralIsFixed(n: nat)
    ensures Numeral(n) == Fixed(n, |Numeral(n)|)
  {
    if n >= 10 {
      NumeralIsFixed(n / 10);
    }
  }

  /** The leading digits are those of the quotient. */
  lemma {:induction false} FixedLeads(n: nat, width: nat, more: nat)
    ensures Fixed(n, width + more)[..width] == Fixed(n / Pow10(more), width)
    decreases more
  {
    if more == 0 {
      assert Fixed(n, width)[..width] == Fixed(n, width);
    } else {
      FixedLeads(n / 10, width, more - 1);
      QuotientTwice(n, Pow10(more - 1));
    }
  }

  lemma QuotientTwice(n: nat, d: nat)
    requires d > 0
    ensures n / 10 / d == n / (10 * d)
  {
    var q, r := n / 10 / d, n / 10 % d;
    assert n / 10 == d * q + r;
    assert 10 * (d * q + r) == 10 * d * q + 10 * r;
    DivisionIs(n, 10 * d, q, n % 10 + 10 * r);
  }

  lemma {:induction false} Pow10Adds(a: nat, b: nat)
    ensures Pow10(a + b) == Pow10(a) * Pow10(b)
    decreases b
  {
    if b > 0 {
      Pow10Adds(a, b - 1);
    }
  }

  /** A quotient and remainder fix the division. */
  lemma DivisionIs(n: int, unit: int, q: int, r: int)
    requires unit > 0 && 0 <= r < unit && n == unit * q + r
    ensures n / unit == q && n % unit == r
  {
    var more := n / unit - q;
    assert n == unit * (q + more) + n % unit;
    assert unit * (q + more) == unit * q + unit * more;
    MultipleIsZero(unit, more, r - n % unit);
  }

  lemma MultipleIsZero(unit: int, k: int, difference: int)
    requires unit > 0 && unit * k == difference && -unit < difference < unit
    ensures k == 0
  {
    if k >= 1 {
      MultipleGrows(unit, k);
    } else if k <= -1 {
      MultipleGrows(unit, -k);
    }
  }

  lemma MultipleGrows(unit: int, k: int)
    requires unit > 0 && k >= 1
    ensures unit * k >= unit
  {
  }

  /** Byte strings in dictionary order. */
  predicate Less(a: seq<Byte>, b: seq<Byte>) {
    b != [] && (a == [] || a[0] < b[0] || (a[0] == b[0] && Less(a[1..], b[1..])))
  }

  /** Dictionary order is a strict total order. */
  lemma {:induction false} LessFacts(a: seq<Byte>, b: seq<Byte>, c: seq<Byte>)
    ensures !Less(a, a)
    ensures Less(a, b) || a == b || Less(b, a)
    ensures Less(a, b) && Less(b, c) ==> Less(a, c)
    decreases |a| + |b| + |c|
  {
    if a != [] && b != [] && c != [] {
      LessFacts(a[1..], b[1..], c[1..]);
      assert a == [a[0]] + a[1..] && b == [b[0]] + b[1..];
    } else if a != [] && b != [] {
      LessFacts(a[1..], b[1..], []);
      assert a == [a[0]] + a[1..] && b == [b[0]] + b[1..];
    } else if a != [] {
      LessFacts(a[1..], [], []);
    }
  }

  /** The first `n` bytes are the same, and then `a` ends or has the smaller byte. */
  predicate LessAt(a: seq<Byte>, b: seq<Byte>, n: nat) {
    n <= |a| && n < |b| && a[..n] == b[..n] && (n == |a| || a[n] < b[n])
  }

  /** Dictionary order, by the place of the first difference. */
  lemma {:induction false} LessIff(a: seq<Byte>, b: seq<Byte>)
    ensures Less(a, b) <==> exists n: nat :: LessAt(a, b, n)
  {
    if a != [] && b != [] && a[0] == b[0] {
      LessIff(a[1..], b[1..]);
      if n: nat :| LessAt(a[1..], b[1..], n) {
        assert a[..n + 1] == [a[0]] + a[1..][..n] && b[..n + 1] == [b[0]] + b[1..][..n];
        assert LessAt(a, b, n + 1);
      }
      if n: nat :| LessAt(a, b, n) {
        assert n > 0 && a[1..][..n - 1] == a[..n][1..] && b[1..][..n - 1] == b[..n][1..];
        assert LessAt(a[1..], b[1..], n - 1);
      }
    } else if Less(a, b) {
      assert LessAt(a, b, 0);
    } else {
      forall n: nat
        ensures !LessAt(a, b, n)
      {
        if n > 0 {
          SameFirstByte(a, b, n);
        }
      }
    }
  }

  lemma SameFirstByte(a: seq<Byte>, b: seq<Byte>, n: nat)
    requires n > 0
    ensures LessAt(a, b, n) ==> a != [] && b != [] && a[0] == b[0]
  {
    if LessAt(a, b, n) {
      assert a[0] == a[..n][0] == b[..n][0] == b[0];
    }
  }

  lemma {:induction false} LessSplit(a: seq<Byte>, b: seq<Byte>, x: seq<Byte>, y: seq<Byte>)
    requires |a| == |b|
    ensures Less(a + x, b + y) <==> Less(a, b) || (a == b && Less(x, y))
  {
    if a == [] {
      assert a + x == x && b + y == y;
    } else {
      assert (a + x)[1..] == a[1..] + x && (b + y)[1..] == b[1..] + y;
      LessSplit(a[1..], b[1..], x, y);
      assert a == [a[0]] + a[1..] && b == [b[0]] + b[1..];
    }
  }

  /** Numerals of one width are ordered as their numbers. */
  lemma {:induction false} FixedOrder(a: nat, b: nat, width: nat)
    requires a < Pow10(width) && b < Pow10(width)
    ensures Less(Fixed(a, width), Fixed(b, width)) <==> a < b
    ensures Fixed(a, width) == Fixed(b, width) <==> a == b
  {
    if width > 0 {
      FixedOrder(a / 10, b / 10, width - 1);
      LessSplit(Fixed(a / 10, width - 1), Fixed(b / 10, width - 1), [0x30 + a % 10], [0x30 + b % 10]);
      if Fixed(a, width) == Fixed(b, width) {
        FixedInjective(a, b, width);
      }
    }
  }
}
