/**
 Small shared vocabulary: optional values, the lexicographic order that Rust's `Ord` gives
 strings, and unsigned decimal numerals.
 */
module Basics {

  datatype Option<+T> = None | Some(value: T)

  /** Unsigned subtraction that stops at zero. */
  function SaturatingSub(a: nat, b: nat): nat { if a >= b then a - b else 0 }

  // --- Lexicographic order ---------------------------------------------------

  /** The strict order of Rust's `str`: the first differing character decides, a proper prefix is smaller. */
  predicate LexLess(a: string, b: string)
  {
    if |b| == 0 then false
    else if |a| == 0 then true
    else if a[0] != b[0] then a[0] < b[0]
    else LexLess(a[1..], b[1..])
  }

  lemma {:induction false} LexTotal(a: string, b: string)
    ensures LexLess(a, b) || LexLess(b, a) || a == b
  {
    if |a| > 0 && |b| > 0 && a[0] == b[0] {
      LexTotal(a[1..], b[1..]);
      assert a == [a[0]] + a[1..] && b == [b[0]] + b[1..];
    }
  }

  lemma {:induction false} LexIrreflexive(a: string)
    ensures !LexLess(a, a)
  {
    if |a| > 0 {
      LexIrreflexive(a[1..]);
    }
  }

  lemma {:induction false} LexTransitive(a: string, b: string, c: string)
    requires LexLess(a, b) && LexLess(b, c)
    ensures LexLess(a, c)
  {
    if |a| > 0 && a[0] == b[0] == c[0] {
      LexTransitive(a[1..], b[1..], c[1..]);
    }
  }

  /** A common prefix does not affect the order. */
  lemma {:induction false} LexCommonPrefix(p: string, a: string, b: string)
    ensures LexLess(p + a, p + b) <==> LexLess(a, b)
  {
    if |p| == 0 {
      assert p + a == a && p + b == b;
    } else {
      assert (p + a)[1..] == p[1..] + a && (p + b)[1..] == p[1..] + b;
      LexCommonPrefix(p[1..], a, b);
    }
  }

  /** Equal-length prefixes that already differ decide the order, whatever follows. */
  lemma {:induction false} LexPrefixDecides(p: string, q: string, a: string, b: string)
    requires |p| == |q| && p != q
    ensures LexLess(p + a, q + b) <==> LexLess(p, q)
  {
    assert (p + a)[1..] == p[1..] + a && (q + b)[1..] == q[1..] + b;
    if p[0] == q[0] {
      assert p == [p[0]] + p[1..] && q == [q[0]] + q[1..];
      LexPrefixDecides(p[1..], q[1..], a, b);
    }
  }

  // --- Digits and products ---------------------------------------------------

  /** One lower-case hexadecimal digit. */
  function HexDigit(d: nat): (c: char)
    requires d < 16
  {
    if d < 10 then (48 + d) as char else (87 + d) as char
  }

  /** A product the solver sees as one term. */
  function Times(a: nat, b: nat): nat { a * b }

  // --- Decimal numerals ------------------------------------------------------

  predicate IsDigit(c: char) { '0' <= c <= '9' }

  predicate AllDigits(s: string)
  {
    forall i :: 0 <= i < |s| ==> IsDigit(s[i])
  }

  function Digit(d: nat): (c: char)
    requires d < 10
    ensures IsDigit(c) && DigitValue(c) == d
  {
    (48 + d) as char
  }

  function DigitValue(c: char): nat
    requires IsDigit(c)
  {
    c as nat - 48
  }

  /** The numeral `format!("{n}")` prints for an unsigned integer. */
  function Decimal(n: nat): (s: string)
    ensures |s| >= 1 && AllDigits(s)
  {
    if n < 10 then [Digit(n)] else Decimal(n / 10) + [Digit(n % 10)]
  }

  /** The value of a numeral, most significant digit first; the empty numeral is 0. */
  function ValueOf(s: string): nat
    requires AllDigits(s)
  {
    if |s| == 0 then 0 else 10 * ValueOf(s[..|s| - 1]) + DigitValue(s[|s| - 1])
  }

  lemma {:induction false} DecimalValue(n: nat)
    ensures ValueOf(Decimal(n)) == n
  {
    var s := Decimal(n);
    if n >= 10 {
      DecimalValue(n / 10);
      assert s[..|s| - 1] == Decimal(n / 10);
    } else {
      assert s[..0] == [];
    }
  }

  function Pow10(k: nat): (p: nat)
    ensures p >= 1
  {
    if k == 0 then 1 else 10 * Pow10(k - 1)
  }

  lemma Pow10Values()
    ensures Pow10(2) == 100 && Pow10(4) == 10000
  {
    assert Pow10(4) == 10 * Pow10(3) == 100 * Pow10(2) == 1000 * Pow10(1) == 10000;
  }

  /** A numeral of n digits is below 10^n. */
  lemma {:induction false} ValueBound(s: string)
    requires AllDigits(s)
    ensures ValueOf(s) < Pow10(|s|)
  {
    if |s| > 0 {
      ValueBound(s[..|s| - 1]);
    }
  }

  /** Equal-length numerals are equal exactly when their values are, and order as their values do. */
  lemma {:induction false} NumeralOrder(a: string, b: string)
    requires AllDigits(a) && AllDigits(b) && |a| == |b|
    ensures LexLess(a, b) <==> ValueOf(a) < ValueOf(b)
    ensures a == b <==> ValueOf(a) == ValueOf(b)
  {
    if |a| > 0 {
      var a', b' := a[..|a| - 1], b[..|b| - 1];
      var x, y := a[|a| - 1], b[|b| - 1];
      assert a == a' + [x] && b == b' + [y];
      NumeralOrder(a', b');
      if a' == b' {
        LexCommonPrefix(a', [x], [y]);
        assert LexLess([x], [y]) <==> x < y;
      } else {
        LexPrefixDecides(a', b', [x], [y]);
      }
    }
  }

  /** Printing a value never takes more digits than the numeral it was read from. */
  lemma PrintedNoLonger(s: string)
    requires AllDigits(s) && |s| >= 1
    ensures |Decimal(ValueOf(s))| <= |s|
  {
    ValueBound(s);
    DecimalLength(ValueOf(s), |s|);
  }

  // --- Padded numerals -------------------------------------------------------

  function Zeros(k: nat): (s: string)
    ensures |s| == k && AllDigits(s)
  {
    seq(k, _ => '0')
  }

  /** `format!("{n:0width}")`: zeros fill up to the width, after the sign if there is one. */
  function Padded(n: int, width: nat): string
  {
    if n < 0 then "-" + PadLeft(Decimal(-n), if width == 0 then 0 else width - 1)
    else PadLeft(Decimal(n), width)
  }

  function PadLeft(s: string, width: nat): (p: string)
    ensures AllDigits(s) ==> AllDigits(p)
  {
    if |s| < width then Zeros(width - |s|) + s else s
  }

  lemma {:induction false} LeadingZeros(k: nat, s: string)
    requires AllDigits(s)
    ensures ValueOf(Zeros(k) + s) == ValueOf(s)
  {
    var t := Zeros(k) + s;
    if |s| > 0 {
      assert t[..|t| - 1] == Zeros(k) + s[..|s| - 1];
      LeadingZeros(k, s[..|s| - 1]);
    } else if k > 0 {
      assert t[..|t| - 1] == Zeros(k - 1) + s;
      LeadingZeros(k - 1, s);
    }
  }

  /** `Decimal` uses as few digits as the value allows. */
  lemma {:induction false} DecimalLength(n: nat, width: nat)
    requires width >= 1
    ensures |Decimal(n)| <= width <==> n < Pow10(width)
  {
    if n >= 10 {
      if width == 1 {
        assert Pow10(1) == 10 * Pow10(0) == 10;
      } else {
        DecimalLength(n / 10, width - 1);
      }
    } else {
      assert Pow10(width) == 10 * Pow10(width - 1);
    }
  }

  /** A padded numeral that fits has exactly its width and keeps its value. */
  lemma PaddedFits(n: nat, width: nat)
    requires 1 <= width && n < Pow10(width)
    ensures |Padded(n, width)| == width && AllDigits(Padded(n, width)) && ValueOf(Padded(n, width)) == n
  {
    DecimalLength(n, width);
    DecimalValue(n);
    if |Decimal(n)| < width {
      LeadingZeros(width - |Decimal(n)|, Decimal(n));
    }
  }

  /** A numeral in front of two texts decides their order, unless both numerals agree. */
  lemma FieldOrder(p: string, q: string, a: string, b: string)
    requires AllDigits(p) && AllDigits(q) && |p| == |q|
    ensures LexLess(p + a, q + b) <==> ValueOf(p) < ValueOf(q) || (ValueOf(p) == ValueOf(q) && LexLess(a, b))
  {
    NumeralOrder(p, q);
    if p == q {
      LexCommonPrefix(p, a, b);
    } else {
      LexPrefixDecides(p, q, a, b);
    }
  }
}
