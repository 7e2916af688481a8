/**
 The part of 64-bit floating point the JSON files depend on: a whole number read as an `f64` is the
 nearest multiple of its last place, ties to even, with a significand of 53 bits.
 */
module Floats {
  import opened Basics

  function Pow2(k: nat): (p: nat)
    ensures p >= 1
  {
    if k == 0 then 1 else 2 * Pow2(k - 1)
  }

  /** The number of binary digits. */
  function Bits(n: nat): nat
  {
    if n == 0 then 0 else 1 + Bits(n / 2)
  }

  /** The value of the last place of a whole number's significand. */
  function LastPlace(n: nat): (u: nat)
    ensures u >= 1
  {
    if Bits(n) <= 53 then 1 else Pow2(Bits(n) - 53)
  }

  /** Round to a multiple of u, ties to the even multiple. */
  function RoundTo(n: nat, u: nat): nat
    requires u >= 1
  {
    var q, r := n / u, n % u;
    if 2 * r < u || (2 * r == u && q % 2 == 0) then Times(q, u) else Times(q + 1, u)
  }

  /** The `f64` nearest to a whole number. */
  function Rounded(n: nat): nat { RoundTo(n, LastPlace(n)) }

  /** Is the whole number its own nearest `f64`? */
  predicate Exact(n: nat) { n % LastPlace(n) == 0 }

  lemma ExactIsFixed(n: nat)
    ensures Exact(n) <==> Rounded(n) == n
  {
    hide LastPlace, Bits;
    RoundsToItself(n, LastPlace(n));
  }

  lemma RoundsToItself(n: nat, u: nat)
    requires u >= 1
    ensures n % u == 0 <==> RoundTo(n, u) == n
  {
    var q, r := n / u, n % u;
    assert n == q * u + r && (q + 1) * u == q * u + u;
  }

  lemma {:induction false} BitsBound(n: nat)
    ensures n < Pow2(Bits(n))
  {
    if n > 0 { BitsBound(n / 2); }
  }

  lemma {:induction false} BitsMonotone(n: nat, k: nat)
    requires n < Pow2(k)
    ensures Bits(n) <= k
  {
    if n > 0 { BitsMonotone(n / 2, k - 1); }
  }

  lemma {:induction false} Pow2Add(a: nat, b: nat)
    ensures Pow2(a + b) == Pow2(a) * Pow2(b)
  {
    if a > 0 { Pow2Add(a - 1, b); }
  }

  lemma Pow2Values()
    ensures Pow2(3) == 8 && Pow2(5) == 32 && Pow2(8) == 256 && Pow2(11) == 2048 && Pow2(16) == 0x1_0000
    ensures Pow2(32) == 0x1_0000_0000
  {
    assert Pow2(3) == 8;
    assert Pow2(5) == 32;
    assert Pow2(8) == 8 * Pow2(5);
    Pow2Add(8, 3);
    Pow2Add(8, 8);
    Pow2Add(16, 16);
  }

  lemma Pow2Of53()
    ensures Pow2(53) == 0x20_0000_0000_0000 && Pow2(64) == 0x1_0000_0000_0000_0000
  {
    hide Pow2;
    Pow2Values();
    Pow2Add(32, 16);
    Pow2Add(48, 5);
    Pow2Add(32, 32);
  }

  lemma {:induction false} BitsOfPow2(k: nat)
    ensures Bits(Pow2(k)) == k + 1
  {
    if k > 0 { BitsOfPow2(k - 1); }
  }

  /** Every whole number of at most 53 bits, and 2^53 itself, is exact. */
  lemma SmallIsExact(n: nat)
    requires n <= 0x20_0000_0000_0000
    ensures Rounded(n) == n
  {
    hide Pow2, Bits, Rounded;
    Pow2Of53();
    Pow2One();
    ExactIsFixed(n);
    if n < Pow2(53) {
      BitsMonotone(n, 53);
    } else {
      BitsOfPow2(53);
      assert LastPlace(n) == 2;
    }
  }

  /** Rounding never leaves the binade by more than its upper end. */
  lemma RoundedBound(n: nat, k: nat)
    requires n < Pow2(k)
    ensures Rounded(n) <= Pow2(k)
  {
    hide Pow2, Bits, RoundTo;
    BitsMonotone(n, k);
    BitsBound(n);
    var b := Bits(n);
    Pow2Grows(b, k);
    if b > 53 {
      Pow2Add(53, b - 53);
      RoundToBound(n, Pow2(b - 53), Pow2(53));
    } else {
      RoundToBound(n, 1, Pow2(b));
    }
  }

  lemma RoundToBound(n: nat, u: nat, m: nat)
    requires u >= 1 && n < m * u
    ensures RoundTo(n, u) <= m * u
  {
    DivisionBound(n, u, m);
    var q := n / u;
    ProductBound(q + 1, m, u);
    assert q * u <= (q + 1) * u;
  }

  lemma ProductBound(a: nat, b: nat, u: nat)
    requires a <= b
    ensures a * u <= b * u
  {
  }

  lemma DivisionBound(n: nat, u: nat, m: nat)
    requires u >= 1 && n < m * u
    ensures n / u < m
  {
    var q := n / u;
    assert q * u <= n;
    if q >= m { ProductBound(m, q, u); }
  }

  /** What rounding gives is its own nearest `f64`. */
  lemma RoundedIsExact(n: nat)
    ensures Exact(Rounded(n))
  {
    hide Pow2, Bits, Exact;
    BitsBound(n);
    var b := Bits(n);
    if b > 53 {
      Pow2Add(53, b - 53);
      var u := Pow2(b - 53);
      DivisionBound(n, u, Pow2(53));
      MultipleIsExact(n / u, b - 53);
      MultipleIsExact(n / u + 1, b - 53);
    } else {
      ExactIsFixed(n);
      assert Exact(n) by { SmallerIsExact(n); }
    }
  }

  lemma SmallerIsExact(n: nat)
    requires Bits(n) <= 53
    ensures Exact(n)
  {
    hide Bits;
    assert LastPlace(n) == 1;
  }

  lemma MultipleIsExact(k: nat, e: nat)
    requires k <= Pow2(53)
    ensures Exact(k * Pow2(e))
  {
    hide Pow2, Bits, LastPlace, Exact;
    if k < Pow2(53) {
      MultipleBits(k, e);
      ShortIsExact(k * Pow2(e), k, e);
    } else {
      Pow2Add(53, e);
      PowerIsExact(53 + e);
    }
  }

  lemma MultipleBits(k: nat, e: nat)
    requires k < Pow2(53)
    ensures Bits(k * Pow2(e)) <= 53 + e
  {
    hide Pow2, Bits;
    Pow2Add(53, e);
    StrictProduct(k, Pow2(53), Pow2(e));
    BitsMonotone(k * Pow2(e), 53 + e);
  }

  lemma ShortIsExact(m: nat, k: nat, e: nat)
    requires m == k * Pow2(e) && Bits(m) <= 53 + e
    ensures Exact(m)
  {
    hide Pow2, Bits, LastPlace, Exact;
    if Bits(m) <= 53 {
      SmallerIsExact(m);
    } else {
      DividedPlace(k, e, Bits(m) - 53);
      PlaceOf(m);
    }
  }

  lemma PowerIsExact(k: nat)
    requires k >= 53
    ensures Exact(Pow2(k))
  {
    hide Pow2, Bits, LastPlace, Exact;
    BitsOfPow2(k);
    var u := Pow2(k - 52);
    Pow2Add(52, k - 52);
    assert Pow2(k) % u == 0 by { DivideMultiple(Pow2(52), u); }
    PlaceOf(Pow2(k));
  }

  lemma StrictProduct(k: nat, l: nat, u: nat)
    requires k < l && u >= 1
    ensures k * u < l * u
  {
    ProductBound(k + 1, l, u);
    assert (k + 1) * u == k * u + u;
  }

  lemma DivideMultiple(k: nat, u: nat)
    requires u >= 1
    ensures k * u / u == k && k * u % u == 0
  {
    var d, m := k * u / u, k * u % u;
    assert k * u == d * u + m;
    if d < k { ProductBound(d + 1, k, u); }
    if d > k { ProductBound(k + 1, d, u); }
  }

  /** A smaller power of two divides a multiple of a larger one. */
  lemma DividedPlace(k: nat, e: nat, f: nat)
    requires f <= e
    ensures k * Pow2(e) % Pow2(f) == 0
  {
    hide Pow2;
    Pow2Add(e - f, f);
    assert k * (Pow2(e - f) * Pow2(f)) == k * Pow2(e - f) * Pow2(f);
    DivideMultiple(k * Pow2(e - f), Pow2(f));
  }

  lemma PlaceOf(m: nat)
    requires Bits(m) > 53
    ensures Exact(m) <==> m % Pow2(Bits(m) - 53) == 0
  {
  }

  function Distance(a: nat, b: nat): nat { if a < b then b - a else a - b }

  lemma {:induction false} BitsLeast(n: nat)
    requires n > 0
    ensures n >= Pow2(Bits(n) - 1)
  {
    if n > 1 {
      BitsLeast(n / 2);
      assert Pow2(Bits(n) - 1) == 2 * Pow2(Bits(n / 2) - 1);
    }
  }

  lemma RoundingError(n: nat, u: nat)
    requires u >= 1
    ensures Distance(n, RoundTo(n, u)) <= n % u && Distance(n, RoundTo(n, u)) <= u - n % u
  {
    var q, r := n / u, n % u;
    assert n == q * u + r && (q + 1) * u == q * u + u;
  }

  lemma MultipleDistance(n: nat, u: nat, k: nat)
    requires u >= 1
    ensures Distance(n, k * u) >= n % u || Distance(n, k * u) >= u - n % u
  {
    var q, r := n / u, n % u;
    assert n == q * u + r && (q + 1) * u == q * u + u;
    if k <= q { ProductBound(k, q, u); } else { ProductBound(q + 1, k, u); }
  }

  /** Rounding to a multiple picks a nearest one. */
  lemma NearestMultiple(n: nat, u: nat, k: nat)
    requires u >= 1
    ensures Distance(n, RoundTo(n, u)) <= Distance(n, k * u)
  {
    hide RoundTo, Distance;
    RoundingError(n, u);
    MultipleDistance(n, u, k);
  }

  lemma MultipleOfPlace(m: nat, b: nat)
    requires Exact(m) && 53 < b <= Bits(m)
    ensures m % Pow2(b - 53) == 0
  {
    hide Pow2, Bits, Exact;
    PlaceOf(m);
    var e := Bits(m) - 53;
    var k := m / Pow2(e);
    assert m == k * Pow2(e);
    DividedPlace(k, e, b - 53);
  }

  lemma NearerThanLonger(n: nat, m: nat, u: nat)
    requires Exact(m) && 53 < Bits(n) <= Bits(m) && u == Pow2(Bits(n) - 53)
    ensures Distance(n, RoundTo(n, u)) <= Distance(n, m)
  {
    hide Pow2, Bits, Exact, RoundTo, Distance;
    MultipleOfPlace(m, Bits(n));
    NearestMultiple(n, u, m / u);
    QuotientTimes(m, u);
  }

  lemma QuotientTimes(m: nat, u: nat)
    requires u >= 1 && m % u == 0
    ensures m / u * u == m
  {
  }

  lemma NearerThanShorter(n: nat, m: nat, u: nat)
    requires 53 < Bits(n) && Bits(m) < Bits(n) && u == Pow2(Bits(n) - 53)
    ensures Distance(n, RoundTo(n, u)) <= Distance(n, m)
  {
    hide Pow2, Bits, RoundTo;
    assert n > 0 by { NoBits(); }
    BitsLeast(n);
    BitsBound(m);
    Pow2Grows(Bits(m), Bits(n) - 1);
    Pow2Add(52, Bits(n) - 53);
    NearestMultiple(n, u, Pow2(52));
  }

  lemma NoBits() ensures Bits(0) == 0 {}

  /** Main result: no whole number that is its own `f64` is nearer. */
  lemma RoundedIsNearest(n: nat, m: nat)
    requires Exact(m)
    ensures Distance(n, Rounded(n)) <= Distance(n, m)
  {
    hide Pow2, Bits, Exact, RoundTo, LastPlace;
    var b := Bits(n);
    if b <= 53 {
      SmallerIsExact(n);
      ExactIsFixed(n);
    } else {
      PlaceIs(n);
      if Bits(m) >= b {
        NearerThanLonger(n, m, LastPlace(n));
      } else {
        NearerThanShorter(n, m, LastPlace(n));
      }
    }
  }

  lemma PlaceIs(n: nat)
    requires Bits(n) > 53
    ensures LastPlace(n) == Pow2(Bits(n) - 53)
  {
  }

  // --- 64-bit counters ------------------------------------------------------------

  const U64_MAX: nat := 0xFFFF_FFFF_FFFF_FFFF

  /** `value as u64`, which saturates. */
  function Saturated(n: nat): nat { if n <= U64_MAX then n else U64_MAX }

  /** Main result: a 64-bit counter survives the `f64` exactly when it is exact, or the largest of all. */
  lemma CounterSurvives(n: nat)
    requires n <= U64_MAX
    ensures Saturated(Rounded(n)) == n <==> Exact(n) || n == U64_MAX
    ensures Rounded(n) <= U64_MAX + 1
  {
    hide Pow2, Bits, Rounded, LastPlace;
    Pow2Of53();
    RoundedBound(n, 64);
    ExactIsFixed(n);
    if n == U64_MAX {
      LargestRoundsUp();
    }
  }

  /** A number at or above 2^k has more than k binary digits. */
  lemma BitsExceed(n: nat, k: nat)
    requires n >= Pow2(k)
    ensures Bits(n) > k
  {
    hide Pow2, Bits;
    BitsBound(n);
    if Bits(n) <= k {
      Pow2Grows(Bits(n), k);
    }
  }

  /** The largest counter rounds up to 2^64 and saturates back. */
  lemma LargestRoundsUp()
    ensures Rounded(U64_MAX) == U64_MAX + 1
  {
    hide Pow2, Bits;
    Pow2Of53();
    Pow2Values();
    BitsMonotone(U64_MAX, 64);
    Pow2Add(63, 1);
    assert Pow2(1) == 2 by { Pow2One(); }
    BitsExceed(U64_MAX, 63);
    assert LastPlace(U64_MAX) == 2048;
    assert U64_MAX / 2048 == 0x1F_FFFF_FFFF_FFFF && U64_MAX % 2048 == 2047;
  }

  lemma Pow2One() ensures Pow2(1) == 2 && Pow2(0) == 1 {}

  lemma {:induction false} Pow2Grows(a: nat, b: nat)
    requires a <= b
    ensures Pow2(a) <= Pow2(b)
    decreases b
  {
    if a < b { Pow2Grows(a, b - 1); }
  }

  /** The first whole number that is not exact: it reads back as the even one below it. */
  lemma FirstInexact()
    ensures !Exact(0x20_0000_0000_0001) && Rounded(0x20_0000_0000_0001) == 0x20_0000_0000_0000
    ensures Saturated(Rounded(0x20_0000_0000_0001)) == 0x20_0000_0000_0000
  {
    hide Pow2, Bits;
    Pow2Of53();
    Pow2One();
    Pow2Add(53, 1);
    BitsExceed(0x20_0000_0000_0001, 53);
    BitsMonotone(0x20_0000_0000_0001, 54);
    assert LastPlace(0x20_0000_0000_0001) == 2;
    assert 0x20_0000_0000_0001 / 2 == 0x10_0000_0000_0000 && 0x20_0000_0000_0001 % 2 == 1;
  }

  // --- A counter that is counted up between two readings ------------------------------

  /** `n += 1` on a `u64`, which wraps in a release build. */
  function Counted(n: nat): nat { if n == U64_MAX then 0 else n + 1 }

  /** A number just above an exact one of more than 53 bits has the same last place. */
  lemma NextPlace(n: nat)
    requires n >= 0x20_0000_0000_0000 && Exact(n)
    ensures LastPlace(n + 1) == LastPlace(n) && LastPlace(n) % 2 == 0
    ensures LastPlace(n) == 2 <==> n < 0x40_0000_0000_0000
  {
    hide Pow2, Bits;
    Pow2Of53();
    BitsExceed(n, 53);
    var k := Bits(n) - 53;
    EvenPow2(k);
    EvenMultiple(n, Pow2(k));
    SameBits(n);
    Pow2Add(53, 1);
    Pow2One();
    if n < Pow2(54) {
      BitsMonotone(n, 54);
    } else {
      BitsExceed(n, 54);
      Pow2Grows(2, k);
      FourIsPow2();
    }
  }

  lemma FourIsPow2() ensures Pow2(2) == 4 { assert Pow2(1) == 2; }

  lemma EvenPow2(k: nat)
    requires k >= 1
    ensures Pow2(k) % 2 == 0
  {
  }

  lemma EvenMultiple(n: nat, u: nat)
    requires u >= 1 && u % 2 == 0 && n % u == 0
    ensures n % 2 == 0
  {
    var q, h := n / u, u / 2;
    assert n == q * u && u == 2 * h;
    assert n == 2 * (q * h);
  }

  lemma SameBits(n: nat)
    requires n > 0 && n % 2 == 0
    ensures Bits(n + 1) == Bits(n)
  {
    assert (n + 1) / 2 == n / 2;
  }

  /** One above a multiple rounds back to it, unless the place is 2 and the multiple odd. */
  lemma OneAbove(n: nat, u: nat)
    requires u >= 2 && u % 2 == 0 && n % u == 0
    ensures RoundTo(n + 1, u) == if u == 2 && n / 2 % 2 == 1 then n + 2 else n
  {
    var q := n / u;
    assert n == q * u;
    DivideOneAbove(q, u);
    assert (q + 1) * u == q * u + u;
  }

  lemma DivideOneAbove(q: nat, u: nat)
    requires u >= 2
    ensures (q * u + 1) / u == q && (q * u + 1) % u == 1
  {
    var d, m := (q * u + 1) / u, (q * u + 1) % u;
    assert q * u + 1 == d * u + m;
    if d < q { ProductBound(d + 1, q, u); }
    if d > q { ProductBound(q + 1, d, u); }
  }

  /** A large exact number counted up and rounded. */
  lemma LargeCounted(n: nat)
    requires n >= 0x20_0000_0000_0000 && Exact(n)
    ensures Rounded(n + 1) == if n < 0x40_0000_0000_0000 && n / 2 % 2 == 1 then n + 2 else n
  {
    hide LastPlace, RoundTo;
    NextPlace(n);
    OneAbove(n, LastPlace(n));
  }

  /**
   Main result: a counter that was read, counted up, written and read again has grown exactly below
   2^53, or below 2^54 when its half is odd; it has shrunk exactly when it was the largest of all.
   */
  lemma CountedGrows(n: nat)
    requires Exact(n) || n == U64_MAX
    requires n <= U64_MAX
    ensures Saturated(Rounded(Counted(n))) > n
            <==> n < 0x20_0000_0000_0000 || (n < 0x40_0000_0000_0000 && n / 2 % 2 == 1)
    ensures Saturated(Rounded(Counted(n))) < n <==> n == U64_MAX
    ensures Saturated(Rounded(Counted(n))) < U64_MAX
    ensures n < 0x20_0000_0000_0000 ==> Saturated(Rounded(Counted(n))) == n + 1
  {
    hide Rounded, Exact;
    if n < 0x20_0000_0000_0000 {
      SmallIsExact(n + 1);
    } else if n < U64_MAX {
      LargeCounted(n);
    } else {
      SmallIsExact(0);
    }
  }
}
