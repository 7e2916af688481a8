/**
 The table of primes behind the constants of SHA-256 (FIPS 180-4 sections 4.2.2 and 5.3.3): it is
 ascending and holds every prime up to its last entry, and nothing else.
 */
module FirstPrimes {
  import opened Basics
  import opened Sha256Spec

  predicate IsPrime(n: nat)
  {
    n >= 2 && forall d :: 2 <= d < n ==> n % d != 0
  }

  /** No prime up to 17 but itself divides the number. */
  predicate Sifted(n: nat)
  {
    n >= 2 && (n == 2 || n % 2 != 0) && (n == 3 || n % 3 != 0) && (n == 5 || n % 5 != 0) && (n == 7 || n % 7 != 0)
      && (n == 11 || n % 11 != 0) && (n == 13 || n % 13 != 0) && (n == 17 || n % 17 != 0)
  }

  // --- Below 19 * 19 the sifted numbers are the primes ----------------------------------

  lemma TimesIs(e: nat)
    ensures Times(2, e) == 2 * e && Times(3, e) == 3 * e && Times(4, e) == 4 * e && Times(5, e) == 5 * e
    ensures Times(6, e) == 6 * e && Times(7, e) == 7 * e && Times(8, e) == 8 * e && Times(9, e) == 9 * e
    ensures Times(10, e) == 10 * e && Times(11, e) == 11 * e && Times(12, e) == 12 * e && Times(13, e) == 13 * e
    ensures Times(14, e) == 14 * e && Times(15, e) == 15 * e && Times(16, e) == 16 * e && Times(17, e) == 17 * e
    ensures Times(18, e) == 18 * e
  {
  }

  lemma Multiple2(n: nat, x: nat)
    requires n > 2 && n == 2 * x
    ensures !Sifted(n)
  {
    assert n % 2 == 0;
  }

  lemma Multiple3(n: nat, x: nat)
    requires n > 3 && n == 3 * x
    ensures !Sifted(n)
  {
    assert n % 3 == 0;
  }

  lemma Multiple5(n: nat, x: nat)
    requires n > 5 && n == 5 * x
    ensures !Sifted(n)
  {
    assert n % 5 == 0;
  }

  lemma Multiple7(n: nat, x: nat)
    requires n > 7 && n == 7 * x
    ensures !Sifted(n)
  {
    assert n % 7 == 0;
  }

  lemma Multiple11(n: nat, x: nat)
    requires n > 11 && n == 11 * x
    ensures !Sifted(n)
  {
    assert n % 11 == 0;
  }

  lemma Multiple13(n: nat, x: nat)
    requires n > 13 && n == 13 * x
    ensures !Sifted(n)
  {
    assert n % 13 == 0;
  }

  lemma Multiple17(n: nat, x: nat)
    requires n > 17 && n == 17 * x
    ensures !Sifted(n)
  {
    assert n % 17 == 0;
  }

  /** A multiple of a number from 2 to 18, and not that number, is unsifted. */
  lemma SmallFactor(n: nat, k: nat, e: nat)
    requires 2 <= k <= 18 && k < n && n == Times(k, e)
    ensures !Sifted(n)
  {
    hide Times, Sifted;
    TimesIs(e);
    if k == 2 { Multiple2(n, e); }
    else if k == 3 { Multiple3(n, e); }
    else if k == 4 { Multiple2(n, 2 * e); }
    else if k == 5 { Multiple5(n, e); }
    else if k == 6 { Multiple2(n, 3 * e); }
    else if k == 7 { Multiple7(n, e); }
    else if k == 8 { Multiple2(n, 4 * e); }
    else if k == 9 { Multiple3(n, 3 * e); }
    else if k == 10 { Multiple2(n, 5 * e); }
    else if k == 11 { Multiple11(n, e); }
    else if k == 12 { Multiple2(n, 6 * e); }
    else if k == 13 { Multiple13(n, e); }
    else if k == 14 { Multiple2(n, 7 * e); }
    else if k == 15 { Multiple3(n, 5 * e); }
    else if k == 16 { Multiple2(n, 8 * e); }
    else if k == 17 { Multiple17(n, e); }
    else if k == 18 { Multiple2(n, 9 * e); }
  }

  lemma Cofactor(n: nat, d: nat, e: nat)
    requires 2 <= d < n < 361 && n == d * e
    ensures 2 <= e < n && (d <= 18 || e <= 18)
  {
    assert e != 0 && e != 1;
    assert d * e >= 2 * e;
    if d >= 19 && e >= 19 { Large(d, e); }
  }

  lemma Large(d: nat, e: nat)
    requires d >= 19 && e >= 19
    ensures d * e >= 361
  {
    assert d * e >= 19 * e;
  }

  lemma NoFactor(n: nat, d: nat)
    requires 2 <= d < n < 361 && n % d == 0
    ensures !Sifted(n)
  {
    hide Sifted;
    var e := n / d;
    assert n == d * e;
    Cofactor(n, d, e);
    assert n == Times(d, e) == Times(e, d);
    if d <= 18 { SmallFactor(n, d, e); } else { SmallFactor(n, e, d); }
  }

  lemma SiftedArePrimes(n: nat)
    requires n < 361
    ensures IsPrime(n) <==> Sifted(n)
  {
    if Sifted(n) {
      hide Sifted;
      forall d | 2 <= d < n
        ensures n % d != 0
      {
        if n % d == 0 { NoFactor(n, d); }
      }
    }
  }

  // --- The table --------------------------------------------------------------------------

  /** No sifted number from n up to a bound. */
  predicate Gap(n: nat, high: nat)
    decreases high - n
  {
    n >= high || (!Sifted(n) && Gap(n + 1, high))
  }

  /** Two sifted numbers with none between them. */
  predicate Link(p: nat, q: nat) { p < q && Sifted(p) && Sifted(q) && Gap(p + 1, q) }

  lemma Links0()
    ensures Link(2, 3) && Link(3, 5) && Link(5, 7) && Link(7, 11)
    ensures Link(11, 13) && Link(13, 17) && Link(17, 19) && Link(19, 23)
  {
  }

  lemma Links1()
    ensures Link(23, 29) && Link(29, 31) && Link(31, 37) && Link(37, 41)
    ensures Link(41, 43) && Link(43, 47) && Link(47, 53) && Link(53, 59)
  {
  }

  lemma Links2()
    ensures Link(59, 61) && Link(61, 67) && Link(67, 71) && Link(71, 73)
    ensures Link(73, 79) && Link(79, 83) && Link(83, 89) && Link(89, 97)
  {
  }

  lemma Links3()
    ensures Link(97, 101) && Link(101, 103) && Link(103, 107) && Link(107, 109)
    ensures Link(109, 113) && Link(113, 127) && Link(127, 131) && Link(131, 137)
  {
  }

  lemma Links4()
    ensures Link(137, 139) && Link(139, 149) && Link(149, 151) && Link(151, 157)
    ensures Link(157, 163) && Link(163, 167) && Link(167, 173) && Link(173, 179)
  {
  }

  lemma Links5()
    ensures Link(179, 181) && Link(181, 191) && Link(191, 193) && Link(193, 197)
    ensures Link(197, 199) && Link(199, 211) && Link(211, 223) && Link(223, 227)
  {
  }

  lemma Links6()
    ensures Link(227, 229) && Link(229, 233) && Link(233, 239) && Link(239, 241)
    ensures Link(241, 251) && Link(251, 257) && Link(257, 263) && Link(263, 269)
  {
  }

  lemma Links7()
    ensures Link(269, 271) && Link(271, 277) && Link(277, 281) && Link(281, 283)
    ensures Link(283, 293) && Link(293, 307) && Link(307, 311)
  {
  }

  /** The links of one row of the table, the last of them to the next row. */
  lemma RowLinks(row: nat)
    requires row < 16
    ensures
      var r := PrimeRow(row);
      Link(r[0], r[1]) && Link(r[1], r[2]) && Link(r[2], r[3]) && (row < 15 ==> Link(r[3], PrimeRow(row + 1)[0]))
  {
    hide Link;
    Links0();
    Links1();
    Links2();
    Links3();
    Links4();
    Links5();
    Links6();
    Links7();
  }

  lemma NextIsLinked(t: nat)
    requires t < 63
    ensures Link(Prime(t), Prime(t + 1))
  {
    hide Link, PrimeRow;
    RowLinks(t / 4);
    assert (t + 1) / 4 == (if t % 4 == 3 then t / 4 + 1 else t / 4);
    assert (t + 1) % 4 == (if t % 4 == 3 then 0 else t % 4 + 1);
  }

  lemma {:induction false} GapAt(low: nat, high: nat, n: nat)
    requires Gap(low, high) && low <= n < high
    ensures !Sifted(n)
    decreases n - low
  {
    hide Sifted;
    if low < n { GapAt(low + 1, high, n); }
  }

  lemma {:induction false} Ascends(t: nat, u: nat)
    requires t < u < 64
    ensures Prime(t) < Prime(u)
    decreases u
  {
    hide Prime, Gap, Sifted;
    NextIsLinked(u - 1);
    if t < u - 1 { Ascends(t, u - 1); }
  }

  lemma Ends()
    ensures Prime(0) == 2 && Prime(63) == 311
  {
  }

  /** A number up to a prime of the table is in the table exactly when it is sifted. */
  lemma {:induction false} SiftedAreListed(n: nat, t: nat)
    requires t < 64 && n <= Prime(t)
    ensures Sifted(n) <==> exists u: nat :: u <= t && Prime(u) == n
    decreases t
  {
    hide Prime, Gap, Sifted, PrimeRow;
    Ends();
    if t > 0 {
      NextIsLinked(t - 1);
      if n <= Prime(t - 1) {
        SiftedAreListed(n, t - 1);
        if Sifted(n) {
          var u: nat :| u <= t - 1 && Prime(u) == n;
          assert u <= t;
        }
      } else if n < Prime(t) {
        GapAt(Prime(t - 1) + 1, Prime(t), n);
        forall u: nat | u <= t
          ensures Prime(u) != n
        {
          if u < t - 1 { Ascends(u, t - 1); }
        }
      }
    } else {
      assert Sifted(n) <==> n == 2 by { FirstSifted(n); }
    }
  }

  lemma FirstSifted(n: nat)
    requires n <= 2
    ensures Sifted(n) <==> n == 2
  {
  }

  /** Main result: the table is ascending and holds exactly the primes up to 311, the first 64 there are. */
  lemma TableIsTheFirstPrimes(n: nat)
    requires n <= 311
    ensures forall t, u :: 0 <= t < u < 64 ==> Prime(t) < Prime(u)
    ensures IsPrime(n) <==> exists t: nat :: t < 64 && Prime(t) == n
    ensures Prime(63) == 311
  {
    hide Prime, IsPrime, Sifted;
    forall t, u | 0 <= t < u < 64
      ensures Prime(t) < Prime(u)
    {
      Ascends(t, u);
    }
    Ends();
    SiftedArePrimes(n);
    SiftedAreListed(n, 63);
  }
}
