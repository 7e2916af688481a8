/**
 The ascending traversal that Rust's `BTreeMap`, `BTreeSet` and `Vec::sort` give a finite set of
 strings.
 */
module OrderedSets {
  import opened Basics

  predicate Ascending(s: seq<string>)
  {
    forall i, j :: 0 <= i < j < |s| ==> LexLess(s[i], s[j])
  }

  predicate IsLeast(m: string, s: set<string>)
  {
    m in s && forall x :: x in s ==> !LexLess(x, m)
  }

  /** The least element of a non-empty set, found by one pass over it. */
  method Least(s: set<string>) returns (m: string)
    requires s != {}
    ensures IsLeast(m, s)
  {
    m :| m in s;
    LexIrreflexive(m);
    var rest := s - {m};
    while rest != {}
      invariant rest <= s && m in s
      invariant forall x :: x in s - rest ==> !LexLess(x, m)
      decreases |rest|
    {
      var x :| x in rest;
      LexIrreflexive(x);
      if LexLess(x, m) {
        forall y | y in s - rest
          ensures !LexLess(y, x)
        {
          if LexLess(y, x) { LexTransitive(y, x, m); }
        }
        m := x;
      }
      rest := rest - {x};
    }
  }

  lemma {:induction false} LeastExists(s: set<string>)
    requires s != {}
    ensures exists m :: IsLeast(m, s)
  {
    var x :| x in s;
    LexIrreflexive(x);
    if s == {x} {
      assert IsLeast(x, s);
    } else {
      LeastExists(s - {x});
      var m :| IsLeast(m, s - {x});
      if LexLess(x, m) {
        forall y | y in s
          ensures !LexLess(y, x)
        {
          if LexLess(y, x) { LexTransitive(y, x, m); }
        }
        assert IsLeast(x, s);
      } else {
        assert IsLeast(m, s);
      }
    }
  }

  /** The elements of a set in ascending order. */
  ghost function Sorted(s: set<string>): seq<string>
    decreases |s|
  {
    if s == {} then []
    else
      LeastExists(s);
      var m :| IsLeast(m, s);
      [m] + Sorted(s - {m})
  }

  lemma {:induction false} SortedIsAscending(s: set<string>)
    ensures Ascending(Sorted(s))
    ensures forall x :: x in Sorted(s) <==> x in s
    ensures |Sorted(s)| == |s|
    decreases |s|
  {
    if s != {} {
      LeastExists(s);
      var m := Sorted(s)[0];
      var t := Sorted(s - {m});
      assert Sorted(s) == [m] + t;
      SortedIsAscending(s - {m});
      forall i | 0 <= i < |t|
        ensures LexLess(m, t[i])
      {
        assert t[i] in t;
        LexTotal(m, t[i]);
      }
    }
  }

  /** Ascending order is unique: a set has only one such listing. */
  lemma {:induction false} AscendingUnique(a: seq<string>, b: seq<string>)
    requires Ascending(a) && Ascending(b)
    requires forall x :: x in a <==> x in b
    ensures a == b
    decreases |a|
  {
    assert |b| > 0 ==> b[0] in b;
    if |a| > 0 {
      assert a[0] in b;
      assert b[0] in a;
      var i :| 0 <= i < |b| && b[i] == a[0];
      var j :| 0 <= j < |a| && a[j] == b[0];
      if i > 0 {
        assert LexLess(b[0], a[0]);
        if j > 0 {
          LexTransitive(a[0], a[j], a[0]);
        }
        LexIrreflexive(a[0]);
        assert false;
      }
      assert a[0] == b[0];
      forall x
        ensures x in a[1..] <==> x in b[1..]
      {
        LexIrreflexive(a[0]);
        assert x in a[1..] ==> x in a && x != a[0];
        assert x in b[1..] ==> x in b && x != b[0];
      }
      AscendingUnique(a[1..], b[1..]);
    }
  }

  /** List a set in ascending order by repeatedly taking the least element left. */
  method List(s: set<string>) returns (r: seq<string>)
    ensures r == Sorted(s)
  {
    r := [];
    var rest := s;
    while rest != {}
      invariant rest <= s
      invariant Ascending(r) && forall x :: x in r <==> x in s - rest
      invariant forall x, y :: x in r && y in rest ==> LexLess(x, y)
      decreases |rest|
    {
      var m := Least(rest);
      forall y | y in rest - {m}
        ensures LexLess(m, y)
      {
        LexTotal(m, y);
      }
      r := r + [m];
      rest := rest - {m};
    }
    SortedIsAscending(s);
    AscendingUnique(r, Sorted(s));
  }
}
