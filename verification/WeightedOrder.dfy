/**
 The order in which a rotation asks its sources (`weighted_order`,
 crates/whirl-worker/src/pipeline.rs:2425-2455).
 */
module WeightedOrder {

  /** The weight in front of source `i`. */
  function Cumulative(weights: seq<nat>, i: nat): nat
    requires i <= |weights|
  {
    if i == 0 then 0 else Cumulative(weights, i - 1) + weights[i - 1]
  }

  function TotalWeight(weights: seq<nat>): nat { Cumulative(weights, |weights|) }

  lemma {:induction false} CumulativeMonotone(weights: seq<nat>, i: nat, j: nat)
    requires i <= j <= |weights|
    ensures Cumulative(weights, i) <= Cumulative(weights, j)
    decreases j - i
  {
    if i < j { CumulativeMonotone(weights, i, j - 1); }
  }

  /** A draw falls on the source whose share of the cumulative weight contains it. */
  predicate Drawn(weights: seq<nat>, draw: nat, i: nat)
    requires TotalWeight(weights) > 0
  {
    i < |weights| && Cumulative(weights, i) <= draw % TotalWeight(weights) < Cumulative(weights, i + 1)
  }

  lemma DrawnUnique(weights: seq<nat>, draw: nat, i: nat, j: nat)
    requires TotalWeight(weights) > 0 && Drawn(weights, draw, i) && Drawn(weights, draw, j)
    ensures i == j
  {
    if i < j {
      CumulativeMonotone(weights, i + 1, j);
    } else if j < i {
      CumulativeMonotone(weights, j + 1, i);
    }
  }

  /** Descending weight, ties in configuration order. */
  predicate Ahead(weights: seq<nat>, a: nat, b: nat)
  {
    a < |weights| && b < |weights| && (weights[a] > weights[b] || (weights[a] == weights[b] && a < b))
  }

  ghost predicate Descending(weights: seq<nat>, order: seq<nat>)
  {
    forall i, j :: 0 <= i < j < |order| ==> Ahead(weights, order[i], order[j])
  }

  /** The promised order: the drawn source first, then every other enabled one by descending weight. */
  ghost predicate IsOrder(weights: seq<nat>, draw: nat, order: seq<nat>)
  {
    if TotalWeight(weights) == 0 then order == []
    else
      && |order| > 0 && Drawn(weights, draw, order[0])
      && (forall i: nat :: i in order <==> i < |weights| && weights[i] > 0)
      && order[0] !in order[1..]
      && Descending(weights, order[1..])
  }

  // --- The method -----------------------------------------------------------------

  /** The enabled sources among the first `n`, in configuration order. */
  ghost predicate EnabledUpTo(weights: seq<nat>, enabled: seq<nat>, n: nat)
    requires n <= |weights|
  {
    && (forall a :: 0 <= a < |enabled| ==> enabled[a] < n && weights[enabled[a]] > 0)
    && (forall j: nat :: j < n && weights[j] > 0 ==> j in enabled)
    && (forall a, b :: 0 <= a < b < |enabled| ==> enabled[a] < enabled[b])
  }

  /** Put one index into a descending list. */
  method Insert(weights: seq<nat>, order: seq<nat>, x: nat) returns (more: seq<nat>)
    requires x < |weights| && x !in order && Descending(weights, order)
    requires forall i :: 0 <= i < |order| ==> order[i] < |weights|
    ensures Descending(weights, more)
    ensures forall i :: 0 <= i < |more| ==> more[i] < |weights|
    ensures forall i: nat :: i in more <==> i in order || i == x
  {
    var k := 0;
    while k < |order|
          && (weights[order[k]] > weights[x] || (weights[order[k]] == weights[x] && order[k] < x))
      invariant k <= |order|
      invariant forall i :: 0 <= i < k ==> Ahead(weights, order[i], x)
    {
      k := k + 1;
    }
    InsertedAt(weights, order, x, k);
    more := order[..k] + [x] + order[k..];
  }

  lemma InsertedAt(weights: seq<nat>, order: seq<nat>, x: nat, k: nat)
    requires x < |weights| && x !in order && Descending(weights, order) && k <= |order|
    requires forall i :: 0 <= i < |order| ==> order[i] < |weights|
    requires forall i :: 0 <= i < k ==> Ahead(weights, order[i], x)
    requires k < |order| ==> !Ahead(weights, order[k], x)
    ensures var more := order[..k] + [x] + order[k..];
            Descending(weights, more) && (forall i: nat :: i in more <==> i in order || i == x)
  {
    var front, back := order[..k], order[k..];
    assert order == front + back;
    assert forall i: nat :: i in order <==> i in front || i in back;
    assert forall i :: 0 <= i < |back| ==> back[i] == order[k + i];
    assert k < |order| ==> order[k] in order && Ahead(weights, x, order[k]);
    forall i | 0 <= i < |back|
      ensures Ahead(weights, x, back[i])
    {
      assert i > 0 ==> Ahead(weights, order[k], order[k + i]);
    }
    Spliced(weights, front, x, back);
  }

  lemma Spliced(weights: seq<nat>, front: seq<nat>, x: nat, back: seq<nat>)
    requires Descending(weights, front + back)
    requires forall i :: 0 <= i < |front| ==> Ahead(weights, front[i], x)
    requires forall i :: 0 <= i < |back| ==> Ahead(weights, x, back[i])
    ensures Descending(weights, front + [x] + back)
  {
    var all, more := front + back, front + [x] + back;
    forall i, j | 0 <= i < j < |more|
      ensures Ahead(weights, more[i], more[j])
    {
      var a, b := if i < |front| then i else i - 1, if j < |front| then j else j - 1;
      if i != |front| && j != |front| {
        assert more[i] == all[a] && more[j] == all[b];
      }
    }
  }

  lemma {:induction false} NothingEnabled(weights: seq<nat>, n: nat)
    requires n <= |weights|
    ensures Cumulative(weights, n) == 0 <==> forall i :: 0 <= i < n ==> weights[i] == 0
  {
    if n > 0 { NothingEnabled(weights, n - 1); }
  }

  /** The enabled sources and their total weight. */
  method Enabled(weights: seq<nat>) returns (enabled: seq<nat>, total: nat)
    ensures EnabledUpTo(weights, enabled, |weights|) && total == TotalWeight(weights)
    ensures enabled == [] <==> total == 0
  {
    enabled, total := [], 0;
    for i := 0 to |weights|
      invariant total == Cumulative(weights, i) && EnabledUpTo(weights, enabled, i)
    {
      ghost var before := enabled;
      if weights[i] > 0 {
        enabled := enabled + [i];
        assert i in enabled;
        assert forall j :: j in before ==> j in enabled;
      }
      total := total + weights[i];
    }
    NothingEnabled(weights, |weights|);
    assert |enabled| > 0 ==> weights[enabled[0]] > 0;
  }

  /** `weighted_order`. */
  method Order(weights: seq<nat>, draw: nat) returns (order: seq<nat>)
    ensures IsOrder(weights, draw, order)
  {
    var enabled, total := Enabled(weights);
    if enabled == [] {
      return [];
    }
    var first := Pick(weights, enabled, draw % total, draw);
    var rest := Rest(weights, enabled, first);
    order := [first] + rest;
    assert order[1..] == rest;
  }

  /** Every enabled source but the drawn one, by descending weight. */
  method Rest(weights: seq<nat>, enabled: seq<nat>, first: nat) returns (rest: seq<nat>)
    requires EnabledUpTo(weights, enabled, |weights|)
    ensures Descending(weights, rest)
    ensures forall i: nat :: i in rest <==> i in enabled && i != first
  {
    rest := [];
    for k := 0 to |enabled|
      invariant Descending(weights, rest)
      invariant forall i :: 0 <= i < |rest| ==> rest[i] < |weights|
      invariant forall i: nat :: i in rest <==> i in enabled[..k] && i != first
    {
      assert enabled[k] !in enabled[..k];
      assert enabled[..k + 1] == enabled[..k] + [enabled[k]];
      if enabled[k] != first { rest := Insert(weights, rest, enabled[k]); }
    }
    assert enabled[..|enabled|] == enabled;
  }

  /** Where the cumulative weight next changes. */
  ghost function NextStop(weights: seq<nat>, enabled: seq<nat>, k: nat): nat
  {
    if k < |enabled| then enabled[k] else |weights|
  }

  /** The draw: walk the enabled sources until the cumulative weight passes the point. */
  method Pick(weights: seq<nat>, enabled: seq<nat>, point: nat, draw: nat) returns (first: nat)
    requires TotalWeight(weights) > 0 && point == draw % TotalWeight(weights)
    requires EnabledUpTo(weights, enabled, |weights|)
    ensures Drawn(weights, draw, first) && first in enabled
  {
    first := 0;
    var cumulative, k := 0, 0;
    NoWeightBefore(weights, enabled, 0);
    while k < |enabled|
      invariant k <= |enabled|
      invariant cumulative == Cumulative(weights, NextStop(weights, enabled, k))
      invariant cumulative <= point
    {
      var i := enabled[k];
      cumulative := cumulative + weights[i];
      if point < cumulative {
        return i;
      }
      k := k + 1;
      NoWeightBefore(weights, enabled, k);
    }
    assert false;
  }

  /** Between two enabled sources the cumulative weight stands still. */
  lemma NoWeightBefore(weights: seq<nat>, enabled: seq<nat>, k: nat)
    requires k <= |enabled| && EnabledUpTo(weights, enabled, |weights|)
    ensures Cumulative(weights, if k == 0 then 0 else enabled[k - 1] + 1)
         == Cumulative(weights, NextStop(weights, enabled, k))
  {
    var from: nat := if k == 0 then 0 else enabled[k - 1] + 1;
    assert forall j: nat :: from <= j < NextStop(weights, enabled, k) ==> j !in enabled;
    FlatStretch(weights, from, NextStop(weights, enabled, k));
  }

  lemma {:induction false} FlatStretch(weights: seq<nat>, low: nat, high: nat)
    requires low <= high <= |weights|
    requires forall j :: low <= j < high ==> weights[j] == 0
    ensures Cumulative(weights, low) == Cumulative(weights, high)
    decreases high
  {
    if low < high { FlatStretch(weights, low, high - 1); }
  }

  // --- What the order promises -------------------------------------------------------

  /** Main result: no source appears twice, so a walk of the order asks each enabled source exactly once. */
  lemma OrderHasNoRepeats(weights: seq<nat>, draw: nat, order: seq<nat>)
    requires IsOrder(weights, draw, order)
    ensures forall i, j :: 0 <= i < j < |order| ==> order[i] != order[j]
  {
    forall i, j | 0 <= i < j < |order|
      ensures order[i] != order[j]
    {
      assert order[j] == order[1..][j - 1];
      if i > 0 {
        assert Ahead(weights, order[1..][i - 1], order[1..][j - 1]);
      }
    }
  }

  /** Main result: behind the drawn source a heavier one always comes first, and of equal ones the earlier. */
  lemma HeavierComesFirst(weights: seq<nat>, draw: nat, order: seq<nat>, a: nat, b: nat)
    requires IsOrder(weights, draw, order) && 1 <= a < |order| && 1 <= b < |order|
    requires order[a] < |weights| && order[b] < |weights|
    requires weights[order[a]] > weights[order[b]] || (weights[order[a]] == weights[order[b]] && order[a] < order[b])
    ensures a < b
  {
    assert order[a] == order[1..][a - 1] && order[b] == order[1..][b - 1];
  }

  /** The number of draws among `n` consecutive ones that put source `i` first. */
  ghost function Wins(weights: seq<nat>, from: nat, n: nat, i: nat): nat
    requires TotalWeight(weights) > 0
  {
    if n == 0 then 0
    else Wins(weights, from, n - 1, i) + if Drawn(weights, from + n - 1, i) then 1 else 0
  }

  /** Within the first cycle the winning draws of a source form one interval. */
  lemma {:induction false} WinsInFirstCycle(weights: seq<nat>, n: nat, i: nat)
    requires TotalWeight(weights) > 0 && n <= TotalWeight(weights) && i < |weights|
    ensures var low, high := Cumulative(weights, i), Cumulative(weights, i + 1);
            Wins(weights, 0, n, i) == if n <= low then 0 else if n <= high then n - low else high - low
  {
    hide Cumulative;
    CumulativeMonotone(weights, i, i + 1);
    if n > 0 {
      WinsInFirstCycle(weights, n - 1, i);
      Remainder(n - 1, TotalWeight(weights), 0, n - 1);
    }
  }

  lemma DrawnPeriodic(weights: seq<nat>, draw: nat, i: nat)
    requires TotalWeight(weights) > 0
    ensures Drawn(weights, draw + TotalWeight(weights), i) <==> Drawn(weights, draw, i)
  {
    var t := TotalWeight(weights);
    AddModulus(draw, t);
  }

  lemma AddModulus(a: nat, t: nat)
    requires t > 0
    ensures (a + t) % t == a % t
  {
    var q, r := a / t, a % t;
    assert a + t == t * (q + 1) + r;
    Remainder(a + t, t, q + 1, r);
  }

  lemma Remainder(a: int, t: int, q: int, r: int)
    requires t > 0 && 0 <= r < t && a == t * q + r
    ensures a % t == r
  {
    var d := a / t - q;
    assert t * d == r - a % t;
    MultipleSize(t, d);
  }

  lemma MultipleSize(t: int, d: int)
    requires t > 0
    ensures d >= 1 ==> t * d >= t
    ensures d <= -1 ==> t * d <= -t
  {
  }

  lemma {:induction false} WinsFromFront(weights: seq<nat>, from: nat, n: nat, i: nat)
    requires TotalWeight(weights) > 0
    ensures Wins(weights, from, n + 1, i)
         == (if Drawn(weights, from, i) then 1 else 0) + Wins(weights, from + 1, n, i)
  {
    if n > 0 { WinsFromFront(weights, from, n - 1, i); }
  }

  /** Main result: over any cycle of consecutive draws, source `i` comes first exactly `weights[i]` times. */
  lemma {:induction false} OrderIsFair(weights: seq<nat>, from: nat, i: nat)
    requires TotalWeight(weights) > 0 && i < |weights|
    ensures Wins(weights, from, TotalWeight(weights), i) == weights[i]
  {
    var t := TotalWeight(weights);
    if from == 0 {
      CumulativeMonotone(weights, i + 1, |weights|);
      WinsInFirstCycle(weights, t, i);
    } else {
      OrderIsFair(weights, from - 1, i);
      WinsFromFront(weights, from - 1, t, i);
      DrawnPeriodic(weights, from - 1, i);
      assert Wins(weights, from - 1, t + 1, i)
          == Wins(weights, from - 1, t, i) + if Drawn(weights, from - 1 + t, i) then 1 else 0;
    }
  }

  /** The promise fixes the order completely. */
  lemma OrderUnique(weights: seq<nat>, draw: nat, a: seq<nat>, b: seq<nat>)
    requires IsOrder(weights, draw, a) && IsOrder(weights, draw, b)
    ensures a == b
  {
    if TotalWeight(weights) > 0 {
      DrawnUnique(weights, draw, a[0], b[0]);
      forall x: nat
        ensures x in a[1..] <==> x in b[1..]
      {
        assert a == [a[0]] + a[1..] && b == [b[0]] + b[1..];
        assert x in a <==> x in b;
      }
      DescendingUnique(weights, a[1..], b[1..]);
      assert a == [a[0]] + a[1..] && b == [b[0]] + b[1..];
    }
  }

  lemma {:induction false} DescendingUnique(weights: seq<nat>, a: seq<nat>, b: seq<nat>)
    requires Descending(weights, a) && Descending(weights, b)
    requires forall x: nat :: x in a <==> x in b
    ensures a == b
  {
    assert |b| > 0 ==> b[0] in b;
    if |a| > 0 {
      assert a[0] in a && a[0] in b && b[0] in a;
      assert forall k :: 0 < k < |b| ==> Ahead(weights, b[0], b[k]);
      assert forall k :: 0 < k < |a| ==> Ahead(weights, a[0], a[k]);
      assert a[0] == b[0];
      TailElements(weights, a);
      TailElements(weights, b);
      DescendingUnique(weights, a[1..], b[1..]);
      assert a == [a[0]] + a[1..] && b == [b[0]] + b[1..];
    }
  }

  lemma TailElements(weights: seq<nat>, a: seq<nat>)
    requires Descending(weights, a) && |a| > 0
    ensures forall x: nat :: x in a[1..] <==> x in a && x != a[0]
    ensures Descending(weights, a[1..])
  {
    assert a == [a[0]] + a[1..];
    forall k | 0 <= k < |a[1..]|
      ensures a[1..][k] != a[0]
    {
      assert Ahead(weights, a[0], a[k + 1]);
    }
  }
}
