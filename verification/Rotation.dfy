/**
 The rotation walk and its prefetch (`Run::rotate`, `Run::warm`,
 crates/whirl-worker/src/pipeline.rs:1772-2096): a search over the sources in weighted order and,
 within a source, over its filtered candidates. What a source offers, what a candidate's bytes
 become and what the setter answers are given, one answer per position of the walk.
 */
module Rotation {
  import opened Basics
  import opened WeightedOrder

  /** What became of a candidate's bytes (`fill`, `candidate_failure`). */
  datatype Fill = Filled | UnderFloor | BadBytes | MachineFailure

  /** What a prefetch of the candidate would do (`warm_one`). */
  datatype Warmth = Stored | NothingToHold | WarmBadBytes | WarmMachineFailure

  /** One position of the walk: the candidate and the answers it would get there. */
  datatype Candidate = Candidate(id: string, fill: Fill, accepted: bool, warmth: Warmth)

  /** A source that cannot be asked, or the candidates left after its filters. */
  datatype Offer = Disabled | Offers(kept: seq<Candidate>)

  function KeptOf(offer: Offer): seq<Candidate> { if offer.Disabled? then [] else offer.kept }

  // --- The walk as one list -----------------------------------------------------

  /** All candidates in walk order: source by source, filtered order within a source. */
  function Walk(offers: seq<Offer>, order: seq<nat>): seq<Candidate>
    requires forall i :: 0 <= i < |order| ==> order[i] < |offers|
  {
    if |order| == 0 then []
    else Walk(offers, order[..|order| - 1]) + KeptOf(offers[order[|order| - 1]])
  }

  lemma {:induction false} WalkPrefix(offers: seq<Offer>, order: seq<nat>, n: nat)
    requires n <= |order| && forall i :: 0 <= i < |order| ==> order[i] < |offers|
    ensures Walk(offers, order[..n]) <= Walk(offers, order)
    decreases |order|
  {
    if n == |order| {
      assert order[..n] == order;
    } else {
      assert order[..|order| - 1][..n] == order[..n];
      WalkPrefix(offers, order[..|order| - 1], n);
    }
  }

  // --- What the walk remembers ----------------------------------------------------

  /** Does this candidate get marked bad when it is tried? */
  predicate Fails(c: Candidate) { c.fill.BadBytes? || (c.fill.Filled? && !c.accepted) }

  /** The ids marked bad after walking a list: those that failed when they were tried. */
  function BadIds(walked: seq<Candidate>): set<string>
  {
    if |walked| == 0 then {}
    else
      var c := walked[|walked| - 1];
      BadIds(walked[..|walked| - 1]) + if Fails(c) then {c.id} else {}
  }

  /** Is position `k` tried, or skipped because its id is already bad? */
  predicate Tried(walk: seq<Candidate>, k: nat)
    requires k < |walk|
  {
    walk[k].id !in BadIds(walk[..k])
  }

  predicate Refused(walk: seq<Candidate>, k: nat)
    requires k < |walk|
  {
    Tried(walk, k) && walk[k].fill.Filled? && !walk[k].accepted
  }

  predicate SetterCalled(walk: seq<Candidate>, k: nat)
    requires k < |walk|
  {
    Tried(walk, k) && walk[k].fill.Filled?
  }

  /** How many of the first `k` positions the setter refused. */
  function Refusals(walk: seq<Candidate>, k: nat): nat
    requires k <= |walk|
  {
    if k == 0 then 0 else Refusals(walk, k - 1) + if Refused(walk, k - 1) then 1 else 0
  }

  /** The walk ends here: a set, a machine failure, or the second refusal. */
  predicate Ends(walk: seq<Candidate>, k: nat)
    requires k < |walk|
  {
    Tried(walk, k)
    && (walk[k].fill.MachineFailure?
        || (walk[k].fill.Filled? && (walk[k].accepted || Refusals(walk, k) == 1)))
  }

  predicate NoneEnds(walk: seq<Candidate>, k: nat)
    requires k <= |walk|
  {
    forall j :: 0 <= j < k ==> !Ends(walk, j)
  }

  datatype Result =
    | SetAt(position: nat)
    | RefusedAt(position: nat)
    | UnfilledAt(position: nat)
    | NoCandidates

  /** The last position before `k` with a property of the failure lists, if any. */
  function LastRefusal(walk: seq<Candidate>, k: nat): Option<nat>
    requires k <= |walk|
  {
    if k == 0 then None else if Refused(walk, k - 1) then Some(k - 1) else LastRefusal(walk, k - 1)
  }

  function LastBadBytes(walk: seq<Candidate>, k: nat): Option<nat>
    requires k <= |walk|
  {
    if k == 0 then None
    else if Tried(walk, k - 1) && walk[k - 1].fill.BadBytes? then Some(k - 1)
    else LastBadBytes(walk, k - 1)
  }

  /** The answer of a walk that ended at `k`. */
  function AnswerAt(walk: seq<Candidate>, k: nat): Result
    requires k < |walk| && Ends(walk, k)
  {
    if walk[k].fill.MachineFailure? then UnfilledAt(k)
    else if walk[k].accepted then SetAt(k)
    else RefusedAt(k)
  }

  /** The answer of a walk that ran out: the last refusal, else the last failed bytes, else no candidates. */
  function AnswerExhausted(walk: seq<Candidate>): Result
  {
    if LastRefusal(walk, |walk|).Some? then RefusedAt(LastRefusal(walk, |walk|).value)
    else if LastBadBytes(walk, |walk|).Some? then UnfilledAt(LastBadBytes(walk, |walk|).value)
    else NoCandidates
  }

  /** The promised answer. */
  ghost predicate IsAnswer(walk: seq<Candidate>, result: Result)
  {
    (exists k :: 0 <= k < |walk| && Ends(walk, k) && NoneEnds(walk, k) && result == AnswerAt(walk, k))
    || (NoneEnds(walk, |walk|) && result == AnswerExhausted(walk))
  }

  /** The positions in `[from, upTo)` a prefetch stores. */
  function Warmed(walk: seq<Candidate>, bad: set<string>, from: nat, upTo: nat): seq<nat>
    requires from <= upTo <= |walk|
    decreases upTo
  {
    if from == upTo then []
    else
      Warmed(walk, bad, from, upTo - 1)
      + if walk[upTo - 1].id !in bad && walk[upTo - 1].warmth.Stored? then [upTo - 1] else []
  }

  /** The positions among the first `k` at which the setter was called. */
  function SetterCalls(walk: seq<Candidate>, k: nat): seq<nat>
    requires k <= |walk|
  {
    if k == 0 then [] else SetterCalls(walk, k - 1) + if SetterCalled(walk, k - 1) then [k - 1] else []
  }

  // --- The run --------------------------------------------------------------------

  class Run {
    const offers: seq<Offer>
    const order: seq<nat>
    const prefetch: nat
    /** How many more times the clock is read before the prefetch's share of the deadline is spent. */
    var ticks: nat

    /** The sources asked so far, the positions the setter was called at, the positions warmed. */
    var enumerated: seq<nat>
    var setterCalls: seq<nat>
    var warmed: seq<nat>
    /** One past the last position the prefetch looked at. */
    var warmedUpTo: nat

    ghost predicate Valid()
      reads this
    {
      (forall i :: 0 <= i < |order| ==> order[i] < |offers|)
      && (forall i, j :: 0 <= i < j < |order| ==> order[i] != order[j])
    }

    ghost function FullWalk(): seq<Candidate>
      requires Valid()
      reads this
    {
      Walk(offers, order)
    }

    constructor (offers: seq<Offer>, weights: seq<nat>, order: seq<nat>, draw: nat, prefetch: nat, ticks: nat)
      requires |weights| == |offers| && IsOrder(weights, draw, order)
      ensures Valid() && this.offers == offers && this.order == order && this.prefetch == prefetch && this.ticks == ticks
      ensures enumerated == [] && setterCalls == [] && warmed == [] && warmedUpTo == 0
    {
      OrderHasNoRepeats(weights, draw, order);
      forall i | 0 <= i < |order|
        ensures order[i] < |offers|
      {
        assert order[i] in order;
      }
      this.offers, this.order, this.prefetch, this.ticks := offers, order, prefetch, ticks;
      enumerated, setterCalls, warmed, warmedUpTo := [], [], [], 0;
    }

    /** `enumerate` with `filter_pipeline`: ask the source at one place of the order. */
    method Enumerate(at: nat) returns (offer: Offer)
      requires Valid() && at < |order|
      modifies this`enumerated
      ensures enumerated == old(enumerated) + [order[at]] && offer == offers[order[at]]
    {
      enumerated := enumerated + [order[at]];
      offer := offers[order[at]];
    }

    /** Try one source's candidates in order until one of them ends the walk. */
    method TrySource(kept: seq<Candidate>, n: nat, memory: Memory)
      returns (now: Memory, used: nat, answer: Option<Result>)
      requires Valid() && n + |kept| <= |FullWalk()| && FullWalk()[n..n + |kept|] == kept
      requires Progress(FullWalk(), n, memory, setterCalls)
      modifies this`setterCalls
      ensures answer.None? ==> used == |kept| && Progress(FullWalk(), n + |kept|, now, setterCalls)
      ensures answer.Some? ==> 0 < used <= |kept| && EndedAt(FullWalk(), n + used - 1, answer.value, setterCalls)
                               && now.bad == BadIds(FullWalk()[..n + used])
    {
      hide Progress, EndedAt, Walk, BadIds;
      ghost var walk := FullWalk();
      now, used := memory, 0;
      while used < |kept|
        invariant used <= |kept| && Progress(walk, n + used, now, setterCalls)
      {
        var c := kept[used];
        assert c == walk[n + used];
        Advance(walk, n + used, now, setterCalls);
        used := used + 1;
        if c.id !in now.bad {
          match c.fill
          case UnderFloor =>
          case BadBytes =>
            now := now.(bad := now.bad + {c.id}, lastBadBytes := Some(n + used - 1));
          case MachineFailure =>
            return now, used, Some(UnfilledAt(n + used - 1));
          case Filled =>
            setterCalls := setterCalls + [n + used - 1];
            if c.accepted {
              return now, used, Some(SetAt(n + used - 1));
            }
            now := now.(bad := now.bad + {c.id}, lastRefusal := Some(n + used - 1), refusals := now.refusals + 1);
            if now.refusals >= 2 {
              return now, used, Some(RefusedAt(n + used - 1));
            }
        }
      }
      answer := None;
    }

    /** `rotate`: the walk, then the prefetch if something was set. */
    method Rotate() returns (result: Result)
      requires Valid() && enumerated == [] && setterCalls == [] && warmed == []
      modifies this
      ensures Valid() && IsAnswer(FullWalk(), result)
      ensures exists asked :: 0 <= asked <= |order| && enumerated == order[..asked]
      ensures exists k :: IsExtent(FullWalk(), k) && setterCalls == SetterCalls(FullWalk(), k)
      ensures !result.SetAt? ==> warmed == []
      ensures result.SetAt? ==> WarmedAfter(result.position)
      ensures StartsWithAMatch(offers, order) ==> result == SetAt(0)
    {
      hide Progress, EndedAt, Walk, BadIds, IsAnswer, IsExtent, WarmedAfter, StartsWithAMatch;
      ghost var walk := FullWalk();
      var memory, at := Memory({}, 0, None, None), 0;
      var n := 0;
      NothingWalked(offers, order);
      while at < |order|
        invariant at <= |order| && n == |Walk(offers, order[..at])|
        invariant enumerated == order[..at] && warmed == [] && walk == FullWalk()
        invariant Progress(walk, n, memory, setterCalls)
      {
        var offer := Enumerate(at);
        NextSource(offers, order, at);
        at := at + 1;
        var kept := match offer case Disabled => [] case Offers(filtered) => filtered;
        var used, answer;
        memory, used, answer := TrySource(kept, n, memory);
        if answer.Some? {
          result := answer.value;
          EndedIsAnswer(walk, n + used - 1, result, setterCalls);
          FirstMatchIsSet(offers, order, result);
          if result.SetAt? {
            RestOfSource(walk, n, kept, used);
            Warm(kept[used..], n + used, at, memory.bad);
          }
          return;
        }
        n := n + |kept|;
      }
      assert order[..|order|] == order;
      result := if memory.lastRefusal.Some? then RefusedAt(memory.lastRefusal.value)
                else if memory.lastBadBytes.Some? then UnfilledAt(memory.lastBadBytes.value)
                else NoCandidates;
      ExhaustedIsAnswer(walk, memory, setterCalls, result);
      FirstMatchIsSet(offers, order, result);
    }

    /** What the prefetch after a set at position `k` has done: carried on from `k + 1`, without a gap. */
    ghost predicate WarmedAfter(k: nat)
      requires Valid()
      reads this
    {
      var walk := FullWalk();
      k < |walk| && k + 1 <= warmedUpTo <= |walk|
      && warmed == Warmed(walk, BadIds(walk[..k + 1]), k + 1, warmedUpTo)
      && |warmed| <= prefetch
      && (warmedUpTo < |walk| ==>
            |warmed| == prefetch || ticks == 0
            || (warmedUpTo > k + 1 && walk[warmedUpTo - 1].warmth.WarmMachineFailure?))
    }

    /**
     `warm`: carry the walk on from where the set left it (`cursor` is what its source had not offered
     yet, `next` the place of the next source), storing up to `prefetch` candidates.
     */
    method Warm(cursor: seq<Candidate>, n: nat, next: nat, bad: set<string>)
      requires Valid() && 0 < n <= |FullWalk()| && next <= |order|
      requires enumerated == order[..next] && warmed == []
      requires bad == BadIds(FullWalk()[..n])
      requires n <= |Walk(offers, order[..next])| <= |FullWalk()|
      requires cursor == FullWalk()[n..|Walk(offers, order[..next])|]
      modifies this`enumerated, this`warmed, this`warmedUpTo, this`ticks
      ensures exists asked :: 0 <= asked <= |order| && enumerated == order[..asked]
      ensures WarmedAfter(n - 1)
    {
      hide Walk, BadIds;
      ghost var walk := FullWalk();
      warmedUpTo := n;
      if prefetch == 0 { return; }
      var at, kept := next, cursor;
      while true
        invariant next <= at <= |order| && enumerated == order[..at] && walk == FullWalk()
        invariant |Walk(offers, order[..at])| <= |walk| && Warming(walk, bad, n, |Walk(offers, order[..at])|, kept)
        decreases |order| - at
      {
        var stopped := WarmSource(kept, n, |Walk(offers, order[..at])|, bad);
        if stopped { return; }
        if at == |order| {
          assert order[..at] == order;
          return;
        }
        if ticks == 0 { return; }
        ticks := ticks - 1;
        NextSource(offers, order, at);
        var offer := Enumerate(at);
        at := at + 1;
        kept := match offer case Disabled => [] case Offers(filtered) => filtered;
      }
    }

    /** The prefetch stands at `warmedUpTo`, with `kept` left to look at up to `stop`. */
    ghost predicate Warming(walk: seq<Candidate>, bad: set<string>, n: nat, stop: nat, kept: seq<Candidate>)
      reads this
    {
      n <= warmedUpTo <= stop <= |walk| && kept == walk[warmedUpTo..stop]
      && warmed == Warmed(walk, bad, n, warmedUpTo) && |warmed| < prefetch
    }

    /** One source's stretch of the prefetch; `stopped` when it must go no further. */
    method WarmSource(cursor: seq<Candidate>, ghost n: nat, ghost stop: nat, bad: set<string>) returns (stopped: bool)
      requires Valid() && 0 < n <= stop <= |FullWalk()| && bad == BadIds(FullWalk()[..n])
      requires Warming(FullWalk(), bad, n, stop, cursor)
      modifies this`warmed, this`warmedUpTo, this`ticks
      ensures stopped ==> WarmedAfter(n - 1)
      ensures !stopped ==> warmedUpTo == stop && Warming(FullWalk(), bad, n, stop, [])
    {
      hide Walk, BadIds;
      ghost var walk := FullWalk();
      var kept := cursor;
      while kept != []
        invariant Warming(walk, bad, n, stop, kept)
        decreases |kept|
      {
        if ticks == 0 { return true; }
        ticks := ticks - 1;
        var c := kept[0];
        assert c == walk[warmedUpTo];
        kept := kept[1..];
        warmedUpTo := warmedUpTo + 1;
        if c.id !in bad {
          match c.warmth
          case Stored =>
            warmed := warmed + [warmedUpTo - 1];
            if |warmed| >= prefetch { return true; }
          case NothingToHold =>
          case WarmBadBytes =>
          case WarmMachineFailure => return true;
        }
      }
      stopped := false;
    }
  }

  /** What the walk carries from one candidate to the next. */
  datatype Memory = Memory(bad: set<string>, refusals: nat, lastRefusal: Option<nat>, lastBadBytes: Option<nat>)

  /** The memory after `n` positions none of which ended the walk. */
  ghost predicate Progress(walk: seq<Candidate>, n: nat, m: Memory, calls: seq<nat>)
  {
    && n <= |walk| && NoneEnds(walk, n) && calls == SetterCalls(walk, n)
    && m.bad == BadIds(walk[..n])
    && m.refusals == Refusals(walk, n) <= 1
    && m.lastRefusal == LastRefusal(walk, n) && m.lastBadBytes == LastBadBytes(walk, n)
  }

  /** The walk ended at position `k` with this answer. */
  ghost predicate EndedAt(walk: seq<Candidate>, k: nat, result: Result, calls: seq<nat>)
  {
    && k < |walk| && Ends(walk, k) && NoneEnds(walk, k)
    && result == AnswerAt(walk, k) && calls == SetterCalls(walk, k + 1)
  }

  /** How far a walk gets: to just past the position that ends it, or to its end. */
  ghost predicate IsExtent(walk: seq<Candidate>, k: int)
  {
    0 <= k <= |walk|
    && ((k == |walk| && NoneEnds(walk, k)) || (k > 0 && Ends(walk, k - 1) && NoneEnds(walk, k - 1)))
  }

  lemma NothingWalked(offers: seq<Offer>, order: seq<nat>)
    requires forall i :: 0 <= i < |order| ==> order[i] < |offers|
    ensures Walk(offers, order[..0]) == [] && Progress(Walk(offers, order), 0, Memory({}, 0, None, None), [])
  {
    assert Walk(offers, order)[..0] == [];
  }

  /** One candidate further, whatever its answers. */
  lemma Advance(walk: seq<Candidate>, n: nat, m: Memory, calls: seq<nat>)
    requires Progress(walk, n, m, calls) && n < |walk|
    ensures var c := walk[n];
            if c.id in m.bad || c.fill.UnderFloor? then Progress(walk, n + 1, m, calls)
            else if c.fill.BadBytes? then
              Progress(walk, n + 1, m.(bad := m.bad + {c.id}, lastBadBytes := Some(n)), calls)
            else if c.fill.MachineFailure? then
              EndedAt(walk, n, UnfilledAt(n), calls) && m.bad == BadIds(walk[..n + 1])
            else if c.accepted then
              EndedAt(walk, n, SetAt(n), calls + [n]) && m.bad == BadIds(walk[..n + 1])
            else if m.refusals == 1 then
              EndedAt(walk, n, RefusedAt(n), calls + [n]) && m.bad + {c.id} == BadIds(walk[..n + 1])
            else
              m.refusals == 0
              && Progress(walk, n + 1, m.(bad := m.bad + {c.id}, lastRefusal := Some(n), refusals := 1), calls + [n])
  {
    BadIdsStep(walk, n);
  }

  lemma EndedIsAnswer(walk: seq<Candidate>, k: nat, result: Result, calls: seq<nat>)
    requires EndedAt(walk, k, result, calls)
    ensures IsAnswer(walk, result) && IsExtent(walk, k + 1) && calls == SetterCalls(walk, k + 1)
    ensures result.SetAt? ==> result.position == k
    ensures k < |walk|
  {
  }

  lemma ExhaustedIsAnswer(walk: seq<Candidate>, m: Memory, calls: seq<nat>, result: Result)
    requires Progress(walk, |walk|, m, calls)
    requires result == if m.lastRefusal.Some? then RefusedAt(m.lastRefusal.value)
                       else if m.lastBadBytes.Some? then UnfilledAt(m.lastBadBytes.value)
                       else NoCandidates
    ensures IsAnswer(walk, result) && IsExtent(walk, |walk|) && calls == SetterCalls(walk, |walk|)
    ensures !result.SetAt?
  {
  }

  lemma RestOfSource(walk: seq<Candidate>, n: nat, kept: seq<Candidate>, used: nat)
    requires n + |kept| <= |walk| && walk[n..n + |kept|] == kept && used <= |kept|
    ensures kept[used..] == walk[n + used..n + |kept|]
  {
  }

  /** The candidates of the next source are the next stretch of the walk. */
  lemma NextSource(offers: seq<Offer>, order: seq<nat>, at: nat)
    requires at < |order| && forall i :: 0 <= i < |order| ==> order[i] < |offers|
    ensures order[..at + 1] == order[..at] + [order[at]]
    ensures var n, kept, walk := |Walk(offers, order[..at])|, KeptOf(offers[order[at]]), Walk(offers, order);
            && Walk(offers, order[..at + 1]) == Walk(offers, order[..at]) + kept
            && n + |kept| <= |walk| && walk[..n] == Walk(offers, order[..at]) && walk[n..n + |kept|] == kept
            && walk[..n + |kept|] == Walk(offers, order[..at + 1])
  {
    hide Walk, KeptOf;
    WalkStep(offers, order, at);
    WalkPrefix(offers, order, at + 1);
    PrefixSlices(Walk(offers, order[..at]), KeptOf(offers[order[at]]), Walk(offers, order));
  }

  lemma WalkStep(offers: seq<Offer>, order: seq<nat>, at: nat)
    requires at < |order| && forall i :: 0 <= i < |order| ==> order[i] < |offers|
    ensures Walk(offers, order[..at + 1]) == Walk(offers, order[..at]) + KeptOf(offers[order[at]])
  {
    hide KeptOf;
    assert order[..at + 1][..at] == order[..at];
  }

  lemma PrefixSlices(front: seq<Candidate>, next: seq<Candidate>, walk: seq<Candidate>)
    requires front + next <= walk
    ensures walk[..|front|] == front && walk[|front|..|front| + |next|] == next
    ensures walk[..|front| + |next|] == front + next
  {
  }

  lemma BadIdsStep(walk: seq<Candidate>, n: nat)
    requires n < |walk|
    ensures BadIds(walk[..n + 1]) == BadIds(walk[..n]) + if Fails(walk[n]) then {walk[n].id} else {}
  {
    assert walk[..n + 1][..n] == walk[..n];
  }

  // --- The walk is what the sources offered -----------------------------------------

  /** A source that was asked puts its candidates behind those of the sources before it; one that cannot be asked, none. */
  lemma WalkOfOneMore(offers: seq<Offer>, order: seq<nat>, a: nat)
    requires a < |order| && forall i :: 0 <= i < |order| ==> order[i] < |offers|
    ensures
      var before, after := Walk(offers, order[..a]), Walk(offers, order[..a + 1]);
      match offers[order[a]]
      case Offers(kept) => after == before + kept
      case Disabled => after == before
    ensures Walk(offers, order[..0]) == [] && order[..|order|] == order
  {
    WalkStep(offers, order, a);
  }

  /** Main result: candidate number j of a source stands in the walk behind everything of the sources before it. */
  lemma EveryCandidateIsWalked(offers: seq<Offer>, order: seq<nat>, a: nat, j: nat)
    requires a < |order| && forall i :: 0 <= i < |order| ==> order[i] < |offers|
    requires offers[order[a]].Offers? && j < |offers[order[a]].kept|
    ensures
      var n, walk := |Walk(offers, order[..a])|, Walk(offers, order);
      n + j < |walk| && walk[n + j] == offers[order[a]].kept[j]
  {
    hide Walk;
    WalkOfOneMore(offers, order, a);
    WalkPrefix(offers, order, a + 1);
    var before, kept := Walk(offers, order[..a]), offers[order[a]].kept;
    assert (before + kept)[|before| + j] == kept[j];
  }

  /** The walk has nothing else: every position of it is some candidate of some source that was asked. */
  lemma {:induction false} NothingElseIsWalked(offers: seq<Offer>, order: seq<nat>, k: nat) returns (a: nat, j: nat)
    requires forall i :: 0 <= i < |order| ==> order[i] < |offers|
    requires k < |Walk(offers, order)|
    ensures a < |order| && offers[order[a]].Offers? && j < |offers[order[a]].kept|
    ensures k == |Walk(offers, order[..a])| + j && Walk(offers, order)[k] == offers[order[a]].kept[j]
    decreases |order|
  {
    var front := order[..|order| - 1];
    if k < |Walk(offers, front)| {
      a, j := NothingElseIsWalked(offers, front, k);
      assert front[..a] == order[..a];
    } else {
      a, j := |order| - 1, k - |Walk(offers, front)|;
    }
  }

  /** The first source of the order offers a candidate, and its first one fills and is accepted. */
  predicate StartsWithAMatch(offers: seq<Offer>, order: seq<nat>)
  {
    && |order| > 0 && order[0] < |offers| && offers[order[0]].Offers? && |offers[order[0]].kept| > 0
    && offers[order[0]].kept[0].fill.Filled? && offers[order[0]].kept[0].accepted
  }

  /** Such a candidate is set. */
  lemma FirstMatchIsSet(offers: seq<Offer>, order: seq<nat>, result: Result)
    requires forall i :: 0 <= i < |order| ==> order[i] < |offers|
    requires IsAnswer(Walk(offers, order), result)
    ensures StartsWithAMatch(offers, order) ==> result == SetAt(0)
  {
    hide Walk, IsAnswer;
    if StartsWithAMatch(offers, order) {
      WalkOfOneMore(offers, order, 0);
      EveryCandidateIsWalked(offers, order, 0, 0);
      SetsTheFirstMatch(Walk(offers, order), result, 0);
    }
  }

  // --- What a rotation promises ------------------------------------------------------

  /** A candidate is passed over exactly when an earlier candidate of the same id failed. */
  lemma {:induction false} TriedMeaning(walk: seq<Candidate>, k: nat, id: string)
    requires k <= |walk|
    ensures id in BadIds(walk[..k]) <==> exists j :: 0 <= j < k && walk[j].id == id && Fails(walk[j])
  {
    if k > 0 {
      BadIdsStep(walk, k - 1);
      TriedMeaning(walk, k - 1, id);
    }
  }

  /** A walk has one answer. */
  lemma AnswerUnique(walk: seq<Candidate>, a: Result, b: Result)
    requires IsAnswer(walk, a) && IsAnswer(walk, b)
    ensures a == b
  {
  }

  /**
   Main result: the rotation sets exactly the first candidate of the walk that is not yet bad, fills
   and is accepted, unless a machine failure or a second refusal comes before it.
   */
  lemma SetsTheFirstMatch(walk: seq<Candidate>, result: Result, k: nat)
    requires IsAnswer(walk, result)
    ensures result == SetAt(k) <==>
              && k < |walk| && Tried(walk, k) && walk[k].fill.Filled? && walk[k].accepted
              && (forall j :: 0 <= j < k && Tried(walk, j) ==>
                    !walk[j].fill.MachineFailure? && !(walk[j].fill.Filled? && walk[j].accepted))
              && Refusals(walk, k) <= 1
  {
    if k < |walk| {
      EarlierEndings(walk, k);
      if result == SetAt(k) {
      } else if Ends(walk, k) && NoneEnds(walk, k) {
        AnswerUnique(walk, result, AnswerAt(walk, k));
      }
    }
  }

  /** No earlier position ends the walk exactly when none is a set or a machine failure and at most one is refused. */
  lemma {:induction false} EarlierEndings(walk: seq<Candidate>, k: nat)
    requires k <= |walk|
    ensures NoneEnds(walk, k) <==>
              (forall j :: 0 <= j < k && Tried(walk, j) ==>
                 !walk[j].fill.MachineFailure? && !(walk[j].fill.Filled? && walk[j].accepted))
              && Refusals(walk, k) <= 1
  {
    hide Tried;
    if k > 0 {
      EarlierEndings(walk, k - 1);
      assert NoneEnds(walk, k) <==> NoneEnds(walk, k - 1) && !Ends(walk, k - 1);
    }
  }

  /** No tried candidate among the first k is set or stopped by the machine. */
  predicate NoneDecides(walk: seq<Candidate>, k: nat)
    requires k <= |walk|
  {
    forall j :: 0 <= j < k && Tried(walk, j) ==>
      !walk[j].fill.MachineFailure? && !(walk[j].fill.Filled? && walk[j].accepted)
  }

  lemma {:induction false} RefusalsSplit(walk: seq<Candidate>, k: nat, n: nat)
    requires k <= n <= |walk|
    ensures Refusals(walk, k) <= Refusals(walk, n)
    ensures Refusals(walk, k) == Refusals(walk, n) <==> forall j :: k <= j < n ==> !Refused(walk, j)
    decreases n
  {
    hide Refused;
    if k < n { RefusalsSplit(walk, k, n - 1); }
  }

  /** The last refusal is the one with none behind it. */
  lemma {:induction false} LastRefusalMeaning(walk: seq<Candidate>, n: nat, k: nat)
    requires n <= |walk|
    ensures
      LastRefusal(walk, n) == Some(k) <==> k < n && Refused(walk, k) && forall j :: k < j < n ==> !Refused(walk, j)
    ensures LastRefusal(walk, n) == None <==> Refusals(walk, n) == 0
    decreases n
  {
    hide Refused;
    if n > 0 { LastRefusalMeaning(walk, n - 1, k); }
  }

  predicate FailedBytes(walk: seq<Candidate>, k: nat)
    requires k < |walk|
  {
    Tried(walk, k) && walk[k].fill.BadBytes?
  }

  lemma {:induction false} LastBadBytesMeaning(walk: seq<Candidate>, n: nat, k: nat)
    requires n <= |walk|
    ensures
      LastBadBytes(walk, n) == Some(k)
      <==> k < n && FailedBytes(walk, k) && forall j :: k < j < n ==> !FailedBytes(walk, j)
    ensures LastBadBytes(walk, n) == None <==> forall j :: 0 <= j < n ==> !FailedBytes(walk, j)
    decreases n
  {
    hide Tried, FailedBytes;
    if n > 0 {
      LastBadBytesMeaning(walk, n - 1, k);
      LastBadBytesStep(walk, n);
    }
  }

  lemma LastBadBytesStep(walk: seq<Candidate>, n: nat)
    requires 0 < n <= |walk|
    ensures LastBadBytes(walk, n) == if FailedBytes(walk, n - 1) then Some(n - 1) else LastBadBytes(walk, n - 1)
  {
  }

  /**
   Main result: a refusal at k is reported exactly when nothing before it decides and it is either the
   second refusal, or the only one of a walk that nothing decides.
   */
  lemma ReportsTheRefusal(walk: seq<Candidate>, result: Result, k: nat)
    requires IsAnswer(walk, result)
    ensures
      result == RefusedAt(k) <==>
        && k < |walk| && Refused(walk, k) && NoneDecides(walk, k)
        && (Refusals(walk, k) == 1
            || (Refusals(walk, k) == 0 && Refusals(walk, |walk|) == 1 && NoneDecides(walk, |walk|)))
  {
    hide Tried;
    if k < |walk| {
      EarlierEndings(walk, k);
      EarlierEndings(walk, |walk|);
      RefusalsSplit(walk, k, |walk|);
      RefusalsSplit(walk, k + 1, |walk|);
      LastRefusalMeaning(walk, |walk|, k);
      if Ends(walk, k) && NoneEnds(walk, k) { AnswerUnique(walk, result, AnswerAt(walk, k)); }
      if NoneEnds(walk, |walk|) { AnswerUnique(walk, result, AnswerExhausted(walk)); }
      RefusalsBound(walk, k);
    } else {
      LastRefusalMeaning(walk, |walk|, k);
    }
  }

  lemma RefusalsBound(walk: seq<Candidate>, k: nat)
    requires k < |walk|
    ensures Refusals(walk, k + 1) == Refusals(walk, k) + (if Refused(walk, k) then 1 else 0)
  {
  }

  /**
   Main result: failed bytes or a machine failure at k are reported exactly when it is a machine failure
   and nothing before it ends the walk, or the last failed bytes of a walk without a decision or a refusal.
   */
  lemma ReportsTheFailure(walk: seq<Candidate>, result: Result, k: nat)
    requires IsAnswer(walk, result)
    ensures
      result == UnfilledAt(k) <==>
        && k < |walk| && Tried(walk, k)
        && ((walk[k].fill.MachineFailure? && NoneDecides(walk, k) && Refusals(walk, k) <= 1)
            || (FailedBytes(walk, k) && (forall j :: k < j < |walk| ==> !FailedBytes(walk, j))
                && NoneDecides(walk, |walk|) && Refusals(walk, |walk|) == 0))
  {
    hide Tried;
    EarlierEndings(walk, |walk|);
    LastRefusalMeaning(walk, |walk|, k);
    LastBadBytesMeaning(walk, |walk|, k);
    if k < |walk| {
      EarlierEndings(walk, k);
      if Ends(walk, k) && NoneEnds(walk, k) { AnswerUnique(walk, result, AnswerAt(walk, k)); }
    }
    if NoneEnds(walk, |walk|) { AnswerUnique(walk, result, AnswerExhausted(walk)); }
  }

  /** Main result: there were no candidates exactly when every one tried was under the floor. */
  lemma ReportsNoCandidates(walk: seq<Candidate>, result: Result)
    requires IsAnswer(walk, result)
    ensures result == NoCandidates <==> forall j :: 0 <= j < |walk| && Tried(walk, j) ==> walk[j].fill.UnderFloor?
  {
    hide Tried;
    EarlierEndings(walk, |walk|);
    LastRefusalMeaning(walk, |walk|, 0);
    LastBadBytesMeaning(walk, |walk|, 0);
    RefusalsSplit(walk, 0, |walk|);
    if forall j :: 0 <= j < |walk| && Tried(walk, j) ==> walk[j].fill.UnderFloor? {
      assert forall j :: 0 <= j < |walk| ==> !Refused(walk, j) && !FailedBytes(walk, j);
      assert NoneEnds(walk, |walk|);
    }
    if NoneEnds(walk, |walk|) { AnswerUnique(walk, result, AnswerExhausted(walk)); }
    if result == NoCandidates {
      assert NoneEnds(walk, |walk|);
      forall j | 0 <= j < |walk| && Tried(walk, j)
        ensures walk[j].fill.UnderFloor?
      {
        assert !Refused(walk, j) && !FailedBytes(walk, j);
      }
    }
  }

  /** Main result: however far the walk gets, the setter is called at most twice. */
  lemma {:induction false} SetterCalledAtMostTwice(walk: seq<Candidate>, k: nat)
    requires IsExtent(walk, k)
    ensures |SetterCalls(walk, k)| <= 2
  {
    if k > 0 {
      CallsBeforeTheEnd(walk, k - 1);
    }
  }

  lemma {:induction false} CallsBeforeTheEnd(walk: seq<Candidate>, k: nat)
    requires k <= |walk| && NoneEnds(walk, k)
    ensures |SetterCalls(walk, k)| == Refusals(walk, k) <= 1
  {
    if k > 0 {
      assert !Ends(walk, k - 1);
      CallsBeforeTheEnd(walk, k - 1);
    }
  }

  /** A prefetch stores, in walk order, exactly the storable candidates it looked at that were not bad. */
  lemma {:induction false} WarmedMeaning(walk: seq<Candidate>, bad: set<string>, from: nat, upTo: nat)
    requires from <= upTo <= |walk|
    ensures forall p: nat :: p in Warmed(walk, bad, from, upTo) <==>
              from <= p < upTo && walk[p].id !in bad && walk[p].warmth.Stored?
    ensures forall i, j :: 0 <= i < j < |Warmed(walk, bad, from, upTo)| ==>
              Warmed(walk, bad, from, upTo)[i] < Warmed(walk, bad, from, upTo)[j]
    decreases upTo
  {
    if from < upTo {
      WarmedMeaning(walk, bad, from, upTo - 1);
      var w := Warmed(walk, bad, from, upTo - 1);
      assert forall i :: 0 <= i < |w| ==> w[i] in w;
    }
  }
}
