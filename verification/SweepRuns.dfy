/**
 What the sweep guarantees across calls: the eviction is the shortest prefix of the oldest-first
 listing, protected files survive every step, an interrupted sweep converges, and a second sweep
 is idle.
 */
module SweepRuns {
  import opened Basics
  import opened CacheIndex
  import opened CachePaths
  import opened OrderedSets
  import opened SweepSpec
  import opened Sweep

  // --- The eviction as a list ---------------------------------------------------

  /** The evictable entries, oldest first. */
  ghost predicate OldestFirst(rules: Rules, images: map<string, File>, live: map<string, Entry>, order: seq<string>)
  {
    && (forall d :: d in order <==> d in Evictable(rules, images, live))
    && (forall i, j :: 0 <= i < j < |order| ==> order[i] in live && order[j] in live && Before(live, order[i], order[j]))
  }

  function Elements(s: seq<string>): set<string> { set x | x in s }

  lemma InitialSegmentIsPrefix(rules: Rules, images: map<string, File>, live: map<string, Entry>, order: seq<string>, k: nat)
    requires OldestFirst(rules, images, live, order) && k <= |order|
    ensures Prefix(live, Evictable(rules, images, live), Elements(order[..k]))
  {
    var all := Evictable(rules, images, live);
    forall a, b | b in Elements(order[..k]) && a in all && Before(live, a, b)
      ensures a in Elements(order[..k])
    {
      var j :| 0 <= j < k && order[j] == b;
      assert a in order;
      var i :| 0 <= i < |order| && order[i] == a;
      if i >= k {
        assert Before(live, order[j], order[i]);
      }
      BeforeTotal(live, a, b);
      assert i < k && order[..k][i] == a;
    }
    forall x | x in Elements(order[..k])
      ensures x in all
    {
      assert x in order;
    }
  }

  /** Every set of entries has an oldest member. */
  lemma {:induction false} OldestExists(entries: map<string, Entry>, ds: set<string>)
    requires ds != {} && ds <= entries.Keys
    ensures exists m :: m in ds && forall d :: d in ds && d != m ==> Before(entries, m, d)
    decreases |ds|
  {
    hide Before;
    var x :| x in ds;
    var others := ds - {x};
    if others == {} {
      assert ds == {x};
      assert forall d :: d in ds ==> d == x;
    } else {
      OldestExists(entries, others);
      var m :| m in others && forall d :: d in others && d != m ==> Before(entries, m, d);
      BeforeTotal(entries, x, m);
      if Before(entries, x, m) {
        forall d | d in ds && d != x
          ensures Before(entries, x, d)
        {
          if d != m { BeforeTransitive(entries, x, m, d); }
        }
        assert x in ds;
      } else {
        assert m in ds;
      }
    }
  }

  /** A listing of a set of entries, oldest first. */
  ghost predicate Lists(entries: map<string, Entry>, ds: set<string>, order: seq<string>)
    requires ds <= entries.Keys
  {
    && (forall d :: d in order <==> d in ds)
    && (forall i, j :: 0 <= i < j < |order| ==> order[i] in ds && order[j] in ds && Before(entries, order[i], order[j]))
  }

  lemma {:induction false} ListingExists(entries: map<string, Entry>, ds: set<string>) returns (order: seq<string>)
    requires ds <= entries.Keys
    ensures Lists(entries, ds, order)
    decreases |ds|
  {
    hide Before, Lists;
    if ds == {} {
      order := [];
      NothingListed(entries);
    } else {
      OldestExists(entries, ds);
      var m :| m in ds && forall d :: d in ds && d != m ==> Before(entries, m, d);
      var rest := ListingExists(entries, ds - {m});
      OldestInFront(entries, ds, m, rest);
      order := [m] + rest;
    }
  }

  lemma NothingListed(entries: map<string, Entry>)
    ensures Lists(entries, {}, [])
  {
  }

  lemma OldestInFront(entries: map<string, Entry>, ds: set<string>, m: string, rest: seq<string>)
    requires ds <= entries.Keys && m in ds && forall d :: d in ds && d != m ==> Before(entries, m, d)
    requires Lists(entries, ds - {m}, rest)
    ensures Lists(entries, ds, [m] + rest)
  {
    hide Before;
    var order := [m] + rest;
    forall i, j | 0 <= i < j < |order|
      ensures order[i] in ds && order[j] in ds && Before(entries, order[i], order[j])
    {
      assert order[j] == rest[j - 1] && rest[j - 1] in rest;
      if i > 0 { assert order[i] == rest[i - 1]; }
    }
    forall d
      ensures d in order <==> d in ds
    {
      assert d in order <==> d == m || d in rest;
    }
  }

  /** The oldest-first listing exists. */
  lemma OldestFirstExists(rules: Rules, images: map<string, File>, live: map<string, Entry>)
    ensures exists order :: OldestFirst(rules, images, live, order)
  {
    hide Before;
    var order := ListingExists(live, Evictable(rules, images, live));
    assert OldestFirst(rules, images, live, order);
  }

  /**
   Main result: listed oldest first, the evicted entries are exactly the first `k`, where `k` is the
   least number whose removal satisfies both caps, or the whole list if no number does.
   */
  lemma EvictedIsShortestPrefix(rules: Rules, images: map<string, File>, live: map<string, Entry>,
                                order: seq<string>, evicted: set<string>) returns (k: nat)
    requires OldestFirst(rules, images, live, order)
    requires Eviction(rules, images, live, evicted)
    ensures k <= |order| && evicted == Elements(order[..k])
    ensures forall j :: 0 <= j < k ==>
              Elements(order[..j]) <= live.Keys
              && !BothCapsHold(rules.config, Without(rules.root, images, live, Elements(order[..j])))
    ensures k < |order| ==> BothCapsHold(rules.config, Without(rules.root, images, live, evicted))
  {
    hide BothCapsHold, Without;
    k := CutPoint(rules, images, live, order, evicted);
    forall j | 0 <= j < k
      ensures Elements(order[..j]) <= live.Keys
              && !BothCapsHold(rules.config, Without(rules.root, images, live, Elements(order[..j])))
    {
      InitialSegmentIsPrefix(rules, images, live, order, j);
      ShorterIsSmaller(rules, images, live, order, j, k);
    }
    if k < |order| {
      NotYetListed(rules, images, live, order, k);
    }
  }

  lemma CutPoint(rules: Rules, images: map<string, File>, live: map<string, Entry>,
                 order: seq<string>, evicted: set<string>) returns (k: nat)
    requires OldestFirst(rules, images, live, order)
    requires Prefix(live, Evictable(rules, images, live), evicted)
    ensures k <= |order| && evicted == Elements(order[..k])
  {
    k := 0;
    while k < |order| && order[k] in evicted
      invariant k <= |order| && Elements(order[..k]) <= evicted
    {
      assert order[..k + 1] == order[..k] + [order[k]];
      k := k + 1;
    }
    assert k < |order| ==> order[k] in order;
    assert k < |order| ==> forall i :: k < i < |order| ==> Before(live, order[k], order[i]);
    forall d | d in evicted
      ensures d in Elements(order[..k])
    {
      assert d in order;
      var i :| 0 <= i < |order| && order[i] == d;
      assert i < k ==> order[..k][i] == d;
    }
  }

  lemma NotYetListed(rules: Rules, images: map<string, File>, live: map<string, Entry>, order: seq<string>, k: nat)
    requires OldestFirst(rules, images, live, order) && k < |order|
    ensures order[k] in Evictable(rules, images, live) && order[k] !in Elements(order[..k])
  {
    assert order[k] in order;
    if order[k] in Elements(order[..k]) {
      var i :| 0 <= i < k && order[i] == order[k];
      BeforeTotal(live, order[i], order[k]);
    }
  }

  lemma ShorterIsSmaller(rules: Rules, images: map<string, File>, live: map<string, Entry>, order: seq<string>, j: nat, k: nat)
    requires OldestFirst(rules, images, live, order) && j < k <= |order|
    ensures Elements(order[..j]) < Elements(order[..k])
  {
    NotYetListed(rules, images, live, order, j);
    assert order[..k][j] == order[j];
    assert forall x :: x in order[..j] ==> x in order[..k];
  }

  // --- Safety and the bound ------------------------------------------------------

  /** Main result: no step of any sweep, finished or stopped, removes a protected file. */
  lemma ProtectedFilesSurvive(rules: Rules, before: Disk, after: Disk, path: string)
    requires Swept(rules, before, after) || Stopped(rules, before, after)
    requires path in before.images && Safe(rules, before.images, path)
    ensures path in after.images && after.images[path] == before.images[path]
  {
    hide ContentPath, Keeps;
    var live := Live(rules.root, before.images, before.index.entries);
    if Swept(rules, before, after) {
      var evicted :| SweptBy(rules, before, after, evicted);
      EvictionSparesSafe(rules, before, live, evicted, path);
    } else {
      var reclaimed, evicted :| StoppedAfter(rules, before, after, reclaimed, evicted);
      EvictionSparesSafe(rules, before, live, evicted, path);
    }
  }

  lemma EvictionSparesSafe(rules: Rules, before: Disk, live: map<string, Entry>, evicted: set<string>, path: string)
    requires PartialEviction(rules, Reclaimed(rules, before), live, evicted)
    requires path in before.images && Safe(rules, before.images, path)
    ensures path !in Orphans(rules, before.images, before.index.entries)
    ensures path !in PathsOf(rules.root, live, evicted)
  {
    hide ContentPath, Keeps;
    forall d | d in evicted
      ensures PathOf(rules.root, live, d) != path
    {
      assert d in Evictable(rules, Reclaimed(rules, before), live);
    }
  }

  /** Every file a completed sweep leaves is a live entry's own file or protected. */
  lemma SurvivorsAreKnown(rules: Rules, before: Disk, after: Disk, evicted: set<string>, path: string)
    requires SweptBy(rules, before, after, evicted) && path in after.images
    ensures var live := Live(rules.root, before.images, before.index.entries);
            Safe(rules, after.images, path)
            || exists d :: d in live && d !in evicted && PathOf(rules.root, live, d) == path
  {
    hide ContentPath, Keeps;
    var live := Live(rules.root, before.images, before.index.entries);
    assert path in before.images && after.images[path] == before.images[path];
    assert path !in Orphans(rules, before.images, before.index.entries);
    assert path !in PathsOf(rules.root, live, evicted);
    if !Safe(rules, after.images, path) {
      assert path in PathsOf(rules.root, live, live.Keys);
      var d :| d in live && PathOf(rules.root, live, d) == path;
    }
  }

  /** Main result: after a completed sweep either both caps hold or every surviving file is protected. */
  lemma BoundOrProtected(rules: Rules, before: Disk, after: Disk)
    requires WellKeyed(before.index.entries) && Swept(rules, before, after)
    ensures BothCapsHold(rules.config, after.images) || forall p :: p in after.images ==> Safe(rules, after.images, p)
  {
    hide ContentPath, Keeps, BothCapsHold;
    var evicted :| SweptBy(rules, before, after, evicted);
    var live := Live(rules.root, before.images, before.index.entries);
    if !BothCapsHold(rules.config, after.images) {
      forall d | d in live && d !in evicted && PathOf(rules.root, live, d) in after.images
        ensures Safe(rules, after.images, PathOf(rules.root, live, d))
      {
        assert d !in Evictable(rules, Reclaimed(rules, before), live);
      }
      forall p | p in after.images
        ensures Safe(rules, after.images, p)
      {
        SurvivorsAreKnown(rules, before, after, evicted, p);
      }
    }
  }

  /**
   Main result: the cause reported after a completed sweep is exact. There is none when both caps
   hold; it is one file when the cache is down to a single file that alone is over the byte cap.
   */
  lemma CauseIsExact(rules: Rules, before: Disk, after: Disk)
    requires WellKeyed(before.index.entries) && Swept(rules, before, after)
    ensures var cause := OverCause(rules, after.images, |after.images|, Total(after.images));
            && (cause == None <==> BothCapsHold(rules.config, after.images))
            && (cause == Some(SingleFile) <==>
                |after.images| == 1 && forall p :: p in after.images ==> after.images[p].bytes > rules.config.maxBytes)
  {
    hide Swept, Safe;
    BoundOrProtected(rules, before, after);
    var kept := SafeFiles(rules, after.images);
    if BothCapsHold(rules.config, after.images) {
      if |after.images| == 1 {
        var p :| p in after.images;
        TotalRemove(after.images, p);
      }
    } else {
      assert kept == after.images.Keys;
      assert |kept| == |after.images|;
    }
  }

  // --- Conservation ----------------------------------------------------------------

  /** Main result: the old entries are the disjoint union of the kept, the newly dangling and the evicted. */
  lemma EntriesArePartitioned(rules: Rules, before: Disk, after: Disk, evicted: set<string>)
    requires SweptBy(rules, before, after, evicted)
    ensures var old_, kept, missing := before.index.entries.Keys, after.index.entries.Keys, Missing(rules.root, before);
            old_ == kept + missing + evicted && kept !! missing !! evicted
    ensures forall d :: d in after.index.dangling <==> d in Missing(rules.root, before)
    ensures forall d :: d in after.index.entries ==>
              after.index.entries[d] == before.index.entries[d].(pinned := d in rules.protected.pinnedDigests)
  {
    hide ContentPath, Eviction, Sorted, Orphans, Without, StaleParts, Repinned, Live;
    SortedIsAscending(Missing(rules.root, before));
    var live := Live(rules.root, before.images, before.index.entries);
    TakenAreLive(rules, Reclaimed(rules, before), live, evicted);
    LiveAreEntries(rules.root, before.images, before.index.entries);
    PartitionOfEntries(rules, before.index.entries, live, evicted);
  }

  lemma LiveAreEntries(root: string, images: map<string, File>, entries: map<string, Entry>)
    ensures var live := Live(root, images, entries);
            live.Keys <= entries.Keys && forall d :: d in live ==> live[d] == entries[d]
  {
  }

  lemma PartitionOfEntries(rules: Rules, entries: map<string, Entry>, live: map<string, Entry>, evicted: set<string>)
    requires live.Keys <= entries.Keys && forall d :: d in live ==> live[d] == entries[d]
    requires evicted <= live.Keys
    ensures var kept, missing := Repinned(rules, live - evicted), entries.Keys - live.Keys;
            && entries.Keys == kept.Keys + missing + evicted && kept.Keys !! missing !! evicted
            && forall d :: d in kept ==> kept[d] == entries[d].(pinned := d in rules.protected.pinnedDigests)
  {
  }

  // --- Interrupt and rerun -----------------------------------------------------------

  /** Every index entry names a file that is there. */
  ghost predicate EveryEntryHasFile(root: string, disk: Disk)
  {
    forall d :: d in disk.index.entries ==> PathOf(root, disk.index.entries, d) in disk.images
  }

  /** What a stopped sweep leaves alive: the entries it had not evicted. */
  lemma LiveAfterStop(rules: Rules, before: Disk, mid: Disk, reclaimed: set<string>, evicted: set<string>)
    requires WellKeyed(before.index.entries) && StoppedAfter(rules, before, mid, reclaimed, evicted)
    ensures Live(rules.root, mid.images, mid.index.entries)
         == Live(rules.root, before.images, before.index.entries) - evicted
  {
    hide ContentPath, Keeps, NoneTooMany, HexDigest;
    var entries := before.index.entries;
    var live := Live(rules.root, before.images, entries);
    forall d | d in entries
      ensures d in Live(rules.root, mid.images, entries) <==> d in live && d !in evicted
    {
      if d in live {
        LiveKeyed(rules.root, before.images, entries);
        DistinctPaths(rules.root, live, d, evicted);
        ClaimedIsNotOrphan(rules, before, d);
      }
    }
  }

  lemma ClaimedIsNotOrphan(rules: Rules, before: Disk, d: string)
    requires d in Live(rules.root, before.images, before.index.entries)
    ensures PathOf(rules.root, before.index.entries, d) !in Orphans(rules, before.images, before.index.entries)
  {
    var live := Live(rules.root, before.images, before.index.entries);
    assert PathOf(rules.root, live, d) in PathsOf(rules.root, live, live.Keys);
  }

  /** The files of the resumed sweep's step 4 are the original's, less what was already evicted. */
  lemma ReclaimedAfterStop(rules: Rules, before: Disk, mid: Disk, reclaimed: set<string>, evicted: set<string>)
    requires WellKeyed(before.index.entries) && StoppedAfter(rules, before, mid, reclaimed, evicted)
    ensures var live := Live(rules.root, before.images, before.index.entries);
            Reclaimed(rules, mid) == Without(rules.root, Reclaimed(rules, before), live, evicted)
  {
    hide ContentPath, Keeps, NoneTooMany, HexDigest;
    LiveAfterStop(rules, before, mid, reclaimed, evicted);
    var live := Live(rules.root, before.images, before.index.entries);
    var rest := live - evicted;
    forall p | p in mid.images
      ensures p in Orphans(rules, mid.images, mid.index.entries) <==> p in Orphans(rules, before.images, before.index.entries)
    {
      assert p !in PathsOf(rules.root, live, evicted);
      assert p in PathsOf(rules.root, rest, rest.Keys) <==> p in PathsOf(rules.root, live, live.Keys) by {
        PathsOfRest(rules.root, live, evicted, p);
      }
    }
  }

  lemma PathsOfRest(root: string, live: map<string, Entry>, evicted: set<string>, p: string)
    requires evicted <= live.Keys && p !in PathsOf(root, live, evicted)
    ensures var rest := live - evicted;
            p in PathsOf(root, rest, rest.Keys) <==> p in PathsOf(root, live, live.Keys)
  {
    hide ContentPath;
    var rest := live - evicted;
    if p in PathsOf(root, live, live.Keys) {
      var d :| d in live && PathOf(root, live, d) == p;
      assert d !in evicted;
      assert PathOf(root, rest, d) == p;
    }
    if p in PathsOf(root, rest, rest.Keys) {
      var d :| d in rest && PathOf(root, rest, d) == p;
      assert PathOf(root, live, d) == p;
    }
  }

  /** An eviction carried out in two goes is one eviction. */
  lemma EvictionInTwoGoes(rules: Rules, images: map<string, File>, live: map<string, Entry>, first: set<string>, second: set<string>)
    requires WellKeyed(live) && PartialEviction(rules, images, live, first)
    requires Eviction(rules, Without(rules.root, images, live, first), live - first, second)
    ensures Eviction(rules, images, live, first + second)
  {
    hide ContentPath, Safe, BothCapsHold, HexDigest;
    var all := Evictable(rules, images, live);
    var rest := live - first;
    EvictableShrinks(rules, images, live, first);
    var left := all - first;
    var both := first + second;
    WithoutTwice(rules.root, images, live, first, second);
    forall a, b | b in both && a in all && Before(live, a, b)
      ensures a in both
    {
      if b in second && a !in first { assert Before(rest, a, b); }
    }
    assert Prefix(live, all, both);
    forall fewer | Prefix(live, all, fewer) && fewer < both
      ensures !BothCapsHold(rules.config, Without(rules.root, images, live, fewer))
    {
      PrefixesNest(live, all, fewer, first);
      if first <= fewer {
        var more := fewer - first;
        assert Prefix(rest, left, more) by {
          forall a, b | b in more && a in left && Before(rest, a, b)
            ensures a in more
          {
            assert Before(live, a, b);
          }
        }
        assert more < second;
        WithoutTwice(rules.root, images, live, first, more);
        assert first + more == fewer;
      } else {
        assert fewer < first;
      }
    }
    assert PartialEviction(rules, images, live, both);
  }

  lemma WithoutTwice(root: string, images: map<string, File>, live: map<string, Entry>, first: set<string>, second: set<string>)
    requires first <= live.Keys && second <= (live - first).Keys
    ensures Without(root, Without(root, images, live, first), live - first, second)
         == Without(root, images, live, first + second)
  {
    hide ContentPath;
    var rest := live - first;
    assert PathsOf(root, rest, second) == PathsOf(root, live, second) by {
      assert forall d :: d in second ==> PathOf(root, rest, d) == PathOf(root, live, d);
    }
    assert PathsOf(root, live, first + second) == PathsOf(root, live, first) + PathsOf(root, live, second);
  }

  /**
   Main result: stop a sweep anywhere before its index write and run it again under the same rules;
   the files, the part files and the entries are those of one uninterrupted sweep.
   */
  lemma RerunConverges(rules: Rules, before: Disk, mid: Disk, resumed: Disk, direct: Disk)
    requires WellKeyed(before.index.entries)
    requires Stopped(rules, before, mid) && Swept(rules, mid, resumed) && Swept(rules, before, direct)
    ensures resumed.images == direct.images
    ensures resumed.index.entries == direct.index.entries
    ensures resumed.parts == direct.parts
    ensures EveryEntryHasFile(rules.root, resumed)
  {
    hide ContentPath, Keeps, Prefix, NoneTooMany, Eviction, PartialEviction, HexDigest, Orphans, Live, PathsOf;
    var reclaimed, first :| StoppedAfter(rules, before, mid, reclaimed, first);
    var second :| SweptBy(rules, mid, resumed, second);
    var whole :| SweptBy(rules, before, direct, whole);
    var live := Live(rules.root, before.images, before.index.entries);
    LiveKeyed(rules.root, before.images, before.index.entries);
    LiveAfterStop(rules, before, mid, reclaimed, first);
    ReclaimedAfterStop(rules, before, mid, reclaimed, first);
    TakenAreLive(rules, Reclaimed(rules, before), live, first);
    EvictionInTwoGoes(rules, Reclaimed(rules, before), live, first, second);
    EvictionUnique(rules, Reclaimed(rules, before), live, first + second, whole);
    TakenAreLive(rules, Reclaimed(rules, mid), live - first, second);
    WithoutTwice(rules.root, Reclaimed(rules, before), live, first, second);
    assert live - first - second == live - (first + second);
    PartsAfterStop(rules, before, mid);
    SweptEntriesHaveFiles(rules, mid, resumed);
  }

  lemma TakenAreLive(rules: Rules, images: map<string, File>, live: map<string, Entry>, taken: set<string>)
    requires PartialEviction(rules, images, live, taken) || Eviction(rules, images, live, taken)
    ensures taken <= live.Keys
  {
  }

  lemma PartsAfterStop(rules: Rules, before: Disk, mid: Disk)
    requires exists gone :: PartsGone(rules, before, mid, gone)
    ensures mid.parts - StaleParts(rules, mid.parts) == before.parts - StaleParts(rules, before.parts)
  {
  }

  /** After a completed sweep the index names only files that are there. */
  lemma SweptEntriesHaveFiles(rules: Rules, before: Disk, after: Disk)
    requires WellKeyed(before.index.entries) && Swept(rules, before, after)
    ensures EveryEntryHasFile(rules.root, after)
  {
    hide ContentPath, Keeps, NoneTooMany, HexDigest;
    var evicted :| SweptBy(rules, before, after, evicted);
    var live := Live(rules.root, before.images, before.index.entries);
    LiveKeyed(rules.root, before.images, before.index.entries);
    forall d | d in after.index.entries
      ensures PathOf(rules.root, after.index.entries, d) in after.images
    {
      DistinctPaths(rules.root, live, d, evicted);
      ClaimedIsNotOrphan(rules, before, d);
      assert PathOf(rules.root, after.index.entries, d) == PathOf(rules.root, live, d);
    }
  }

  // --- A second sweep -----------------------------------------------------------------

  /** Main result: an immediate second sweep under the same rules removes nothing at all. */
  lemma SecondSweepIsIdle(rules: Rules, before: Disk, after: Disk, again: Disk)
    requires WellKeyed(before.index.entries)
    requires Swept(rules, before, after) && Swept(rules, after, again)
    ensures again.images == after.images && again.parts == after.parts
    ensures again.index.entries == after.index.entries && again.index.dangling == []
  {
    hide ContentPath, Eviction, HexDigest, Sorted, Orphans, Live, Missing, Repinned, StaleParts, Without;
    var evicted :| SweptBy(rules, before, after, evicted);
    var more :| SweptBy(rules, after, again, more);
    var live := Live(rules.root, before.images, before.index.entries);
    NothingMissing(rules, before, after, evicted);
    NoNewOrphans(rules, before, after, evicted);
    assert Reclaimed(rules, after) == after.images;
    IdleEviction(rules, before, after, evicted, more);
    NothingEvicted(rules, after.images, after.index.entries);
    SortedIsAscending({});
    NoStaleLeft(rules, before.parts);
  }

  lemma NothingMissing(rules: Rules, before: Disk, after: Disk, evicted: set<string>)
    requires WellKeyed(before.index.entries) && SweptBy(rules, before, after, evicted)
    ensures Live(rules.root, after.images, after.index.entries) == after.index.entries
    ensures Missing(rules.root, after) == {}
    ensures Repinned(rules, after.index.entries) == after.index.entries
  {
    hide ContentPath, Eviction, HexDigest, Sorted, Orphans, Without;
    SweptEntriesHaveFiles(rules, before, after);
  }

  lemma NoStaleLeft(rules: Rules, parts: map<string, File>)
    ensures var left := parts - StaleParts(rules, parts);
            left - StaleParts(rules, left) == left
  {
  }

  lemma NoNewOrphans(rules: Rules, before: Disk, after: Disk, evicted: set<string>)
    requires WellKeyed(before.index.entries) && SweptBy(rules, before, after, evicted)
    requires Live(rules.root, after.images, after.index.entries) == after.index.entries
    ensures Orphans(rules, after.images, after.index.entries) == {}
  {
    hide ContentPath, Keeps, Prefix, NoneTooMany, HexDigest, Sorted;
    var live := Live(rules.root, before.images, before.index.entries);
    forall p | p in after.images
      ensures p !in Orphans(rules, after.images, after.index.entries)
    {
      SurvivorsAreKnown(rules, before, after, evicted, p);
      if !Safe(rules, after.images, p) {
        var d :| d in live && d !in evicted && PathOf(rules.root, live, d) == p;
        assert PathOf(rules.root, after.index.entries, d) == p;
      }
    }
  }

  lemma IdleEviction(rules: Rules, before: Disk, after: Disk, evicted: set<string>, more: set<string>)
    requires WellKeyed(before.index.entries) && SweptBy(rules, before, after, evicted)
    requires Eviction(rules, after.images, after.index.entries, more)
    ensures more == {}
  {
    hide ContentPath, Keeps, HexDigest, Sorted, BothCapsHold;
    var live := Live(rules.root, before.images, before.index.entries);
    var base := Reclaimed(rules, before);
    LiveKeyed(rules.root, before.images, before.index.entries);
    EvictableShrinks(rules, base, live, evicted);
    assert Evictable(rules, after.images, after.index.entries) == Evictable(rules, after.images, live - evicted);
    if evicted != Evictable(rules, base, live) {
      NothingEvicted(rules, after.images, after.index.entries);
      assert Prefix(after.index.entries, Evictable(rules, after.images, after.index.entries), {});
      assert more != {} ==> {} < more;
    }
  }

  // --- Part files that cannot be dated ----------------------------------------------------

  /**
   Main result: a part file without a readable age is left alone, as the sweep's comment says, exactly
   when the orphan grace is not zero. A stopped sweep removes it only with a grace of zero.
   */
  lemma UndatedPartStays(rules: Rules, before: Disk, after: Disk, path: string)
    requires path in before.parts && before.parts[path].mtime == None
    ensures Swept(rules, before, after) ==> (path in after.parts <==> rules.config.orphanGraceSeconds > 0)
    ensures Stopped(rules, before, after) && path !in after.parts ==> rules.config.orphanGraceSeconds == 0
  {
    hide SweptBy, StoppedAfter;
    assert path in StaleParts(rules, before.parts) <==> rules.config.orphanGraceSeconds == 0;
    if Swept(rules, before, after) {
      var evicted :| SweptBy(rules, before, after, evicted);
      SweptParts(rules, before, after, evicted);
    }
    if Stopped(rules, before, after) {
      var reclaimed, evicted :| StoppedAfter(rules, before, after, reclaimed, evicted);
      StoppedParts(rules, before, after, reclaimed, evicted);
    }
  }

  lemma SweptParts(rules: Rules, before: Disk, after: Disk, evicted: set<string>)
    requires SweptBy(rules, before, after, evicted)
    ensures after.parts == before.parts - StaleParts(rules, before.parts)
  {
    hide Eviction, Without, Live, Orphans, Sorted, Repinned;
  }

  lemma StoppedParts(rules: Rules, before: Disk, after: Disk, reclaimed: set<string>, evicted: set<string>)
    requires StoppedAfter(rules, before, after, reclaimed, evicted)
    ensures exists gone :: PartsGone(rules, before, after, gone)
  {
    hide PartialEviction, Without, Live, Orphans, PartsGone;
  }

  /** A cache that holds nothing but one part file of five bytes whose age cannot be read. */
  function UndatedDisk(): Disk
  {
    Disk(map[], map["/cache/tmp/7-00000001.part" := File(5, None)], IndexFile(0, "", "id", map[], []))
  }

  function ZeroGrace(): Rules
  {
    Rules("/cache", Config(1000, 10, 60, 0), Protected(None, {}, {}, {}, false), 0)
  }

  /** The failing input: with a grace of zero that sweep can complete, and the file is gone whenever it does. */
  lemma UndatedPartIsRemoved()
    ensures exists after :: Swept(ZeroGrace(), UndatedDisk(), after)
    ensures
      forall after :: Swept(ZeroGrace(), UndatedDisk(), after) ==> "/cache/tmp/7-00000001.part" !in after.parts
  {
    var rules, before := ZeroGrace(), UndatedDisk();
    var path := "/cache/tmp/7-00000001.part";
    forall after | Swept(rules, before, after)
      ensures path !in after.parts
    {
      UndatedPartStays(rules, before, after, path);
    }
    var after := Disk(map[], map[], IndexFile(1, "", "id", map[], []));
    assert StaleParts(rules, before.parts) == {path};
    assert Sorted({}) == [];
    assert Live(rules.root, before.images, before.index.entries) == map[];
    assert Missing(rules.root, before) == {};
    assert Reclaimed(rules, before) == map[];
    EmptyTotal();
    EmptyEviction(rules);
    assert SweptBy(rules, before, after, {});
    assert Swept(rules, before, after);
  }

  lemma EmptyEviction(rules: Rules)
    ensures Eviction(rules, map[], map[], {}) && Without(rules.root, map[], map[], {}) == map[]
  {
    NothingEvicted(rules, map[], map[]);
    assert Evictable(rules, map[], map[]) == {};
  }
}
