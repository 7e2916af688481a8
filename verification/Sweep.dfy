/**
 The sweep and the record of a rotation, as the daemon runs them on its cache directory
 (crates/whirld/src/cache.rs:183-198, 259-358, 405-616, 638-694).
 */
module Sweep {
  import opened Basics
  import opened CacheIndex
  import opened CachePaths
  import opened OrderedSets
  import opened SweepSpec
  import Calendar
  import Floats
  import IndexState

  // --- The measured tree -------------------------------------------------------

  /** `walk`: measure every file once. */
  method Walk(images: map<string, File>) returns (files: nat, bytes: nat, cached: map<string, File>)
    ensures cached == images && files == |images| && bytes == Total(images)
  {
    hide Total, Measured;
    files, bytes, cached := 0, 0, map[];
    EmptyTotal();
    MeasuredStart(images);
    var pending := images.Keys;
    while pending != {}
      invariant Measured(images, cached, pending)
      invariant files == |cached| && bytes == Total(cached)
      decreases |pending|
    {
      var p :| p in pending;
      MeasuredStep(images, cached, pending, p);
      files := files + 1;
      bytes := bytes + images[p].bytes;
      cached := cached[p := images[p]];
      pending := pending - {p};
    }
  }

  /** `Survey`: the files under `sha256/` with their running totals. */
  class Survey {
    var files: nat
    var bytes: nat
    var cached: map<string, File>

    ghost predicate Valid()
      reads this
    {
      files == |cached| && bytes == Total(cached)
    }

    constructor (images: map<string, File>)
      ensures Valid() && cached == images
    {
      var n, b, c := Walk(images);
      files, bytes, cached := n, b, c;
    }

    /** `Survey::forget`. The two saturating subtractions never saturate. */
    method Forget(path: string) returns (gone: Option<File>)
      requires Valid()
      modifies this
      ensures Valid()
      ensures cached == old(cached) - {path}
      ensures gone == if path in old(cached) then Some(old(cached)[path]) else None
      ensures gone.Some? ==> old(files) == files + 1 && old(bytes) == bytes + gone.value.bytes
    {
      if path !in cached {
        assert cached - {path} == cached;
        return None;
      }
      TotalRemove(cached, path);
      assert |cached| == |cached - {path}| + 1;
      gone := Some(cached[path]);
      cached := cached - {path};
      files := SaturatingSub(files, 1);
      bytes := SaturatingSub(bytes, gone.value.bytes);
    }
  }

  // --- The cache directory -----------------------------------------------------

  /** `index.json`: not there, its text, or something that cannot be read as text. */
  datatype Stored = Absent | Content(text: string) | Unreadable

  /** What `load` makes of it; a new cache starts with an empty index that has no id yet. */
  function Loads(stored: Stored, now: int): Option<IndexFile>
  {
    match stored
    case Absent => Some(IndexFile(0, Calendar.Rfc3339(now), "", map[], []))
    case Content(text) =>
      (match IndexState.Parsed(text)
       case Good(Read(index)) => Some(index)
       case _ => None)
    case Unreadable => None
  }

  /** How every write marks the index: counted one up, dated, and with an id. */
  predicate Stamped(now: int, freshId: string, before: IndexFile, after: IndexFile)
  {
    && after.seqNo == Floats.Counted(before.seqNo)
    && after.writtenAt == Calendar.Rfc3339(now)
    && after.rootId == if before.rootId == "" then freshId else before.rootId
  }

  datatype Report = Report(
    files: nat, bytes: nat, removed: nat, reclaimed: nat, orphans: nat, freedBytes: nat, hidden: nat)

  datatype Outcome = Done(report: Report) | Failed

  /** What a rotation reported. */
  datatype Reported = Reported(digest: string, originKey: string, path: string, kind: Kind)

  datatype Recording = Ignored | NotRecorded | Recorded(entry: Entry)

  /** The list without one digest. */
  function Except(digests: seq<string>, digest: string): (rest: seq<string>)
    ensures forall d :: d in digests && d != digest <==> d in rest
  {
    if |digests| == 0 then []
    else
      var last := digests[|digests| - 1];
      assert digests == digests[..|digests| - 1] + [last];
      Except(digests[..|digests| - 1], digest) + if last == digest then [] else [last]
  }

  /** `dangling.retain`: a digest that is back is no longer reported as missing. */
  method Drop(digests: seq<string>, digest: string) returns (kept: seq<string>)
    ensures kept == Except(digests, digest)
    ensures digest !in kept
  {
    kept := [];
    for k := 0 to |digests|
      invariant kept == Except(digests[..k], digest)
    {
      assert digests[..k + 1][..k] == digests[..k];
      if digests[k] != digest { kept := kept + [digests[k]]; }
    }
    assert digests[..|digests|] == digests;
  }

  /** `Path::extension`: what follows the last dot of the file name, if the name does not start there. */
  function ExtensionOf(name: string): string
  {
    if |name| == 0 then ""
    else if name[|name| - 1] == '.' then ""
    else
      var rest := ExtensionOf(name[..|name| - 1]);
      if '.' in name[1..] then rest + [name[|name| - 1]] else ""
  }

  /** The source id in front of the first colon of an origin key. */
  function SourceOf(originKey: string): string
  {
    if |originKey| == 0 || originKey[0] == ':' then "" else [originKey[0]] + SourceOf(originKey[1..])
  }

  function FreshEntry(rules: Rules, entries: map<string, Entry>, file: File, reported: Reported): Entry
  {
    var stamp := Calendar.Rfc3339(rules.now);
    var known := if reported.digest in entries then entries[reported.digest]
                 else Entry(ExtensionOf(FileName(reported.path)), file.bytes, stamp, stamp, SourceOf(reported.originKey),
                            reported.kind, None, reported.originKey, None, None, false);
    known.(bytes := file.bytes, lastUsed := stamp, pinned := reported.digest in rules.protected.pinnedDigests)
  }

  function Recordings(rules: Rules, index: IndexFile, reported: Reported, entry: Entry, freshId: string): IndexFile
  {
    IndexFile(Floats.Counted(index.seqNo), Calendar.Rfc3339(rules.now),
              if index.rootId == "" then freshId else index.rootId,
              index.entries[reported.digest := entry], Except(index.dangling, reported.digest))
  }

  class CacheRoot {
    const root: string
    var images: map<string, File>
    var parts: map<string, File>
    var stored: Stored
    /** The paths the operating system refuses to unlink, and whether it lets `index.json` be replaced. */
    var stuck: set<string>
    var writable: bool

    constructor (root: string, images: map<string, File>, parts: map<string, File>, stored: Stored,
                 stuck: set<string>, writable: bool)
      ensures this.root == root && this.images == images && this.parts == parts && this.stored == stored
      ensures this.stuck == stuck && this.writable == writable
    {
      this.root, this.images, this.parts := root, images, parts;
      this.stored, this.stuck, this.writable := stored, stuck, writable;
    }

    /** `load`. */
    method Load(now: int) returns (index: Option<IndexFile>)
      ensures index == Loads(stored, now)
    {
      match stored
      case Absent =>
        index := Some(IndexFile(0, Calendar.Rfc3339(now), "", map[], []));
      case Content(text) =>
        var parsed := IndexState.Parse(text);
        index := match parsed
          case Good(Read(found)) => Some(found)
          case _ => None;
      case Unreadable =>
        index := None;
    }

    /** `write`: the new text replaces the old in one step, or not at all. */
    method Write(index: IndexFile) returns (ok: bool)
      modifies this`stored
      ensures ok == writable
      ensures stored == if ok then Content(IndexState.Encoded(index)) else old(stored)
    {
      ok := writable;
      if ok {
        var text := IndexState.Encode(index);
        stored := Content(text);
      }
    }

    /** `remove_file` on a cached image: a file that is already gone is not an error. */
    method RemoveImage(path: string) returns (ok: bool)
      modifies this`images
      ensures ok == (path !in stuck || path !in old(images))
      ensures images == if ok then old(images) - {path} else old(images)
    {
      ok := path !in stuck || path !in images;
      if ok { images := images - {path}; }
    }

    method RemovePart(path: string) returns (ok: bool)
      modifies this`parts
      ensures ok == (path !in stuck || path !in old(parts))
      ensures parts == if ok then old(parts) - {path} else old(parts)
    {
      ok := path !in stuck || path !in parts;
      if ok { parts := parts - {path}; }
    }

    /** Unlink a cached image and take it out of the measurement. */
    method Discard(path: string, survey: Survey) returns (ok: bool)
      requires survey.Valid() && survey.cached == images && path in images
      modifies this`images, survey
      ensures survey.Valid() && survey.cached == images
      ensures images == if ok then old(images) - {path} else old(images)
      ensures ok ==> |images| + 1 == |old(images)|
                     && Total(images) + old(images)[path].bytes == Total(old(images))
    {
      ok := RemoveImage(path);
      if ok {
        var _ := survey.Forget(path);
      }
    }

    // --- Step 3 ----------------------------------------------------------------

    /** First direction: entries whose file is missing move to `dangling`. */
    method Reconcile(measured: map<string, File>, entries: map<string, Entry>)
      returns (known: set<string>, live: map<string, Entry>, dangling: seq<string>)
      ensures live == Live(root, measured, entries)
      ensures known == PathsOf(root, live, live.Keys)
      ensures dangling == Sorted(entries.Keys - live.Keys)
    {
      hide ContentPath, Sorted, Reconciled, Live, PathsOf;
      known, live := {}, map[];
      var missing: set<string>, pending := {}, entries.Keys;
      ReconciledStart(root, measured, entries);
      while pending != {}
        invariant Reconciled(root, measured, entries, pending, known, live, missing)
        decreases |pending|
      {
        var digest :| digest in pending;
        ReconciledStep(root, measured, entries, pending, known, live, missing, digest);
        pending := pending - {digest};
        var path := ContentPath(root, digest, entries[digest].ext);
        if path in measured {
          known := known + {path};
          live := live[digest := entries[digest]];
        } else {
          missing := missing + {digest};
        }
      }
      ReconciledEnd(root, measured, entries, known, live, missing);
      dangling := List(missing);
    }

    /** Second direction: reclaim the files no entry knows, unless a rule keeps them. */
    method Reclaim(rules: Rules, survey: Survey, known: set<string>)
      returns (ok: bool, reclaimed: nat, freed: nat)
      requires rules.root == root && survey.Valid() && survey.cached == images
      modifies this`images, survey
      ensures survey.Valid() && survey.cached == images
      ensures ok ==> images == old(images) - Unclaimed(rules, old(images), known)
      ensures TakenFrom(images, old(images), Unclaimed(rules, old(images), known), reclaimed)
      ensures |images| + reclaimed == |old(images)| && Total(images) + freed == Total(old(images))
    {
      hide Keeps, Total, Taking, TakenFrom, Unclaimed;
      reclaimed, freed := 0, 0;
      ghost var was, all := images, Unclaimed(rules, images, known);
      ghost var gone: set<string> := {};
      var pending := set p | p in survey.cached && p !in known;
      TakingStart(rules, images, known, pending);
      while pending != {}
        invariant survey.Valid() && survey.cached == images
        invariant Taking(was, all, images, pending, gone) && reclaimed == |gone|
        invariant pending !! known
        invariant |images| + reclaimed == |old(images)| && Total(images) + freed == Total(old(images))
        decreases |pending|
      {
        var path :| path in pending;
        TakingStep(was, all, images, pending, gone, path);
        UnclaimedIs(rules, was, known, path);
        pending := pending - {path};
        var file := survey.cached[path];
        if Keeps(rules, path, file).None? {
          var removed := Discard(path, survey);
          if !removed { return false, reclaimed, freed; }
          reclaimed, freed := reclaimed + 1, freed + file.bytes;
          gone := gone + {path};
        }
      }
      TakingEnd(was, all, images, gone);
      ok := true;
    }

    // --- Step 4 ----------------------------------------------------------------

    /** Clean `tmp/`: every part file past the orphan grace. */
    method CleanParts(rules: Rules) returns (ok: bool, orphans: nat, freed: nat)
      modifies this`parts
      ensures ok ==> parts == old(parts) - StaleParts(rules, old(parts))
      ensures TakenFrom(parts, old(parts), StaleParts(rules, old(parts)), orphans)
      ensures Total(parts) + freed == Total(old(parts))
    {
      hide Total, Taking, TakenFrom, StaleParts;
      orphans, freed := 0, 0;
      var pending := StaleParts(rules, parts);
      ghost var was, all := parts, pending;
      ghost var gone: set<string> := {};
      TakingFirst(parts, all);
      while pending != {}
        invariant Taking(was, all, parts, pending, gone) && pending <= all && orphans == |gone|
        invariant Total(parts) + freed == Total(old(parts))
        decreases |pending|
      {
        var path :| path in pending;
        TakingStep(was, all, parts, pending, gone, path);
        var bytes := parts[path].bytes;
        TotalRemove(parts, path);
        var removed := RemovePart(path);
        if !removed { return false, orphans, freed; }
        pending := pending - {path};
        gone := gone + {path};
        orphans, freed := orphans + 1, freed + bytes;
      }
      TakingEnd(was, all, parts, gone);
      ok := true;
    }

    // --- Step 5 ----------------------------------------------------------------

    /** The unprotected entry with the least (`last_used`, digest), if there is one. */
    method Victim(rules: Rules, survey: Survey, entries: map<string, Entry>) returns (victim: Option<string>)
      requires rules.root == root
      ensures victim.None? <==> Evictable(rules, survey.cached, entries) == {}
      ensures victim.Some? ==>
                victim.value in Evictable(rules, survey.cached, entries)
                && PathOf(root, entries, victim.value) in survey.cached
                && forall d :: d in Evictable(rules, survey.cached, entries) && d != victim.value
                        ==> Before(entries, victim.value, d)
    {
      victim := None;
      var pending := entries.Keys;
      while pending != {}
        invariant pending <= entries.Keys
        invariant victim.None? ==> forall d :: d in Evictable(rules, survey.cached, entries) ==> d in pending
        invariant victim.Some? ==>
                    victim.value in Evictable(rules, survey.cached, entries) && victim.value !in pending
                    && forall d :: d in Evictable(rules, survey.cached, entries) && d !in pending && d != victim.value
                            ==> Before(entries, victim.value, d)
        decreases |pending|
      {
        var digest :| digest in pending;
        pending := pending - {digest};
        var path := ContentPath(root, digest, entries[digest].ext);
        if path in survey.cached && Keeps(rules, path, survey.cached[path]).None? {
          if victim.None? || Before(entries, digest, victim.value) {
            if victim.Some? { PassOn(entries, digest, victim.value); }
            victim := Some(digest);
          } else {
            BeforeTotal(entries, digest, victim.value);
          }
        }
      }
    }

    /** Evict while over either cap and something unprotected is left. */
    method Evict(rules: Rules, survey: Survey, live: map<string, Entry>)
      returns (ok: bool, entries: map<string, Entry>, removed: nat, freed: nat, ghost evicted: set<string>)
      requires rules.root == root && WellKeyed(live)
      requires survey.Valid() && survey.cached == images
      modifies this`images, survey
      ensures survey.Valid() && survey.cached == images
      ensures PartialEviction(rules, old(images), live, evicted)
      ensures ok ==> Eviction(rules, old(images), live, evicted)
      ensures images == Without(root, old(images), live, evicted)
      ensures entries == live - evicted && removed == |evicted|
      ensures |images| + removed == |old(images)| && Total(images) + freed == Total(old(images))
    {
      hide Keeps, Total, PathsOf, Evictable, PartialEviction, Without, LexLess;
      entries, removed, freed, evicted := live, 0, 0, {};
      NothingEvicted(rules, images, live);
      while survey.bytes > rules.config.maxBytes || survey.files > rules.config.maxFiles
        invariant survey.Valid() && survey.cached == images
        invariant evicted <= live.Keys && PartialEviction(rules, old(images), live, evicted)
        invariant images == Without(root, old(images), live, evicted)
        invariant entries == live - evicted && removed == |evicted|
        invariant |images| + removed == |old(images)| && Total(images) + freed == Total(old(images))
        decreases |images|
      {
        EvictableShrinks(rules, old(images), live, evicted);
        var victim := Victim(rules, survey, entries);
        if victim.None? {
          AllEvicted(rules, old(images), live, evicted);
          return true, entries, removed, freed, evicted;
        }
        var digest := victim.value;
        var path := ContentPath(root, digest, entries[digest].ext);
        var bytes := images[path].bytes;
        var gone := Discard(path, survey);
        if !gone { return false, entries, removed, freed, evicted; }
        PrefixGrows(rules, old(images), live, evicted, digest);
        WithoutOneMore(root, old(images), live, evicted, digest);
        entries := entries - {digest};
        evicted := evicted + {digest};
        removed, freed := removed + 1, freed + bytes;
      }
      ok := true;
    }

    // --- The whole sweep -------------------------------------------------------

    /**
     Everything `sweep` does between loading the index and writing it. A removal the system refuses
     stops it where it is.
     */
    method Clear(rules: Rules, index: IndexFile)
      returns (ok: bool, entries: map<string, Entry>, dangling: seq<string>, report: Report)
      requires rules.root == root && WellKeyed(index.entries)
      modifies this`images, this`parts
      ensures Stopped(rules, Disk(old(images), old(parts), index), Disk(images, parts, index))
      ensures ok ==> Completed(rules, Disk(old(images), old(parts), index),
                               Disk(images, parts, index.(entries := entries, dangling := dangling)), report)
    {
      hide Live, PathsOf, Unclaimed, Orphans, StaleParts, PartialEviction, Eviction, Without, Stopped, Completed,
           Total, Fits, BothCapsHold, OverCause, PinnedFiles, Sorted, WellKeyed, Repinned, Evictable,
           TakenFrom, ContentPath;
      ghost var before := Disk(images, parts, index);
      entries, report := index.entries, Report(0, 0, 0, 0, 0, 0, 0);
      var survey := new Survey(images);
      var known, live, missing := Reconcile(survey.cached, index.entries);
      dangling := missing;
      OrphansAre(rules, before, known, live);

      var done, reclaimed, freedOrphans := Reclaim(rules, survey, known);
      ghost var base := images;
      if !done {
        StoppedInReclaim(rules, before, Disk(images, parts, index), reclaimed);
        return false, entries, dangling, report;
      }
      var cleaned, orphans, freedParts := CleanParts(rules);
      if !cleaned {
        StoppedInParts(rules, before, Disk(images, parts, index), reclaimed, orphans);
        return false, entries, dangling, report;
      }
      LiveKeyed(root, before.images, index.entries);
      var evictedAll, left, removed, freedEntries, evicted := Evict(rules, survey, live);
      StoppedInEviction(rules, before, Disk(images, parts, index), base, live, evicted);
      if !evictedAll {
        return false, entries, dangling, report;
      }
      entries := Repin(rules, left);

      var over := OverCause(rules, survey.cached, survey.files, survey.bytes);
      var hidden := if over.Some? then |PinnedFiles(rules, survey.cached)| else 0;
      report := Report(survey.files, survey.bytes, removed, reclaimed, orphans,
                       freedOrphans + freedParts + freedEntries, hidden);
      CompletedIntro(rules, before, Disk(images, parts, index.(entries := entries, dangling := dangling)), report,
                     base, live, evicted);
      ok := true;
    }

    /**
     `sweep`. The rotation lock is the caller's. An index that cannot be loaded, a removal the system
     refuses, or an index that cannot be replaced ends it as `Failed` with `index.json` untouched.
     */
    method Sweep(rules: Rules, freshId: string) returns (outcome: Outcome, ghost written: Option<IndexFile>)
      requires rules.root == root
      requires Loads(stored, rules.now).Some? ==> WellKeyed(Loads(stored, rules.now).value.entries)
      modifies this`images, this`parts, this`stored
      ensures outcome.Failed? ==> stored == old(stored)
      ensures
        match Loads(old(stored), rules.now)
        case None => outcome.Failed? && images == old(images) && parts == old(parts)
        case Some(index) =>
          if outcome.Failed? then
            Stopped(rules, Disk(old(images), old(parts), index), Disk(images, parts, index))
          else
            && written.Some? && stored == Content(IndexState.Encoded(written.value))
            && Stamped(rules.now, freshId, index, written.value)
            && Completed(rules, Disk(old(images), old(parts), index), Disk(images, parts, written.value), outcome.report)
    {
      hide Stopped, Completed, WellKeyed, Calendar.Rfc3339, Loads, IndexState.Encoded, Floats.Counted;
      outcome, written := Failed, None;
      var loaded := Load(rules.now);
      if loaded.Some? {
        var index := loaded.value;
        var ok, entries, dangling, report := Clear(rules, index);
        if ok {
          var swept := IndexFile(
            Floats.Counted(index.seqNo), Calendar.Rfc3339(rules.now), if index.rootId == "" then freshId else index.rootId,
            entries, dangling);
          var replaced := Write(swept);
          if replaced {
            CompletedStamped(rules, Disk(old(images), old(parts), index),
                             Disk(images, parts, index.(entries := entries, dangling := dangling)), report, swept);
            outcome, written := Done(report), Some(swept);
          }
        }
      }
    }

    // --- Recording a rotation ----------------------------------------------------

    /**
     `record`: write the index entry of the file a rotation reported, keeping what the index
     already knows about the digest except its size, its last use and its pin.
     */
    method Record(rules: Rules, reported: Reported, freshId: string) returns (result: Recording)
      requires rules.root == root
      modifies this`stored
      ensures !(ImagesDir(root) <= reported.path) || reported.path !in images ==> result == Ignored
      ensures ImagesDir(root) <= reported.path && reported.path in images ==>
                if Loads(old(stored), rules.now).None? || !writable then result == NotRecorded
                else result == Recorded(FreshEntry(rules, Loads(old(stored), rules.now).value.entries, images[reported.path], reported))
      ensures !result.Recorded? ==> stored == old(stored)
      ensures result.Recorded? ==>
                stored == Content(IndexState.Encoded(
                  Recordings(rules, Loads(old(stored), rules.now).value, reported, result.entry, freshId)))
    {
      hide Loads, IndexState.Encoded, FreshEntry, Calendar.Rfc3339, Floats.Counted;
      if !(ImagesDir(root) <= reported.path) || reported.path !in images { return Ignored; }
      var loaded := Load(rules.now);
      if loaded.None? { return NotRecorded; }
      var index := loaded.value;
      var entry := FreshEntry(rules, index.entries, images[reported.path], reported);
      var dangling := Drop(index.dangling, reported.digest);
      var replaced := Write(IndexFile(
        Floats.Counted(index.seqNo), Calendar.Rfc3339(rules.now), if index.rootId == "" then freshId else index.rootId,
        index.entries[reported.digest := entry], dangling));
      if !replaced { return NotRecorded; }
      result := Recorded(entry);
    }

    /** The index's `pinned` copy is taken anew from the pin set. */
    method Repin(rules: Rules, entries: map<string, Entry>) returns (repinned: map<string, Entry>)
      ensures repinned == Repinned(rules, entries)
    {
      repinned := entries;
      var pending := entries.Keys;
      while pending != {}
        invariant pending <= entries.Keys == repinned.Keys
        invariant forall d :: d in entries ==>
                    repinned[d] == if d in pending then entries[d]
                                else entries[d].(pinned := d in rules.protected.pinnedDigests)
        decreases |pending|
      {
        var d :| d in pending;
        pending := pending - {d};
        repinned := repinned[d := repinned[d].(pinned := d in rules.protected.pinnedDigests)];
      }
    }
  }

  /** A completed sweep together with what it reports. */
  ghost predicate Completed(rules: Rules, before: Disk, after: Disk, report: Report)
  {
    exists evicted :: CompletedBy(rules, before, after, report, evicted)
  }

  ghost predicate CompletedBy(rules: Rules, before: Disk, after: Disk, report: Report, evicted: set<string>)
  {
    && SweptBy(rules, before, after, evicted)
    && report.files == |after.images| && report.bytes == Total(after.images)
    && report.removed == |evicted|
    && report.reclaimed == |Orphans(rules, before.images, before.index.entries)|
    && report.orphans == |StaleParts(rules, before.parts)|
    && |before.images| == |after.images| + report.removed + report.reclaimed
    && Total(before.images) + Total(before.parts) == Total(after.images) + Total(after.parts) + report.freedBytes
    && report.hidden == (if BothCapsHold(rules.config, after.images) then 0 else |PinnedFiles(rules, after.images)|)
  }


  // --- The loops, one step at a time ---------------------------------------------

  /** The part of the tree already walked. */
  ghost predicate Measured(images: map<string, File>, cached: map<string, File>, pending: set<string>)
    ensures Measured(images, cached, {}) ==> cached == images
    ensures Measured(images, cached, pending) ==> pending <= images.Keys
  {
    pending <= images.Keys && cached.Keys == images.Keys - pending
    && forall p :: p in cached ==> cached[p] == images[p]
  }

  lemma MeasuredStart(images: map<string, File>)
    ensures Measured(images, map[], images.Keys)
  {
  }

  lemma MeasuredStep(images: map<string, File>, cached: map<string, File>, pending: set<string>, p: string)
    requires Measured(images, cached, pending) && p in pending
    ensures var more := cached[p := images[p]];
            Measured(images, more, pending - {p})
            && Total(more) == Total(cached) + images[p].bytes && |more| == |cached| + 1
  {
    TotalAdd(cached, p, images[p]);
  }

  /** The index entries already sorted into live and missing. */
  ghost predicate Reconciled(root: string, measured: map<string, File>, entries: map<string, Entry>,
                             pending: set<string>, known: set<string>, live: map<string, Entry>, missing: set<string>)
  {
    pending <= entries.Keys
    && (forall d :: d in live <==> d in entries && d !in pending && PathOf(root, entries, d) in measured)
    && (forall d :: d in live ==> live[d] == entries[d])
    && known == PathsOf(root, live, live.Keys)
    && missing == entries.Keys - pending - live.Keys
  }

  lemma ReconciledStart(root: string, measured: map<string, File>, entries: map<string, Entry>)
    ensures Reconciled(root, measured, entries, entries.Keys, {}, map[], {})
  {
  }

  lemma ReconciledStep(root: string, measured: map<string, File>, entries: map<string, Entry>,
                       pending: set<string>, known: set<string>, live: map<string, Entry>, missing: set<string>, d: string)
    requires Reconciled(root, measured, entries, pending, known, live, missing) && d in pending
    ensures d in entries
    ensures var path := PathOf(root, entries, d);
            if path in measured
            then Reconciled(root, measured, entries, pending - {d}, known + {path}, live[d := entries[d]], missing)
            else Reconciled(root, measured, entries, pending - {d}, known, live, missing + {d})
  {
    hide ContentPath;
    ClaimOneMore(root, live, d, entries[d]);
  }

  lemma ReconciledEnd(root: string, measured: map<string, File>, entries: map<string, Entry>,
                      known: set<string>, live: map<string, Entry>, missing: set<string>)
    requires Reconciled(root, measured, entries, {}, known, live, missing)
    ensures live == Live(root, measured, entries) && known == PathsOf(root, live, live.Keys)
    ensures missing == entries.Keys - live.Keys
  {
  }

  lemma ClaimOneMore(root: string, live: map<string, Entry>, d: string, entry: Entry)
    requires d !in live
    ensures var more := live[d := entry];
            PathsOf(root, more, more.Keys) == PathsOf(root, live, live.Keys) + {ContentPath(root, d, entry.ext)}
  {
    var more := live[d := entry];
    forall p | p in PathsOf(root, live, live.Keys)
      ensures p in PathsOf(root, more, more.Keys)
    {
      var e :| e in live && PathOf(root, live, e) == p;
      assert PathOf(root, more, e) == p;
    }
    assert PathOf(root, more, d) in PathsOf(root, more, more.Keys);
  }

  /** On the way to taking `all` away: `gone` is, and what is still to go is among `pending`. */
  ghost predicate Taking(was: map<string, File>, all: set<string>, images: map<string, File>, pending: set<string>,
                         gone: set<string>)
  {
    gone <= all && images == was - gone && pending <= images.Keys && all - gone <= pending
  }

  lemma TakingStart(rules: Rules, images: map<string, File>, known: set<string>, pending: set<string>)
    requires pending == set p | p in images && p !in known
    ensures Taking(images, Unclaimed(rules, images, known), images, pending, {})
  {
    assert images - {} == images;
  }

  lemma TakingFirst(was: map<string, File>, all: set<string>)
    requires all <= was.Keys
    ensures Taking(was, all, was, all, {})
  {
    assert was - {} == was;
  }

  lemma TakingStep(was: map<string, File>, all: set<string>, images: map<string, File>, pending: set<string>,
                   gone: set<string>, path: string)
    requires Taking(was, all, images, pending, gone) && path in pending
    ensures path in images && path in was && images[path] == was[path]
    ensures path !in all ==> Taking(was, all, images, pending - {path}, gone)
    ensures path in all ==> Taking(was, all, images - {path}, pending - {path}, gone + {path})
    ensures |gone + {path}| == |gone| + 1
    ensures TakenFrom(images, was, all, |gone|)
  {
    assert path !in gone;
    assert images - {path} == was - (gone + {path});
  }

  lemma TakingEnd(was: map<string, File>, all: set<string>, images: map<string, File>, gone: set<string>)
    requires Taking(was, all, images, {}, gone)
    ensures images == was - all && TakenFrom(images, was, all, |gone|)
  {
    forall p | p in all
      ensures p in gone
    {
      assert p in gone || p in all - gone;
    }
    assert gone == all;
  }

  lemma UnclaimedIs(rules: Rules, images: map<string, File>, known: set<string>, path: string)
    requires path in images && path !in known
    ensures path in Unclaimed(rules, images, known) <==> Keeps(rules, path, images[path]).None?
  {
    hide Keeps;
  }

  lemma EmptyTotal()
    ensures Total(map[]) == 0
  {
  }

  lemma PassOn(entries: map<string, Entry>, a: string, b: string)
    requires a in entries && b in entries && Before(entries, a, b)
    ensures forall d :: d in entries && Before(entries, b, d) ==> Before(entries, a, d)
  {
    forall d | d in entries && Before(entries, b, d)
      ensures Before(entries, a, d)
    {
      BeforeTransitive(entries, a, b, d);
    }
  }

  lemma DistinctPaths(root: string, entries: map<string, Entry>, d: string, ds: set<string>)
    requires WellKeyed(entries) && d in entries && ds <= entries.Keys
    ensures PathOf(root, entries, d) in PathsOf(root, entries, ds) <==> d in ds
  {
    if PathOf(root, entries, d) in PathsOf(root, entries, ds) {
      var e :| e in ds && PathOf(root, entries, e) == PathOf(root, entries, d);
      ContentPathInjective(root, d, entries[d].ext, e, entries[e].ext);
    }
  }

  /** Evicting some entries leaves exactly the others evictable. */
  lemma EvictableShrinks(rules: Rules, images: map<string, File>, live: map<string, Entry>, taken: set<string>)
    requires WellKeyed(live) && taken <= live.Keys
    ensures Evictable(rules, Without(rules.root, images, live, taken), live - taken)
         == Evictable(rules, images, live) - taken
  {
    var rest := Without(rules.root, images, live, taken);
    forall d | d in live
      ensures d in Evictable(rules, rest, live - taken) <==> d in Evictable(rules, images, live) - taken
    {
      DistinctPaths(rules.root, live, d, taken);
    }
  }

  lemma WithoutOneMore(root: string, images: map<string, File>, live: map<string, Entry>, taken: set<string>, d: string)
    requires taken <= live.Keys && d in live
    ensures Without(root, images, live, taken) - {PathOf(root, live, d)} == Without(root, images, live, taken + {d})
  {
    assert PathsOf(root, live, taken + {d}) == PathsOf(root, live, taken) + {PathOf(root, live, d)};
  }

  lemma PrefixWithLast(live: map<string, Entry>, all: set<string>, taken: set<string>, d: string, other: set<string>)
    requires all <= live.Keys && Prefix(live, all, taken) && Prefix(live, all, other)
    requires d in other && d !in taken
    ensures taken + {d} <= other
  {
    forall e | e in taken
      ensures e in other
    {
      BeforeTotal(live, e, d);
    }
  }

  /** Before the first eviction. */
  lemma NothingEvicted(rules: Rules, images: map<string, File>, live: map<string, Entry>)
    ensures PartialEviction(rules, images, live, {})
    ensures Without(rules.root, images, live, {}) == images && live - {} == live
  {
    assert PathsOf(rules.root, live, {}) == {};
  }

  lemma AllEvicted(rules: Rules, images: map<string, File>, live: map<string, Entry>, taken: set<string>)
    requires PartialEviction(rules, images, live, taken)
    requires Evictable(rules, images, live) - taken == {}
    ensures Eviction(rules, images, live, taken)
  {
    var all := Evictable(rules, images, live);
    assert Prefix(live, all, taken);
    forall d | d in all
      ensures d in taken
    {
      assert d in taken || d in all - taken;
    }
    assert taken == all;
  }

  /** Taking the oldest entry left, while over a cap, keeps the eviction a least prefix. */
  lemma PrefixGrows(rules: Rules, images: map<string, File>, live: map<string, Entry>, taken: set<string>, d: string)
    requires PartialEviction(rules, images, live, taken)
    requires !BothCapsHold(rules.config, Without(rules.root, images, live, taken))
    requires d in Evictable(rules, images, live) - taken
    requires forall e :: e in Evictable(rules, images, live) - taken && e != d ==> Before(live, d, e)
    ensures PartialEviction(rules, images, live, taken + {d})
  {
    var all := Evictable(rules, images, live);
    var more := taken + {d};
    forall a, b | b in more && a in all && Before(live, a, b)
      ensures a in more
    {
      if b == d && a !in more { BeforeTotal(live, a, d); }
    }
    forall fewer | Prefix(live, all, fewer) && fewer < more
      ensures !BothCapsHold(rules.config, Without(rules.root, images, live, fewer))
    {
      if d in fewer {
        PrefixWithLast(live, all, taken, d, fewer);
      } else {
        assert fewer <= taken;
        assert fewer == taken || fewer < taken;
      }
    }
  }

  // --- Putting the steps together -------------------------------------------------

  lemma OrphansAre(rules: Rules, before: Disk, known: set<string>, live: map<string, Entry>)
    requires live == Live(rules.root, before.images, before.index.entries)
    requires known == PathsOf(rules.root, live, live.Keys)
    ensures Orphans(rules, before.images, before.index.entries) == Unclaimed(rules, before.images, known)
  {
  }

  lemma LiveKeyed(root: string, images: map<string, File>, entries: map<string, Entry>)
    requires WellKeyed(entries)
    ensures WellKeyed(Live(root, images, entries))
  {
  }

  /** `left` is `all` with `count` members of `from` taken away. */
  ghost predicate TakenFrom(left: map<string, File>, all: map<string, File>, from: set<string>, count: nat)
  {
    exists gone: set<string> :: gone <= from && left == all - gone && count == |gone|
  }

  lemma StoppedInReclaim(rules: Rules, before: Disk, after: Disk, reclaimed: nat)
    requires after.index == before.index && after.parts == before.parts
    requires TakenFrom(after.images, before.images, Orphans(rules, before.images, before.index.entries), reclaimed)
    ensures Stopped(rules, before, after)
  {
    hide ContentPath, Keeps, Orphans;
    var live := Live(rules.root, before.images, before.index.entries);
    var gone: set<string> :| gone <= Orphans(rules, before.images, before.index.entries)
                             && after.images == before.images - gone && reclaimed == |gone|;
    NothingEvicted(rules, Reclaimed(rules, before), live);
    NothingEvicted(rules, before.images - gone, live);
    assert PartsGone(rules, before, after, {});
    assert StoppedAfter(rules, before, after, gone, {});
  }

  lemma StoppedInParts(rules: Rules, before: Disk, after: Disk, reclaimed: nat, orphans: nat)
    requires after.index == before.index
    requires after.images == before.images - Orphans(rules, before.images, before.index.entries)
    requires TakenFrom(after.parts, before.parts, StaleParts(rules, before.parts), orphans)
    ensures Stopped(rules, before, after)
  {
    hide ContentPath, Keeps, Orphans;
    var live := Live(rules.root, before.images, before.index.entries);
    var gone := Orphans(rules, before.images, before.index.entries);
    NothingEvicted(rules, Reclaimed(rules, before), live);
    var parts: set<string> :| parts <= StaleParts(rules, before.parts) && after.parts == before.parts - parts
                              && orphans == |parts|;
    assert PartsGone(rules, before, after, parts);
    assert StoppedAfter(rules, before, after, gone, {});
  }

  lemma StoppedInEviction(rules: Rules, before: Disk, after: Disk, base: map<string, File>,
                          live: map<string, Entry>, evicted: set<string>)
    requires after.index == before.index
    requires live == Live(rules.root, before.images, before.index.entries)
    requires base == before.images - Orphans(rules, before.images, before.index.entries)
    requires PartialEviction(rules, base, live, evicted)
    requires after.images == Without(rules.root, base, live, evicted)
    requires after.parts == before.parts - StaleParts(rules, before.parts)
    ensures Stopped(rules, before, after)
  {
    hide ContentPath, Keeps, Orphans;
    assert PartsGone(rules, before, after, StaleParts(rules, before.parts));
    assert StoppedAfter(rules, before, after, Orphans(rules, before.images, before.index.entries), evicted);
  }

  lemma CompletedIntro(rules: Rules, before: Disk, after: Disk, report: Report, base: map<string, File>,
                       live: map<string, Entry>, evicted: set<string>)
    requires live == Live(rules.root, before.images, before.index.entries)
    requires base == before.images - Orphans(rules, before.images, before.index.entries)
    requires Eviction(rules, base, live, evicted)
    requires after.images == Without(rules.root, base, live, evicted)
    requires after.parts == before.parts - StaleParts(rules, before.parts)
    requires TakenFrom(base, before.images, Orphans(rules, before.images, before.index.entries), report.reclaimed)
    requires TakenFrom(after.parts, before.parts, StaleParts(rules, before.parts), report.orphans)
    requires after.index.entries == Repinned(rules, live - evicted)
    requires after.index.dangling == Sorted(before.index.entries.Keys - live.Keys)
    requires report.files == |after.images| && report.bytes == Total(after.images) && report.removed == |evicted|
    requires |before.images| == |after.images| + report.removed + report.reclaimed
    requires Total(before.images) + Total(before.parts) == Total(after.images) + Total(after.parts) + report.freedBytes
    requires report.hidden == if OverCause(rules, after.images, report.files, report.bytes).Some?
                              then |PinnedFiles(rules, after.images)| else 0
    ensures Completed(rules, before, after, report)
  {
    hide Orphans, Live, Keeps, Eviction, Total, Repinned, PinnedFiles, StaleParts, Without, Sorted, SafeFiles, TakenFrom;
    AllTaken(base, before.images, Orphans(rules, before.images, before.index.entries), report.reclaimed);
    AllTaken(after.parts, before.parts, StaleParts(rules, before.parts), report.orphans);
    assert CompletedBy(rules, before, after, report, evicted);
  }

  /** The marks of the write are not the sweep's concern. */
  lemma CompletedStamped(rules: Rules, before: Disk, after: Disk, report: Report, index: IndexFile)
    requires Completed(rules, before, after, report)
    requires index.entries == after.index.entries && index.dangling == after.index.dangling
    ensures Completed(rules, before, Disk(after.images, after.parts, index), report)
  {
    hide CompletedBy;
    var evicted :| CompletedBy(rules, before, after, report, evicted);
    StampedBy(rules, before, after, report, evicted, index);
  }

  lemma StampedBy(rules: Rules, before: Disk, after: Disk, report: Report, evicted: set<string>, index: IndexFile)
    requires CompletedBy(rules, before, after, report, evicted)
    requires index.entries == after.index.entries && index.dangling == after.index.dangling
    ensures CompletedBy(rules, before, Disk(after.images, after.parts, index), report, evicted)
  {
    hide Eviction, Without, Orphans, StaleParts, Total, Repinned, Sorted, PinnedFiles, BothCapsHold, Live;
  }

  lemma AllTaken(left: map<string, File>, all: map<string, File>, from: set<string>, count: nat)
    requires from <= all.Keys && left == all - from && TakenFrom(left, all, from, count)
    ensures count == |from|
  {
    var gone: set<string> :| gone <= from && left == all - gone && count == |gone|;
    forall p | p in from
      ensures p in gone
    {
      assert p !in (all - gone);
    }
    assert gone == from;
  }
}
