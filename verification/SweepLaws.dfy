/**
 What a sweep does to one file, said of the file's age and names and of the clock (crates/whirld/src/cache.rs:102-159,
 184-187, 420-460, 505-573, 671-694), and what a recording keeps of an entry.
 */
module SweepLaws {
  import opened Basics
  import opened CacheIndex
  import opened CachePaths
  import opened OrderedSets
  import opened SweepSpec
  import opened Sweep
  import opened SweepRuns
  import Calendar

  // --- Ages and names ----------------------------------------------------------------------

  /** The file's age cannot be read, or is below the grace. */
  predicate Young(rules: Rules, file: File)
  {
    file.mtime.None? || rules.now - file.mtime.value < rules.config.graceSeconds
  }

  /** The anchor or a pin names the file, by its path or by the digest its name carries. */
  predicate NamedByAnchor(rules: Rules, path: string)
  {
    || path in rules.protected.anchorPaths
    || (DigestOf(path).Some? && rules.protected.anchorDigest == Some(DigestOf(path).value))
  }

  predicate NamedByPin(rules: Rules, path: string)
  {
    || path in rules.protected.pinnedPaths
    || (DigestOf(path).Some? && DigestOf(path).value in rules.protected.pinnedDigests)
  }

  predicate Unnamed(rules: Rules, path: string) { !NamedByAnchor(rules, path) && !NamedByPin(rules, path) }

  /** The whole of the protection rule, in these words. */
  lemma SafeExactlyWhen(rules: Rules, images: map<string, File>, path: string)
    requires path in images
    ensures
      Safe(rules, images, path) <==>
        rules.protected.degraded || !Unnamed(rules, path) || Young(rules, images[path])
    ensures
      Keeps(rules, path, images[path]) == Some(Pinned) <==>
        rules.protected.degraded || (!NamedByAnchor(rules, path) && NamedByPin(rules, path))
  {
    hide DigestOf;
  }

  // --- Files under `sha256/` ----------------------------------------------------------------

  /** Main result: while the pin set cannot be read, no step of any sweep removes an image. */
  lemma DegradedKeepsEverything(rules: Rules, before: Disk, after: Disk)
    requires rules.protected.degraded && (Swept(rules, before, after) || Stopped(rules, before, after))
    ensures after.images == before.images
  {
    hide Swept, Stopped, Safe;
    forall path | path in before.images
      ensures path in after.images && after.images[path] == before.images[path]
    {
      SafeExactlyWhen(rules, before.images, path);
      ProtectedFilesSurvive(rules, before, after, path);
    }
    NothingIsAdded(rules, before, after);
  }

  lemma NothingIsAdded(rules: Rules, before: Disk, after: Disk)
    requires Swept(rules, before, after) || Stopped(rules, before, after)
    ensures after.images.Keys <= before.images.Keys
  {
    hide Eviction, PartialEviction, Live, Orphans, Sorted, Repinned, StaleParts;
  }

  /** Main result: a file that is young or named survives every step of every sweep. */
  lemma YoungOrNamedSurvives(rules: Rules, before: Disk, after: Disk, path: string)
    requires Swept(rules, before, after) || Stopped(rules, before, after)
    requires path in before.images && (Young(rules, before.images[path]) || !Unnamed(rules, path))
    ensures path in after.images && after.images[path] == before.images[path]
  {
    hide Swept, Stopped, Safe, Young, Unnamed;
    SafeExactlyWhen(rules, before.images, path);
    ProtectedFilesSurvive(rules, before, after, path);
  }

  /** No index entry has its file here. */
  predicate NoEntryClaims(rules: Rules, entries: map<string, Entry>, path: string)
  {
    forall d :: d in entries ==> ContentPath(rules.root, d, entries[d].ext) != path
  }

  /** Main result: a file of full age that nothing names and no entry claims is gone after a completed sweep. */
  lemma OldOrphanIsGone(rules: Rules, before: Disk, after: Disk, path: string)
    requires Swept(rules, before, after) && !rules.protected.degraded
    requires path in before.images && !Young(rules, before.images[path]) && Unnamed(rules, path)
    requires NoEntryClaims(rules, before.index.entries, path)
    ensures path !in after.images
  {
    hide Safe, Young, Unnamed, ContentPath, Eviction, Sorted, Repinned, StaleParts;
    SafeExactlyWhen(rules, before.images, path);
    assert path in Orphans(rules, before.images, before.index.entries);
  }

  /**
   Main result: a file of full age that nothing names survives a completed sweep only if the cache is then
   within both caps.
   */
  lemma OldSurvivorMeansWithinCaps(rules: Rules, before: Disk, after: Disk, path: string)
    requires WellKeyed(before.index.entries) && Swept(rules, before, after) && !rules.protected.degraded
    requires path in after.images && !Young(rules, after.images[path]) && Unnamed(rules, path)
    ensures |after.images| <= rules.config.maxFiles && Total(after.images) <= rules.config.maxBytes
  {
    hide Swept, Safe, Young, Unnamed, WellKeyed;
    SafeExactlyWhen(rules, after.images, path);
    BoundOrProtected(rules, before, after);
  }

  /** Nothing is evicted while the cache is within both caps. */
  lemma WithinCapsNothingIsEvicted(rules: Rules, before: Disk, after: Disk, d: string)
    requires Swept(rules, before, after) && d in before.index.entries
    requires PathOf(rules.root, before.index.entries, d) in before.images
    requires |Reclaimed(rules, before)| <= rules.config.maxFiles && Total(Reclaimed(rules, before)) <= rules.config.maxBytes
    ensures d in after.index.entries
  {
    hide ContentPath, Sorted, StaleParts, Keeps, Orphans, Total;
    var evicted :| SweptBy(rules, before, after, evicted);
    var live := Live(rules.root, before.images, before.index.entries);
    NothingEvicted(rules, Reclaimed(rules, before), live);
    assert Prefix(live, Evictable(rules, Reclaimed(rules, before), live), {});
    assert evicted != {} ==> {} < evicted;
  }

  /**
   Main result: the entries go oldest first. One that is kept although nothing protects its file was used
   later than every one that was evicted, or at the same moment with a digest that sorts later.
   */
  lemma OldestGoFirst(rules: Rules, before: Disk, after: Disk, gone: string, kept: string)
    requires WellKeyed(before.index.entries) && Swept(rules, before, after) && !rules.protected.degraded
    requires gone in before.index.entries && PathOf(rules.root, before.index.entries, gone) in before.images
    requires gone !in after.index.entries && kept in after.index.entries
    requires kept in before.index.entries && PathOf(rules.root, before.index.entries, kept) in before.images
    requires var path := PathOf(rules.root, before.index.entries, kept);
             !Young(rules, before.images[path]) && Unnamed(rules, path)
    ensures
      var a, b := before.index.entries[gone], before.index.entries[kept];
      LexLess(a.lastUsed, b.lastUsed) || (a.lastUsed == b.lastUsed && LexLess(gone, kept))
  {
    hide ContentPath, Sorted, StaleParts, Keeps, Orphans, Young, Unnamed, NoneTooMany, Safe, WellKeyed;
    var evicted :| SweptBy(rules, before, after, evicted);
    var live := Live(rules.root, before.images, before.index.entries);
    var path := PathOf(rules.root, before.index.entries, kept);
    SafeExactlyWhen(rules, before.images, path);
    ClaimedIsNotOrphan(rules, before, kept);
    assert kept in Evictable(rules, Reclaimed(rules, before), live) by { StillEvictable(rules, before, kept); }
    assert gone in evicted && kept !in evicted;
    BeforeTotal(live, gone, kept);
  }

  lemma StillEvictable(rules: Rules, before: Disk, d: string)
    requires d in before.index.entries && PathOf(rules.root, before.index.entries, d) in before.images
    requires !Safe(rules, before.images, PathOf(rules.root, before.index.entries, d))
    ensures d in Evictable(rules, Reclaimed(rules, before), Live(rules.root, before.images, before.index.entries))
  {
    hide ContentPath, Keeps;
    ClaimedIsNotOrphan(rules, before, d);
  }

  /** Said of the instants, where both stamps print four-digit years. */
  lemma OldestInstantsGoFirst(rules: Rules, before: Disk, after: Disk, gone: string, kept: string, early: int, late: int)
    requires WellKeyed(before.index.entries) && Swept(rules, before, after) && !rules.protected.degraded
    requires gone in before.index.entries && PathOf(rules.root, before.index.entries, gone) in before.images
    requires gone !in after.index.entries && kept in after.index.entries
    requires kept in before.index.entries && PathOf(rules.root, before.index.entries, kept) in before.images
    requires var path := PathOf(rules.root, before.index.entries, kept);
             !Young(rules, before.images[path]) && Unnamed(rules, path)
    requires Calendar.FourDigitYear(early) && Calendar.FourDigitYear(late)
    requires before.index.entries[gone].lastUsed == Calendar.Rfc3339(early)
    requires before.index.entries[kept].lastUsed == Calendar.Rfc3339(late)
    ensures early <= late
  {
    hide Swept, WellKeyed, ContentPath, Young, Unnamed, Calendar.Rfc3339, LexLess;
    OldestGoFirst(rules, before, after, gone, kept);
    Calendar.TimestampsSort(early, late);
    Calendar.TimestampsSort(late, early);
    LexTotal(Calendar.Rfc3339(early), Calendar.Rfc3339(late));
    LexIrreflexive(Calendar.Rfc3339(late));
  }

  // --- Part files --------------------------------------------------------------------------

  /** Main result: a dated part file is gone after a completed sweep exactly when it has reached the orphan grace. */
  lemma DatedPartStays(rules: Rules, before: Disk, after: Disk, path: string)
    requires Swept(rules, before, after) && path in before.parts && before.parts[path].mtime.Some?
    ensures path in after.parts <==> rules.now - before.parts[path].mtime.value < rules.config.orphanGraceSeconds
  {
    hide SweptBy;
    var evicted :| SweptBy(rules, before, after, evicted);
    SweptParts(rules, before, after, evicted);
  }

  // --- The report's hidden files ---------------------------------------------------------------

  /** The files counted as hidden: kept for a pin, or all of them while the pin set cannot be read. */
  lemma HiddenAreThePinned(rules: Rules, images: map<string, File>)
    ensures
      PinnedFiles(rules, images) ==
        set p | p in images && (rules.protected.degraded || (!NamedByAnchor(rules, p) && NamedByPin(rules, p)))
  {
    hide Keeps, NamedByAnchor, NamedByPin;
    forall p | p in images
      ensures p in PinnedFiles(rules, images) <==>
              rules.protected.degraded || (!NamedByAnchor(rules, p) && NamedByPin(rules, p))
    {
      SafeExactlyWhen(rules, images, p);
    }
  }

  // --- What a recording keeps ----------------------------------------------------------------

  /** An extension is what follows the last dot of a name that has something in front of it. */
  lemma {:induction false} ExtensionIs(stem: string, ext: string)
    requires stem != "" && '.' !in ext
    ensures ExtensionOf(stem + "." + ext) == ext
  {
    var name := stem + "." + ext;
    if |ext| > 0 {
      var front := ext[..|ext| - 1];
      assert name[..|name| - 1] == stem + "." + front;
      ExtensionIs(stem, front);
      assert name[|stem|] == '.' && name[1..][|stem| - 1] == '.';
    }
  }

  lemma {:induction false} NoDotNoExtension(name: string)
    requires '.' !in name
    ensures ExtensionOf(name) == ""
  {
    if |name| > 0 { NoDotNoExtension(name[..|name| - 1]); }
  }

  /** The source of an origin key is what stands in front of its first colon, or all of it. */
  lemma {:induction false} SourceIs(source: string, rest: string)
    requires ':' !in source
    ensures SourceOf(source + ":" + rest) == source && SourceOf(source) == source
  {
    if |source| > 0 {
      assert (source + ":" + rest)[1..] == source[1..] + ":" + rest;
      SourceIs(source[1..], rest);
    }
  }

  /**
   Main result: recording a digest the index knows changes its size, its last use and its pin and nothing
   else; a new one starts with both stamps at the moment, and with what the report says.
   */
  lemma RecordingKeepsTheRest(rules: Rules, index: IndexFile, file: File, reported: Reported, freshId: string)
    ensures
      var after := Recordings(rules, index, reported, FreshEntry(rules, index.entries, file, reported), freshId);
      var digest, stamp := reported.digest, Calendar.Rfc3339(rules.now);
      && after.entries.Keys == index.entries.Keys + {digest}
      && (forall d :: d in index.entries && d != digest ==> after.entries[d] == index.entries[d])
      && var e := after.entries[digest];
         && e.bytes == file.bytes && e.lastUsed == stamp && e.pinned == (digest in rules.protected.pinnedDigests)
         && (digest in index.entries ==>
               var old_ := index.entries[digest];
               && e.firstSeen == old_.firstSeen && e.ext == old_.ext && e.source == old_.source && e.kind == old_.kind
               && e.origin == old_.origin && e.originKey == old_.originKey && e.width == old_.width && e.height == old_.height)
         && (digest !in index.entries ==>
               && e.firstSeen == stamp && e.kind == reported.kind && e.originKey == reported.originKey
               && e.origin.None? && e.width.None? && e.height.None?)
  {
    hide Calendar.Rfc3339, ExtensionOf, SourceOf;
  }

  /** The extension and the source of a new entry. */
  lemma NewEntryIsNamed(rules: Rules, index: IndexFile, file: File, reported: Reported, dir: string, stem: string,
                        ext: string, source: string, rest: string)
    requires reported.digest !in index.entries
    requires reported.path == dir + "/" + (stem + "." + ext) && '/' !in stem + "." + ext && stem != "" && '.' !in ext
    requires reported.originKey == source + ":" + rest && ':' !in source
    ensures
      var e := FreshEntry(rules, index.entries, file, reported);
      e.ext == ext && e.source == source
  {
    hide Calendar.Rfc3339, ExtensionOf, SourceOf;
    FileNameAfterSlash(dir, stem + "." + ext);
    ExtensionIs(stem, ext);
    SourceIs(source, rest);
  }
}
