/**
 What one cache sweep is meant to do (crates/whirld/src/cache.rs:473-616), stated on values: the
 protected set, the orphans, the stale part files, and the eviction as the least sufficient prefix
 of the unprotected entries in (`last_used`, digest) order.
 */
module SweepSpec {
  import opened Basics
  import opened CacheIndex
  import opened CachePaths
  import opened OrderedSets

  /** A file as `survey` measures it; the age may be unreadable. */
  datatype File = File(bytes: nat, mtime: Option<int>)

  datatype Kept = Anchor | Pinned | Grace

  datatype Protected = Protected(
    anchorDigest: Option<string>, anchorPaths: set<string>,
    pinnedDigests: set<string>, pinnedPaths: set<string>, degraded: bool)

  datatype Config = Config(maxBytes: nat, maxFiles: nat, graceSeconds: nat, orphanGraceSeconds: nat)

  /** Everything a sweep is given besides the disk. */
  datatype Rules = Rules(root: string, config: Config, protected: Protected, now: int)

  datatype Disk = Disk(images: map<string, File>, parts: map<string, File>, index: IndexFile)

  // --- Protection ------------------------------------------------------------

  /** `Protected::keeps`. */
  function Keeps(rules: Rules, path: string, file: File): Option<Kept>
  {
    var p, digest := rules.protected, DigestOf(path);
    if p.degraded then Some(Pinned)
    else if p.anchorDigest.Some? && digest == p.anchorDigest then Some(Anchor)
    else if path in p.anchorPaths then Some(Anchor)
    else if path in p.pinnedPaths then Some(Pinned)
    else if digest.Some? && digest.value in p.pinnedDigests then Some(Pinned)
    else match file.mtime
      case Some(modified) => if rules.now - modified < rules.config.graceSeconds then Some(Grace) else None
      case None => Some(Grace)
  }

  predicate Safe(rules: Rules, images: map<string, File>, path: string)
    requires path in images
  {
    Keeps(rules, path, images[path]).Some?
  }

  /** A pinned or anchored digest protects its own content-addressed file, whatever its age. */
  lemma NamedDigestIsSafe(rules: Rules, digest: string, ext: string, file: File)
    requires LowerHexDigest(digest) && '/' !in ext
    requires digest in rules.protected.pinnedDigests || rules.protected.anchorDigest == Some(digest)
    ensures Keeps(rules, ContentPath(rules.root, digest, ext), file).Some?
  {
    DigestOfContentPath(rules.root, digest, ext);
    LowerOfLower(digest);
  }

  // --- Sizes -----------------------------------------------------------------

  /** The bytes of a set of files. */
  ghost function Total(files: map<string, File>): nat
    decreases |files|
  {
    if files == map[] then 0
    else
      var p :| p in files;
      files[p].bytes + Total(files - {p})
  }

  lemma {:induction false} TotalRemove(files: map<string, File>, p: string)
    requires p in files
    ensures Total(files) == files[p].bytes + Total(files - {p})
    decreases |files|
  {
    var q :| q in files && Total(files) == files[q].bytes + Total(files - {q});
    if q != p {
      TotalRemove(files - {q}, p);
      assert files - {q} - {p} == files - {p} - {q};
      TotalRemove(files - {p}, q);
    }
  }

  lemma TotalAdd(files: map<string, File>, p: string, file: File)
    requires p !in files
    ensures Total(files[p := file]) == Total(files) + file.bytes
    ensures |files[p := file]| == |files| + 1
  {
    assert files[p := file] - {p} == files;
    TotalRemove(files[p := file], p);
  }

  lemma {:induction false} TotalSplit(files: map<string, File>, gone: set<string>)
    requires gone <= files.Keys
    ensures Total(files) == Total(files - gone) + Total(files - (files.Keys - gone))
    ensures |files| == |files - gone| + |gone|
    decreases |gone|
  {
    if gone == {} {
      assert files - gone == files;
      assert files - (files.Keys - gone) == map[];
    } else {
      var p :| p in gone;
      var rest := gone - {p};
      TotalSplit(files, rest);
      assert files - rest - {p} == files - gone;
      TotalRemove(files - rest, p);
      var taken := files - (files.Keys - gone);
      assert taken - {p} == files - (files.Keys - rest);
      TotalRemove(taken, p);
      assert |gone| == |rest| + 1;
    }
  }

  predicate Fits(config: Config, files: nat, bytes: nat)
  {
    bytes <= config.maxBytes && files <= config.maxFiles
  }

  ghost predicate BothCapsHold(config: Config, images: map<string, File>)
  {
    Fits(config, |images|, Total(images))
  }

  // --- Reconciliation, orphans, part files -----------------------------------

  /** What the sweep asks of a readable index: digest keys and plain extensions. */
  predicate WellKeyed(entries: map<string, Entry>)
  {
    forall d :: d in entries ==> HexDigest(d) && '/' !in entries[d].ext
  }

  function PathOf(root: string, entries: map<string, Entry>, d: string): string
    requires d in entries
  {
    ContentPath(root, d, entries[d].ext)
  }

  function PathsOf(root: string, entries: map<string, Entry>, ds: set<string>): set<string>
    requires ds <= entries.Keys
  {
    set d | d in ds :: PathOf(root, entries, d)
  }

  /** The entries whose file is there. */
  function Live(root: string, images: map<string, File>, entries: map<string, Entry>): map<string, Entry>
  {
    map d | d in entries && PathOf(root, entries, d) in images :: entries[d]
  }

  /** Files outside a set of claimed paths that no rule protects. */
  function Unclaimed(rules: Rules, images: map<string, File>, known: set<string>): (ps: set<string>)
    ensures ps <= images.Keys
  {
    set p | p in images && p !in known && !Safe(rules, images, p)
  }

  /** Files no live entry claims and no rule protects. */
  function Orphans(rules: Rules, images: map<string, File>, entries: map<string, Entry>): (ps: set<string>)
    ensures ps <= images.Keys
  {
    var live := Live(rules.root, images, entries);
    Unclaimed(rules, images, PathsOf(rules.root, live, live.Keys))
  }

  predicate Stale(rules: Rules, file: File)
  {
    (match file.mtime case Some(modified) => rules.now - modified case None => 0)
    >= rules.config.orphanGraceSeconds
  }

  function StaleParts(rules: Rules, parts: map<string, File>): (ps: set<string>)
    ensures ps <= parts.Keys
  {
    set p | p in parts && Stale(rules, parts[p])
  }

  // --- Eviction --------------------------------------------------------------

  /** The live entries whose file no rule protects. */
  function Evictable(rules: Rules, images: map<string, File>, live: map<string, Entry>): (ds: set<string>)
    ensures ds <= live.Keys
  {
    set d | d in live && PathOf(rules.root, live, d) in images && !Safe(rules, images, PathOf(rules.root, live, d))
  }

  /** Oldest `last_used` first, the digest breaking ties. */
  predicate Before(entries: map<string, Entry>, a: string, b: string)
    requires a in entries && b in entries
  {
    LexLess(entries[a].lastUsed, entries[b].lastUsed)
    || (entries[a].lastUsed == entries[b].lastUsed && LexLess(a, b))
  }

  lemma BeforeTotal(entries: map<string, Entry>, a: string, b: string)
    requires a in entries && b in entries
    ensures Before(entries, a, b) || Before(entries, b, a) || a == b
    ensures !(Before(entries, a, b) && Before(entries, b, a))
  {
    var x, y := entries[a].lastUsed, entries[b].lastUsed;
    LexTotal(x, y);
    LexTotal(a, b);
    LexIrreflexive(a);
    LexIrreflexive(x);
    if LexLess(x, y) && LexLess(y, x) { LexTransitive(x, y, x); }
    if LexLess(a, b) && LexLess(b, a) { LexTransitive(a, b, a); }
  }

  lemma BeforeTransitive(entries: map<string, Entry>, a: string, b: string, c: string)
    requires a in entries && b in entries && c in entries
    requires Before(entries, a, b) && Before(entries, b, c)
    ensures Before(entries, a, c)
  {
    var x, y, z := entries[a].lastUsed, entries[b].lastUsed, entries[c].lastUsed;
    if LexLess(x, y) && LexLess(y, z) { LexTransitive(x, y, z); }
    if LexLess(a, b) && LexLess(b, c) { LexTransitive(a, b, c); }
  }

  /** A set of entries that an oldest-first eviction can have taken: an initial segment of the order. */
  ghost predicate Prefix(entries: map<string, Entry>, all: set<string>, taken: set<string>)
    requires all <= entries.Keys
  {
    taken <= all
    && forall a, b :: b in taken && a in all && Before(entries, a, b) ==> a in taken
  }

  /** The files left once the entries in `taken` are evicted. */
  function Without(root: string, images: map<string, File>, live: map<string, Entry>, taken: set<string>): map<string, File>
    requires taken <= live.Keys
  {
    images - PathsOf(root, live, taken)
  }

  /** No shorter prefix would have been enough. */
  ghost predicate NoneTooMany(rules: Rules, images: map<string, File>, live: map<string, Entry>, all: set<string>, taken: set<string>)
    requires all <= live.Keys
  {
    forall fewer :: Prefix(live, all, fewer) && fewer < taken
             ==> !BothCapsHold(rules.config, Without(rules.root, images, live, fewer))
  }

  /** A prefix no longer than needed: what an eviction may have removed at any moment. */
  ghost predicate PartialEviction(rules: Rules, images: map<string, File>, live: map<string, Entry>, taken: set<string>)
  {
    var all := Evictable(rules, images, live);
    Prefix(live, all, taken) && NoneTooMany(rules, images, live, all, taken)
  }

  /** The shortest prefix that brings the cache under both caps, or all of it if none does. */
  ghost predicate Eviction(rules: Rules, images: map<string, File>, live: map<string, Entry>, taken: set<string>)
  {
    PartialEviction(rules, images, live, taken)
    && (taken == Evictable(rules, images, live)
        || BothCapsHold(rules.config, Without(rules.root, images, live, taken)))
  }

  lemma PrefixesNest(entries: map<string, Entry>, all: set<string>, s: set<string>, t: set<string>)
    requires all <= entries.Keys
    requires Prefix(entries, all, s) && Prefix(entries, all, t)
    ensures s <= t || t <= s
  {
    if !(s <= t) && !(t <= s) {
      var x :| x in s && x !in t;
      var y :| y in t && y !in s;
      BeforeTotal(entries, x, y);
      assert false;
    }
  }

  /** The specification names one set: any two evictions of the same cache agree. */
  lemma EvictionUnique(rules: Rules, images: map<string, File>, live: map<string, Entry>, s: set<string>, t: set<string>)
    requires Eviction(rules, images, live, s) && Eviction(rules, images, live, t)
    ensures s == t
  {
    var all := Evictable(rules, images, live);
    PrefixesNest(live, all, s, t);
    assert s < t ==> s == t;
    assert t < s ==> s == t;
  }

  // --- The whole sweep -------------------------------------------------------

  /** The cache between step 4 and step 5: orphans gone, entries reconciled, nothing evicted yet. */
  function Reclaimed(rules: Rules, disk: Disk): map<string, File>
  {
    disk.images - Orphans(rules, disk.images, disk.index.entries)
  }

  function Missing(root: string, disk: Disk): set<string>
  {
    disk.index.entries.Keys - Live(root, disk.images, disk.index.entries).Keys
  }

  function Repinned(rules: Rules, entries: map<string, Entry>): map<string, Entry>
  {
    map d | d in entries :: entries[d].(pinned := d in rules.protected.pinnedDigests)
  }

  /** One completed sweep, evicting the entries `evicted`: the files, the part files and what the index lists. */
  ghost predicate SweptBy(rules: Rules, before: Disk, after: Disk, evicted: set<string>)
  {
    var live := Live(rules.root, before.images, before.index.entries);
    && Eviction(rules, Reclaimed(rules, before), live, evicted)
    && after.images == Without(rules.root, Reclaimed(rules, before), live, evicted)
    && after.parts == before.parts - StaleParts(rules, before.parts)
    && after.index.entries == Repinned(rules, live - evicted)
    && after.index.dangling == Sorted(Missing(rules.root, before))
  }

  ghost predicate Swept(rules: Rules, before: Disk, after: Disk)
  {
    exists evicted :: SweptBy(rules, before, after, evicted)
  }

  /** The stale part files that a sweep removed. */
  ghost predicate PartsGone(rules: Rules, before: Disk, after: Disk, gone: set<string>)
  {
    gone <= StaleParts(rules, before.parts) && after.parts == before.parts - gone
  }

  /**
   A sweep that stopped before its index write: some orphans are gone; once all are, some stale part
   files too; and once all of those are, some prefix of the eviction.
   */
  ghost predicate StoppedAfter(rules: Rules, before: Disk, after: Disk, reclaimed: set<string>, evicted: set<string>)
  {
    var live := Live(rules.root, before.images, before.index.entries);
    var orphans := Orphans(rules, before.images, before.index.entries);
    && after.index == before.index
    && reclaimed <= orphans
    && PartialEviction(rules, Reclaimed(rules, before), live, evicted)
    && (evicted != {} ==> reclaimed == orphans)
    && after.images == Without(rules.root, before.images - reclaimed, live, evicted)
    && (exists gone :: PartsGone(rules, before, after, gone)
          && (gone != {} ==> reclaimed == orphans)
          && (evicted != {} ==> gone == StaleParts(rules, before.parts)))
  }

  ghost predicate Stopped(rules: Rules, before: Disk, after: Disk)
  {
    exists reclaimed, evicted :: StoppedAfter(rules, before, after, reclaimed, evicted)
  }

  // --- The classification of a surplus ----------------------------------------

  datatype Cause = SingleFile | PinnedSet

  /** The protected files of a survey. */
  function SafeFiles(rules: Rules, images: map<string, File>): set<string>
  {
    set p | p in images && Safe(rules, images, p)
  }

  /** `over_cause`, given the measured totals: exactly one protected file, itself over the byte cap, or the set. */
  function OverCause(rules: Rules, images: map<string, File>, files: nat, bytes: nat): Option<Cause>
  {
    var kept := SafeFiles(rules, images);
    if Fits(rules.config, files, bytes) then None
    else if |kept| == 1 && forall p :: p in kept ==> images[p].bytes > rules.config.maxBytes then Some(SingleFile)
    else Some(PinnedSet)
  }

  /** The files kept only because they are pinned: the `hidden` count of a surplus. */
  function PinnedFiles(rules: Rules, images: map<string, File>): set<string>
  {
    set p | p in images && Keeps(rules, p, images[p]) == Some(Pinned)
  }
}
