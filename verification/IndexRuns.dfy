/**
 The index file over a run of calls (crates/whirld/src/cache.rs:259-305, 406-616): every call loads the
 text the last write left, so its counter has been through an `f64` and its strings through the reader.
 */
module IndexRuns {
  import opened Basics
  import opened CacheIndex
  import opened CachePaths
  import opened IndexState
  import opened JsonTree
  import opened OrderedSets
  import opened SweepSpec
  import opened Sweep
  import Calendar
  import Floats
  import IndexLoads
  import StateReading
  import SweepRuns

  // --- Calls --------------------------------------------------------------------------

  /** The cache directory between two calls. */
  datatype Moment = Moment(images: map<string, File>, parts: map<string, File>, stored: Stored)

  /** One call, or whatever rotations and other programs do to the files in between. */
  datatype Call =
    | Outside
    | SweepCall(rules: Rules, freshId: string)
    | RecordCall(rules: Rules, freshId: string, reported: Reported)

  function DiskAt(m: Moment, index: IndexFile): Disk { Disk(m.images, m.parts, index) }

  /** What a recording writes. */
  function NewIndex(rules: Rules, index: IndexFile, file: File, reported: Reported, freshId: string): IndexFile
  {
    Recordings(rules, index, reported, FreshEntry(rules, index.entries, file, reported), freshId)
  }

  /** The call loaded one index and wrote another. */
  ghost predicate Wrote(call: Call, before: Moment, after: Moment, index: IndexFile, written: IndexFile)
  {
    && !call.Outside? && Loads(before.stored, call.rules.now) == Some(index)
    && after.stored == Content(Encoded(written)) && Stamped(call.rules.now, call.freshId, index, written)
    && match call
       case Outside => false
       case SweepCall(rules, freshId) => Swept(rules, DiskAt(before, index), DiskAt(after, written))
       case RecordCall(rules, freshId, reported) =>
         && after.images == before.images && after.parts == before.parts && reported.path in before.images
         && written == NewIndex(rules, index, before.images[reported.path], reported, freshId)
  }

  /** The call left `index.json` alone. */
  ghost predicate LeftAlone(call: Call, before: Moment, after: Moment)
  {
    && after.stored == before.stored
    && match call
       case Outside => true
       case SweepCall(rules, freshId) =>
         (match Loads(before.stored, rules.now)
          case None => after == before
          case Some(index) => Stopped(rules, DiskAt(before, index), DiskAt(after, index)))
       case RecordCall(rules, freshId, reported) => after == before
  }

  ghost predicate Happens(call: Call, before: Moment, after: Moment)
  {
    LeftAlone(call, before, after) || exists index, written :: Wrote(call, before, after, index, written)
  }

  ghost function MomentOf(c: CacheRoot): Moment
    reads c
  {
    Moment(c.images, c.parts, c.stored)
  }

  /** `sweep` is such a call. */
  method SweepOnce(c: CacheRoot, rules: Rules, freshId: string) returns (outcome: Outcome)
    requires rules.root == c.root
    requires Loads(c.stored, rules.now).Some? ==> WellKeyed(Loads(c.stored, rules.now).value.entries)
    modifies c
    ensures Happens(SweepCall(rules, freshId), old(MomentOf(c)), MomentOf(c))
    ensures outcome.Failed? ==> LeftAlone(SweepCall(rules, freshId), old(MomentOf(c)), MomentOf(c))
  {
    hide Stopped, SweptBy, WellKeyed, Loads, Encoded, Stamped;
    ghost var before := MomentOf(c);
    ghost var written;
    outcome, written := c.Sweep(rules, freshId);
    ghost var after := MomentOf(c);
    if outcome.Done? {
      ghost var index := Loads(before.stored, rules.now).value;
      ghost var evicted :| CompletedBy(rules, DiskAt(before, index), DiskAt(after, written.value), outcome.report, evicted);
      assert Swept(rules, DiskAt(before, index), DiskAt(after, written.value));
      assert Wrote(SweepCall(rules, freshId), before, after, index, written.value);
    }
  }

  /** `record` is such a call. */
  method RecordOnce(c: CacheRoot, rules: Rules, freshId: string, reported: Reported) returns (result: Recording)
    requires rules.root == c.root
    modifies c
    ensures Happens(RecordCall(rules, freshId, reported), old(MomentOf(c)), MomentOf(c))
    ensures !result.Recorded? ==> LeftAlone(RecordCall(rules, freshId, reported), old(MomentOf(c)), MomentOf(c))
  {
    hide FreshEntry, Loads, Encoded;
    ghost var before := MomentOf(c);
    result := c.Record(rules, reported, freshId);
    ghost var after := MomentOf(c);
    if result.Recorded? {
      ghost var index := Loads(before.stored, rules.now).value;
      ghost var written := NewIndex(rules, index, before.images[reported.path], reported, freshId);
      assert Wrote(RecordCall(rules, freshId, reported), before, after, index, written);
    }
  }

  // --- What the next call loads -----------------------------------------------------------

  predicate CanLoad(stored: Stored) { Loads(stored, 0).Some? }

  function SeqAt(stored: Stored): nat { if CanLoad(stored) then Loads(stored, 0).value.seqNo else 0 }

  function RootIdAt(stored: Stored): string { if CanLoad(stored) then Loads(stored, 0).value.rootId else "" }

  function EntriesAt(stored: Stored): map<string, Entry>
  {
    if CanLoad(stored) then Loads(stored, 0).value.entries else map[]
  }

  /** When the file is loaded matters only to the date of a new index. */
  lemma LoadsAtAnyTime(stored: Stored, now: int)
    ensures CanLoad(stored) <==> Loads(stored, now).Some?
    ensures CanLoad(stored) ==>
              var index := Loads(stored, now).value;
              index.(writtenAt := "") == Loads(stored, 0).value.(writtenAt := "")
  {
  }

  lemma LoadedIsSettled(stored: Stored, now: int)
    requires Loads(stored, now).Some?
    ensures InRange(Loads(stored, now).value) && CountersSurvive(Loads(stored, now).value)
  {
    hide InRange, CountersSurvive, Parsed, Calendar.Rfc3339;
    match stored
    case Absent => NewIsSettled(Loads(stored, now).value);
    case Content(text) => IndexLoads.ParsedIsSettled(text, Loads(stored, now).value);
  }

  lemma NewIsSettled(index: IndexFile)
    requires index.seqNo == 0 && index.entries == map[]
    ensures InRange(index) && CountersSurvive(index)
  {
    IndexLoads.ZeroIsExact();
  }

  lemma WrittenIsLoaded(index: IndexFile, now: int)
    requires InRange(index)
    ensures Loads(Content(Encoded(index)), now) == if AsciiFile(index) then Some(FileThrough(index)) else None
  {
    hide InRange, AsciiFile, Encoded, Parsed, FileThrough;
    WrittenIsRead(index);
  }

  /** The sizes of the files are 64-bit numbers. */
  predicate SizesFit(images: map<string, File>) { forall p :: p in images ==> images[p].bytes <= Floats.U64_MAX }

  lemma WrittenIsInRange(call: Call, before: Moment, after: Moment, index: IndexFile, written: IndexFile)
    requires Wrote(call, before, after, index, written) && SizesFit(before.images) && InRange(index)
    ensures InRange(written)
  {
    hide Encoded, Loads, Swept, FreshEntry, Calendar.Rfc3339;
    match call
    case SweepCall(rules, freshId) => SweptEntries(rules, DiskAt(before, index), DiskAt(after, written));
    case RecordCall(rules, freshId, reported) =>
      FreshInRange(rules, index, before.images[reported.path], reported);
  }

  /** A sweep keeps entries of the old index, changing only their pins. */
  lemma SweptEntries(rules: Rules, before: Disk, after: Disk)
    requires Swept(rules, before, after)
    ensures forall d :: d in after.index.entries ==>
              d in before.index.entries
              && after.index.entries[d] == before.index.entries[d].(pinned := d in rules.protected.pinnedDigests)
    ensures forall d :: d in after.index.dangling ==> d in before.index.entries
  {
    hide SweptBy;
    var evicted :| SweptBy(rules, before, after, evicted);
    SweepRuns.EntriesArePartitioned(rules, before, after, evicted);
  }

  lemma FreshInRange(rules: Rules, index: IndexFile, file: File, reported: Reported)
    requires InRange(index) && file.bytes <= Floats.U64_MAX
    ensures EntryInRange(FreshEntry(rules, index.entries, file, reported))
  {
    hide Calendar.Rfc3339;
  }

  // --- The counter and the id -----------------------------------------------------------

  /** A write that the next call can load: one more, through an `f64`, and the same id. */
  lemma WriteMoves(call: Call, before: Moment, after: Moment, index: IndexFile, written: IndexFile)
    requires Wrote(call, before, after, index, written) && SizesFit(before.images) && CanLoad(after.stored)
    ensures CanLoad(before.stored) && SeqAt(before.stored) == index.seqNo
    ensures index.seqNo <= Floats.U64_MAX && StateReading.Survives(index.seqNo)
    ensures SeqAt(after.stored) == StateReading.Through(Floats.Counted(index.seqNo))
    ensures RootIdAt(before.stored) != "" ==> RootIdAt(after.stored) == RootIdAt(before.stored)
  {
    hide Encoded, Loads, Swept, NewIndex, AsciiFile, EntryInRange, StateReading.Through, StateReading.Survives;
    hide Calendar.Rfc3339;
    LoadsAtAnyTime(before.stored, call.rules.now);
    LoadedIsSettled(before.stored, call.rules.now);
    WrittenIsInRange(call, before, after, index, written);
    WrittenIsLoaded(written, 0);
  }

  /**
   Main result: a write that can be loaded again has moved the counter forward exactly below 2^53, or
   below 2^54 when half of it is odd, and has moved it back exactly from its largest value.
   */
  lemma WriteMovesExactlyWhen(call: Call, before: Moment, after: Moment, index: IndexFile, written: IndexFile)
    requires Wrote(call, before, after, index, written) && SizesFit(before.images) && CanLoad(after.stored)
    ensures
      var n := SeqAt(before.stored);
      && (SeqAt(after.stored) > n <==> n < 0x20_0000_0000_0000 || (n < 0x40_0000_0000_0000 && n / 2 % 2 == 1))
      && (SeqAt(after.stored) < n <==> n == Floats.U64_MAX) && SeqAt(after.stored) < Floats.U64_MAX
      && (n < 0x20_0000_0000_0000 ==> SeqAt(after.stored) == n + 1)
  {
    hide Wrote, SeqAt, Floats.Rounded, Floats.Exact, Floats.Counted;
    WriteMoves(call, before, after, index, written);
    Floats.CountedGrows(index.seqNo);
  }

  /** A run: each call leads from one moment to the next. */
  ghost predicate IsRun(calls: seq<Call>, moments: seq<Moment>)
  {
    && |moments| == |calls| + 1
    && (forall k :: 0 <= k < |moments| ==> SizesFit(moments[k].images))
    && (forall k :: 0 <= k < |calls| ==> Happens(calls[k], moments[k], moments[k + 1]))
  }

  /** A file that no call can load stays. */
  lemma LostIsLost(call: Call, before: Moment, after: Moment)
    requires Happens(call, before, after) && !CanLoad(before.stored)
    ensures after.stored == before.stored
  {
    hide Encoded, Loads, Swept, Stopped, Stamped, NewIndex;
    if !call.Outside? { LoadsAtAnyTime(before.stored, call.rules.now); }
  }

  lemma OneCallOn(calls: seq<Call>, moments: seq<Moment>, k: nat)
    requires IsRun(calls, moments) && k < |calls| && CanLoad(moments[k + 1].stored)
    ensures CanLoad(moments[k].stored)
    ensures
      var n, m := SeqAt(moments[k].stored), SeqAt(moments[k + 1].stored);
      && (n != Floats.U64_MAX ==> n <= m && m != Floats.U64_MAX)
      && (n < 0x20_0000_0000_0000 ==> m <= n + 1 && (m == n ==> moments[k + 1].stored == moments[k].stored))
    ensures RootIdAt(moments[k].stored) != "" ==> RootIdAt(moments[k + 1].stored) == RootIdAt(moments[k].stored)
  {
    hide Wrote, LeftAlone, SeqAt, RootIdAt, CanLoad;
    var call, before, after := calls[k], moments[k], moments[k + 1];
    assert Happens(call, before, after);
    if !CanLoad(before.stored) { LostIsLost(call, before, after); }
    if LeftAlone(call, before, after) {
      assert after.stored == before.stored by { KeptAsItWas(call, before, after); }
    } else {
      var index, written :| Wrote(call, before, after, index, written);
      WriteMoves(call, before, after, index, written);
      WriteMovesExactlyWhen(call, before, after, index, written);
    }
  }

  lemma KeptAsItWas(call: Call, before: Moment, after: Moment)
    requires LeftAlone(call, before, after)
    ensures after.stored == before.stored
  {
  }

  /**
   Main result: over any run of sweeps and records, finished or stopped, with anything happening to the
   files in between, as long as the index can be loaded: the sequence number never goes back unless it
   starts from the largest one; up to 2^53 a write always moves it; and an id is for good.
   */
  lemma {:induction false} IndexMovesForward(calls: seq<Call>, moments: seq<Moment>, i: nat, j: nat)
    requires IsRun(calls, moments) && i <= j < |moments| && CanLoad(moments[j].stored)
    ensures SeqAt(moments[i].stored) != Floats.U64_MAX ==>
              SeqAt(moments[i].stored) <= SeqAt(moments[j].stored) && SeqAt(moments[j].stored) != Floats.U64_MAX
    ensures SeqAt(moments[i].stored) + (j - i) <= 0x20_0000_0000_0000 ==>
              && SeqAt(moments[j].stored) <= SeqAt(moments[i].stored) + (j - i)
              && (SeqAt(moments[i].stored) == SeqAt(moments[j].stored) ==> moments[i].stored == moments[j].stored)
    ensures RootIdAt(moments[i].stored) != "" ==> RootIdAt(moments[j].stored) == RootIdAt(moments[i].stored)
    decreases j - i
  {
    hide Happens, SizesFit, SeqAt, RootIdAt, CanLoad;
    if i < j {
      OneCallOn(calls, moments, j - 1);
      IndexMovesForward(calls, moments, i, j - 1);
    }
  }

  // --- When the next call can load at all ---------------------------------------------------

  /** A new id is a hyphenated UUID. */
  predicate Minted(id: string)
  {
    |id| == 36 && forall i :: 0 <= i < |id| ==> id[i] == '-' || IsDigit(id[i]) || 'a' <= id[i] <= 'f'
  }

  lemma DigitsAreAscii(s: string)
    requires AllDigits(s)
    ensures Ascii(s)
  {
  }

  lemma PaddedIsAscii(n: int, width: nat)
    ensures Ascii(Padded(n, width))
  {
    hide Decimal, PadLeft;
    DigitsAreAscii(PadLeft(Decimal(if n < 0 then -n else n), if n >= 0 then width else if width == 0 then 0 else width - 1));
  }

  lemma JoinedIsAscii(a: string, b: string)
    requires Ascii(a) && Ascii(b)
    ensures Ascii(a + b)
  {
  }

  lemma StampIsAscii(now: int)
    ensures Ascii(Calendar.Rfc3339(now))
  {
    hide Padded, Ascii, Calendar.CivilFromDays;
    var c := Calendar.CivilFromDays(now / Calendar.SECONDS_PER_DAY);
    var second := now % Calendar.SECONDS_PER_DAY;
    ClockIsAscii(c.year, c.month, c.day, second);
  }

  lemma ClockIsAscii(year: int, month: int, day: int, second: int)
    ensures Ascii(Calendar.ClockText(year, month, day, second))
  {
    hide Padded;
    PaddedIsAscii(year, 4);
    PaddedIsAscii(month, 2);
    PaddedIsAscii(day, 2);
    PaddedIsAscii(second / 3_600, 2);
    PaddedIsAscii(second % 3_600 / 60, 2);
    PaddedIsAscii(second % 60, 2);
  }

  lemma {:induction false} SourceIsAscii(key: string)
    requires Ascii(key)
    ensures Ascii(SourceOf(key))
  {
    if |key| > 0 && key[0] != ':' {
      assert Ascii(key[1..]);
      SourceIsAscii(key[1..]);
    }
  }

  /** The strings a recording adds to the index are below 0x80. */
  predicate Plain(reported: Reported, entries: map<string, Entry>)
  {
    Ascii(reported.digest)
    && (reported.digest in entries || (Ascii(reported.originKey) && Ascii(ExtensionOf(FileName(reported.path)))))
  }

  lemma FreshIsAscii(rules: Rules, entries: map<string, Entry>, file: File, reported: Reported)
    requires forall d :: d in entries ==> AsciiEntry(entries[d])
    requires Ascii(reported.digest)
    ensures AsciiEntry(FreshEntry(rules, entries, file, reported)) <==> Plain(reported, entries)
  {
    hide Ascii, ExtensionOf, FileName, SourceOf, Calendar.Rfc3339;
    StampIsAscii(rules.now);
    if Ascii(reported.originKey) { SourceIsAscii(reported.originKey); }
  }

  lemma RecordedIsAscii(rules: Rules, index: IndexFile, file: File, reported: Reported, freshId: string)
    requires AsciiFile(index) && Minted(freshId)
    ensures AsciiFile(NewIndex(rules, index, file, reported, freshId)) <==> Plain(reported, index.entries)
  {
    hide Ascii, AsciiEntry, Plain, FreshEntry, Calendar.Rfc3339, Minted;
    StampIsAscii(rules.now);
    MintedIsAscii(freshId);
    var written := NewIndex(rules, index, file, reported, freshId);
    forall i | 0 <= i < |written.dangling|
      ensures Ascii(written.dangling[i])
    {
      assert written.dangling[i] in index.dangling;
    }
    assert reported.digest in written.entries;
    if Ascii(reported.digest) {
      FreshIsAscii(rules, index.entries, file, reported);
    } else {
      assert !Plain(reported, index.entries) by { PlainDigest(reported, index.entries); }
    }
  }

  lemma PlainDigest(reported: Reported, entries: map<string, Entry>)
    requires !Ascii(reported.digest)
    ensures !Plain(reported, entries)
  {
  }

  lemma MintedIsAscii(id: string)
    requires Minted(id)
    ensures Ascii(id) && id != ""
  {
  }

  lemma SweptIsAscii(rules: Rules, freshId: string, before: Disk, after: Disk)
    requires Swept(rules, before, after) && Stamped(rules.now, freshId, before.index, after.index)
    requires AsciiFile(before.index) && Minted(freshId)
    ensures AsciiFile(after.index)
  {
    hide Ascii, Swept, Calendar.Rfc3339, Minted;
    StampIsAscii(rules.now);
    MintedIsAscii(freshId);
    SweptEntries(rules, before, after);
    forall i | 0 <= i < |after.index.dangling|
      ensures Ascii(after.index.dangling[i])
    {
      assert after.index.dangling[i] in after.index.dangling;
    }
  }

  /** The index can be loaded and holds only characters below 0x80. */
  predicate Legible(stored: Stored) { CanLoad(stored) && AsciiFile(Loads(stored, 0).value) }

  lemma LegibleAtAnyTime(stored: Stored, now: int)
    requires Legible(stored) && Loads(stored, now).Some?
    ensures AsciiFile(Loads(stored, now).value)
  {
    hide Loads, Ascii, AsciiEntry;
    LoadsAtAnyTime(stored, now);
    if stored.Absent? {
      NewIsAscii(now);
    } else {
      SameContent(stored, now);
    }
  }

  lemma NewIsAscii(now: int)
    ensures AsciiFile(Loads(Absent, now).value)
  {
    hide Calendar.Rfc3339;
    StampIsAscii(now);
  }

  lemma SameContent(stored: Stored, now: int)
    requires !stored.Absent?
    ensures Loads(stored, now) == Loads(stored, 0)
  {
  }

  lemma ThroughIsAscii(index: IndexFile)
    ensures AsciiFile(FileThrough(index)) <==> AsciiFile(index)
  {
    hide Ascii, StateReading.Through;
    assert forall k :: k in index.entries ==>
             (AsciiEntry(FileThrough(index).entries[k]) <==> AsciiEntry(index.entries[k]));
  }

  /** A call leaves the index loadable unless it records a character of 0x80 or above. */
  predicate Harmless(call: Call, before: Moment, after: Moment)
  {
    after.stored == before.stored || (call.RecordCall? ==> Plain(call.reported, EntriesAt(before.stored)))
  }

  /** Main step: when the index was legible, what a call writes can be loaded exactly if the call is harmless. */
  lemma LoadableExactlyWhen(call: Call, before: Moment, after: Moment)
    requires Happens(call, before, after) && SizesFit(before.images) && Legible(before.stored)
    requires !call.Outside? ==> Minted(call.freshId)
    ensures CanLoad(after.stored) <==> Harmless(call, before, after)
    ensures CanLoad(after.stored) ==> Legible(after.stored)
  {
    hide Wrote, LeftAlone, Legible, Plain;
    if after.stored == before.stored {
      assert CanLoad(before.stored) by { LegibleLoads(before.stored); }
    } else {
      assert !LeftAlone(call, before, after) by { if LeftAlone(call, before, after) { KeptAsItWas(call, before, after); } }
      var index, written :| Wrote(call, before, after, index, written);
      assert !call.Outside? by { WriterIsACall(call, before, after, index, written); }
      WriteIsLegible(call, before, after, index, written);
    }
  }

  lemma WriterIsACall(call: Call, before: Moment, after: Moment, index: IndexFile, written: IndexFile)
    requires Wrote(call, before, after, index, written)
    ensures !call.Outside?
  {
  }

  lemma LegibleLoads(stored: Stored)
    requires Legible(stored)
    ensures CanLoad(stored)
  {
  }

  lemma WriteIsLegible(call: Call, before: Moment, after: Moment, index: IndexFile, written: IndexFile)
    requires Wrote(call, before, after, index, written) && SizesFit(before.images) && Legible(before.stored)
    requires Minted(call.freshId)
    ensures CanLoad(after.stored) <==> (call.RecordCall? ==> Plain(call.reported, EntriesAt(before.stored)))
    ensures CanLoad(after.stored) ==> Legible(after.stored)
  {
    hide Loads, Encoded, AsciiFile, Plain, Swept, NewIndex, InRange, Minted, FileThrough, Stamped;
    LoadsAtAnyTime(before.stored, call.rules.now);
    LegibleAtAnyTime(before.stored, call.rules.now);
    LoadedIsSettled(before.stored, call.rules.now);
    WrittenIsInRange(call, before, after, index, written);
    WrittenIsLoaded(written, 0);
    ThroughIsAscii(written);
    match call
    case SweepCall(rules, freshId) => SweptIsAscii(rules, freshId, DiskAt(before, index), DiskAt(after, written));
    case RecordCall(rules, freshId, reported) =>
      RecordedIsAscii(rules, index, before.images[reported.path], reported, freshId);
  }

  /**
   Main result: from a legible index on, a later call can load the index exactly if no recording in
   between wrote a digest, a new origin key or a new extension with a character of 0x80 or above.
   */
  lemma {:induction false} LoadableWhileHarmless(calls: seq<Call>, moments: seq<Moment>, i: nat, j: nat)
    requires IsRun(calls, moments) && i <= j < |moments| && Legible(moments[i].stored)
    requires forall k :: 0 <= k < |calls| && !calls[k].Outside? ==> Minted(calls[k].freshId)
    ensures CanLoad(moments[j].stored) <==> forall k :: i <= k < j ==> Harmless(calls[k], moments[k], moments[k + 1])
    ensures CanLoad(moments[j].stored) ==> Legible(moments[j].stored)
    decreases j - i
  {
    hide Happens, SizesFit, Legible, Harmless, Minted, CanLoad;
    if i == j {
      LegibleLoads(moments[i].stored);
    } else {
      LoadableWhileHarmless(calls, moments, i, j - 1);
      assert Happens(calls[j - 1], moments[j - 1], moments[j - 1 + 1]);
      if CanLoad(moments[j - 1].stored) {
        LoadableExactlyWhen(calls[j - 1], moments[j - 1], moments[j]);
      } else {
        LostIsLost(calls[j - 1], moments[j - 1], moments[j]);
      }
    }
  }

  // --- What the sweep asks of the keys ------------------------------------------------------

  /** A sweep drops entries and keeps keys and extensions. */
  lemma SweptKeepsKeys(rules: Rules, before: Disk, after: Disk)
    requires Swept(rules, before, after) && WellKeyed(before.index.entries)
    ensures WellKeyed(after.index.entries)
  {
    hide Swept, HexDigest;
    SweptEntries(rules, before, after);
  }

  lemma {:induction false} FileNameHasNoSlash(path: string)
    ensures '/' !in FileName(path)
  {
    if |path| > 0 && path[|path| - 1] != '/' { FileNameHasNoSlash(path[..|path| - 1]); }
  }

  lemma {:induction false} ExtensionHasNoSlash(name: string)
    requires '/' !in name
    ensures '/' !in ExtensionOf(name)
  {
    if |name| > 0 && name[|name| - 1] != '.' { ExtensionHasNoSlash(name[..|name| - 1]); }
  }

  /** Recording a digest of 64 hexadecimal digits keeps the index one a sweep accepts. */
  lemma RecordingKeepsKeys(rules: Rules, index: IndexFile, file: File, reported: Reported, freshId: string)
    requires WellKeyed(index.entries) && HexDigest(reported.digest)
    ensures WellKeyed(NewIndex(rules, index, file, reported, freshId).entries)
  {
    hide HexDigest, ExtensionOf, FileName, Calendar.Rfc3339;
    FileNameHasNoSlash(reported.path);
    ExtensionHasNoSlash(FileName(reported.path));
  }

  lemma ThroughKeepsKeys(index: IndexFile)
    requires WellKeyed(index.entries)
    ensures WellKeyed(FileThrough(index).entries)
  {
    hide HexDigest, StateReading.Through;
  }

  lemma CallKeepsKeys(call: Call, before: Moment, after: Moment)
    requires Happens(call, before, after) && SizesFit(before.images) && WellKeyed(EntriesAt(before.stored))
    requires call.RecordCall? ==> HexDigest(call.reported.digest)
    ensures WellKeyed(EntriesAt(after.stored))
  {
    hide Loads, Encoded, AsciiFile, HexDigest, Swept, Stopped, NewIndex, InRange, FileThrough, Stamped, WellKeyed;
    if after.stored != before.stored {
      var index, written :| Wrote(call, before, after, index, written);
      LoadsAtAnyTime(before.stored, call.rules.now);
      LoadedIsSettled(before.stored, call.rules.now);
      WrittenIsInRange(call, before, after, index, written);
      WrittenIsLoaded(written, 0);
      match call {
        case SweepCall(rules, freshId) => SweptKeepsKeys(rules, DiskAt(before, index), DiskAt(after, written));
        case RecordCall(rules, freshId, reported) =>
          RecordingKeepsKeys(rules, index, before.images[reported.path], reported, freshId);
      }
      ThroughKeepsKeys(written);
      assert WellKeyed(map[]) by { NoKeys(); }
    }
  }

  lemma NoKeys() ensures WellKeyed(map[]) {}

  /** Main result: over a run that records only digests of 64 hexadecimal digits, every sweep finds the keys it asks for. */
  lemma {:induction false} KeysStayDigests(calls: seq<Call>, moments: seq<Moment>, i: nat, j: nat)
    requires IsRun(calls, moments) && i <= j < |moments| && WellKeyed(EntriesAt(moments[i].stored))
    requires forall k :: 0 <= k < |calls| && calls[k].RecordCall? ==> HexDigest(calls[k].reported.digest)
    ensures WellKeyed(EntriesAt(moments[j].stored))
    decreases j - i
  {
    hide Happens, SizesFit, WellKeyed, HexDigest, EntriesAt;
    if i < j {
      KeysStayDigests(calls, moments, i, j - 1);
      assert Happens(calls[j - 1], moments[j - 1], moments[j - 1 + 1]);
      CallKeepsKeys(calls[j - 1], moments[j - 1], moments[j]);
    }
  }

  // --- A second sweep, through the file --------------------------------------------------------

  /** The entries a sweep writes come back unchanged. */
  lemma SweptSurvives(rules: Rules, before: Disk, after: Disk)
    requires Swept(rules, before, after) && InRange(before.index) && CountersSurvive(before.index)
    ensures EntriesThrough(after.index.entries) == after.index.entries
  {
    hide Swept, StateReading.Survives, StateReading.Through;
    SweptEntries(rules, before, after);
    EntriesThroughSame(after.index.entries);
  }

  /** Main result: a second sweep under the same rules, loading what the first wrote, removes and drops nothing. */
  lemma SecondCallIsIdle(rules: Rules, id: string, id': string, before: Moment, mid: Moment, after: Moment,
                         index: IndexFile, written: IndexFile, again: IndexFile, rewritten: IndexFile)
    requires Wrote(SweepCall(rules, id), before, mid, index, written)
    requires Wrote(SweepCall(rules, id'), mid, after, again, rewritten)
    requires WellKeyed(index.entries) && SizesFit(before.images)
    ensures after.images == mid.images && after.parts == mid.parts
    ensures again.entries == written.entries && rewritten.entries == written.entries && rewritten.dangling == []
  {
    hide Loads, Encoded, AsciiFile, Swept, InRange, CountersSurvive, Stamped, WellKeyed, EntriesThrough;
    LoadedIsSettled(before.stored, rules.now);
    WrittenIsInRange(SweepCall(rules, id), before, mid, index, written);
    WrittenIsLoaded(written, rules.now);
    SweptSurvives(rules, DiskAt(before, index), DiskAt(mid, written));
    SweptAlso(rules, DiskAt(before, index), DiskAt(mid, written), again);
    SweepRuns.SecondSweepIsIdle(rules, DiskAt(before, index), DiskAt(mid, again), DiskAt(after, rewritten));
  }

  lemma SweptAlso(rules: Rules, before: Disk, after: Disk, index: IndexFile)
    requires Swept(rules, before, after)
    requires index.entries == after.index.entries && index.dangling == after.index.dangling
    ensures Swept(rules, before, Disk(after.images, after.parts, index))
  {
    hide Eviction, Without, Live, Orphans, Sorted, Repinned, StaleParts;
    var evicted :| SweptBy(rules, before, after, evicted);
    assert SweptBy(rules, before, Disk(after.images, after.parts, index), evicted);
  }

  // --- Failing inputs ----------------------------------------------------------------------

  const NEW_ID: string := "00000000-0000-4000-8000-000000000000"

  lemma NewIdIsMinted()
    ensures Minted(NEW_ID)
  {
  }

  /** An empty cache whose index has been written n times. */
  ghost function EmptyCache(n: nat): Moment
  {
    Moment(map[], map[], Content(Encoded(IndexFile(n, "", "id", map[], []))))
  }

  function SweptOnce(rules: Rules, index: IndexFile): IndexFile
  {
    IndexFile(Floats.Counted(index.seqNo), Calendar.Rfc3339(rules.now), "id", map[], [])
  }

  lemma EmptyCacheIsSwept(n: nat) returns (before: Moment, after: Moment, index: IndexFile, written: IndexFile)
    requires n <= Floats.U64_MAX && StateReading.Survives(n)
    ensures before == EmptyCache(n) && CanLoad(before.stored) && SeqAt(before.stored) == n
    ensures Wrote(SweepCall(SweepRuns.ZeroGrace(), NEW_ID), before, after, index, written)
    ensures CanLoad(after.stored) && written.seqNo == Floats.Counted(n)
    ensures SeqAt(after.stored) == StateReading.Through(Floats.Counted(n))
  {
    hide Encoded, Loads, Calendar.Rfc3339, StateReading.Survives, Floats.Rounded;
    var rules := SweepRuns.ZeroGrace();
    var first := IndexFile(n, "", "id", map[], []);
    before := EmptyCache(n);
    WrittenIsLoaded(first, 0);
    WrittenIsLoaded(first, rules.now);
    StateReading.ThroughSurvives(n);
    index := first;
    assert EntriesThrough(map[]) == map[];
    written := SweptOnce(rules, index);
    StampIsAscii(rules.now);
    WrittenIsLoaded(written, 0);
    after := Moment(map[], map[], Content(Encoded(written)));
    EmptySwept(rules, DiskAt(before, index), DiskAt(after, written));
  }

  lemma EmptySwept(rules: Rules, before: Disk, after: Disk)
    requires before.images == map[] && before.parts == map[] && before.index.entries == map[]
    requires after.images == map[] && after.parts == map[] && after.index.entries == map[] && after.index.dangling == []
    ensures Swept(rules, before, after)
  {
    assert StaleParts(rules, before.parts) == {};
    assert Sorted({}) == [];
    assert Live(rules.root, before.images, before.index.entries) == map[];
    assert Missing(rules.root, before) == {};
    assert Reclaimed(rules, before) == map[];
    SweepRuns.EmptyEviction(rules);
    assert SweptBy(rules, before, after, {});
  }

  /** The failing input: an index at 2^53 is written with 2^53 + 1 and loaded with 2^53 again. */
  lemma CounterSticks()
    ensures
      exists after, index, written ::
        && Wrote(SweepCall(SweepRuns.ZeroGrace(), NEW_ID), EmptyCache(0x20_0000_0000_0000), after, index, written)
        && written.seqNo == 0x20_0000_0000_0001
        && CanLoad(after.stored) && SeqAt(after.stored) == SeqAt(EmptyCache(0x20_0000_0000_0000).stored) == 0x20_0000_0000_0000
  {
    hide EmptyCache, Wrote, SeqAt, CanLoad, Floats.Exact, Floats.Rounded;
    Floats.SmallIsExact(0x20_0000_0000_0000);
    Floats.ExactIsFixed(0x20_0000_0000_0000);
    Floats.FirstInexact();
    var before, after, index, written := EmptyCacheIsSwept(0x20_0000_0000_0000);
  }

  /** The failing input: the largest counter starts again from 0. */
  lemma CounterWraps()
    ensures
      exists after, index, written ::
        && Wrote(SweepCall(SweepRuns.ZeroGrace(), NEW_ID), EmptyCache(Floats.U64_MAX), after, index, written)
        && CanLoad(after.stored) && SeqAt(EmptyCache(Floats.U64_MAX).stored) == Floats.U64_MAX && SeqAt(after.stored) == 0
  {
    hide EmptyCache, Wrote, SeqAt, CanLoad, Floats.Rounded;
    Floats.SmallIsExact(0);
    var before, after, index, written := EmptyCacheIsSwept(Floats.U64_MAX);
  }

  /** What a rotation reports of a file whose origin has an accented name. */
  function AccentedReport(): Reported { Reported("d", "wallhaven:caf\U{E9}", "/cache/sha256/d.jpg", Wallhaven) }

  function OneFile(stored: Stored): Moment { Moment(map["/cache/sha256/d.jpg" := File(5, None)], map[], stored) }

  /** The failing input: recording that file in a new cache leaves an index that nothing can load. */
  lemma AccentedKeyIsLost()
    ensures
      exists after ::
        && Happens(RecordCall(SweepRuns.ZeroGrace(), NEW_ID, AccentedReport()), OneFile(Absent), after)
        && CanLoad(OneFile(Absent).stored) && !CanLoad(after.stored)
  {
    hide Encoded, Calendar.Rfc3339, FreshEntry, Recordings;
    var rules, before, reported := SweepRuns.ZeroGrace(), OneFile(Absent), AccentedReport();
    var call := RecordCall(rules, NEW_ID, reported);
    var index := Loads(Absent, rules.now).value;
    var written := NewIndex(rules, index, before.images[reported.path], reported, NEW_ID);
    var after := Moment(before.images, before.parts, Content(Encoded(written)));
    assert Wrote(call, before, after, index, written) by { AccentedStamp(rules, index, written, before.images[reported.path], reported); }
    assert after.stored != before.stored;
    assert !Plain(reported, map[]) by { assert reported.originKey[13] >= 0x80 as char; }
    assert Legible(Absent) by { NewIsAscii(0); }
    NewIdIsMinted();
    LoadableExactlyWhen(call, before, after);
  }

  lemma AccentedStamp(rules: Rules, index: IndexFile, written: IndexFile, file: File, reported: Reported)
    requires written == NewIndex(rules, index, file, reported, NEW_ID)
    ensures Stamped(rules.now, NEW_ID, index, written)
  {
    hide FreshEntry, Calendar.Rfc3339;
  }
}
