# Verified models of whirl's cores

whirl is a wallpaper daemon, a worker process and a command line tool. This project models the algorithms
underneath them and proves what they promise:

- **The cache sweep** (`SweepSpec`, `Sweep`, `SweepLaws`, `SweepRuns`, `IndexRuns`, `CachePaths`, `CacheIndex`,
  `OrderedSets`): the daemon reconciles an index with a directory, reclaims orphans, cleans part files and
  evicts the least recently used entries under two caps, never touching a protected file. Each removal is one
  step that can fail, and a failed sweep leaves the index file as it was. The index file is its text: every
  call parses what the last write printed.
- **The JSON reader and the hand-written printers** (`JsonTree`, `JsonSpec`, `JsonReader`, `JsonLayout`,
  `JsonSpellings`, `JsonNumbers`, `JsonWriter`, `JsonRoundTrip`, `Floats`): a cursor over bytes, proved to do
  what functions from a position say; a printer, proved to append a layout; the theorem that any layout is read
  back; and what every spelling of a string or a number means. Bytes are written as the characters of their
  values.
- **The state files** (`StateLayouts`, `StateReading`, `CurrentState`, `HistoryState`, `IndexState`,
  `IndexLoads`, `NewerSchemas`, `TolerantReading`): the three encoders and readers on top of it, and what they
  tolerate.
- **The streaming store and the header sniff** (`Octets`, `Sniff`, `Heads`, `Boxes`, `Store`, `PictureSizes`,
  `HeicReads`), **SHA-256** (`Sha256Spec`, `FirstPrimes`, `Sha256`, `Sha256Bits`, `Sha256Example`) and **calendar
  arithmetic** (`Calendar`).
- **The rotation walk** (`WeightedOrder`, `Rotation`), **the rotation lock** (`RotateLock`) and **the event
  bus** (`Events`), the last two as small-step protocols over every interleaving.
- **The line protocol** (`Texts`, `Requests`, `Responses`, `RequestGrammar`, `ResponseGrammar`): printing and
  parsing, and the grammar of both stated on the bytes of the lines.

Code that updates state is a class or a method proved against a function or a predicate of the same module;
the main theorems are lemmas about those functions and predicates. What such a function means is said once more
without it, in the terms of the bytes, the files or the run (`SweepLaws`, `JsonSpellings`, `TolerantReading`,
`PictureSizes`, `Sha256Example`, the two grammars and the last sections of `Rotation`, `RotateLock` and `Events`).

What the file system, the network, the clock, the random source and the platform's setter answer are
parameters: a set of files whose removal is refused, a list of reads, one answer per candidate, a schedule.

## Where the code and its documentation differ

The models follow the code. Each of these is proved with the exact condition and a failing input:

- A state file or report with one character of 0x80 or above cannot be read back: the reader copies strings
  byte by byte, because the inner loop at `crates/whirl-core/src/config.rs:2168` always stops at once, and
  one byte of a multi-byte character is not UTF-8. The comment there expects such strings to be copied
  (`JsonReader.ChunkIsOneByte`, `JsonRoundTrip.PrintThenParse` and the three `RoundTrip` lemmas;
  `HistoryState.AccentedPathIsLost`).
- A 64-bit counter read back through `f64` is the nearest one (`Floats.CounterSurvives`;
  `HistoryState.LargeCounterIsLost`).
- The index is written even if nothing changed so that `seq` is honest about it. The `seq` that the next call
  loads has grown if and only if it was below 2^53, or below 2^54 with an odd half; it has gone back, to 0 in
  a release build, if and only if it was the largest counter (`IndexRuns.WriteMovesExactlyWhen`; at 2^53
  `IndexRuns.CounterSticks`, at 2^64 - 1 `IndexRuns.CounterWraps`).
- Recording a digest, a new origin key or a new extension with a character of 0x80 or above writes an index
  that no later call can load; from an index with only characters below 0x80 on, nothing else does
  (`IndexRuns.LoadableWhileHarmless`; `IndexRuns.AccentedKeyIsLost`).
- A JPEG whose frame header declares a length of 2 or 3 just past the small head window is called no image
  although its bytes measure, and further in the verdict depends on how the reads cut the stream
  (`Heads.ReadsDoNotMatter`, `Heads.MisreadInBytes`; `Heads.ShortFrameIsReal`).
- The exclusive-file fallback of the rotation lock is said to raise no question of reused process ids; the
  daemon's removal of a reaped worker's file does (`RotateLock.MutualExclusion`;
  `RotateLock.RecycledPidBreaks`). The comment that a file just created cannot be held by anyone else is not
  so under `flock` (`RotateLock.FreshFileIsHeldExactlyWhen`; `RotateLock.FreshFileCanBeHeld`).
- A part file without a readable age is said to be left alone; with an orphan grace of 0 it is removed
  (`SweepRuns.UndatedPartStays`; `SweepRuns.UndatedPartIsRemoved`).
- A text with second 60 is accepted and printed as the next minute (`Calendar.ParsedTextIsCanonical`;
  `Calendar.LeapSecondReprints`).
- A request line may end in a carriage return; of two, one stays in the last argument, and printing and
  parsing the request again drops it, unless the line starts with `set ` (`Requests.AcceptedLineIsStable`;
  `Requests.TwoReturnsAreLost`).

## Model

| member | source | states |
|---|---|---|
| Sweep.CacheRoot.Sweep | crates/whirld/src/cache.rs:473-616 | a sweep that can load the index ends as a completed sweep with an exact report and the text of the new index, counted one up, dated and with an id, or as a stopped one with `index.json` untouched: the removals made so far are a set of unprotected orphans, then all of them and some stale parts, then all of those and a prefix of the eviction; one that cannot load it changes nothing |
| Sweep.CacheRoot.Clear | crates/whirld/src/cache.rs:481-592 | the steps between the load and the write complete, or stop at a refused removal in that order |
| Sweep.CacheRoot.Load | crates/whirld/src/cache.rs:259-283 | a missing file is an empty index without an id; a text is what the parser makes of it; a newer schema, a parse error and an unreadable file are refused |
| Sweep.CacheRoot.Evict | crates/whirld/src/cache.rs:545-573 | the loop removes a least prefix of the unprotected entries in (`last_used`, digest) order, keeps the running totals equal to the true sums, and stops when both caps hold or nothing unprotected is left |
| Sweep.CacheRoot.Reclaim | crates/whirld/src/cache.rs:508-529 | exactly the files no entry claims and no rule protects are removed, counted and summed; a refused removal leaves a subset of them gone |
| Sweep.CacheRoot.Reconcile | crates/whirld/src/cache.rs:489-503 | the index is split into the entries whose file is there and the ascending list of those whose file is missing |
| Sweep.CacheRoot.CleanParts | crates/whirld/src/cache.rs:534-539 | exactly the part files past the orphan grace are removed |
| Sweep.CacheRoot.Record | crates/whirld/src/cache.rs:406-469 | the index gains or updates exactly the reported entry, keeps its first-seen data, takes the digest off `dangling`, mints a missing `root_id` and counts `seq` up; nothing is written for a path outside the cache or a missing file |
| Sweep.Survey.Forget | crates/whirld/src/cache.rs:193-200 | the totals stay the true count and sum of the files left, so neither saturating subtraction saturates |
| Sweep.Walk | crates/whirld/src/cache.rs:325-356 | one pass measures every file once: the totals are the count and the sum |
| SweepSpec.NamedDigestIsSafe | crates/whirld/src/cache.rs:127-159 | a pinned or anchored digest protects its own content-addressed file whatever its age |
| SweepSpec.EvictionUnique | crates/whirld/src/cache.rs:545-573 | the eviction the specification asks for is one definite set |
| SweepSpec.PrefixesNest | crates/whirld/src/cache.rs:559-564 | two initial segments of the eviction order are comparable, so the order is total |
| SweepRuns.EvictedIsShortestPrefix | crates/whirld/src/cache.rs:541-573 | listed oldest first, the evicted entries are the first k, k the least number whose removal satisfies both caps, or all of them if none does |
| SweepRuns.ProtectedFilesSurvive | crates/whirld/src/cache.rs:505-573 | no sweep, finished or stopped at any removal, removes or changes a protected file under `sha256/` |
| SweepRuns.BoundOrProtected | crates/whirld/src/cache.rs:376-379 | after a completed sweep both caps hold or every surviving file is protected |
| SweepRuns.CauseIsExact | crates/whirld/src/cache.rs:380-396 | `over_cause` is none exactly when both caps hold, and `SingleFile` exactly when one file is left and it alone is over the byte cap |
| SweepRuns.EntriesArePartitioned | crates/whirld/src/cache.rs:482-503 | the old entries are the disjoint union of the kept, the newly dangling and the evicted ones, and a kept entry changes only in its pin |
| SweepRuns.RerunConverges | crates/whirld/src/cache.rs:473-607 | a sweep stopped anywhere before its index write and then run again leaves the files, part files and entries of one uninterrupted sweep, every entry with its file |
| SweepRuns.EvictionInTwoGoes | crates/whirld/src/cache.rs:545-573 | a partial eviction completed later is one eviction of the original cache |
| SweepRuns.SecondSweepIsIdle | crates/whirld/src/cache.rs:473-616 | an immediate second sweep removes no file, no part and no entry, and its `dangling` is empty |
| SweepRuns.SweptEntriesHaveFiles | crates/whirld/src/cache.rs:489-503 | after a completed sweep every index entry names a file that is there |
| IndexRuns.IndexMovesForward | crates/whirld/src/cache.rs:259-305 | over any run of `sweep` and `record` calls, finished or stopped, each loading the text the last write left, with files coming and going in between: as long as the index can be loaded, `seq` never goes back unless it starts from the largest counter, it moves with every write while it and the number of calls stay within 2^53, and a non-empty `root_id` never changes |
| IndexRuns.WriteMovesExactlyWhen | crates/whirld/src/cache.rs:590-607 | the next load finds `seq` grown if and only if it was below 2^53, or below 2^54 with an odd half, and smaller if and only if it was the largest counter |
| IndexRuns.CounterSticks | crates/whirld/src/cache.rs:594 | an index at 2^53 is written with 2^53 + 1 and loaded with 2^53 again |
| IndexRuns.CounterWraps | crates/whirld/src/cache.rs:594 | an index at 2^64 - 1 is loaded with 0 after the next write |
| IndexRuns.LoadableWhileHarmless | crates/whirld/src/cache.rs:406-469 | from an index with only characters below 0x80 on, a later call can load the index if and only if no recording in between wrote a digest, a new origin key or a new extension with a character of 0x80 or above |
| IndexRuns.LoadableExactlyWhen | crates/whirld/src/cache.rs:259-305 | the same of one call: every sweep's index can be loaded, a recording's exactly if its strings are below 0x80 |
| IndexRuns.WrittenIsLoaded | crates/whirld/src/cache.rs:259-305 | whatever index is written, the next load finds it with its counters rounded, or fails, exactly as its strings are below 0x80 or not |
| IndexRuns.AccentedKeyIsLost | crates/whirld/src/cache.rs:406-469 | recording one accented origin key in a new cache leaves an index that cannot be loaded |
| IndexRuns.KeysStayDigests | crates/whirld/src/cache.rs:406-469 | over a run that records only digests of 64 hexadecimal digits, the loaded index always has the keys and extensions that the sweep's results ask for |
| IndexRuns.SecondCallIsIdle | crates/whirld/src/cache.rs:473-616 | a second sweep that loads what the first one wrote removes nothing and keeps every entry as it was |
| IndexRuns.SweepOnce | crates/whirld/src/cache.rs:473-616 | a `sweep` is one call of such a run, and one that fails leaves `index.json` alone |
| IndexRuns.RecordOnce | crates/whirld/src/cache.rs:406-469 | a `record` is one call of such a run, and one that records nothing changes nothing |
| SweepRuns.OldestFirstExists | crates/whirld/src/cache.rs:559-564 | the unprotected entries can always be listed oldest first |
| SweepRuns.UndatedPartStays | crates/whirld/src/cache.rs:671-680 | a part file without a readable age survives a completed sweep if and only if the orphan grace is not zero, and a stopped one unless it is zero |
| SweepRuns.UndatedPartIsRemoved | crates/whirld/src/cache.rs:671-680 | a concrete directory whose undated part file is gone after every sweep with a grace of zero |
| SweepLaws.SafeExactlyWhen | crates/whirld/src/cache.rs:127-159 | a file is protected if and only if the pin set is degraded, its path or its digest is anchored or pinned, or its age is unknown or below the grace; it is protected as a pin if and only if the set is degraded or a pin names it and no anchor does |
| SweepLaws.DegradedKeepsEverything | crates/whirld/src/cache.rs:128-130 | while the pin set is degraded, no sweep, finished or stopped, removes or changes any image |
| SweepLaws.YoungOrNamedSurvives | crates/whirld/src/cache.rs:131-158 | a file that is younger than the grace, or of unknown age, or named by an anchor or a pin by its path or its digest, survives every sweep unchanged |
| SweepLaws.OldOrphanIsGone | crates/whirld/src/cache.rs:505-529 | a file of full age that no entry claims and nothing names is gone after every completed sweep |
| SweepLaws.OldSurvivorMeansWithinCaps | crates/whirld/src/cache.rs:541-573 | if a file of full age that nothing names is left after a completed sweep, both caps hold |
| SweepLaws.WithinCapsNothingIsEvicted | crates/whirld/src/cache.rs:545-553 | if both caps hold once the orphans are gone, every entry with a file is kept |
| SweepLaws.OldestGoFirst | crates/whirld/src/cache.rs:559-564 | an entry that is evicted was last used before, or at the same time with a smaller digest than, every evictable one that is kept |
| SweepLaws.OldestInstantsGoFirst | crates/whirld/src/cache.rs:559-564 | the same of the instants that the two entries' timestamps spell |
| SweepLaws.DatedPartStays | crates/whirld/src/cache.rs:534-539 | a part file of known age survives a completed sweep if and only if it is younger than the orphan grace |
| SweepLaws.HiddenAreThePinned | crates/whirld/src/cache.rs:380-396 | the files behind `PinnedSet` are exactly those a pin protects |
| SweepLaws.RecordingKeepsTheRest | crates/whirld/src/cache.rs:420-460 | a recording leaves every other entry alone; a known entry keeps its first-seen stamp, extension, source, kind, origin and size, a new one starts with both stamps at the moment and with what the report says |
| SweepLaws.NewEntryIsNamed | crates/whirld/src/cache.rs:430-446 | a new entry has what follows the last dot of the file name as its extension and what precedes the first colon of the origin key as its source |
| CachePaths.ContentPathInjective | crates/whirl-core/src/state.rs:716-724 | two different digests never share a content-addressed file |
| CachePaths.DigestOfContentPath | crates/whirld/src/cache.rs:358-363 | the sweep recognises an entry's own file by its name |
| CachePaths.ContentPathIs | crates/whirl-core/src/state.rs:716-724 | the two directories of a content path are the first two pairs of its digest's digits |
| CachePaths.DigestIsRead | crates/whirld/src/cache.rs:358-363 | a file name carries a digest if and only if what stands before its first dot is 64 hexadecimal digits, and it is these in lower case |
| OrderedSets.AscendingUnique | crates/whirld/src/cache.rs:486-503 | the ascending listing of a set, which the ordered collections produce, is unique |
| JsonReader.Reader.ReadDocument | crates/whirl-core/src/config.rs:1893-1910 | the reader's result, its failure position, line and reason are those of the specification |
| JsonTree.Utf8Is | crates/whirl-core/src/config.rs:1893-1910 | the bytes a text is parsed from are those RFC 3629, section 3, gives for the code of each character |
| JsonReader.Reader.ReadObject | crates/whirl-core/src/config.rs:1999-2041 | the object loop with its duplicate-key and trailing-comma checks is the specification's |
| JsonReader.Reader.ReadArray | crates/whirl-core/src/config.rs:2043-2072 | the array loop is the specification's |
| JsonReader.Reader.ReadString | crates/whirl-core/src/config.rs:2089-2182 | the string loop with its escapes, surrogate pairs, line correction and chunk copy is the specification's |
| JsonReader.ChunkIsOneByte | crates/whirl-core/src/config.rs:2160-2178 | the inner copy loop never takes a second byte, so a chunk is always one byte long |
| JsonSpellings.SpelledStringIsRead | crates/whirl-core/src/config.rs:2089-2182 | a string is read as the characters it spells: each of them raw, as one of the eight two-byte escapes, or as its UTF-16 `\u` units in hexadecimal digits of either case, one or a surrogate pair |
| JsonSpellings.ReadStringIsSpelled | crates/whirl-core/src/config.rs:2089-2182 | nothing else is read as a string: whatever is accepted is such a spelling of what is answered |
| JsonSpellings.OtherEscapesAreRefused | crates/whirl-core/src/config.rs:2100-2115 | a backslash before any other byte than the eight and `u` is refused |
| JsonSpellings.NumeralIsRead | crates/whirl-core/src/config.rs:2198-2214 | a numeral is read as its digits, fraction included, times its power of ten, rounded to the nearest `f64` when that is whole |
| JsonSpellings.NumeralInDocument | crates/whirl-core/src/config.rs:2198-2214 | the same of a numeral at any place of a document, up to the first byte no numeral goes on with |
| JsonSpellings.WhiteSpaceIs | crates/whirl-core/src/config.rs:1931-1938 | white space is the four bytes of RFC 8259, section 2 |
| JsonReader.Reader.ReadNumber | crates/whirl-core/src/config.rs:2198-2214 | the number scan is the specification's |
| JsonSpec.ParseEntries | crates/whirl-core/src/config.rs:1999-2041 | what an object parse accepts has only bytes below 0x80 and no repeated key at any depth |
| JsonSpec.AcceptedIsAsciiAndDistinct | crates/whirl-core/src/config.rs:1893-2182 | a document with any character of 0x80 or above, or with a repeated key, is never accepted |
| JsonNumbers.AcceptedNumbersAreSettled | crates/whirl-core/src/config.rs:2198-2214 | every whole number of an accepted document, at any depth, is its own nearest `f64` |
| JsonLayout.StringReadsBack | crates/whirl-cli/src/report.rs:1166-1183 | a printed string of characters below 0x80 - quotes, backslashes and control characters included - is read back as itself |
| JsonLayout.SignedReadsBack | crates/whirl-core/src/config.rs:2198-2214 | a printed whole number is read as the nearest `f64` |
| JsonLayout.ItemsReadBack | crates/whirl-core/src/config.rs:2043-2072 | the elements of any laid-out array are read back in order after whatever was read before |
| JsonLayout.FieldsReadBack | crates/whirl-core/src/config.rs:1999-2041 | the fields of any laid-out object are read back in order after entries that share no key with them |
| JsonLayout.ReadsBack | crates/whirl-core/src/config.rs:1963-1997 | any laid-out document, at any position of any text and any depth, is read back as the tree it spells |
| JsonWriter.Writer.WriteJson | crates/whirl-cli/src/report.rs:1108-1158 | the printer appends exactly the text of the tree's layout |
| JsonWriter.Writer.WriteArray | crates/whirl-cli/src/report.rs:1121-1136 | the array loop appends exactly the bracketed, comma-separated, indented elements |
| JsonWriter.Writer.WriteObject | crates/whirl-cli/src/report.rs:1137-1156 | the object loop appends exactly the braced, comma-separated, indented fields |
| JsonWriter.Writer.WriteString | crates/whirl-cli/src/report.rs:1166-1183 | the string printer appends exactly the quoted, escaped text |
| JsonRoundTrip.DocumentReadsBack | crates/whirl-core/src/config.rs:1893-1910 | `json::parse` of a laid-out document, with white space after it, is its tree up to line numbers |
| JsonRoundTrip.AsciiPrintOnly | crates/whirl-cli/src/report.rs:1108-1183 | a tree with a character of 0x80 or above prints one, wherever it sits |
| JsonRoundTrip.PrintThenParse | crates/whirl-cli/src/report.rs:1105-1183 | a tree of whole numbers of magnitude below 2^53 survives printing and parsing, up to line numbers, if and only if its characters are below 0x80 and its keys distinct per object |
| Floats.CounterSurvives | crates/whirl-core/src/state.rs:882-896 | a 64-bit counter written as a number and read through `f64` comes back as itself if and only if it has an exact 53-bit significand or is the largest counter |
| Floats.CountedGrows | crates/whirl-core/src/state.rs:882-896 | a counter that was read, counted up, written and read again has grown if and only if it was below 2^53, or below 2^54 with an odd half |
| Floats.SmallIsExact | crates/whirl-cli/src/report.rs:1114-1115 | every whole number up to 2^53 is its own nearest `f64` |
| Floats.RoundedIsNearest | crates/whirl-core/src/config.rs:2198-2214 | no whole number with 53 significant bits is nearer than the one a number is rounded to |
| CurrentState.Encode | crates/whirl-core/src/state.rs:379-448 | the written text is the layout of the file's ten rows |
| CurrentState.WrittenIsRead | crates/whirl-core/src/state.rs:342-448 | reading a written `current.json` gives the file with every counter rounded when its strings are below 0x80, and an error otherwise |
| CurrentState.RoundTrip | crates/whirl-core/src/state.rs:342-448 | `current.json` round-trips if and only if its strings are below 0x80 and its counters exact, whatever optional part is missing |
| HistoryState.Encode | crates/whirl-core/src/state.rs:470-505 | the written text is the layout of the ring's entries, newest first |
| HistoryState.Parse | crates/whirl-core/src/state.rs:453-468 | the reading loop collects the entries the specification names and fails on the first bad one |
| HistoryState.EntryIsRead | crates/whirl-core/src/state.rs:953-969 | a laid-out entry is read back, its `via` and `kind` through their names |
| HistoryState.RoundTrip | crates/whirl-core/src/state.rs:453-505 | `history.json` round-trips if and only if its strings are below 0x80 and its counter exact |
| HistoryState.LargeCounterIsLost | crates/whirl-core/src/state.rs:882-896 | a sequence number of 2^53 + 1 comes back as 2^53 |
| HistoryState.AccentedPathIsLost | crates/whirl-core/src/state.rs:969-988 | one accented letter in a path makes the written file unreadable |
| IndexState.Encode | crates/whirl-core/src/state.rs:645-704 | the written text lists the entries in ascending digest order, then the dangling digests |
| IndexState.Parse | crates/whirl-core/src/state.rs:606-643 | the reading loops rebuild the map and the list the specification names |
| IndexState.AllEntriesAreRead | crates/whirl-core/src/state.rs:735-752 | reading the listed entries rebuilds the whole map |
| IndexState.RoundTrip | crates/whirl-core/src/state.rs:606-704 | `index.json` round-trips if and only if its strings and keys are below 0x80 and its counters exact |
| IndexLoads.ParsedIsSettled | crates/whirl-core/src/state.rs:606-643 | an index parsed from any text whatever is within its integer types and has only counters that survive another writing and reading |
| NewerSchemas.NewerIsLeft | crates/whirl-core/src/state.rs:342-363 | whatever rows a document has, a `schema` above 1 makes all three readers answer that it is newer, with the number they found |
| NewerSchemas.NewerIndexIsNotLoaded | crates/whirld/src/cache.rs:259-283 | an index with such a schema is loaded by no sweep and no recording |
| NewerSchemas.NewerExactlyWhen | crates/whirl-core/src/state.rs:342-347 | a text is newer to a reader if and only if it is an object whose `schema` is a whole number above 1 |
| TolerantReading.BareFileIsRead | crates/whirl-core/src/state.rs:342-377 | a document of the current schema in which every known field is absent or null, whatever unknown ones it has, is read as the empty `current.json` and the empty index |
| TolerantReading.BareEntryIsRead | crates/whirl-core/src/state.rs:732-754 | an index entry needs its extension, its kind and its origin key; without the rest it is read with empty texts, 0 bytes, no origin and no size, not pinned |
| TolerantReading.BarePartsAreRead | crates/whirl-core/src/state.rs:361-377 | an anchor needs its digest alone, and cache facts nothing: absent counters are 0 |
| TolerantReading.WideSizesAreDropped | crates/whirl-core/src/state.rs:747-749 | a width or a height that does not fit 32 bits is read as none |
| TolerantReading.UnknownFieldsAreIgnored | crates/whirl-core/src/state.rs:732-735 | two objects with the same known fields are read as the same file by each of the three readers, whatever else is in them |
| TolerantReading.SetIsRead | crates/whirl-core/src/state.rs:839-925 | a field that is neither absent nor null is read if it is of the right kind, and refused otherwise |
| TolerantReading.CounterIs | crates/whirl-core/src/state.rs:882-896 | a number is a counter exactly if it is whole and within 64 bits, or 2^64 itself, which becomes the largest counter |
| StateReading.EmptyFileIs | crates/whirl-core/src/state.rs:767-773 | a file is called empty exactly if it holds nothing but the 25 characters of the Unicode property White_Space |
| HistoryState.WordsAreRead | crates/whirl-core/src/state.rs:953-969 | the words of `kind` and `via`, and the protocol's words for three of them, are read as what they name, and no other word is read |
| Sniff.SniffJpeg | crates/whirl-worker/src/pipeline.rs:898-938 | the segment loop gives the walk's verdict |
| Sniff.WalkExtends | crates/whirl-worker/src/pipeline.rs:898-938 | the walk over a prefix decides as the walk over all the bytes, except where it cuts off a frame header whose short declared length sends it on inside the header |
| Sniff.MisreadIsShort | crates/whirl-worker/src/pipeline.rs:920-931 | that needs a declared length of 2 or 3 and a cut 8 or 9 bytes into the segment |
| PictureSizes.PngIsMeasured | crates/whirl-worker/src/pipeline.rs:881-896 | bytes that carry w and h, most significant byte first, behind the PNG signature and `IHDR` are measured as a PNG of w by h |
| PictureSizes.WebpIsMeasured | crates/whirl-worker/src/pipeline.rs:940-1008 | a lossy frame with 14-bit sizes below its scale bits, a lossless one with 14-bit sizes less one packed into 28 bits, and an extended one with 24-bit sizes less one, least significant byte first, are measured as a WebP of their width and height |
| PictureSizes.JpegIsMeasured | crates/whirl-worker/src/pipeline.rs:898-938 | any fill bytes, standalone markers and skipped segments, and then a frame header with the height before the width, are measured as a JPEG of that width and height |
| PictureSizes.HeicIsMeasuredByItsTables | crates/whirl-worker/src/pipeline.rs:826-846 | bytes of one of the six brands are what the item tables say, or no image |
| Heads.Take | crates/whirl-worker/src/pipeline.rs:1433-1444 | the inner loop leaves the head and the window the specification names |
| Heads.HeadAlwaysFits | crates/whirl-worker/src/pipeline.rs:1433-1444 | after any reads the head is a prefix of the stream, at most 65536 bytes, complete or no longer growing |
| Heads.VerdictExtends | crates/whirl-worker/src/pipeline.rs:826-879 | a measured verdict stands over more bytes, and so does `NotAnImage` unless a frame header was misread |
| Heads.ReadsDoNotMatter | crates/whirl-worker/src/pipeline.rs:1385-1457 | a stream that is no HEIC gets the verdict of its first 65536 bytes from every way to cut it into reads if and only if its frame header is not a short one |
| Heads.MisreadInBytes | crates/whirl-worker/src/pipeline.rs:902-937 | the bytes behind the declared segment say exactly which cuts of the header mislead the walk |
| Heads.ShortFrameIsReal | crates/whirl-worker/src/pipeline.rs:920-931 | a concrete JPEG that is measured as a whole and called no image by every read loop |
| HeicReads.HeicReadsDoNotMatter | crates/whirl-worker/src/pipeline.rs:852-879 | a HEIC is, however it is cut into reads, what its tables say over its first 1024 bytes, if they say something there, or else over its first 65536, if and only if they do not say anything else over a part in between |
| HeicReads.HeicOutcomeIsTheStreams | crates/whirl-worker/src/pipeline.rs:1361-1512 | when no other fault decides, what a store answers for a HEIC is independent of the reads if and only if the stream is over the cap or that condition holds |
| Boxes.ReadBox | crates/whirl-worker/src/pipeline.rs:1096-1124 | one turn finds a box exactly when one starts there, with no sum above 64 bits and no access outside the bytes |
| Boxes.Walk | crates/whirl-worker/src/pipeline.rs:1092-1132 | the loop ends and lists exactly the boxes of the range |
| Boxes.WalkIsUnique | crates/whirl-worker/src/pipeline.rs:1092-1132 | any side-by-side list of boxes that no further box follows is that list |
| Boxes.BoxesTile | crates/whirl-worker/src/pipeline.rs:1092-1132 | the boxes are contiguous from the start, each at least its header long and inside the range |
| Boxes.LongerWindowExtends | crates/whirl-worker/src/pipeline.rs:1080-1091 | with no box of size 0, a longer window's list begins with the shorter one's |
| Boxes.OpenBoxIsLast | crates/whirl-worker/src/pipeline.rs:1101 | a box of size 0 is the last of its list and runs to the end of the range |
| Boxes.Be64Is | crates/whirl-worker/src/pipeline.rs:1096-1124 | a wide box length is the number its eight bytes carry, most significant first |
| Store.Cache.Store | crates/whirl-worker/src/pipeline.rs:1361-1512 | the outcome is the one determined by the reads, the faults and the files; a failure leaves the files as they were but for a part file that could not be unlinked; a success that is no hit adds exactly the stream under its digest; a successful path holds bytes that hash to the digest |
| Store.Cache.Receive | crates/whirl-worker/src/pipeline.rs:1377-1455 | the read loop fails at the first broken read, excess byte or failed write, and otherwise has written and hashed exactly the stream |
| Store.Cache.HashesTo | crates/whirl-worker/src/pipeline.rs:621-637 | true exactly when the file is there, readable, and its bytes hash to the digest |
| Store.Cache.CreatePart | crates/whirl-worker/src/pipeline.rs:1524-1558 | the part file is the first of the tried names that is not taken, and a new file |
| Store.FirstFreeName | crates/whirl-worker/src/pipeline.rs:1524-1558 | the first of the names that is not taken under `tmp/`, if nothing fails before it, is the part file |
| Store.Cache.Fill | crates/whirl-worker/src/pipeline.rs:2176-2212 | from any state of the disk, a copied candidate's path holds bytes that hash to its digest; the held file is used, and nothing changed, exactly when its bytes still match; otherwise the result and the files left are those of a store |
| Store.OnlyTheCap | crates/whirl-worker/src/pipeline.rs:1399-1410 | with no read or write error the loop fails exactly when the stream is over the cap, as `TooLarge` |
| Store.OutcomeIsTheStreams | crates/whirl-worker/src/pipeline.rs:1361-1512 | for a stream that is no HEIC the whole outcome depends on the bytes and not on the reads if and only if the stream is over the cap or its frame header is not a short one |
| Store.RefusalLeavesImagesAlone | crates/whirl-worker/src/pipeline.rs:1355-1360 | an unsuccessful store changes nothing under `sha256/`, whatever failed, and nothing at all unless its part file could not be unlinked |
| Store.SecondStoreIsAHit | crates/whirl-worker/src/pipeline.rs:1478-1500 | storing the same bytes again is a hit on the same path and adds nothing |
| PictureSizes.PngIsStored | crates/whirl-worker/src/pipeline.rs:1361-1512 | a PNG stream within the cap that declares w and h is stored, or hit, under its digest with that width and height, by every way to cut it into reads |
| PictureSizes.WebpIsStored | crates/whirl-worker/src/pipeline.rs:1361-1512 | the same of a WebP stream |
| PictureSizes.JpegIsStored | crates/whirl-worker/src/pipeline.rs:1361-1512 | the same of a JPEG stream whose frame header ends within the first 65536 bytes and declares a length of 4 or more |
| Sha256.Compress | crates/whirl-core/src/protocol.rs:1188-1241 | the in-place block function is the hash computation of FIPS 180-4, section 6.2.2 |
| Sha256.Hasher.Update | crates/whirl-core/src/protocol.rs:1130-1148 | the state is the fold of the complete blocks of everything fed, fewer than 64 bytes stay pending, the length wraps at 64 bits |
| Sha256.Hasher.Finish | crates/whirl-core/src/protocol.rs:1152-1168 | padding and folding the rest gives the SHA-256 of everything fed |
| Sha256.HashPieces | crates/whirl-core/src/protocol.rs:1244-1248 | the digest of a message fed in any pieces is the hash of their concatenation |
| Sha256.Hasher.Hex | crates/whirl-core/src/protocol.rs:1171-1179 | the hex form is the two-digit spelling of the digest's bytes |
| Sha256.HexNamesTheHash | crates/whirl-core/src/protocol.rs:1170-1179 | the hex form is a 64-digit lower-case file name, and differs when the hashes differ |
| Sha256.HexByteSpells | crates/whirl-core/src/protocol.rs:1171-1179 | the two digits of a byte are its high and its low half, in lower case |
| Sha256Example.HashOfAbc | crates/whirl-core/src/protocol.rs:1130-1241 | the hash of "abc" is ba7816bf 8f01cfea 414140de 5dae2223 b00361a3 96177a9c b410ff61 f20015ad, proved round by round |
| Sha256Bits.Chooses | crates/whirl-core/src/protocol.rs:1220 | `Ch` takes, bit by bit, the second word where the first is set and the third where it is not |
| Sha256Bits.MajorityRules | crates/whirl-core/src/protocol.rs:1227 | `Maj` is, bit by bit, what at least two of the three words say |
| Sha256Bits.Rotates | crates/whirl-core/src/protocol.rs:1207-1226 | every rotation by n moves bit i + n, modulo 32, to bit i |
| Sha256Spec.RoundConstantsAreCubeRoots | crates/whirl-core/src/protocol.rs:1189-1202 | the 64 round constants are the first 32 bits of the fractional parts of the cube roots of the first 64 primes |
| Sha256Spec.InitialValuesAreSquareRoots | crates/whirl-core/src/protocol.rs:1182-1185 | the initial values are those of the square roots of the first 8 primes |
| FirstPrimes.TableIsTheFirstPrimes | crates/whirl-core/src/protocol.rs:1182-1190 | the table of primes behind both is ascending and holds exactly the primes up to 311 |
| Sha256Spec.ZeroCountIsLeast | crates/whirl-core/src/protocol.rs:1156-1158 | the padding loop adds the least number of zeros that fits |
| Sha256Spec.PaddingIs | crates/whirl-core/src/protocol.rs:1152-1163 | a padded message is the message, one bit, the fewest zeros that fill its blocks, and the eight bytes that carry its length in bits, most significant first |
| Calendar.CivilOfDays | crates/whirl-core/src/protocol.rs:1077-1097 | formatting the day number of a valid date gives the date |
| Calendar.DaysOfCivil | crates/whirl-core/src/protocol.rs:1054-1062 | every day number names a valid date whose day number it is |
| Calendar.DaysOrder | crates/whirl-core/src/protocol.rs:1054-1062 | day numbers order exactly as the dates do |
| Calendar.TimestampRoundTrip | crates/whirl-core/src/protocol.rs:996-1052 | a printed instant is parsed back as itself if its year has four digits, which are the seconds -62167219200 to 253402300799, and refused otherwise |
| Calendar.ParsedTextIsCanonical | crates/whirl-core/src/protocol.rs:1018-1052 | printing what was parsed gives the text back if and only if its second is not 60 |
| Calendar.LeapSecondReprints | crates/whirl-core/src/protocol.rs:1018-1052 | a concrete accepted leap second and the text it is printed as |
| Calendar.TimestampsSort | crates/whirl-core/src/protocol.rs:996-1016 | four-digit-year timestamps order as texts exactly as the instants do |
| WeightedOrder.Order | crates/whirl-worker/src/pipeline.rs:2429-2455 | the order is the drawn source, then every other enabled one by descending weight, ties in configuration order, each exactly once |
| WeightedOrder.HeavierComesFirst | crates/whirl-worker/src/pipeline.rs:2446-2454 | behind the drawn source a heavier one always comes before a lighter one, and of two equally heavy ones the earlier in the configuration |
| WeightedOrder.OrderIsFair | crates/whirl-worker/src/pipeline.rs:2425-2455 | over any cycle of consecutive draws, source i comes first exactly `weights[i]` times |
| WeightedOrder.OrderUnique | crates/whirl-worker/src/pipeline.rs:2429-2455 | that description fixes the order completely |
| Rotation.Run.Rotate | crates/whirl-worker/src/pipeline.rs:1772-1944 | the loops give the promised answer, ask each source at most once in weighted order, set the first candidate of the first source if it fills and is accepted, call the setter as the walk says, and prefetch from the next position on only after a set |
| Rotation.Run.Warm | crates/whirl-worker/src/pipeline.rs:1981-2063 | the prefetch resumes at exactly the next position, stores the first storable candidates that are not bad, at most `prefetch`, and stops early only at the deadline or a machine failure |
| Rotation.WalkOfOneMore | crates/whirl-worker/src/pipeline.rs:1848-1849 | a source that was asked puts all its candidates, in order, behind those of the sources before it, and one that is disabled adds none |
| Rotation.EveryCandidateIsWalked | crates/whirl-worker/src/pipeline.rs:1848-1849 | candidate number j of a source stands in the walk right behind everything of the sources before it |
| Rotation.NothingElseIsWalked | crates/whirl-worker/src/pipeline.rs:1848-1849 | every candidate of the walk is one that some source of the order offered |
| Rotation.FirstMatchIsSet | crates/whirl-worker/src/pipeline.rs:1772-1944 | if the first candidate of the first source fills and is accepted, it is set |
| Rotation.SetsTheFirstMatch | crates/whirl-worker/src/pipeline.rs:1772-1944 | candidate k is set if and only if it is the first one tried that fills and is accepted, with no machine failure and at most one refusal before it |
| Rotation.ReportsTheRefusal | crates/whirl-worker/src/pipeline.rs:1772-1944 | a refusal at k is reported if and only if nothing before it is set or stopped by the machine, and it is the second one, or the only one of a walk that nothing decides |
| Rotation.ReportsTheFailure | crates/whirl-worker/src/pipeline.rs:1772-1944 | a failure at k is reported if and only if it is the machine's and nothing before it ends the walk, or the last failed bytes of a walk without a decision or a refusal |
| Rotation.ReportsNoCandidates | crates/whirl-worker/src/pipeline.rs:1772-1944 | no candidates are reported if and only if every one tried was under the floor |
| Rotation.TriedMeaning | crates/whirl-worker/src/pipeline.rs:1830-1944 | a candidate is passed over exactly when an earlier one of its id failed |
| Rotation.AnswerUnique | crates/whirl-worker/src/pipeline.rs:1772-1944 | a walk has one answer |
| Rotation.SetterCalledAtMostTwice | crates/whirl-worker/src/pipeline.rs:1772-1944 | the setter is called at most twice |
| Rotation.WarmedMeaning | crates/whirl-worker/src/pipeline.rs:1981-2063 | the prefetch stores, in walk order, exactly the storable candidates it looked at that were not bad |
| RotateLock.MutualExclusion | crates/whirl-worker/src/lock.rs:183-242 | at most one process holds the lock under every schedule if and only if all probes find the same capability and, under the exclusive-file fallback, no two workers carry one process id |
| RotateLock.OnlyOwnFileIsRemoved | crates/whirl-worker/src/lock.rs:159-169 | the lock file is only removed by its creator, or by the daemon when the creator is dead or the daemon itself; under `flock` never |
| RotateLock.MixedCapabilityBreaks | crates/whirl-worker/src/lock.rs:138-144 | a schedule with two holders where the probes differ |
| RotateLock.RecycledPidBreaks | crates/whirld/src/lock.rs:529-541 | a schedule with two holders where the daemon removes a live worker's file because a dead one carried its process id |
| RotateLock.FreshFileIsHeldExactlyWhen | crates/whirl-worker/src/lock.rs:183-242 | some schedule leads to a process that has just created the file, probes with `flock` and finds it held by another, if and only if its own probe and some other process's find `flock` |
| RotateLock.FreshFileCanBeHeld | crates/whirl-worker/src/lock.rs:183-242 | such a schedule, and the creator giving up at the end of it |
| RotateLock.FlockStep | crates/whirl-worker/src/lock.rs:183-242 | every step keeps the invariant of the `flock` mode |
| RotateLock.ExclStep | crates/whirld/src/lock.rs:396-559 | every step, the daemon's removal included, keeps the invariant of the fallback mode |
| RotateLock.LeaversHoldNothing | crates/whirl-worker/src/lock.rs:159-169 | whatever the schedule, a `flock` is held only by a process that is probing, writing or holding under it, so one that has given up or let go holds none |
| RotateLock.TakenWithFlock | crates/whirl-worker/src/lock.rs:183-242 | when nobody holds the lock, any waiting process that finds `flock` can take it, whether or not the file is there |
| RotateLock.TakenByCreating | crates/whirl-worker/src/lock.rs:183-242 | when nobody holds the lock and there is no file, any waiting process can take it |
| RotateLock.LockIsHandedOn | crates/whirl-worker/src/lock.rs:159-242 | whenever the only holder holds the lock, it can let go and any waiting process that finds the same capability can take it next |
| Events.DeliveryIsGapFree | crates/whirld/src/events.rs:158-198 | over every interleaving, what a subscriber took followed by what waits for it is the contiguous stretch of the log from its join to now or to its removal, and no queue exceeds 256 |
| Events.OthersCannotInterfere | crates/whirld/src/events.rs:187-198 | deleting what other subscribers did with their connections changes nothing for this one |
| Events.BroadcastIsOneStep | crates/whirld/src/events.rs:187-198 | whatever receives and hang-ups land while a line is offered channel by channel, the outcome is that of some of them, then the broadcast in one step, then the others; together they are exactly the operations that happened, each part in the order it had |
| Events.LetGoOnlyWhenStuck | crates/whirld/src/events.rs:187-198 | a subscriber is let go of only when a line finds its queue full or its receiver gone |
| Events.AttachedUntilStuck | crates/whirld/src/events.rs:158-198 | over every run, a subscriber is attached from its join on exactly as long as no line finds 256 lines waiting for it or its receiver gone |
| Events.EverythingSinceTheJoin | crates/whirld/src/events.rs:158-198 | as long as its receiver is not dropped and no line finds 256 waiting, what a subscriber took followed by what waits for it is everything broadcast since it joined |
| Events.EverythingArrives | crates/whirld/src/events.rs:158-198 | such a subscriber that goes on to receive as many times as lines wait for it has taken everything broadcast since it joined, in order |
| Events.Bus.Send | crates/whirld/src/events.rs:187-198 | the line is offered to every sender, those that took it stay in order, and the quiet period restarts |
| Events.Bus.Join | crates/whirld/src/events.rs:158-165 | a new channel has its sender among those every later line is offered to, and is owed the log from now on |
| Events.Bus.ClaimHeartbeat | crates/whirld/src/events.rs:203-213 | a claim succeeds exactly when it wins among all lines and claims since the bus was made |
| Events.HeartbeatsAreSpaced | crates/whirld/src/events.rs:203-213 | a claim that wins is at least 30 seconds after every earlier winning claim and every earlier line |
| Requests.RequestRoundTrip | crates/whirl-core/src/protocol.rs:344-541 | a request is parsed back from its own line if and only if it is well formed, within 8192 bytes |
| Requests.AcceptedLineIsStable | crates/whirl-core/src/protocol.rs:381-541 | printing the request parsed from an accepted line and parsing again gives the same request if and only if the line does not end in two carriage returns or starts with `set ` |
| Requests.TwoReturnsAreLost | crates/whirl-core/src/protocol.rs:381-541 | an accepted greeting with two carriage returns keeps one, and loses it when printed and parsed again |
| RequestGrammar.GrammarIsExact | crates/whirl-core/src/protocol.rs:381-576 | a line is accepted, as one request, if and only if it has at most 8192 bytes, no zero byte, and its word and arguments, stated byte by byte with their numerals, paths and carriage returns, ask for that request |
| RequestGrammar.RefusalIsExact | crates/whirl-core/src/protocol.rs:385-541 | a line that is not accepted is refused as too long, then as badly framed, then for its verb, then for a greeting without a 32-bit version, and for its arguments otherwise |
| RequestGrammar.RequestIsPrinted | crates/whirl-core/src/protocol.rs:344-374 | every request is printed as its one line |
| Responses.Encode | crates/whirl-core/src/protocol.rs:645-654 | the encoding loop writes every line, then the terminator |
| Responses.Parse | crates/whirl-core/src/protocol.rs:667-697 | the reading loop stops at the first terminator or unknown code |
| Responses.ResponseRoundTrip | crates/whirl-core/src/protocol.rs:586-697 | a response followed by any text is recovered if and only if no data line is a terminator or spills over its line, and neither does the message |
| ResponseGrammar.ResponseIsExact | crates/whirl-core/src/protocol.rs:667-697 | a text is a response if and only if it is data lines and then `OK` or `ERR` with the word of a code and a message, each line up to its newline and up to two carriage returns; what follows is not looked at |
| ResponseGrammar.ResponseIsPrinted | crates/whirl-core/src/protocol.rs:586-654 | a response is printed as its lines, then `OK`, or `ERR`, the word of its code and its message if there is one |

## Left out

- JSON numbers that are not whole, or too large for an `f64`: read as their exact value instead of the nearest `f64`; how such a number prints is a parameter of `JsonWriter.Writer.WriteJson`.
- Message texts: a failure carries its kind, line and position, not its wording.
- JsonRoundTrip.PrintThenParse: does not say which error a tree with a repeated key gives, only that the tree does not come back.
- The reader's stack: nesting is unbounded in the model.
- `favorites.json`, the history ring, record lines, greetings and `classify_line`: the same techniques on smaller functions.
- Real directory walks and their errors, permissions, `f64` clock conversions, `as i64` casts of the grace periods and 64-bit overflow of byte totals in the sweep; the sweep's results ask for index keys of 64 hexadecimal digits and extensions without a slash, which IndexRuns.KeysStayDigests shows to last.
- IndexRuns.WriteMovesExactlyWhen: `seq` wraps as in a release build; a debug build panics on the largest counter instead.
- The random bytes of a new `root_id` and of part file names: parameters.
- The HEIC item and property lookup beyond the box walk: a parameter; whether a file's tables are settled in the sense of HeicReads.HeicReadsDoNotMatter is not derived from its boxes.
- PictureSizes.JpegIsStored: not for a JPEG whose bytes 4 to 12 also spell a HEIC brand, and HeicReads.HeicReadsDoNotMatter not for a HEIC whose first byte is not 0.
- Store.Cache.Store: a failing write is taken to write nothing before it fails; other processes do not touch the part file while it is being written.
- The reference mode of `fill`, which hashes the user's own file and writes nothing.
- The filter stages of `filter_pipeline`: the rotation walk takes each source's filtered candidates as given.
- Recovery of the rotation lock after a crash under the fallback, and everything outside one state directory.
- RotateLock.MutualExclusion: the steps of one process are atomic system calls; partial record writes are not distinguished from missing ones.
- The event bus's mutexes: each operation is one step, justified for `broadcast` by Events.BroadcastIsOneStep.
- `curl`, process spawning, configuration accessors, schedules, sockets and command line handling.
