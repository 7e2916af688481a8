/**
 `index.json` (crates/whirl-core/src/state.rs:605-716, 741-757): the cache's index, its entries in the
 ascending order of their digests, and the digests whose file is missing.
 */
module IndexState {
  import opened Basics
  import opened CacheIndex
  import opened OrderedSets
  import opened JsonTree
  import opened JsonSpec
  import opened JsonLayout
  import opened JsonRoundTrip
  import opened StateLayouts
  import opened StateReading
  import HistoryState
  import Floats

  const U32_END: nat := 0x1_0000_0000

  // --- Writing ------------------------------------------------------------------------

  function EntryRows(e: Entry): seq<Row>
  {
    [("ext", LStr(e.ext)), ("bytes", LInt(e.bytes)), ("first_seen", LStr(e.firstSeen)),
     ("last_used", LStr(e.lastUsed)), ("source", LStr(e.source)), ("kind", LStr(HistoryState.KindName(e.kind))),
     ("origin", MaybeStr(e.origin)), ("origin_key", LStr(e.originKey)), ("width", MaybeInt(e.width)),
     ("height", MaybeInt(e.height)), ("pinned", LBool(e.pinned))]
  }

  function EntryLayout(e: Entry): Layout { Object(EntryRows(e), "\n      ", "\n    ") }

  /** One row for each digest of a list, in its order. */
  function DigestRows(m: map<string, Entry>, ks: seq<string>): seq<Row>
    requires forall k :: k in ks ==> k in m
  {
    seq(|ks|, i requires 0 <= i < |ks| => (ks[i], EntryLayout(m[ks[i]])))
  }

  ghost function Listed(m: map<string, Entry>): (ks: seq<string>)
    ensures Ascending(ks) && |ks| == |m|
    ensures forall k :: k in ks <==> k in m
  {
    SortedIsAscending(m.Keys);
    Sorted(m.Keys)
  }

  ghost function EntriesLayout(m: map<string, Entry>): Layout
  {
    Object(DigestRows(m, Listed(m)), "\n    ", "\n  ")
  }

  function Strings(ss: seq<string>): seq<Layout> { seq(|ss|, i requires 0 <= i < |ss| => LStr(ss[i])) }

  function DanglingLayout(ss: seq<string>): Layout { Array(Strings(ss), "\n    ", "\n  ") }

  ghost function FileRows(f: IndexFile): seq<Row>
  {
    [("schema", LInt(SCHEMA)), ("seq", LInt(f.seqNo)), ("written_at", LStr(f.writtenAt)), ("root_id", LStr(f.rootId)),
     ("entries", EntriesLayout(f.entries)), ("dangling", DanglingLayout(f.dangling))]
  }

  ghost function Encoded(f: IndexFile): string { Text(Object(FileRows(f), "\n  ", "\n")) + "\n" }

  lemma PlainNames()
    ensures PlainName("ext") && PlainName("bytes") && PlainName("first_seen") && PlainName("last_used")
    ensures PlainName("source") && PlainName("kind") && PlainName("origin") && PlainName("origin_key")
    ensures PlainName("width") && PlainName("height") && PlainName("pinned")
  {
  }

  lemma FilePlainNames()
    ensures PlainName("schema") && PlainName("seq") && PlainName("written_at") && PlainName("root_id")
    ensures PlainName("entries") && PlainName("dangling")
  {
  }

  function IntText(n: Option<nat>): string
  {
    match n
    case Some(v) => Decimal(v)
    case None => "null"
  }

  lemma EntryTexts(e: Entry)
    ensures
      var rs := EntryRows(e);
      && Text(rs[0].1) == Quoted(e.ext) && Text(rs[1].1) == Decimal(e.bytes) && Text(rs[2].1) == Quoted(e.firstSeen)
      && Text(rs[3].1) == Quoted(e.lastUsed) && Text(rs[4].1) == Quoted(e.source)
      && Text(rs[5].1) == Quoted(HistoryState.KindName(e.kind)) && Text(rs[7].1) == Quoted(e.originKey)
      && Text(rs[8].1) == IntText(e.width) && Text(rs[9].1) == IntText(e.height)
      && Text(rs[10].1) == (if e.pinned then "true" else "false")
  {
    hide Quoted, Decimal, HistoryState.KindName;
  }

  method EncodeEntryHead(e: Entry) returns (text: string)
    ensures text == "{" + Joined(EntryRows(e)[..6], "\n      ") + ",\n"
  {
    hide Joined, Quoted, Object, PlainName, Text, Decimal, IntText, HistoryState.KindName;
    PlainNames();
    EntryTexts(e);
    ghost var rs := EntryRows(e);
    text := "{\n";
    assert "\n" + "      " == "\n      ";
    OpenedRows(rs, "\n      ");
    text := PushRow(text, "      ", "ext", Quoted(e.ext), ",", rs, 0);
    text := PushRow(text, "      ", "bytes", Decimal(e.bytes), ",", rs, 1);
    text := PushRow(text, "      ", "first_seen", Quoted(e.firstSeen), ",", rs, 2);
    text := PushRow(text, "      ", "last_used", Quoted(e.lastUsed), ",", rs, 3);
    text := PushRow(text, "      ", "source", Quoted(e.source), ",", rs, 4);
    text := PushRow(text, "      ", "kind", Quoted(HistoryState.KindName(e.kind)), ",", rs, 5);
    assert "{" + Joined(rs[..6], "\n      ") + "," + "\n" == "{" + Joined(rs[..6], "\n      ") + ",\n";
  }

  method EncodeEntry(e: Entry) returns (text: string)
    ensures text == Text(EntryLayout(e))
  {
    hide Joined, Quoted, Object, PlainName, Text, Decimal, IntText, HistoryState.KindName;
    PlainNames();
    EntryTexts(e);
    ghost var rs := EntryRows(e);
    text := EncodeEntryHead(e);
    assert "\n" + "      " == "\n      ";
    assert "{" + Joined(rs[..6], "\n      ") + "," + "\n" == "{" + Joined(rs[..6], "\n      ") + ",\n";
    text := PushRow(text, "      ", "origin", MaybeText(e.origin), ",", rs, 6);
    text := PushRow(text, "      ", "origin_key", Quoted(e.originKey), ",", rs, 7);
    text := PushRow(text, "      ", "width", IntText(e.width), ",", rs, 8);
    text := PushRow(text, "      ", "height", IntText(e.height), ",", rs, 9);
    text := PushRow(text, "      ", "pinned", if e.pinned then "true" else "false", "", rs, 10);
    assert rs[..11] == rs;
    text := text + "    }";
    ObjectText(rs, "\n      ", "\n    ");
    assert "{" + Joined(rs, "\n      ") + "" + "\n" + "    }" == "{" + Joined(rs, "\n      ") + "\n    " + "}";
  }

  lemma RowAppended(text: string, j: string, first: bool, q: string, value: string)
    requires text == "{" + j && (first ==> j == "")
    ensures
      text + (if first then "" else ",") + ("\n    " + q + ": " + value)
      == "{" + ((if first then "" else j + ",") + ("\n    " + q + ": " + value))
  {
    if first { assert text + "" == "{"; }
  }

  method EncodeEntries(m: map<string, Entry>) returns (text: string)
    ensures text == Text(EntriesLayout(m))
  {
    hide EntryLayout, Joined, Text, Object, Quoted, Ascending, Sorted;
    var ks := List(m.Keys);
    SortedIsAscending(m.Keys);
    assert ks == Listed(m);
    ghost var rs := DigestRows(m, ks);
    text := "{";
    NoRowsJoined("\n    ");
    assert rs[..0] == [];
    for i := 0 to |ks|
      invariant text == "{" + Joined(rs[..i], "\n    ")
    {
      assert ks[i] in ks;
      var entry := EncodeEntry(m[ks[i]]);
      var before := text;
      if i > 0 {
        text := text + ",";
      }
      text := text + ("\n    " + Quoted(ks[i]) + ": " + entry);
      JoinedSnoc(rs[..i], rs[i], "\n    ");
      assert rs[..i + 1] == rs[..i] + [rs[i]];
      assert i == 0 ==> before + "" == before;
      assert i == 0 ==> Joined(rs[..i], "\n    ") == "";
      RowAppended(before, Joined(rs[..i], "\n    "), i == 0, Quoted(ks[i]), entry);
    }
    assert rs[..|ks|] == rs;
    text := text + (if |ks| == 0 then "}" else "\n  }");
    EntriesText(rs);
  }

  lemma EntriesText(rs: seq<Row>)
    ensures
      "{" + Joined(rs, "\n    ") + (if |rs| == 0 then "}" else "\n  }") == Text(Object(rs, "\n    ", "\n  "))
  {
    hide Text, Object, Joined;
    if |rs| > 0 {
      ObjectText(rs, "\n    ", "\n  ");
      assert "{" + Joined(rs, "\n    ") + "\n  }" == "{" + Joined(rs, "\n    ") + "\n  " + "}";
    } else {
      assert rs == [];
      NoEntriesText();
    }
  }

  lemma NoEntriesText()
    ensures "{" + Joined([], "\n    ") + "}" == Text(Object([], "\n    ", "\n  "))
  {
    assert Object([], "\n    ", "\n  ") == LObj(NoFields, "");
    assert "{" + "" + "}" == "{" + ("" + "}");
  }

  method EncodeDangling(ss: seq<string>) returns (text: string)
    ensures text == Text(DanglingLayout(ss))
  {
    hide JoinedItems, Array, Quoted;
    ghost var ds := Strings(ss);
    text := "[";
    assert ds[..0] == [];
    NoneJoined("\n    ");
    for i := 0 to |ss|
      invariant text == "[" + JoinedItems(ds[..i], "\n    ")
    {
      text := PushItem(text, "[", "\n    ", Quoted(ss[i]), ds[..i], ds[i], i);
      assert ds[..i + 1] == ds[..i] + [ds[i]];
    }
    assert ds[..|ss|] == ds;
    ArrayTextIs(ds, "\n    ", "\n  ");
    text := text + (if |ss| == 0 then "]" else "\n  ]");
    assert |ss| > 0 ==> "[" + JoinedItems(ds, "\n    ") + "\n  ]" == "[" + JoinedItems(ds, "\n    ") + "\n  " + "]";
  }

  method EncodeHead(f: IndexFile) returns (text: string)
    ensures text == "{" + Joined(FileRows(f)[..4], "\n  ") + ",\n"
  {
    hide Joined, Quoted, Object, Decimal, EntriesLayout, DanglingLayout, PlainName;
    FilePlainNames();
    ghost var rs := FileRows(f);
    text := "{\n";
    assert "\n" + "  " == "\n  ";
    OpenedRows(rs, "\n  ");
    text := PushRow(text, "  ", "schema", Decimal(SCHEMA), ",", rs, 0);
    text := PushRow(text, "  ", "seq", Decimal(f.seqNo), ",", rs, 1);
    text := PushRow(text, "  ", "written_at", Quoted(f.writtenAt), ",", rs, 2);
    text := PushRow(text, "  ", "root_id", Quoted(f.rootId), ",", rs, 3);
    assert "{" + Joined(rs[..4], "\n  ") + "," + "\n" == "{" + Joined(rs[..4], "\n  ") + ",\n";
  }

  method Encode(f: IndexFile) returns (text: string)
    ensures text == Encoded(f)
  {
    hide Joined, Object, EntriesLayout, DanglingLayout, PlainName, Text;
    FilePlainNames();
    ghost var rs := FileRows(f);
    var entries := EncodeEntries(f.entries);
    var dangling := EncodeDangling(f.dangling);
    text := EncodeHead(f);
    assert "\n" + "  " == "\n  ";
    assert "{" + Joined(rs[..4], "\n  ") + "," + "\n" == "{" + Joined(rs[..4], "\n  ") + ",\n";
    text := PushRow(text, "  ", "entries", entries, ",", rs, 4);
    text := PushRow(text, "  ", "dangling", dangling, "", rs, 5);
    assert rs[..6] == rs;
    text := text + "}\n";
    ObjectText(rs, "\n  ", "\n");
    assert "{" + Joined(rs, "\n  ") + "" + "\n" + "}\n" == "{" + Joined(rs, "\n  ") + "\n" + "}" + "\n";
  }

  // --- Reading ------------------------------------------------------------------------

  /** `u32::try_from(..).ok()` */
  function AsU32(n: Option<nat>): Option<nat> { if n.Some? && n.value < U32_END then n else None }

  function ReadEntry(n: Node): Fallible<Entry>
  {
    var fs :- AsObject(n, "entries[]");
    var ext :- ReqStr(fs, "ext");
    var bytes :- OptInt(fs, "bytes");
    var firstSeen :- OptStr(fs, "first_seen");
    var lastUsed :- OptStr(fs, "last_used");
    var source :- OptStr(fs, "source");
    var kindName :- ReqStr(fs, "kind");
    var kind :- HistoryState.KindOf(kindName);
    ReadEntryTail(fs, ext, Or(bytes, 0), Or(firstSeen, ""), Or(lastUsed, ""), Or(source, ""), kind)
  }

  function ReadEntryTail(fs: Table, ext: string, bytes: nat, firstSeen: string, lastUsed: string, source: string,
                         kind: Kind): Fallible<Entry>
  {
    var origin :- OptStr(fs, "origin");
    var originKey :- ReqStr(fs, "origin_key");
    var width :- OptInt(fs, "width");
    var height :- OptInt(fs, "height");
    var pinned :- OptBool(fs, "pinned");
    Good(Entry(ext, bytes, firstSeen, lastUsed, source, kind, origin, originKey, AsU32(width), AsU32(height),
               Or(pinned, false)))
  }

  /** The entries from number i on, inserted into what was read before. */
  function EntriesFrom(fs: Table, i: nat, done: map<string, Entry>): Fallible<map<string, Entry>>
    requires i <= |fs|
    decreases |fs| - i
  {
    if i == |fs| then Good(done)
    else
      var e :- ReadEntry(fs[i].1);
      EntriesFrom(fs, i + 1, done[fs[i].0 := e])
  }

  function DanglingNodes(fs: Table): Fallible<seq<Node>>
  {
    match Present(fs, "dangling")
    case None => Good([])
    case Some(n) => if n.value.Arr? then Good(n.value.elements) else Bad(NotAnArray("dangling"))
  }

  function DanglingFrom(ns: seq<Node>, i: nat, done: seq<string>): Fallible<seq<string>>
    requires i <= |ns|
    decreases |ns| - i
  {
    if i == |ns| then Good(done)
    else if ns[i].value.Str? then DanglingFrom(ns, i + 1, done + [ns[i].value.text])
    else Bad(Mismatch("dangling"))
  }

  function ReadTable(fs: Table): Fallible<StateFile<IndexFile>>
  {
    var schema :- SchemaOf(fs);
    if schema > SCHEMA then Good(SchemaNewer(schema))
    else
      var seqNo :- OptInt(fs, "seq");
      var writtenAt :- OptStr(fs, "written_at");
      var rootId :- OptStr(fs, "root_id");
      var table :- OptObject(fs, "entries");
      var entries :- EntriesFrom(Or(table, []), 0, map[]);
      var ns :- DanglingNodes(fs);
      var dangling :- DanglingFrom(ns, 0, []);
      Good(Read(IndexFile(Or(seqNo, 0), Or(writtenAt, ""), Or(rootId, ""), entries, dangling)))
  }

  function Parsed(text: string): Fallible<StateFile<IndexFile>>
  {
    var fs :- Document(text);
    ReadTable(fs)
  }

  /** The reader, with its loops over the entries and the dangling digests. */
  method Parse(text: string) returns (r: Fallible<StateFile<IndexFile>>)
    ensures r == Parsed(text)
  {
    hide Document, SchemaOf, OptInt, OptStr, OptObject, DanglingNodes, ReadEntry;
    var fs :- Document(text);
    var schema :- SchemaOf(fs);
    if schema > SCHEMA {
      return Good(SchemaNewer(schema));
    }
    var seqNo :- OptInt(fs, "seq");
    var writtenAt :- OptStr(fs, "written_at");
    var rootId :- OptStr(fs, "root_id");
    var found :- OptObject(fs, "entries");
    var table := Or(found, []);
    var entries := map[];
    for i := 0 to |table|
      invariant EntriesFrom(table, i, entries) == EntriesFrom(table, 0, map[])
    {
      var e :- ReadEntry(table[i].1);
      entries := entries[table[i].0 := e];
    }
    var ns :- DanglingNodes(fs);
    var dangling := [];
    for i := 0 to |ns|
      invariant DanglingFrom(ns, i, dangling) == DanglingFrom(ns, 0, [])
    {
      if !ns[i].value.Str? {
        return Bad(Mismatch("dangling"));
      }
      dangling := dangling + [ns[i].value.text];
    }
    r := Good(Read(IndexFile(Or(seqNo, 0), Or(writtenAt, ""), Or(rootId, ""), entries, dangling)));
  }

  // --- The round trip -----------------------------------------------------------------

  /** The numbers fit their 64-bit and 32-bit types. */
  predicate EntryInRange(e: Entry)
  {
    && e.bytes <= Floats.U64_MAX
    && (e.width.Some? ==> e.width.value < U32_END) && (e.height.Some? ==> e.height.value < U32_END)
  }

  predicate InRange(f: IndexFile)
  {
    f.seqNo <= Floats.U64_MAX && forall k :: k in f.entries ==> EntryInRange(f.entries[k])
  }

  predicate AsciiEntry(e: Entry)
  {
    && Ascii(e.ext) && Ascii(e.firstSeen) && Ascii(e.lastUsed) && Ascii(e.source) && AsciiOption(e.origin)
    && Ascii(e.originKey)
  }

  predicate AsciiFile(f: IndexFile)
  {
    && Ascii(f.writtenAt) && Ascii(f.rootId)
    && (forall k :: k in f.entries ==> Ascii(k) && AsciiEntry(f.entries[k]))
    && (forall i :: 0 <= i < |f.dangling| ==> Ascii(f.dangling[i]))
  }

  predicate CountersSurvive(f: IndexFile)
  {
    Survives(f.seqNo) && forall k :: k in f.entries ==> Survives(f.entries[k].bytes)
  }

  function EntryThrough(e: Entry): Entry { e.(bytes := Through(e.bytes)) }

  function EntriesThrough(m: map<string, Entry>): map<string, Entry>
  {
    map k | k in m :: EntryThrough(m[k])
  }

  /** The file as it comes back: every counter rounded. */
  function FileThrough(f: IndexFile): IndexFile
  {
    f.(seqNo := Through(f.seqNo), entries := EntriesThrough(f.entries))
  }

  lemma EntryNames(e: Entry)
    ensures DistinctNames(EntryRows(e)) && AsciiNames(EntryRows(e))
  {
    hide HistoryState.KindName;
  }

  lemma FileNames(f: IndexFile)
    ensures DistinctNames(FileRows(f)) && AsciiNames(FileRows(f))
  {
    hide EntriesLayout, DanglingLayout;
  }

  lemma DigestNames(m: map<string, Entry>, ks: seq<string>)
    requires Ascending(ks) && forall k :: k in ks ==> k in m
    ensures DistinctNames(DigestRows(m, ks))
  {
    hide LexLess, EntryLayout;
    var rs := DigestRows(m, ks);
    forall i, j | 0 <= i < j < |rs| ensures rs[i].0 != rs[j].0 {
      assert LexLess(ks[i], ks[j]);
      LexIrreflexive(ks[i]);
    }
  }

  lemma SizeIsRead(n: Option<nat>)
    requires n.Some? ==> n.value < U32_END
    ensures AsU32(if n.Some? then Some(Through(n.value)) else None) == n
  {
    hide Floats.Rounded;
    if n.Some? { Floats.SmallIsExact(n.value); }
  }

  lemma EntryTailIsRead(e: Entry)
    requires EntryInRange(e)
    ensures
      ReadEntryTail(Entries(EntryRows(e)), e.ext, Through(e.bytes), e.firstSeen, e.lastUsed, e.source, e.kind)
      == Good(EntryThrough(e))
  {
    hide OptStr, ReqStr, OptInt, OptBool, Entries, DistinctNames, AsciiNames, HistoryState.KindName, Through, AsU32;
    var rs := EntryRows(e);
    EntryNames(e);
    StrIsRead(rs, 6, e.origin);
    ReqStrIsRead(rs, 7, e.originKey);
    MaybeIntIsRead(rs, 8, e.width);
    MaybeIntIsRead(rs, 9, e.height);
    BoolIsRead(rs, 10, e.pinned);
    SizeIsRead(e.width);
    SizeIsRead(e.height);
  }

  lemma EntryIsRead(e: Entry)
    requires EntryInRange(e)
    ensures ReadEntry(Node(Tree(EntryLayout(e)), 0)) == Good(EntryThrough(e))
  {
    hide OptStr, ReqStr, OptInt, Entries, DistinctNames, AsciiNames, HistoryState.KindName, HistoryState.KindOf;
    hide FieldTrees, Rows, Ascii, Through, ReadEntryTail, EntryInRange;
    var rs := EntryRows(e);
    RowsTrees(rs, "\n      ", "\n    ");
    EntryNames(e);
    HistoryState.NamesReadBack(HistoryState.Source, e.kind);
    assert e.bytes <= Floats.U64_MAX by { EntryBytes(e); }
    ReqStrIsRead(rs, 0, e.ext);
    IntIsRead(rs, 1, e.bytes);
    ReqStrIsRead(rs, 2, e.firstSeen);
    ReqStrIsRead(rs, 3, e.lastUsed);
    ReqStrIsRead(rs, 4, e.source);
    ReqStrIsRead(rs, 5, HistoryState.KindName(e.kind));
    EntryTailIsRead(e);
  }

  lemma EntryBytes(e: Entry)
    requires EntryInRange(e)
    ensures e.bytes <= Floats.U64_MAX
  {
  }

  /** The entries of a digest list, as a map. */
  function MapOf(m: map<string, Entry>, ks: seq<string>): map<string, Entry>
    requires forall k :: k in ks ==> k in m
  {
    map k | k in ks :: EntryThrough(m[k])
  }

  lemma {:induction false} EntriesAreRead(m: map<string, Entry>, ks: seq<string>, i: nat)
    requires i <= |ks| && forall k :: k in ks ==> k in m && EntryInRange(m[k])
    ensures EntriesFrom(Entries(DigestRows(m, ks)), i, MapOf(m, ks[..i])) == Good(MapOf(m, ks))
    decreases |ks| - i
  {
    hide ReadEntry, EntryLayout, Tree, EntryThrough, EntryInRange;
    if i == |ks| {
      assert ks[..i] == ks;
    } else {
      assert ks[i] in ks;
      EntryIsRead(m[ks[i]]);
      assert ks[..i + 1] == ks[..i] + [ks[i]];
      assert MapOf(m, ks[..i + 1]) == MapOf(m, ks[..i])[ks[i] := EntryThrough(m[ks[i]])];
      EntriesAreRead(m, ks, i + 1);
    }
  }

  lemma AllEntriesAreRead(m: map<string, Entry>)
    requires forall k :: k in m ==> EntryInRange(m[k])
    ensures EntriesFrom(Entries(DigestRows(m, Listed(m))), 0, map[]) == Good(EntriesThrough(m))
  {
    hide EntriesFrom, Entries, EntryThrough, EntryInRange, Ascending, EntryLayout;
    var ks := Listed(m);
    EntriesAreRead(m, ks, 0);
    assert ks[..0] == [];
    assert MapOf(m, ks[..0]) == map[];
    assert MapOf(m, ks) == EntriesThrough(m);
  }

  lemma {:induction false} DanglingIsRead(ss: seq<string>, i: nat)
    requires i <= |ss|
    ensures DanglingFrom(Elements(Strings(ss)), i, ss[..i]) == Good(ss)
    decreases |ss| - i
  {
    if i == |ss| {
      assert ss[..i] == ss;
    } else {
      assert ss[..i + 1] == ss[..i] + [ss[i]];
      DanglingIsRead(ss, i + 1);
    }
  }

  lemma DanglingNodesAreRead(f: IndexFile)
    ensures DanglingNodes(Entries(FileRows(f))) == Good(Elements(Strings(f.dangling)))
  {
    hide FieldOf, Entries, DistinctNames, AsciiNames, ItemTrees, Strings, ItemsOf, Elements, EntriesLayout;
    var rs := FileRows(f);
    FileNames(f);
    RowIsThere(rs, 5);
    ItemsOfTrees(Strings(f.dangling), "\n    ", "\n  ");
  }

  lemma EntryTableIsRead(f: IndexFile)
    ensures OptObject(Entries(FileRows(f)), "entries") == Good(Some(Entries(DigestRows(f.entries, Listed(f.entries)))))
  {
    hide OptObject, Entries, DistinctNames, AsciiNames, DigestRows, DanglingLayout, Ascending;
    var rs := FileRows(f);
    FileNames(f);
    assert rs[4].0 == "entries";
    ObjectIsRead(rs, 4, DigestRows(f.entries, Listed(f.entries)), "\n    ", "\n  ");
  }

  lemma TableIsRead(f: IndexFile)
    requires InRange(f)
    ensures ReadTable(Entries(FileRows(f))) == Good(Read(FileThrough(f)))
  {
    hide SchemaOf, OptInt, OptStr, OptObject, DanglingNodes, DanglingFrom, EntriesFrom, Entries, DistinctNames;
    hide AsciiNames, EntriesLayout, DanglingLayout, Through, DigestRows, Ascending, EntryInRange, EntriesThrough;
    var rs := FileRows(f);
    FileNames(f);
    SchemaIsRead(rs);
    IntIsRead(rs, 1, f.seqNo);
    ReqStrIsRead(rs, 2, f.writtenAt);
    ReqStrIsRead(rs, 3, f.rootId);
    EntryTableIsRead(f);
    AllEntriesAreRead(f.entries);
    DanglingNodesAreRead(f);
    DanglingIsRead(f.dangling, 0);
    assert f.dangling[..0] == [];
  }

  lemma EntryIsClean(e: Entry)
    requires AsciiEntry(e)
    ensures Clean(EntryLayout(e))
  {
    hide Object, HistoryState.KindName, Ascii, Spaces, DistinctNames, AsciiNames;
    EntryNames(e);
    HistoryState.NamesReadBack(HistoryState.Source, e.kind);
    HistoryState.LineStarts();
    ObjectClean(EntryRows(e), "\n      ", "\n    ");
  }

  lemma EntriesAreClean(m: map<string, Entry>)
    requires forall k :: k in m ==> Ascii(k) && AsciiEntry(m[k])
    ensures Clean(EntriesLayout(m))
  {
    hide Object, Ascii, EntryLayout, AsciiEntry, Spaces, DistinctNames, Ascending;
    var ks := Listed(m);
    var rs := DigestRows(m, ks);
    DigestNames(m, ks);
    HistoryState.LineStarts();
    forall i | 0 <= i < |rs| ensures Ascii(rs[i].0) && Clean(rs[i].1) {
      assert ks[i] in ks;
      EntryIsClean(m[ks[i]]);
    }
    ObjectClean(rs, "\n    ", "\n  ");
  }

  lemma DanglingIsClean(ss: seq<string>)
    requires forall i :: 0 <= i < |ss| ==> Ascii(ss[i])
    ensures Clean(DanglingLayout(ss))
  {
    hide Array, Ascii, Spaces;
    HistoryState.LineStarts();
    ArrayClean(Strings(ss), "\n    ", "\n  ");
  }

  lemma FileIsClean(f: IndexFile)
    requires AsciiFile(f)
    ensures CleanValues(FileRows(f))
  {
    hide Ascii, AsciiEntry, EntriesLayout, DanglingLayout;
    EntriesAreClean(f.entries);
    DanglingIsClean(f.dangling);
  }

  lemma EntryTextAscii(e: Entry)
    requires Ascii(Text(EntryLayout(e)))
    ensures AsciiEntry(e)
  {
    hide Ascii, Text, Object, AsciiOption, HistoryState.KindName;
    var rs := EntryRows(e);
    StrRowAscii(rs, "\n      ", "\n    ", 0, e.ext);
    StrRowAscii(rs, "\n      ", "\n    ", 2, e.firstSeen);
    StrRowAscii(rs, "\n      ", "\n    ", 3, e.lastUsed);
    StrRowAscii(rs, "\n      ", "\n    ", 4, e.source);
    MaybeRowAscii(rs, "\n      ", "\n    ", 6, e.origin);
    StrRowAscii(rs, "\n      ", "\n    ", 7, e.originKey);
  }

  lemma EntriesTextAscii(m: map<string, Entry>, k: string)
    requires k in m && Ascii(Text(EntriesLayout(m)))
    ensures Ascii(k) && AsciiEntry(m[k])
  {
    hide Ascii, Text, Object, EntryLayout, AsciiEntry, Ascending;
    var ks := Listed(m);
    assert k in ks;
    var i :| 0 <= i < |ks| && ks[i] == k;
    ObjectAscii(DigestRows(m, ks), "\n    ", "\n  ", i);
    EntryTextAscii(m[k]);
  }

  lemma DanglingTextAscii(ss: seq<string>, i: nat)
    requires i < |ss| && Ascii(Text(DanglingLayout(ss)))
    ensures Ascii(ss[i])
  {
    hide Ascii, Array, Quoted;
    ArrayAscii(Strings(ss), "\n    ", "\n  ", i);
    QuotedAscii(ss[i]);
  }

  lemma FileTextAscii(f: IndexFile)
    requires Ascii(Encoded(f))
    ensures AsciiFile(f)
  {
    hide Ascii, Text, Object, EntriesLayout, DanglingLayout, AsciiEntry;
    var rs := FileRows(f);
    AsciiConcat(Text(Object(rs, "\n  ", "\n")), "\n");
    StrRowAscii(rs, "\n  ", "\n", 2, f.writtenAt);
    StrRowAscii(rs, "\n  ", "\n", 3, f.rootId);
    ObjectAscii(rs, "\n  ", "\n", 4);
    ObjectAscii(rs, "\n  ", "\n", 5);
    forall k | k in f.entries ensures Ascii(k) && AsciiEntry(f.entries[k]) { EntriesTextAscii(f.entries, k); }
    forall i | 0 <= i < |f.dangling| ensures Ascii(f.dangling[i]) { DanglingTextAscii(f.dangling, i); }
  }

  /** Main result: what reading a written `index.json` gives. */
  lemma WrittenIsRead(f: IndexFile)
    requires InRange(f)
    ensures AsciiFile(f) ==> Parsed(Encoded(f)) == Good(Read(FileThrough(f)))
    ensures !AsciiFile(f) ==> Parsed(Encoded(f)).Bad?
  {
    hide Document, ReadTable, FileRows, Text, Object, AsciiFile, Ascii, Entries, CleanValues, DistinctNames, AsciiNames;
    hide Blank, Spaces, FileThrough, InRange;
    var rs := FileRows(f);
    RowCount(f);
    FileNames(f);
    HistoryState.LineStarts();
    if AsciiFile(f) {
      FileIsClean(f);
      DocumentIsRead(rs, "\n  ", "\n");
      TableIsRead(f);
    } else {
      if Ascii(Encoded(f)) { FileTextAscii(f); }
      NotBlank(rs, "\n  ", "\n");
      NonAsciiIsRefused(Encoded(f));
    }
  }

  lemma RowCount(f: IndexFile) ensures |FileRows(f)| == 6 {}

  lemma EntriesThroughSame(m: map<string, Entry>)
    requires forall k :: k in m ==> EntryInRange(m[k])
    ensures EntriesThrough(m) == m <==> forall k :: k in m ==> Survives(m[k].bytes)
  {
    hide Survives, Through;
    forall k | k in m ensures EntryThrough(m[k]) == m[k] <==> Survives(m[k].bytes) { ThroughSurvives(m[k].bytes); }
    if EntriesThrough(m) == m {
      forall k | k in m ensures Survives(m[k].bytes) { assert EntriesThrough(m)[k] == EntryThrough(m[k]); }
    }
  }

  /** Main result: an `index.json` round-trips exactly when its strings are below 0x80 and its counters are exact. */
  lemma RoundTrip(f: IndexFile)
    requires InRange(f)
    ensures Parsed(Encoded(f)) == Good(Read(f)) <==> AsciiFile(f) && CountersSurvive(f)
  {
    hide Parsed, Encoded, AsciiFile, Through, Survives, EntriesThrough, EntryInRange;
    WrittenIsRead(f);
    ThroughSurvives(f.seqNo);
    EntriesThroughSame(f.entries);
  }
}
