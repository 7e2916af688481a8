/**
 `history.json` (crates/whirl-core/src/state.rs:451-508, 933-970): the ring of entries, newest first.
 */
module HistoryState {
  import opened Basics
  import opened CacheIndex
  import opened JsonTree
  import opened JsonSpec
  import opened JsonLayout
  import opened JsonRoundTrip
  import opened StateLayouts
  import opened StateReading
  import Floats

  datatype Via = Source | Manual | Prev | Startup | Recovered

  datatype HistoryEntry = HistoryEntry(
    setAt: string, via: Via, kind: Kind, originKey: string, digest: Option<string>, path: Option<string>)

  datatype HistoryFile = HistoryFile(seqNo: nat, writtenAt: string, entries: seq<HistoryEntry>)

  function ViaName(v: Via): string
  {
    match v
    case Source => "source"
    case Manual => "manual"
    case Prev => "prev"
    case Startup => "startup"
    case Recovered => "recovered"
  }

  /** Both the protocol's words and the state document's older ones. */
  function ViaOf(name: string): Fallible<Via>
  {
    if name == "rotate" || name == "source" then Good(Source)
    else if name == "set" || name == "manual" then Good(Manual)
    else if name == "prev" then Good(Prev)
    else if name == "startup" || name == "external" then Good(Startup)
    else if name == "recovered" then Good(Recovered)
    else Bad(UnknownName("via", name))
  }

  function KindName(k: Kind): string
  {
    match k
    case Local => "local"
    case Wallhaven => "wallhaven"
    case External => "external"
  }

  function KindOf(name: string): Fallible<Kind>
  {
    if name == "local" then Good(Local)
    else if name == "wallhaven" then Good(Wallhaven)
    else if name == "external" then Good(External)
    else Bad(UnknownName("kind", name))
  }

  lemma NamesReadBack(v: Via, k: Kind)
    ensures ViaOf(ViaName(v)) == Good(v) && Ascii(ViaName(v))
    ensures KindOf(KindName(k)) == Good(k) && Ascii(KindName(k))
  {
  }

  /** The words that are read, and no others: the ones that are written, and the protocol's for three of them. */
  lemma WordsAreRead()
    ensures KindOf("local") == Good(Local) && KindOf("wallhaven") == Good(Wallhaven) && KindOf("external") == Good(External)
    ensures ViaOf("source") == ViaOf("rotate") == Good(Source) && ViaOf("manual") == ViaOf("set") == Good(Manual)
    ensures ViaOf("startup") == ViaOf("external") == Good(Startup) && ViaOf("prev") == Good(Prev)
    ensures ViaOf("recovered") == Good(Recovered)
    ensures forall name: string :: KindOf(name).Bad? <==> name !in {"local", "wallhaven", "external"}
    ensures forall name: string ::
              ViaOf(name).Bad?
              <==> name !in {"source", "rotate", "manual", "set", "startup", "external", "prev", "recovered"}
  {
  }

  // --- Writing ------------------------------------------------------------------------

  function EntryRows(e: HistoryEntry): seq<Row>
  {
    [("kind", LStr(KindName(e.kind))), ("origin_key", LStr(e.originKey)), ("digest", MaybeStr(e.digest)),
     ("cached_path", MaybeStr(e.path)), ("set_at", LStr(e.setAt)), ("via", LStr(ViaName(e.via)))]
  }

  function EntryLayout(e: HistoryEntry): Layout { Object(EntryRows(e), "\n      ", "\n    ") }

  function Layouts(es: seq<HistoryEntry>): seq<Layout>
  {
    seq(|es|, i requires 0 <= i < |es| => EntryLayout(es[i]))
  }

  function EntriesLayout(es: seq<HistoryEntry>): Layout { Array(Layouts(es), "\n    ", "\n  ") }

  function FileRows(f: HistoryFile): seq<Row>
  {
    [("schema", LInt(SCHEMA)), ("seq", LInt(f.seqNo)), ("written_at", LStr(f.writtenAt)),
     ("entries", EntriesLayout(f.entries))]
  }

  function Encoded(f: HistoryFile): string { Text(Object(FileRows(f), "\n  ", "\n")) + "\n" }

  lemma PlainNames()
    ensures PlainName("kind") && PlainName("origin_key") && PlainName("digest") && PlainName("cached_path")
    ensures PlainName("set_at") && PlainName("via")
    ensures PlainName("schema") && PlainName("seq") && PlainName("written_at") && PlainName("entries")
  {
  }

  method EncodeEntry(e: HistoryEntry) returns (text: string)
    ensures text == Text(EntryLayout(e))
  {
    hide Joined, Quoted, Object, PlainName, KindName, ViaName;
    PlainNames();
    ghost var rs := EntryRows(e);
    text := "{\n";
    assert "\n" + "      " == "\n      ";
    OpenedRows(rs, "\n      ");
    text := PushRow(text, "      ", "kind", Quoted(KindName(e.kind)), ",", rs, 0);
    text := PushRow(text, "      ", "origin_key", Quoted(e.originKey), ",", rs, 1);
    text := PushRow(text, "      ", "digest", MaybeText(e.digest), ",", rs, 2);
    text := PushRow(text, "      ", "cached_path", MaybeText(e.path), ",", rs, 3);
    text := PushRow(text, "      ", "set_at", Quoted(e.setAt), ",", rs, 4);
    text := PushRow(text, "      ", "via", Quoted(ViaName(e.via)), "", rs, 5);
    assert rs[..6] == rs;
    text := text + "    }";
    ObjectText(rs, "\n      ", "\n    ");
    assert "{" + Joined(rs, "\n      ") + "" + "\n" + "    }" == "{" + Joined(rs, "\n      ") + "\n    " + "}";
  }

  method EncodeHead(f: HistoryFile) returns (text: string)
    ensures text == "{" + Joined(FileRows(f)[..3], "\n  ") + ",\n"
  {
    hide Joined, Quoted, Object, Decimal, EntriesLayout, PlainName;
    PlainNames();
    ghost var rs := FileRows(f);
    text := "{\n";
    assert "\n" + "  " == "\n  ";
    OpenedRows(rs, "\n  ");
    text := PushRow(text, "  ", "schema", Decimal(SCHEMA), ",", rs, 0);
    text := PushRow(text, "  ", "seq", Decimal(f.seqNo), ",", rs, 1);
    text := PushRow(text, "  ", "written_at", Quoted(f.writtenAt), ",", rs, 2);
    assert "{" + Joined(rs[..3], "\n  ") + "," + "\n" == "{" + Joined(rs[..3], "\n  ") + ",\n";
  }

  method EncodeEntries(es: seq<HistoryEntry>) returns (text: string)
    ensures text == Text(EntriesLayout(es))
  {
    hide EntryLayout, JoinedItems, Text, Array;
    ghost var ds := Layouts(es);
    text := "[";
    assert ds[..0] == [];
    NoneJoined("\n    ");
    for i := 0 to |es|
      invariant text == "[" + JoinedItems(ds[..i], "\n    ")
    {
      var entry := EncodeEntry(es[i]);
      text := PushItem(text, "[", "\n    ", entry, ds[..i], ds[i], i);
      assert ds[..i + 1] == ds[..i] + [ds[i]];
    }
    assert ds[..|es|] == ds;
    ArrayTextIs(ds, "\n    ", "\n  ");
    text := text + (if |es| == 0 then "]" else "\n  ]");
    assert |es| > 0 ==> "[" + JoinedItems(ds, "\n    ") + "\n  ]" == "[" + JoinedItems(ds, "\n    ") + "\n  " + "]";
  }

  method Encode(f: HistoryFile) returns (text: string)
    ensures text == Encoded(f)
  {
    hide Joined, Object, EntriesLayout, PlainName, Text;
    PlainNames();
    ghost var rs := FileRows(f);
    var entries := EncodeEntries(f.entries);
    text := EncodeHead(f);
    assert "\n" + "  " == "\n  ";
    assert "{" + Joined(rs[..3], "\n  ") + "," + "\n" == "{" + Joined(rs[..3], "\n  ") + ",\n";
    text := PushRow(text, "  ", "entries", entries, "", rs, 3);
    assert rs[..4] == rs;
    text := text + "}\n";
    ObjectText(rs, "\n  ", "\n");
    assert "{" + Joined(rs, "\n  ") + "" + "\n" + "}\n" == "{" + Joined(rs, "\n  ") + "\n" + "}" + "\n";
  }

  // --- Reading ------------------------------------------------------------------------

  function ReadEntry(n: Node): Fallible<HistoryEntry>
  {
    var fs :- AsObject(n, "entries[]");
    var kindName :- ReqStr(fs, "kind");
    var kind :- KindOf(kindName);
    var setAt :- ReqStr(fs, "set_at");
    var viaName :- ReqStr(fs, "via");
    var via :- ViaOf(viaName);
    var originKey :- ReqStr(fs, "origin_key");
    var digest :- OptStr(fs, "digest");
    var path :- OptStr(fs, "cached_path");
    Good(HistoryEntry(setAt, via, kind, originKey, digest, path))
  }

  /** The entries from number i on, after those already read. */
  function EntriesFrom(ns: seq<Node>, i: nat, done: seq<HistoryEntry>): Fallible<seq<HistoryEntry>>
    requires i <= |ns|
    decreases |ns| - i
  {
    if i == |ns| then Good(done)
    else
      var e :- ReadEntry(ns[i]);
      EntriesFrom(ns, i + 1, done + [e])
  }

  function EntryNodes(fs: Table): Fallible<seq<Node>>
  {
    match FieldOf(fs, "entries")
    case None => Bad(Missing("entries"))
    case Some(n) => if n.value.Arr? then Good(n.value.elements) else Bad(NotAnArray("entries"))
  }

  function ReadTable(fs: Table): Fallible<StateFile<HistoryFile>>
  {
    var schema :- SchemaOf(fs);
    if schema > SCHEMA then Good(SchemaNewer(schema))
    else
      var seqNo :- OptInt(fs, "seq");
      var writtenAt :- OptStr(fs, "written_at");
      var ns :- EntryNodes(fs);
      var entries :- EntriesFrom(ns, 0, []);
      Good(Read(HistoryFile(Or(seqNo, 0), Or(writtenAt, ""), entries)))
  }

  function Parsed(text: string): Fallible<StateFile<HistoryFile>>
  {
    var fs :- Document(text);
    ReadTable(fs)
  }

  /** The reader, with its loop over the entries. */
  method Parse(text: string) returns (r: Fallible<StateFile<HistoryFile>>)
    ensures r == Parsed(text)
  {
    hide Document, SchemaOf, OptInt, OptStr, EntryNodes, ReadEntry;
    var fs :- Document(text);
    var schema :- SchemaOf(fs);
    if schema > SCHEMA {
      return Good(SchemaNewer(schema));
    }
    var seqNo :- OptInt(fs, "seq");
    var writtenAt :- OptStr(fs, "written_at");
    var entries := [];
    var ns :- EntryNodes(fs);
    for i := 0 to |ns|
      invariant EntriesFrom(ns, i, entries) == EntriesFrom(ns, 0, [])
    {
      var e :- ReadEntry(ns[i]);
      entries := entries + [e];
    }
    r := Good(Read(HistoryFile(Or(seqNo, 0), Or(writtenAt, ""), entries)));
  }

  // --- The round trip -----------------------------------------------------------------

  predicate AsciiEntry(e: HistoryEntry)
  {
    Ascii(e.setAt) && Ascii(e.originKey) && AsciiOption(e.digest) && AsciiOption(e.path)
  }

  predicate AsciiFile(f: HistoryFile)
  {
    Ascii(f.writtenAt) && forall i :: 0 <= i < |f.entries| ==> AsciiEntry(f.entries[i])
  }

  lemma EntryNames(e: HistoryEntry)
    ensures DistinctNames(EntryRows(e)) && AsciiNames(EntryRows(e))
  {
    hide KindName, ViaName;
  }

  lemma FileNames(f: HistoryFile)
    ensures DistinctNames(FileRows(f)) && AsciiNames(FileRows(f))
  {
    hide EntriesLayout;
  }

  lemma EntryIsRead(e: HistoryEntry)
    ensures ReadEntry(Node(Tree(EntryLayout(e)), 0)) == Good(e)
  {
    hide OptStr, ReqStr, Entries, DistinctNames, AsciiNames, KindName, ViaName, ViaOf, KindOf, FieldTrees, Rows, Ascii;
    var rs := EntryRows(e);
    RowsTrees(rs, "\n      ", "\n    ");
    EntryNames(e);
    NamesReadBack(e.via, e.kind);
    ReqStrIsRead(rs, 0, KindName(e.kind));
    ReqStrIsRead(rs, 1, e.originKey);
    StrIsRead(rs, 2, e.digest);
    StrIsRead(rs, 3, e.path);
    ReqStrIsRead(rs, 4, e.setAt);
    ReqStrIsRead(rs, 5, ViaName(e.via));
  }

  lemma {:induction false} EntriesAreRead(es: seq<HistoryEntry>, i: nat)
    requires i <= |es|
    ensures EntriesFrom(Elements(Layouts(es)), i, es[..i]) == Good(es)
    decreases |es| - i
  {
    hide ReadEntry, EntryLayout, Tree;
    if i == |es| {
      assert es[..i] == es;
    } else {
      EntryIsRead(es[i]);
      assert es[..i + 1] == es[..i] + [es[i]];
      EntriesAreRead(es, i + 1);
    }
  }

  lemma NodesAreRead(f: HistoryFile)
    ensures EntryNodes(Entries(FileRows(f))) == Good(Elements(Layouts(f.entries)))
  {
    hide FieldOf, Entries, DistinctNames, AsciiNames, ItemTrees, Layouts, ItemsOf, Elements;
    var rs := FileRows(f);
    FileNames(f);
    RowIsThere(rs, 3);
    ItemsOfTrees(Layouts(f.entries), "\n    ", "\n  ");
  }

  lemma TableIsRead(f: HistoryFile)
    requires f.seqNo <= Floats.U64_MAX
    ensures ReadTable(Entries(FileRows(f))) == Good(Read(f.(seqNo := Through(f.seqNo))))
  {
    hide SchemaOf, OptInt, OptStr, EntryNodes, EntriesFrom, Entries, DistinctNames, AsciiNames, EntriesLayout, Through;
    var rs := FileRows(f);
    FileNames(f);
    SchemaIsRead(rs);
    IntIsRead(rs, 1, f.seqNo);
    ReqStrIsRead(rs, 2, f.writtenAt);
    NodesAreRead(f);
    EntriesAreRead(f.entries, 0);
    assert f.entries[..0] == [];
  }

  lemma LineStarts()
    ensures Spaces("\n  ") && Spaces("\n") && Spaces("\n    ") && Spaces("\n      ")
  {
  }

  lemma EntryIsClean(e: HistoryEntry)
    requires AsciiEntry(e)
    ensures Clean(EntryLayout(e))
  {
    hide Object, KindName, ViaName, Ascii, Spaces, DistinctNames, AsciiNames;
    EntryNames(e);
    NamesReadBack(e.via, e.kind);
    LineStarts();
    ObjectClean(EntryRows(e), "\n      ", "\n    ");
  }

  lemma FileIsClean(f: HistoryFile)
    requires AsciiFile(f)
    ensures CleanValues(FileRows(f))
  {
    hide Array, Ascii, EntryLayout, AsciiEntry, Spaces;
    LineStarts();
    forall i | 0 <= i < |f.entries| ensures Clean(Layouts(f.entries)[i]) { EntryIsClean(f.entries[i]); }
    ArrayClean(Layouts(f.entries), "\n    ", "\n  ");
  }

  lemma EntryTextAscii(e: HistoryEntry)
    requires Ascii(Text(EntryLayout(e)))
    ensures AsciiEntry(e)
  {
    hide Ascii, Text, Object, AsciiOption, KindName, ViaName;
    var rs := EntryRows(e);
    StrRowAscii(rs, "\n      ", "\n    ", 1, e.originKey);
    MaybeRowAscii(rs, "\n      ", "\n    ", 2, e.digest);
    MaybeRowAscii(rs, "\n      ", "\n    ", 3, e.path);
    StrRowAscii(rs, "\n      ", "\n    ", 4, e.setAt);
  }

  lemma FileTextAscii(f: HistoryFile)
    requires Ascii(Encoded(f))
    ensures AsciiFile(f)
  {
    hide Ascii, Text, Object, EntryLayout, AsciiEntry;
    var rs := FileRows(f);
    AsciiConcat(Text(Object(rs, "\n  ", "\n")), "\n");
    StrRowAscii(rs, "\n  ", "\n", 2, f.writtenAt);
    ObjectAscii(rs, "\n  ", "\n", 3);
    forall i | 0 <= i < |f.entries| ensures AsciiEntry(f.entries[i]) {
      ArrayAscii(Layouts(f.entries), "\n    ", "\n  ", i);
      EntryTextAscii(f.entries[i]);
    }
  }

  /** Main result: what reading a written `history.json` gives. */
  lemma WrittenIsRead(f: HistoryFile)
    requires f.seqNo <= Floats.U64_MAX
    ensures AsciiFile(f) ==> Parsed(Encoded(f)) == Good(Read(f.(seqNo := Through(f.seqNo))))
    ensures !AsciiFile(f) ==> Parsed(Encoded(f)).Bad?
  {
    hide Document, ReadTable, FileRows, Text, Object, AsciiFile, Ascii, Entries, CleanValues, DistinctNames, AsciiNames;
    hide Blank, Spaces, Through;
    var rs := FileRows(f);
    RowCount(f);
    FileNames(f);
    LineStarts();
    if AsciiFile(f) {
      FileIsClean(f);
      DocumentIsRead(rs, "\n  ", "\n");
      TableIsRead(f);
    } else {
      if Ascii(Encoded(f)) { FileTextAscii(f); }
      NotBlank(rs, "\n  ", "\n");
      NonAsciiIsRefused(Encoded(f));
    }
  }

  lemma RowCount(f: HistoryFile) ensures |FileRows(f)| == 4 {}

  /** Main result: a `history.json` round-trips exactly when its strings are below 0x80 and its counter is exact. */
  lemma RoundTrip(f: HistoryFile)
    requires f.seqNo <= Floats.U64_MAX
    ensures Parsed(Encoded(f)) == Good(Read(f)) <==> AsciiFile(f) && Survives(f.seqNo)
  {
    hide Parsed, Encoded, AsciiFile, Through, Survives;
    WrittenIsRead(f);
    ThroughSurvives(f.seqNo);
  }

  /** The failing family is real: one accented letter in a path makes the written file unreadable. */
  lemma AccentedPathIsLost()
    ensures
      var e := HistoryEntry("2026-01-01T00:00:00Z", Source, Local, "k", None, Some("/home/andr\U{E9}/a.png"));
      Parsed(Encoded(HistoryFile(1, "2026-01-01T00:00:00Z", [e]))).Bad?
  {
    hide Parsed, Encoded, Floats.Rounded;
    var path := "/home/andr\U{E9}/a.png";
    assert path[10] >= 0x80 as char;
    var e := HistoryEntry("2026-01-01T00:00:00Z", Source, Local, "k", None, Some(path));
    var f := HistoryFile(1, "2026-01-01T00:00:00Z", [e]);
    assert !AsciiEntry(f.entries[0]);
    WrittenIsRead(f);
  }

  /** So is the other one: a sequence number just past 2^53 comes back one less. */
  lemma LargeCounterIsLost()
    ensures
      Parsed(Encoded(HistoryFile(0x20_0000_0000_0001, "", []))) == Good(Read(HistoryFile(0x20_0000_0000_0000, "", [])))
  {
    hide Parsed, Encoded, Floats.Rounded, Floats.Exact;
    Floats.FirstInexact();
    WrittenIsRead(HistoryFile(0x20_0000_0000_0001, "", []));
  }
}
