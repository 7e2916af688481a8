/**
 `current.json` (crates/whirl-core/src/state.rs:290-449): the live scalars, the display anchor and the
 cache block, written as one laid-out object and read back field by field.
 */
module CurrentState {
  import opened Basics
  import opened JsonTree
  import opened JsonSpec
  import opened JsonLayout
  import opened JsonRoundTrip
  import opened StateLayouts
  import opened StateReading
  import Floats

  datatype Anchor = Anchor(
    digest: string, cachedPath: Option<string>, setAt: Option<string>, displayMode: Option<string>)

  datatype CacheFacts = CacheFacts(
    rootId: Option<string>, files: nat, bytes: nat, overCapBytes: nat, overCapFiles: nat)

  datatype CurrentFile = CurrentFile(
    seqNo: nat, writtenAt: string, writtenBy: Option<string>, paused: bool, rotationCount: nat,
    nextAt: Option<string>, lastError: Option<string>, anchor: Option<Anchor>, cache: Option<CacheFacts>)

  // --- Writing ------------------------------------------------------------------------

  function AnchorRows(a: Anchor): seq<Row>
  {
    [("digest", LStr(a.digest)), ("cached_path", MaybeStr(a.cachedPath)), ("set_at", MaybeStr(a.setAt)),
     ("display_mode", MaybeStr(a.displayMode)), ("displays", LNull)]
  }

  function CacheRows(c: CacheFacts): seq<Row>
  {
    [("root_id", MaybeStr(c.rootId)), ("files", LInt(c.files)), ("bytes", LInt(c.bytes)),
     ("over_cap_bytes", LInt(c.overCapBytes)), ("over_cap_files", LInt(c.overCapFiles))]
  }

  function AnchorLayout(a: Option<Anchor>): Layout
  {
    if a.Some? then Object(AnchorRows(a.value), "\n    ", "\n  ") else LNull
  }

  function CacheLayout(c: Option<CacheFacts>): Layout
  {
    if c.Some? then Object(CacheRows(c.value), "\n    ", "\n  ") else LNull
  }

  function FileRows(f: CurrentFile): seq<Row>
  {
    [("schema", LInt(SCHEMA)), ("seq", LInt(f.seqNo)), ("written_at", LStr(f.writtenAt)),
     ("written_by", MaybeStr(f.writtenBy)), ("paused", LBool(f.paused)), ("rotation_count", LInt(f.rotationCount)),
     ("next_at", MaybeStr(f.nextAt)), ("last_error", MaybeStr(f.lastError)),
     ("anchor", AnchorLayout(f.anchor)), ("cache", CacheLayout(f.cache))]
  }

  function Encoded(f: CurrentFile): string { Text(Object(FileRows(f), "\n  ", "\n")) + "\n" }

  lemma NamesArePlain()
    ensures PlainName("schema") && PlainName("seq") && PlainName("written_at") && PlainName("written_by")
    ensures PlainName("paused") && PlainName("rotation_count") && PlainName("next_at") && PlainName("last_error")
    ensures PlainName("anchor") && PlainName("cache")
  {
  }

  lemma AnchorNamesArePlain()
    ensures PlainName("digest") && PlainName("cached_path") && PlainName("set_at") && PlainName("display_mode")
    ensures PlainName("displays")
  {
  }

  lemma CacheNamesArePlain()
    ensures PlainName("root_id") && PlainName("files") && PlainName("bytes") && PlainName("over_cap_bytes")
    ensures PlainName("over_cap_files")
  {
  }

  method EncodeAnchor(a: Option<Anchor>) returns (text: string)
    ensures text == Text(AnchorLayout(a))
  {
    hide Joined, Quoted, Object, PlainName;
    AnchorNamesArePlain();
    if a.None? {
      return "null";
    }
    var anchor := a.value;
    ghost var rs := AnchorRows(anchor);
    text := "{\n";
    assert "\n" + "    " == "\n    ";
    OpenedRows(rs, "\n    ");
    text := PushRow(text, "    ", "digest", Quoted(anchor.digest), ",", rs, 0);
    text := PushRow(text, "    ", "cached_path", MaybeText(anchor.cachedPath), ",", rs, 1);
    text := PushRow(text, "    ", "set_at", MaybeText(anchor.setAt), ",", rs, 2);
    text := PushRow(text, "    ", "display_mode", MaybeText(anchor.displayMode), ",", rs, 3);
    text := PushRow(text, "    ", "displays", "null", "", rs, 4);
    assert rs[..5] == rs;
    text := text + "  }";
    ObjectText(rs, "\n    ", "\n  ");
    assert "{" + Joined(rs, "\n    ") + "" + "\n" + "  }" == "{" + Joined(rs, "\n    ") + "\n  " + "}";
  }

  method EncodeCache(c: Option<CacheFacts>) returns (text: string)
    ensures text == Text(CacheLayout(c))
  {
    hide Joined, Quoted, Object, Decimal, PlainName;
    CacheNamesArePlain();
    if c.None? {
      return "null";
    }
    var cache := c.value;
    ghost var rs := CacheRows(cache);
    text := "{\n";
    assert "\n" + "    " == "\n    ";
    OpenedRows(rs, "\n    ");
    text := PushRow(text, "    ", "root_id", MaybeText(cache.rootId), ",", rs, 0);
    text := PushRow(text, "    ", "files", Decimal(cache.files), ",", rs, 1);
    text := PushRow(text, "    ", "bytes", Decimal(cache.bytes), ",", rs, 2);
    text := PushRow(text, "    ", "over_cap_bytes", Decimal(cache.overCapBytes), ",", rs, 3);
    text := PushRow(text, "    ", "over_cap_files", Decimal(cache.overCapFiles), "", rs, 4);
    assert rs[..5] == rs;
    text := text + "  }";
    ObjectText(rs, "\n    ", "\n  ");
    assert "{" + Joined(rs, "\n    ") + "" + "\n" + "  }" == "{" + Joined(rs, "\n    ") + "\n  " + "}";
  }

  lemma ScalarTexts(f: CurrentFile)
    ensures
      var rs := FileRows(f);
      && Text(rs[0].1) == Decimal(SCHEMA) && Text(rs[1].1) == Decimal(f.seqNo) && Text(rs[2].1) == Quoted(f.writtenAt)
      && Text(rs[4].1) == (if f.paused then "true" else "false") && Text(rs[5].1) == Decimal(f.rotationCount)
  {
    hide Decimal, Quoted, AnchorLayout, CacheLayout;
  }

  method EncodeScalars(f: CurrentFile) returns (text: string)
    ensures text == "{" + Joined(FileRows(f)[..8], "\n  ") + ",\n"
  {
    hide Joined, Quoted, Object, Decimal, AnchorLayout, CacheLayout, PlainName, Text;
    NamesArePlain();
    ScalarTexts(f);
    ghost var rs := FileRows(f);
    text := "{\n";
    assert "\n" + "  " == "\n  ";
    OpenedRows(rs, "\n  ");
    text := PushRow(text, "  ", "schema", Decimal(SCHEMA), ",", rs, 0);
    text := PushRow(text, "  ", "seq", Decimal(f.seqNo), ",", rs, 1);
    text := PushRow(text, "  ", "written_at", Quoted(f.writtenAt), ",", rs, 2);
    text := PushRow(text, "  ", "written_by", MaybeText(f.writtenBy), ",", rs, 3);
    text := PushRow(text, "  ", "paused", if f.paused then "true" else "false", ",", rs, 4);
    text := PushRow(text, "  ", "rotation_count", Decimal(f.rotationCount), ",", rs, 5);
    text := PushRow(text, "  ", "next_at", MaybeText(f.nextAt), ",", rs, 6);
    text := PushRow(text, "  ", "last_error", MaybeText(f.lastError), ",", rs, 7);
    assert "{" + Joined(rs[..8], "\n  ") + "," + "\n" == "{" + Joined(rs[..8], "\n  ") + ",\n";
  }

  method Encode(f: CurrentFile) returns (text: string)
    ensures text == Encoded(f)
  {
    hide Joined, Quoted, Object, Decimal, AnchorLayout, CacheLayout, PlainName, Text;
    NamesArePlain();
    ghost var rs := FileRows(f);
    var anchor := EncodeAnchor(f.anchor);
    var cache := EncodeCache(f.cache);
    text := EncodeScalars(f);
    assert "\n" + "  " == "\n  ";
    assert "{" + Joined(rs[..8], "\n  ") + "," + "\n" == "{" + Joined(rs[..8], "\n  ") + ",\n";
    text := PushRow(text, "  ", "anchor", anchor, ",", rs, 8);
    text := PushRow(text, "  ", "cache", cache, "", rs, 9);
    assert rs[..10] == rs;
    text := text + "}\n";
    ObjectText(rs, "\n  ", "\n");
    assert "{" + Joined(rs, "\n  ") + "" + "\n" + "}\n" == "{" + Joined(rs, "\n  ") + "\n" + "}" + "\n";
  }

  // --- Reading ------------------------------------------------------------------------

  function ReadAnchor(fs: Table): Fallible<Option<Anchor>>
  {
    var o :- OptObject(fs, "anchor");
    if o.None? then Good(None)
    else
      var digest :- ReqStr(o.value, "digest");
      var cachedPath :- OptStr(o.value, "cached_path");
      var setAt :- OptStr(o.value, "set_at");
      var displayMode :- OptStr(o.value, "display_mode");
      Good(Some(Anchor(digest, cachedPath, setAt, displayMode)))
  }

  function ReadCache(fs: Table): Fallible<Option<CacheFacts>>
  {
    var o :- OptObject(fs, "cache");
    if o.None? then Good(None)
    else
      var rootId :- OptStr(o.value, "root_id");
      var files :- OptInt(o.value, "files");
      var bytes :- OptInt(o.value, "bytes");
      var overCapBytes :- OptInt(o.value, "over_cap_bytes");
      var overCapFiles :- OptInt(o.value, "over_cap_files");
      Good(Some(CacheFacts(rootId, Or(files, 0), Or(bytes, 0), Or(overCapBytes, 0), Or(overCapFiles, 0))))
  }

  function ReadScalars(fs: Table): Fallible<CurrentFile>
  {
    var seqNo :- OptInt(fs, "seq");
    var writtenAt :- OptStr(fs, "written_at");
    var writtenBy :- OptStr(fs, "written_by");
    var paused :- OptBool(fs, "paused");
    var rotationCount :- OptInt(fs, "rotation_count");
    var nextAt :- OptStr(fs, "next_at");
    var lastError :- OptStr(fs, "last_error");
    Good(CurrentFile(Or(seqNo, 0), Or(writtenAt, ""), writtenBy, Or(paused, false), Or(rotationCount, 0),
                     nextAt, lastError, None, None))
  }

  function ReadTable(fs: Table): Fallible<StateFile<CurrentFile>>
  {
    var schema :- SchemaOf(fs);
    if schema > SCHEMA then Good(SchemaNewer(schema))
    else
      var scalars :- ReadScalars(fs);
      var anchor :- ReadAnchor(fs);
      var cache :- ReadCache(fs);
      Good(Read(scalars.(anchor := anchor, cache := cache)))
  }

  function Parse(text: string): Fallible<StateFile<CurrentFile>>
  {
    var fs :- Document(text);
    ReadTable(fs)
  }

  // --- The round trip -----------------------------------------------------------------

  predicate AsciiFile(f: CurrentFile)
  {
    && Ascii(f.writtenAt) && AsciiOption(f.writtenBy) && AsciiOption(f.nextAt) && AsciiOption(f.lastError)
    && (f.anchor.Some? ==> AsciiAnchor(f.anchor.value))
    && (f.cache.Some? ==> AsciiOption(f.cache.value.rootId))
  }

  predicate AsciiAnchor(a: Anchor)
  {
    Ascii(a.digest) && AsciiOption(a.cachedPath) && AsciiOption(a.setAt) && AsciiOption(a.displayMode)
  }

  /** The counters fit their 64-bit type. */
  predicate InRange(f: CurrentFile)
  {
    && f.seqNo <= Floats.U64_MAX && f.rotationCount <= Floats.U64_MAX
    && (f.cache.Some? ==>
          && f.cache.value.files <= Floats.U64_MAX && f.cache.value.bytes <= Floats.U64_MAX
          && f.cache.value.overCapBytes <= Floats.U64_MAX && f.cache.value.overCapFiles <= Floats.U64_MAX)
  }

  predicate CountersSurvive(f: CurrentFile)
  {
    && Survives(f.seqNo) && Survives(f.rotationCount)
    && (f.cache.Some? ==>
          && Survives(f.cache.value.files) && Survives(f.cache.value.bytes)
          && Survives(f.cache.value.overCapBytes) && Survives(f.cache.value.overCapFiles))
  }

  function CacheThrough(c: CacheFacts): CacheFacts
  {
    CacheFacts(c.rootId, Through(c.files), Through(c.bytes), Through(c.overCapBytes), Through(c.overCapFiles))
  }

  /** The file as it comes back: every counter rounded. */
  function FileThrough(f: CurrentFile): CurrentFile
  {
    f.(seqNo := Through(f.seqNo), rotationCount := Through(f.rotationCount),
       cache := if f.cache.Some? then Some(CacheThrough(f.cache.value)) else None)
  }

  lemma AnchorNames(a: Anchor)
    ensures DistinctNames(AnchorRows(a)) && AsciiNames(AnchorRows(a))
  {
  }

  lemma CacheNames(c: CacheFacts)
    ensures DistinctNames(CacheRows(c)) && AsciiNames(CacheRows(c))
  {
  }

  lemma FileNames(f: CurrentFile)
    ensures DistinctNames(FileRows(f)) && AsciiNames(FileRows(f))
  {
    hide AnchorLayout, CacheLayout;
  }

  lemma AnchorIsRead(f: CurrentFile)
    ensures ReadAnchor(Entries(FileRows(f))) == Good(f.anchor)
  {
    hide OptObject, OptStr, ReqStr, Entries, DistinctNames, AsciiNames, CacheLayout;
    FileNames(f);
    var rs := FileRows(f);
    assert rs[8].0 == "anchor";
    if f.anchor.Some? {
      var inner := AnchorRows(f.anchor.value);
      ObjectIsRead(rs, 8, inner, "\n    ", "\n  ");
      AnchorNames(f.anchor.value);
      ReqStrIsRead(inner, 0, f.anchor.value.digest);
      StrIsRead(inner, 1, f.anchor.value.cachedPath);
      StrIsRead(inner, 2, f.anchor.value.setAt);
      StrIsRead(inner, 3, f.anchor.value.displayMode);
    } else {
      NullIsRead(rs, 8);
    }
  }

  lemma CacheIsRead(f: CurrentFile)
    requires InRange(f)
    ensures ReadCache(Entries(FileRows(f))) == Good(FileThrough(f).cache)
  {
    hide OptObject, OptStr, OptInt, Entries, DistinctNames, AsciiNames, AnchorLayout, Through;
    FileNames(f);
    var rs := FileRows(f);
    assert rs[9].0 == "cache";
    if f.cache.Some? {
      var c := f.cache.value;
      var inner := CacheRows(c);
      ObjectIsRead(rs, 9, inner, "\n    ", "\n  ");
      CacheNames(c);
      StrIsRead(inner, 0, c.rootId);
      IntIsRead(inner, 1, c.files);
      IntIsRead(inner, 2, c.bytes);
      IntIsRead(inner, 3, c.overCapBytes);
      IntIsRead(inner, 4, c.overCapFiles);
    } else {
      NullIsRead(rs, 9);
    }
  }

  lemma ScalarsAreRead(f: CurrentFile)
    requires InRange(f)
    ensures ReadScalars(Entries(FileRows(f))) == Good(FileThrough(f).(anchor := None, cache := None))
  {
    hide OptObject, OptStr, OptInt, OptBool, Entries, DistinctNames, AsciiNames, AnchorLayout, CacheLayout, Through;
    FileNames(f);
    var rs := FileRows(f);
    IntIsRead(rs, 1, f.seqNo);
    ReqStrIsRead(rs, 2, f.writtenAt);
    StrIsRead(rs, 3, f.writtenBy);
    BoolIsRead(rs, 4, f.paused);
    IntIsRead(rs, 5, f.rotationCount);
    StrIsRead(rs, 6, f.nextAt);
    StrIsRead(rs, 7, f.lastError);
  }

  lemma TableIsRead(f: CurrentFile)
    requires InRange(f)
    ensures ReadTable(Entries(FileRows(f))) == Good(Read(FileThrough(f)))
  {
    hide ReadScalars, ReadAnchor, ReadCache, SchemaOf, Entries, DistinctNames, AsciiNames, AnchorLayout, CacheLayout;
    hide Through;
    FileNames(f);
    SchemaIsRead(FileRows(f));
    ScalarsAreRead(f);
    AnchorIsRead(f);
    CacheIsRead(f);
  }

  lemma AnchorIsClean(a: Option<Anchor>)
    requires a.Some? ==> AsciiAnchor(a.value)
    ensures Clean(AnchorLayout(a))
  {
    hide Object;
    if a.Some? {
      AnchorNames(a.value);
      ObjectClean(AnchorRows(a.value), "\n    ", "\n  ");
    }
  }

  lemma CacheIsClean(c: Option<CacheFacts>)
    requires c.Some? ==> AsciiOption(c.value.rootId)
    ensures Clean(CacheLayout(c))
  {
    hide Object;
    if c.Some? {
      CacheNames(c.value);
      ObjectClean(CacheRows(c.value), "\n    ", "\n  ");
    }
  }

  lemma FileIsClean(f: CurrentFile)
    requires AsciiFile(f)
    ensures CleanValues(FileRows(f))
  {
    hide AnchorLayout, CacheLayout, Ascii;
    AnchorIsClean(f.anchor);
    CacheIsClean(f.cache);
  }

  lemma AnchorTextAscii(a: Anchor)
    requires Ascii(Text(AnchorLayout(Some(a))))
    ensures AsciiAnchor(a)
  {
    hide Ascii, Text, Object, AsciiOption;
    var rs := AnchorRows(a);
    StrRowAscii(rs, "\n    ", "\n  ", 0, a.digest);
    MaybeRowAscii(rs, "\n    ", "\n  ", 1, a.cachedPath);
    MaybeRowAscii(rs, "\n    ", "\n  ", 2, a.setAt);
    MaybeRowAscii(rs, "\n    ", "\n  ", 3, a.displayMode);
  }

  /** A file whose text is below 0x80 has only such strings. */
  lemma FileTextAscii(f: CurrentFile)
    requires Ascii(Encoded(f))
    ensures AsciiFile(f)
  {
    hide Ascii, Text, Object, AsciiOption, AsciiAnchor;
    var rs := FileRows(f);
    AsciiConcat(Text(Object(rs, "\n  ", "\n")), "\n");
    StrRowAscii(rs, "\n  ", "\n", 2, f.writtenAt);
    MaybeRowAscii(rs, "\n  ", "\n", 3, f.writtenBy);
    MaybeRowAscii(rs, "\n  ", "\n", 6, f.nextAt);
    MaybeRowAscii(rs, "\n  ", "\n", 7, f.lastError);
    ObjectAscii(rs, "\n  ", "\n", 8);
    ObjectAscii(rs, "\n  ", "\n", 9);
    if f.anchor.Some? { AnchorTextAscii(f.anchor.value); }
    if f.cache.Some? { MaybeRowAscii(CacheRows(f.cache.value), "\n    ", "\n  ", 0, f.cache.value.rootId); }
  }

  /**
   Main result: what reading a written `current.json` gives. Every string below 0x80 comes back as it
   was, quotes, backslashes and control characters included, every counter as the nearest `f64`; one
   character of 0x80 or above anywhere makes the whole file unreadable.
   */
  lemma WrittenIsRead(f: CurrentFile)
    requires InRange(f)
    ensures AsciiFile(f) ==> Parse(Encoded(f)) == Good(Read(FileThrough(f)))
    ensures !AsciiFile(f) ==> Parse(Encoded(f)).Bad?
  {
    hide Document, ReadTable, FileRows, Text, Object, AsciiFile, Ascii, Entries, CleanValues, DistinctNames, AsciiNames;
    hide FileThrough, InRange, Blank;
    var rs := FileRows(f);
    RowCount(f);
    FileNames(f);
    if AsciiFile(f) {
      FileIsClean(f);
      LineStarts();
      DocumentIsRead(rs, "\n  ", "\n");
      TableIsRead(f);
    } else {
      if Ascii(Encoded(f)) { FileTextAscii(f); }
      NotBlank(rs, "\n  ", "\n");
      NonAsciiIsRefused(Encoded(f));
    }
  }

  lemma RowCount(f: CurrentFile) ensures |FileRows(f)| == 10 {}

  lemma LineStarts() ensures Spaces("\n  ") && Spaces("\n") {}

  /** Main result: a `current.json` round-trips exactly when its strings are below 0x80 and its counters are exact. */
  lemma RoundTrip(f: CurrentFile)
    requires InRange(f)
    ensures Parse(Encoded(f)) == Good(Read(f)) <==> AsciiFile(f) && CountersSurvive(f)
  {
    hide Parse, Encoded, AsciiFile, Through, Survives;
    WrittenIsRead(f);
    ThroughSurvives(f.seqNo);
    ThroughSurvives(f.rotationCount);
    if f.cache.Some? {
      var c := f.cache.value;
      ThroughSurvives(c.files);
      ThroughSurvives(c.bytes);
      ThroughSurvives(c.overCapBytes);
      ThroughSurvives(c.overCapFiles);
    }
  }
}
