/**
 What the state file readers tolerate (crates/whirl-core/src/state.rs:342-377, 453-468, 606-643, 732-899): fields that
 are absent or null, fields they do not know, and numbers that are no counters.
 */
module TolerantReading {
  import opened Basics
  import opened CacheIndex
  import opened JsonLayout
  import opened JsonTree
  import opened StateLayouts
  import opened StateReading
  import CurrentState
  import Floats
  import HistoryState
  import IndexState
  import NewerSchemas

  // --- One field ----------------------------------------------------------------------

  /** A number is a counter if it is whole and within 64 bits; 2^64 itself is the largest counter. */
  lemma CounterIs(x: real, n: nat)
    ensures AsCounter(x) == Some(n) <==>
            || (x == n as real && n <= 18446744073709551615)
            || (x == 18446744073709551616.0 && n == 18446744073709551615)
  {
  }

  /** Absent or null. */
  predicate Unset(fs: Table, key: string)
  {
    FieldOf(fs, key) == None || FieldOf(fs, key).value.value.Null?
  }

  /** A field that is unset counts as none, and as missing where it is required. */
  lemma UnsetIsNone(fs: Table, key: string)
    requires Unset(fs, key)
    ensures OptStr(fs, key) == Good(None) && OptInt(fs, key) == Good(None) && OptBool(fs, key) == Good(None)
    ensures OptObject(fs, key) == Good(None) && ReqStr(fs, key) == Bad(Missing(key))
  {
    hide FieldOf;
  }

  /** A field that is set is read if it is of the right kind, and refused otherwise. */
  lemma SetIsRead(fs: Table, key: string, n: nat)
    requires !Unset(fs, key)
    ensures
      var v := FieldOf(fs, key).value.value;
      && OptStr(fs, key) == (if v.Str? then Good(Some(v.text)) else Bad(Mismatch(key)))
      && ReqStr(fs, key) == (if v.Str? then Good(v.text) else Bad(Mismatch(key)))
      && OptBool(fs, key) == (if v.Bool? then Good(Some(v.flag)) else Bad(Mismatch(key)))
      && (OptInt(fs, key) == Good(Some(n)) <==> v.Num? && AsCounter(v.number) == Some(n))
      && (OptInt(fs, key).Bad? <==> !v.Num? || AsCounter(v.number).None?)
      && (OptObject(fs, key).Bad? <==> !v.Obj?)
  {
    hide FieldOf, AsCounter;
  }

  lemma {:induction false} NoSuchField(fs: Table, key: string)
    requires forall i :: 0 <= i < |fs| ==> fs[i].0 != key
    ensures FieldOf(fs, key) == None
  {
    if |fs| > 0 { NoSuchField(fs[1..], key); }
  }

  /** No row of a name but, perhaps, a null one. */
  predicate NoRow(rs: seq<Row>, key: string)
  {
    forall i :: 0 <= i < |rs| ==> rs[i].0 != key || rs[i].1 == LNull
  }

  lemma NoRowIsUnset(rs: seq<Row>, key: string)
    requires DistinctNames(rs) && NoRow(rs, key)
    ensures Unset(Entries(rs), key)
  {
    hide FieldOf;
    if i: nat :| i < |rs| && rs[i].0 == key {
      RowIsThere(rs, i);
    } else {
      assert forall i :: 0 <= i < |rs| ==> Entries(rs)[i].0 == rs[i].0;
      NoSuchField(Entries(rs), key);
    }
  }

  // --- Files ----------------------------------------------------------------------------

  lemma NotNewer(n: nat)
    requires n <= 1
    ensures Through(n) == n
  {
    Floats.SmallIsExact(n);
    hide Floats.Rounded;
  }

  const CURRENT_FIELDS := [
    "seq", "written_at", "written_by", "paused", "rotation_count", "next_at", "last_error", "anchor", "cache"]
  const HISTORY_FIELDS := ["seq", "written_at", "entries"]
  const INDEX_FIELDS := ["seq", "written_at", "root_id", "entries", "dangling"]

  predicate AllUnset(fs: Table, keys: seq<string>) { forall i :: 0 <= i < |keys| ==> Unset(fs, keys[i]) }

  lemma RowsAreUnset(rs: seq<Row>, keys: seq<string>)
    requires DistinctNames(rs) && forall i :: 0 <= i < |keys| ==> NoRow(rs, keys[i])
    ensures AllUnset(Entries(rs), keys)
  {
    forall i | 0 <= i < |keys| ensures Unset(Entries(rs), keys[i]) { NoRowIsUnset(rs, keys[i]); }
  }

  lemma BareCurrent(fs: Table)
    requires SchemaOf(fs).Good? && SchemaOf(fs).value <= 1 && AllUnset(fs, CURRENT_FIELDS)
    ensures CurrentState.ReadTable(fs) == Good(Read(CurrentState.CurrentFile(0, "", None, false, 0, None, None, None, None)))
  {
    var keys := CURRENT_FIELDS;
    forall i | 0 <= i < 9 ensures Unset(fs, keys[i]) {}
    hide AllUnset, Unset, SchemaOf, OptStr, OptInt, OptBool, OptObject, ReqStr;
    UnsetIsNone(fs, keys[0]);
    UnsetIsNone(fs, keys[1]);
    UnsetIsNone(fs, keys[2]);
    UnsetIsNone(fs, keys[3]);
    UnsetIsNone(fs, keys[4]);
    UnsetIsNone(fs, keys[5]);
    UnsetIsNone(fs, keys[6]);
    UnsetIsNone(fs, keys[7]);
    UnsetIsNone(fs, keys[8]);
  }

  lemma BareIndex(fs: Table)
    requires SchemaOf(fs).Good? && SchemaOf(fs).value <= 1 && AllUnset(fs, INDEX_FIELDS)
    ensures IndexState.ReadTable(fs) == Good(Read(IndexFile(0, "", "", map[], [])))
  {
    var keys := INDEX_FIELDS;
    forall i | 0 <= i < 5 ensures Unset(fs, keys[i]) {}
    UnsetIsNone(fs, keys[0]);
    UnsetIsNone(fs, keys[1]);
    UnsetIsNone(fs, keys[2]);
    UnsetIsNone(fs, keys[3]);
    hide AllUnset, SchemaOf, OptStr, OptInt, OptObject, ReqStr;
    assert Unset(fs, keys[4]) && keys[4] == "dangling";
    assert IndexState.DanglingNodes(fs) == Good([]);
  }

  /** Main result: a file of the current schema in which everything is absent or null, and anything else unknown, is the empty one. */
  lemma BareFileIsRead(text: string, rs: seq<Row>, n: nat, before: string, last: string)
    requires NewerSchemas.IsSchemaText(text, rs, n, before, last) && n <= 1
    ensures
      (forall i :: 0 <= i < |CURRENT_FIELDS| ==> NoRow(rs, CURRENT_FIELDS[i])) ==>
        CurrentState.Parse(text) == Good(Read(CurrentState.CurrentFile(0, "", None, false, 0, None, None, None, None)))
    ensures
      (forall i :: 0 <= i < |INDEX_FIELDS| ==> NoRow(rs, INDEX_FIELDS[i])) ==>
        IndexState.Parsed(text) == Good(Read(IndexFile(0, "", "", map[], [])))
  {
    hide NewerSchemas.IsSchemaText, Document, SchemaOf, NoRow, Unset, CurrentState.ReadTable, IndexState.ReadTable, Entries;
    NewerSchemas.SchemaFound(text, rs, n, before, last);
    NotNewer(n);
    NamesDiffer(text, rs, n, before, last);
    if forall i :: 0 <= i < |CURRENT_FIELDS| ==> NoRow(rs, CURRENT_FIELDS[i]) {
      RowsAreUnset(rs, CURRENT_FIELDS);
      BareCurrent(Entries(rs));
    }
    if forall i :: 0 <= i < |INDEX_FIELDS| ==> NoRow(rs, INDEX_FIELDS[i]) {
      RowsAreUnset(rs, INDEX_FIELDS);
      BareIndex(Entries(rs));
    }
  }

  lemma NamesDiffer(text: string, rs: seq<Row>, n: nat, before: string, last: string)
    requires NewerSchemas.IsSchemaText(text, rs, n, before, last)
    ensures DistinctNames(rs)
  {
  }

  // --- Entries --------------------------------------------------------------------------

  const ENTRY_FIELDS := ["bytes", "first_seen", "last_used", "source", "origin", "width", "height", "pinned"]

  /** Main result: an index entry needs its extension, its kind and its origin key, and nothing else. */
  lemma BareEntryIsRead(n: Node)
    requires n.value.Obj? && AllUnset(n.value.entries, ENTRY_FIELDS)
    ensures
      var fs := n.value.entries;
      if ReqStr(fs, "ext").Bad? || ReqStr(fs, "kind").Bad? || ReqStr(fs, "origin_key").Bad?
         || HistoryState.KindOf(ReqStr(fs, "kind").value).Bad?
      then IndexState.ReadEntry(n).Bad?
      else
        IndexState.ReadEntry(n)
        == Good(Entry(ReqStr(fs, "ext").value, 0, "", "", "", HistoryState.KindOf(ReqStr(fs, "kind").value).value, None,
                      ReqStr(fs, "origin_key").value, None, None, false))
  {
    var fs, keys := n.value.entries, ENTRY_FIELDS;
    forall i | 0 <= i < 8 ensures Unset(fs, keys[i]) {}
    hide AllUnset, Unset, OptStr, OptInt, OptBool, ReqStr, HistoryState.KindOf;
    UnsetIsNone(fs, keys[0]);
    UnsetIsNone(fs, keys[1]);
    UnsetIsNone(fs, keys[2]);
    UnsetIsNone(fs, keys[3]);
    UnsetIsNone(fs, keys[4]);
    UnsetIsNone(fs, keys[5]);
    UnsetIsNone(fs, keys[6]);
    UnsetIsNone(fs, keys[7]);
  }

  /** The cache facts of an object with none of their fields, and an anchor with nothing but its digest. */
  lemma BarePartsAreRead(fs: Table, inner: Table)
    requires OptObject(fs, "cache") == Good(Some(inner)) == OptObject(fs, "anchor")
    ensures
      AllUnset(inner, ["root_id", "files", "bytes", "over_cap_bytes", "over_cap_files"]) ==>
        CurrentState.ReadCache(fs) == Good(Some(CurrentState.CacheFacts(None, 0, 0, 0, 0)))
    ensures
      AllUnset(inner, ["cached_path", "set_at", "display_mode"]) ==>
        CurrentState.ReadAnchor(fs) ==
          if ReqStr(inner, "digest").Bad? then Bad(ReqStr(inner, "digest").fault)
          else Good(Some(CurrentState.Anchor(ReqStr(inner, "digest").value, None, None, None)))
  {
    var facts, details := ["root_id", "files", "bytes", "over_cap_bytes", "over_cap_files"], ["cached_path", "set_at", "display_mode"];
    hide Unset, OptStr, OptInt, OptObject, ReqStr;
    if AllUnset(inner, facts) {
      UnsetIsNone(inner, facts[0]);
      UnsetIsNone(inner, facts[1]);
      UnsetIsNone(inner, facts[2]);
      UnsetIsNone(inner, facts[3]);
      UnsetIsNone(inner, facts[4]);
    }
    if AllUnset(inner, details) {
      UnsetIsNone(inner, details[0]);
      UnsetIsNone(inner, details[1]);
      UnsetIsNone(inner, details[2]);
    }
  }

  /** A width or a height that does not fit 32 bits is dropped. */
  lemma WideSizesAreDropped(n: Node)
    requires IndexState.ReadEntry(n).Good?
    ensures
      var e, fs := IndexState.ReadEntry(n).value, n.value.entries;
      forall w: nat :: OptInt(fs, "width") == Good(Some(w)) ==> e.width == if w <= 4294967295 then Some(w) else None
    ensures
      var e, fs := IndexState.ReadEntry(n).value, n.value.entries;
      forall h: nat :: OptInt(fs, "height") == Good(Some(h)) ==> e.height == if h <= 4294967295 then Some(h) else None
  {
    hide OptStr, OptInt, OptBool, ReqStr, HistoryState.KindOf;
  }

  // --- Fields no reader knows -------------------------------------------------------------

  predicate Agree(fs: Table, gs: Table, keys: seq<string>)
  {
    FieldOf(fs, "schema") == FieldOf(gs, "schema") && forall i :: 0 <= i < |keys| ==> FieldOf(fs, keys[i]) == FieldOf(gs, keys[i])
  }

  predicate SameFields(fs: Table, gs: Table, key: string)
  {
    && OptStr(fs, key) == OptStr(gs, key) && OptInt(fs, key) == OptInt(gs, key) && OptBool(fs, key) == OptBool(gs, key)
    && OptObject(fs, key) == OptObject(gs, key) && Present(fs, key) == Present(gs, key) && FieldOf(fs, key) == FieldOf(gs, key)
  }

  lemma AllSame(fs: Table, gs: Table, keys: seq<string>)
    requires Agree(fs, gs, keys)
    ensures SchemaOf(fs) == SchemaOf(gs) && forall i :: 0 <= i < |keys| ==> SameFields(fs, gs, keys[i])
  {
    hide FieldOf, AsCounter;
  }

  lemma CurrentAgrees(fs: Table, gs: Table)
    requires Agree(fs, gs, CURRENT_FIELDS)
    ensures CurrentState.ReadTable(fs) == CurrentState.ReadTable(gs)
  {
    var keys := CURRENT_FIELDS;
    AllSame(fs, gs, keys);
    hide SchemaOf, OptStr, OptInt, OptBool, OptObject, ReqStr, Present, FieldOf;
    assert SameFields(fs, gs, keys[0]) && SameFields(fs, gs, keys[1]) && SameFields(fs, gs, keys[2]) && SameFields(fs, gs, keys[3]);
    assert SameFields(fs, gs, keys[4]) && SameFields(fs, gs, keys[5]) && SameFields(fs, gs, keys[6]);
    assert SameFields(fs, gs, keys[7]) && SameFields(fs, gs, keys[8]);
  }

  lemma HistoryAgrees(fs: Table, gs: Table)
    requires Agree(fs, gs, HISTORY_FIELDS)
    ensures HistoryState.ReadTable(fs) == HistoryState.ReadTable(gs)
  {
    var keys := HISTORY_FIELDS;
    AllSame(fs, gs, keys);
    hide SchemaOf, OptStr, OptInt, OptBool, OptObject, Present, FieldOf, HistoryState.EntriesFrom;
    assert SameFields(fs, gs, keys[0]) && SameFields(fs, gs, keys[1]) && SameFields(fs, gs, keys[2]);
  }

  lemma IndexAgrees(fs: Table, gs: Table)
    requires Agree(fs, gs, INDEX_FIELDS)
    ensures IndexState.ReadTable(fs) == IndexState.ReadTable(gs)
  {
    var keys := INDEX_FIELDS;
    AllSame(fs, gs, keys);
    hide SchemaOf, OptStr, OptInt, OptBool, OptObject, Present, FieldOf, IndexState.EntriesFrom, IndexState.DanglingFrom;
    assert SameFields(fs, gs, keys[0]) && SameFields(fs, gs, keys[1]) && SameFields(fs, gs, keys[2]);
    assert SameFields(fs, gs, keys[3]) && SameFields(fs, gs, keys[4]);
  }

  /** Main result: two objects with the same known fields are read as the same file, whatever else is in them. */
  lemma UnknownFieldsAreIgnored(fs: Table, gs: Table)
    ensures Agree(fs, gs, CURRENT_FIELDS) ==> CurrentState.ReadTable(fs) == CurrentState.ReadTable(gs)
    ensures Agree(fs, gs, HISTORY_FIELDS) ==> HistoryState.ReadTable(fs) == HistoryState.ReadTable(gs)
    ensures Agree(fs, gs, INDEX_FIELDS) ==> IndexState.ReadTable(fs) == IndexState.ReadTable(gs)
  {
    hide Agree, CurrentState.ReadTable, HistoryState.ReadTable, IndexState.ReadTable;
    if Agree(fs, gs, CURRENT_FIELDS) { CurrentAgrees(fs, gs); }
    if Agree(fs, gs, HISTORY_FIELDS) { HistoryAgrees(fs, gs); }
    if Agree(fs, gs, INDEX_FIELDS) { IndexAgrees(fs, gs); }
  }
}
