/**
 What `load` can find in a text (crates/whirl-core/src/state.rs:606-643, 735-752, 882-896): whoever wrote
 the text, every counter in the index has already been through an `f64`.
 */
module IndexLoads {
  import opened Basics
  import opened CacheIndex
  import opened JsonTree
  import JsonSpec
  import opened JsonNumbers
  import opened StateReading
  import opened IndexState
  import Floats
  import HistoryState

  lemma {:induction false} FieldIsSettled(fs: Table, key: string)
    requires SettledEntries(fs) && FieldOf(fs, key).Some?
    ensures AllSettled(FieldOf(fs, key).value.value)
  {
    if fs[0].0 != key {
      FieldIsSettled(fs[1..], key);
    }
  }

  /** A counter that was read is one that survives being written and read again. */
  lemma CounterIsSettled(fs: Table, key: string)
    requires SettledEntries(fs) && OptInt(fs, key).Good?
    ensures var n := Or(OptInt(fs, key).value, 0); n <= Floats.U64_MAX && Survives(n)
  {
    hide FieldOf, Floats.Exact, SettledEntries;
    assert Floats.Exact(0) by { ZeroIsExact(); }
    if Present(fs, key).Some? {
      FieldIsSettled(fs, key);
    }
  }

  lemma ZeroIsExact()
    ensures Floats.Exact(0)
  {
    Floats.SmallIsExact(0);
    Floats.ExactIsFixed(0);
  }

  lemma EntryIsSettled(n: Node)
    requires AllSettled(n.value) && ReadEntry(n).Good?
    ensures EntryInRange(ReadEntry(n).value) && Survives(ReadEntry(n).value.bytes)
  {
    hide OptStr, ReqStr, OptInt, OptBool, Survives, Settled, HistoryState.KindOf;
    CounterIsSettled(n.value.entries, "bytes");
  }

  ghost predicate SettledIndex(m: map<string, Entry>)
  {
    forall k :: k in m ==> EntryInRange(m[k]) && Survives(m[k].bytes)
  }

  lemma {:induction false} EntriesFromAreSettled(fs: Table, i: nat, done: map<string, Entry>)
    requires i <= |fs| && SettledEntries(fs) && SettledIndex(done) && EntriesFrom(fs, i, done).Good?
    ensures SettledIndex(EntriesFrom(fs, i, done).value)
    decreases |fs| - i
  {
    hide ReadEntry, EntryInRange, Survives, AllSettled;
    if i < |fs| {
      EntryIsSettled(fs[i].1);
      EntriesFromAreSettled(fs, i + 1, done[fs[i].0 := ReadEntry(fs[i].1).value]);
    }
  }

  lemma TableIsSettled(fs: Table)
    requires SettledEntries(fs) && OptObject(fs, "entries").Good?
    ensures SettledEntries(Or(OptObject(fs, "entries").value, []))
  {
    hide FieldOf, SettledEntries;
    if Present(fs, "entries").Some? {
      FieldIsSettled(fs, "entries");
      ObjectEntries(Present(fs, "entries").value);
    } else {
      assert SettledEntries([]) by { NoEntries(); }
    }
  }

  lemma NoEntries() ensures SettledEntries([]) {}

  lemma ObjectEntries(n: Node)
    requires AllSettled(n.value) && n.value.Obj?
    ensures SettledEntries(n.value.entries)
  {
  }

  lemma DocumentIsSettled(text: string)
    requires Document(text).Good?
    ensures SettledEntries(Document(text).value)
  {
    hide Blank, JsonSpec.Parse, SettledEntries, AllSettled, BareValue;
    AcceptedNumbersAreSettled(text);
    var v := JsonSpec.Parse(text).value.value;
    BareKeepsNumbers(v);
    ObjectEntries(Bare(JsonSpec.Parse(text).value));
  }

  /** Main result: an index that was read from any text is in range, and all its counters survive another round. */
  lemma ParsedIsSettled(text: string, f: IndexFile)
    requires Parsed(text) == Good(Read(f))
    ensures InRange(f) && CountersSurvive(f)
  {
    hide Document, SchemaOf, OptInt, OptStr, OptObject, DanglingNodes, DanglingFrom, EntriesFrom, SettledEntries;
    hide EntryInRange, Survives;
    var fs := Document(text).value;
    DocumentIsSettled(text);
    CounterIsSettled(fs, "seq");
    TableIsSettled(fs);
    EntriesFromAreSettled(Or(OptObject(fs, "entries").value, []), 0, map[]);
  }
}
