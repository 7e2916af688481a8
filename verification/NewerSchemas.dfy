/**
 Files of a newer schema (crates/whirl-core/src/state.rs:342-363, 453-468, 606-622; crates/whirld/src/cache.rs:275-281):
 they are recognised by their number alone, whatever else they hold, and left as they are.
 */
module NewerSchemas {
  import opened JsonLayout
  import opened StateLayouts
  import opened StateReading
  import CurrentState
  import Floats
  import HistoryState
  import IndexState
  import JsonSpec
  import Sweep

  lemma StaysNewer(n: nat)
    requires n > 1
    ensures Through(n) > 1
  {
    hide Floats.Rounded, Floats.Exact;
    if n <= 0x20_0000_0000_0000 {
      Floats.SmallIsExact(n);
    } else {
      Floats.SmallIsExact(0x20_0000_0000_0000);
      Floats.ExactIsFixed(0x20_0000_0000_0000);
      Floats.RoundedIsNearest(n, 0x20_0000_0000_0000);
    }
  }

  /** The text of an object whose first row is a schema number. */
  predicate IsSchemaText(text: string, rs: seq<Row>, n: nat, before: string, last: string)
  {
    && |rs| > 0 && rs[0] == ("schema", LInt(n)) && Spaces(before) && Spaces(last)
    && DistinctNames(rs) && AsciiNames(rs) && CleanValues(rs)
    && text == Text(Object(rs, before, last)) + "\n"
  }

  lemma SchemaRow(rs: seq<Row>, n: nat)
    requires |rs| > 0 && DistinctNames(rs) && rs[0] == ("schema", LInt(n)) && n <= Floats.U64_MAX
    ensures SchemaOf(Entries(rs)) == Good(Through(n))
  {
    hide FieldOf, Entries, DistinctNames, AsCounter, JsonSpec.Nearest, Floats.Rounded;
    RowIsThere(rs, 0);
    CounterRead(n);
  }

  lemma SchemaFound(text: string, rs: seq<Row>, n: nat, before: string, last: string)
    requires IsSchemaText(text, rs, n, before, last) && n <= Floats.U64_MAX
    ensures Document(text) == Good(Entries(rs)) && SchemaOf(Entries(rs)) == Good(Through(n))
  {
    hide Document, Text, Object, Spaces, CleanValues, AsciiNames, DistinctNames, Entries, SchemaOf, Through;
    DocumentIsRead(rs, before, last);
    SchemaRow(rs, n);
  }

  /** Main result: whatever its rows are, a file with a schema above 1 is newer to all three readers. */
  lemma NewerIsLeft(text: string, rs: seq<Row>, n: nat, before: string, last: string)
    requires IsSchemaText(text, rs, n, before, last) && 1 < n <= Floats.U64_MAX
    ensures CurrentState.Parse(text) == Good(SchemaNewer(Through(n)))
    ensures HistoryState.Parsed(text) == Good(SchemaNewer(Through(n)))
    ensures IndexState.Parsed(text) == Good(SchemaNewer(Through(n)))
  {
    hide IsSchemaText, Document, SchemaOf, Through;
    SchemaFound(text, rs, n, before, last);
    StaysNewer(n);
  }

  /** A text is newer to a reader if and only if it is an object whose schema is a whole number above 1. */
  lemma NewerExactlyWhen(text: string, found: nat)
    ensures
      CurrentState.Parse(text) == Good(SchemaNewer(found))
      <==> Document(text).Good? && SchemaOf(Document(text).value) == Good(found) && found > 1
    ensures
      HistoryState.Parsed(text) == Good(SchemaNewer(found))
      <==> Document(text).Good? && SchemaOf(Document(text).value) == Good(found) && found > 1
    ensures
      IndexState.Parsed(text) == Good(SchemaNewer(found))
      <==> Document(text).Good? && SchemaOf(Document(text).value) == Good(found) && found > 1
  {
    hide Document, SchemaOf, FieldOf;
  }

  /** So no sweep and no recording can load such an index. */
  lemma NewerIndexIsNotLoaded(text: string, rs: seq<Row>, n: nat, before: string, last: string, now: int)
    requires IsSchemaText(text, rs, n, before, last) && 1 < n <= Floats.U64_MAX
    ensures Sweep.Loads(Sweep.Content(text), now).None?
  {
    hide IsSchemaText, IndexState.Parsed, Through;
    NewerIsLeft(text, rs, n, before, last);
  }
}
