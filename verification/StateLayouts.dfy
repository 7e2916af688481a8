/**
 How the state files of crates/whirl-core/src/state.rs are laid out: objects of named rows and arrays
 of items, each on a line of its own, written from left to right.
 */
module StateLayouts {
  import opened Basics
  import opened JsonTree
  import opened JsonSpec
  import opened JsonLayout
  import opened JsonRoundTrip

  type Row = (string, Layout)

  // --- Objects ----------------------------------------------------------------------

  function Rows(rs: seq<Row>, before: string, last: string): (fields: Fields)
    ensures fields.Field? <==> |rs| > 0
  {
    if |rs| == 0 then NoFields
    else Field(before, rs[0].0, rs[0].1, if |rs| == 1 then last else "", Rows(rs[1..], before, last))
  }

  function Object(rs: seq<Row>, before: string, last: string): Layout { LObj(Rows(rs, before, last), "") }

  function RowText(r: Row, before: string): string { before + Quoted(r.0) + ": " + Text(r.1) }

  /** The rows with the commas between them. */
  function Joined(rs: seq<Row>, before: string): string
  {
    if |rs| == 0 then ""
    else if |rs| == 1 then RowText(rs[0], before)
    else RowText(rs[0], before) + "," + Joined(rs[1..], before)
  }

  lemma {:induction false} JoinedSnoc(rs: seq<Row>, r: Row, before: string)
    ensures Joined(rs + [r], before) == (if |rs| == 0 then "" else Joined(rs, before) + ",") + RowText(r, before)
  {
    hide RowText;
    var all := rs + [r];
    if |rs| > 0 {
      assert all[1..] == rs[1..] + [r];
      JoinedSnoc(rs[1..], r, before);
      var a, b := RowText(rs[0], before), RowText(r, before);
      if |rs| > 1 {
        assert a + "," + (Joined(rs[1..], before) + "," + b) == a + "," + Joined(rs[1..], before) + "," + b;
      } else {
        assert a + "," + ("" + b) == a + "," + b;
      }
    }
  }

  lemma {:induction false} RowsText(rs: seq<Row>, before: string, last: string)
    requires |rs| > 0
    ensures FieldsText(Rows(rs, before, last)) == Joined(rs, before) + last + "}"
  {
    hide Text, Quoted;
    var a := RowText(rs[0], before);
    if |rs| > 1 {
      RowsText(rs[1..], before, last);
      var j := Joined(rs[1..], before);
      assert a + "" + ("," + (j + last + "}")) == a + "," + j + last + "}";
    }
  }

  lemma ObjectText(rs: seq<Row>, before: string, last: string)
    requires |rs| > 0
    ensures Text(Object(rs, before, last)) == "{" + Joined(rs, before) + last + "}"
  {
    hide FieldsText, Joined;
    RowsText(rs, before, last);
    assert "{" + (Joined(rs, before) + last + "}") == "{" + Joined(rs, before) + last + "}";
  }

  /** A name that its quotes need not escape. */
  predicate PlainName(name: string)
  {
    forall i :: 0 <= i < |name| ==> ' ' <= name[i] < 0x80 as char && name[i] != '\"' && name[i] != '\\'
  }

  lemma {:induction false} PlainNameEscaped(name: string)
    requires PlainName(name)
    ensures Escaped(name) == name
  {
    if |name| > 0 {
      PlainNameEscaped(name[1..]);
      assert name == [name[0]] + name[1..];
    }
  }

  /**
   `push_str` of one `"name": value` line: `text` holds the first i of the rows and the end of their
   last line, and the result holds one row more.
   */
  method PushRow(text: string, indent: string, name: string, value: string, sep: string,
                 ghost rs: seq<Row>, ghost i: nat)
    returns (t: string)
    requires i < |rs| && text == "{" + Joined(rs[..i], "\n" + indent) + (if i == 0 then "" else ",") + "\n"
    requires PlainName(name) && rs[i].0 == name && Text(rs[i].1) == value
    ensures t == "{" + Joined(rs[..i + 1], "\n" + indent) + sep + "\n"
  {
    hide Joined, Escaped, PlainName;
    var line := indent + "\"" + name + "\": " + value + sep + "\n";
    t := text + line;
    PlainNameEscaped(name);
    assert line == indent + Quoted(name) + ": " + value + sep + "\n";
    JoinedSnoc(rs[..i], rs[i], "\n" + indent);
    assert rs[..i + 1] == rs[..i] + [rs[i]];
    assert i == 0 ==> Joined(rs[..i], "\n" + indent) == "" by {
      NoRowsJoined("\n" + indent);
      assert i == 0 ==> rs[..i] == [];
    }
    PushedLine(Joined(rs[..i], "\n" + indent), i == 0, indent, Quoted(name), value, sep);
  }

  lemma OpenedRows(rs: seq<Row>, before: string)
    ensures "{\n" == "{" + Joined(rs[..0], before) + "" + "\n"
  {
    assert rs[..0] == [];
  }

  lemma NoRowsJoined(before: string) ensures Joined([], before) == "" {}

  lemma PushedLine(j: string, first: bool, indent: string, q: string, value: string, sep: string)
    requires first ==> j == ""
    ensures
      "{" + j + (if first then "" else ",") + "\n" + (indent + q + ": " + value + sep + "\n")
      == "{" + ((if first then "" else j + ",") + ("\n" + indent + q + ": " + value)) + sep + "\n"
  {
    if first {
      assert "{" + j + "" + "\n" == "{\n";
    }
  }

  function Entries(rs: seq<Row>): seq<(string, Node)>
  {
    seq(|rs|, i requires 0 <= i < |rs| => (rs[i].0, Node(Tree(rs[i].1), 0)))
  }

  lemma {:induction false} RowsTrees(rs: seq<Row>, before: string, last: string)
    ensures FieldTrees(Rows(rs, before, last)) == Entries(rs)
  {
    hide Tree;
    if |rs| > 0 {
      RowsTrees(rs[1..], before, last);
      assert Entries(rs) == [(rs[0].0, Node(Tree(rs[0].1), 0))] + Entries(rs[1..]);
    }
  }

  predicate DistinctNames(rs: seq<Row>) { forall i, j :: 0 <= i < j < |rs| ==> rs[i].0 != rs[j].0 }

  predicate AsciiNames(rs: seq<Row>) { forall i :: 0 <= i < |rs| ==> Ascii(rs[i].0) }

  predicate CleanValues(rs: seq<Row>) { forall i :: 0 <= i < |rs| ==> Clean(rs[i].1) }

  lemma {:induction false} NotAmong(rs: seq<Row>, before: string, last: string, key: string)
    requires forall i :: 0 <= i < |rs| ==> rs[i].0 != key
    ensures !HasKey(Rows(rs, before, last), key)
  {
    if |rs| > 0 { NotAmong(rs[1..], before, last, key); }
  }

  lemma {:induction false} RowsClean(rs: seq<Row>, before: string, last: string)
    requires Spaces(before) && Spaces(last) && DistinctNames(rs) && AsciiNames(rs) && CleanValues(rs)
    ensures CleanFields(Rows(rs, before, last))
  {
    hide Clean, Ascii, Spaces, HasKey;
    if |rs| > 0 {
      RowsClean(rs[1..], before, last);
      NotAmong(rs[1..], before, last, rs[0].0);
      assert Spaces("") by { NoSpaces(); }
    }
  }

  lemma ObjectClean(rs: seq<Row>, before: string, last: string)
    requires Spaces(before) && Spaces(last) && DistinctNames(rs) && AsciiNames(rs) && CleanValues(rs)
    ensures Clean(Object(rs, before, last))
    ensures Tree(Object(rs, before, last)) == Obj(Entries(rs))
  {
    hide CleanFields, FieldTrees;
    RowsClean(rs, before, last);
    RowsTrees(rs, before, last);
  }

  /** An object whose text is below 0x80 has only such values. */
  lemma {:induction false} JoinedAscii(rs: seq<Row>, before: string, i: nat)
    requires i < |rs| && Ascii(Joined(rs, before))
    ensures Ascii(rs[i].0) && Ascii(Text(rs[i].1))
  {
    hide RowText, Ascii, Text, Quoted;
    if |rs| > 1 {
      AsciiConcat(RowText(rs[0], before) + ",", Joined(rs[1..], before));
      AsciiConcat(RowText(rs[0], before), ",");
    }
    if i == 0 {
      RowTextAscii(rs[0], before);
    } else {
      JoinedAscii(rs[1..], before, i - 1);
    }
  }

  lemma RowTextAscii(r: Row, before: string)
    requires Ascii(RowText(r, before))
    ensures Ascii(r.0) && Ascii(Text(r.1))
  {
    hide Ascii, Text, Quoted;
    AsciiConcat(before, Quoted(r.0));
    AsciiConcat(before + Quoted(r.0), ": ");
    AsciiConcat(before + Quoted(r.0) + ": ", Text(r.1));
    QuotedAscii(r.0);
  }

  lemma ObjectAscii(rs: seq<Row>, before: string, last: string, i: nat)
    requires i < |rs| && Ascii(Text(Object(rs, before, last)))
    ensures Ascii(rs[i].0) && Ascii(Text(rs[i].1))
  {
    hide Ascii, Text, Joined, Object;
    ObjectText(rs, before, last);
    AsciiConcat("{", Joined(rs, before));
    AsciiConcat("{" + Joined(rs, before), last);
    AsciiConcat("{" + Joined(rs, before) + last, "}");
    JoinedAscii(rs, before, i);
  }

  // --- Arrays -----------------------------------------------------------------------

  function ItemsOf(ds: seq<Layout>, before: string, last: string): (items: Items)
    ensures items.Item? <==> |ds| > 0
  {
    if |ds| == 0 then NoItems
    else Item(before, ds[0], if |ds| == 1 then last else "", ItemsOf(ds[1..], before, last))
  }

  function Array(ds: seq<Layout>, before: string, last: string): Layout { LArr(ItemsOf(ds, before, last), "") }

  function JoinedItems(ds: seq<Layout>, before: string): string
  {
    if |ds| == 0 then ""
    else if |ds| == 1 then before + Text(ds[0])
    else before + Text(ds[0]) + "," + JoinedItems(ds[1..], before)
  }

  lemma {:induction false} JoinedItemsSnoc(ds: seq<Layout>, d: Layout, before: string)
    ensures
      JoinedItems(ds + [d], before)
      == (if |ds| == 0 then "" else JoinedItems(ds, before) + ",") + (before + Text(d))
  {
    hide Text;
    var all := ds + [d];
    if |ds| > 0 {
      assert all[1..] == ds[1..] + [d];
      JoinedItemsSnoc(ds[1..], d, before);
      var a, b := before + Text(ds[0]), before + Text(d);
      if |ds| > 1 {
        assert a + "," + (JoinedItems(ds[1..], before) + "," + b) == a + "," + JoinedItems(ds[1..], before) + "," + b;
      } else {
        assert a + "," + ("" + b) == a + "," + b;
      }
    }
  }

  lemma {:induction false} ItemsOfText(ds: seq<Layout>, before: string, last: string)
    requires |ds| > 0
    ensures ItemsText(ItemsOf(ds, before, last)) == JoinedItems(ds, before) + last + "]"
  {
    hide Text;
    var a := before + Text(ds[0]);
    if |ds| > 1 {
      ItemsOfText(ds[1..], before, last);
      var j := JoinedItems(ds[1..], before);
      assert a + "" + ("," + (j + last + "]")) == a + "," + j + last + "]";
    }
  }

  lemma ArrayTextIs(ds: seq<Layout>, before: string, last: string)
    ensures |ds| > 0 ==> Text(Array(ds, before, last)) == "[" + JoinedItems(ds, before) + last + "]"
    ensures |ds| == 0 ==> Text(Array(ds, before, last)) == "[" + JoinedItems(ds, before) + "]"
  {
    hide ItemsText;
    if |ds| > 0 {
      hide JoinedItems;
      ItemsOfText(ds, before, last);
      assert "[" + (JoinedItems(ds, before) + last + "]") == "[" + JoinedItems(ds, before) + last + "]";
    }
  }

  /** One more array item after the items of `done`, with its comma. */
  method PushItem(text: string, head: string, before: string, value: string, ghost done: seq<Layout>, ghost d: Layout,
                  index: nat)
    returns (t: string)
    requires |done| == index && Text(d) == value
    requires text == head + JoinedItems(done, before)
    ensures t == head + JoinedItems(done + [d], before)
  {
    hide JoinedItems;
    t := text;
    if index > 0 {
      t := t + ",";
    }
    t := t + (before + value);
    JoinedItemsSnoc(done, d, before);
    var j := JoinedItems(done, before);
    if index > 0 {
      assert head + j + "," + (before + value) == head + (j + "," + (before + value));
    } else {
      assert j == "" by { NoneJoined(before); assert done == []; }
      assert head + "" + (before + value) == head + ("" + (before + value));
    }
  }

  lemma NoneJoined(before: string) ensures JoinedItems([], before) == "" {}

  function Elements(ds: seq<Layout>): seq<Node>
  {
    seq(|ds|, i requires 0 <= i < |ds| => Node(Tree(ds[i]), 0))
  }

  lemma {:induction false} ItemsOfTrees(ds: seq<Layout>, before: string, last: string)
    ensures ItemTrees(ItemsOf(ds, before, last)) == Elements(ds)
  {
    hide Tree;
    if |ds| > 0 {
      ItemsOfTrees(ds[1..], before, last);
      assert Elements(ds) == [Node(Tree(ds[0]), 0)] + Elements(ds[1..]);
    }
  }

  lemma {:induction false} ItemsOfClean(ds: seq<Layout>, before: string, last: string)
    requires Spaces(before) && Spaces(last) && forall i :: 0 <= i < |ds| ==> Clean(ds[i])
    ensures CleanItems(ItemsOf(ds, before, last))
  {
    hide Clean, Spaces;
    if |ds| > 0 {
      ItemsOfClean(ds[1..], before, last);
      assert Spaces("") by { NoSpaces(); }
    }
  }

  lemma ArrayClean(ds: seq<Layout>, before: string, last: string)
    requires Spaces(before) && Spaces(last) && forall i :: 0 <= i < |ds| ==> Clean(ds[i])
    ensures Clean(Array(ds, before, last))
    ensures Tree(Array(ds, before, last)) == Arr(Elements(ds))
  {
    hide CleanItems, ItemTrees;
    ItemsOfClean(ds, before, last);
    ItemsOfTrees(ds, before, last);
  }

  lemma {:induction false} JoinedItemsAscii(ds: seq<Layout>, before: string, i: nat)
    requires i < |ds| && Ascii(JoinedItems(ds, before))
    ensures Ascii(Text(ds[i]))
  {
    hide Ascii, Text;
    AsciiConcat(before, Text(ds[0]));
    if |ds| > 1 {
      AsciiConcat(before + Text(ds[0]) + ",", JoinedItems(ds[1..], before));
      AsciiConcat(before + Text(ds[0]), ",");
    }
    if i > 0 {
      JoinedItemsAscii(ds[1..], before, i - 1);
    }
  }

  lemma ArrayAscii(ds: seq<Layout>, before: string, last: string, i: nat)
    requires i < |ds| && Ascii(Text(Array(ds, before, last)))
    ensures Ascii(Text(ds[i]))
  {
    hide Ascii, Text, JoinedItems, Array;
    ArrayTextIs(ds, before, last);
    AsciiConcat("[", JoinedItems(ds, before));
    AsciiConcat("[" + JoinedItems(ds, before), last);
    AsciiConcat("[" + JoinedItems(ds, before) + last, "]");
    JoinedItemsAscii(ds, before, i);
  }

  // --- Rows by kind -----------------------------------------------------------------

  function MaybeStr(s: Option<string>): Layout { if s.Some? then LStr(s.value) else LNull }

  function MaybeInt(n: Option<nat>): Layout { if n.Some? then LInt(n.value) else LNull }

  predicate AsciiOption(s: Option<string>) { s.Some? ==> Ascii(s.value) }

  function MaybeText(s: Option<string>): (t: string)
    ensures t == Text(MaybeStr(s))
  {
    match s
    case Some(v) => Quoted(v)
    case None => "null"
  }

  /** A string row of an object whose text is below 0x80 holds such a string. */
  lemma MaybeRowAscii(rs: seq<Row>, before: string, last: string, i: nat, s: Option<string>)
    requires i < |rs| && Ascii(Text(Object(rs, before, last))) && rs[i].1 == MaybeStr(s)
    ensures AsciiOption(s)
  {
    hide Ascii, Object;
    ObjectAscii(rs, before, last, i);
    if s.Some? { QuotedAscii(s.value); }
  }

  lemma StrRowAscii(rs: seq<Row>, before: string, last: string, i: nat, s: string)
    requires i < |rs| && Ascii(Text(Object(rs, before, last))) && rs[i].1 == LStr(s)
    ensures Ascii(s)
  {
    hide Ascii, Object, Text;
    MaybeRowAscii(rs, before, last, i, Some(s));
  }
}
