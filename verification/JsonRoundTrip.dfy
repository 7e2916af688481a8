/**
 Printing then parsing: what `json::parse` makes of a laid-out document, and exactly which trees
 survive `write_json`.
 */
module JsonRoundTrip {
  import opened Basics
  import opened JsonTree
  import opened JsonSpec
  import opened JsonLayout
  import opened JsonWriter
  import Floats

  lemma AsciiConcat(a: string, b: string)
    ensures Ascii(a + b) <==> Ascii(a) && Ascii(b)
  {
    var c := a + b;
    assert forall i :: 0 <= i < |a| ==> a[i] == c[i];
    assert forall i :: 0 <= i < |b| ==> b[i] == c[|a| + i];
  }

  lemma {:induction false} EscapedAscii(s: string)
    ensures Ascii(Escaped(s)) <==> Ascii(s)
  {
    hide EscapeChar;
    if |s| > 0 {
      EscapedAscii(s[1..]);
      AsciiConcat(EscapeChar(s[0]), Escaped(s[1..]));
      AsciiConcat([s[0]], s[1..]);
      assert s == [s[0]] + s[1..];
      EscapeCharAscii(s[0]);
    }
  }

  lemma EscapeCharAscii(c: char)
    ensures Ascii(EscapeChar(c)) <==> Ascii([c])
  {
    assert [c][0] == c;
    if c >= 0x80 as char { assert EscapeChar(c)[0] == c; }
  }

  lemma QuotedAscii(s: string)
    ensures Ascii(Quoted(s)) <==> Ascii(s)
  {
    hide Escaped;
    EscapedAscii(s);
    AsciiConcat("\"", Escaped(s));
    AsciiConcat("\"" + Escaped(s), "\"");
  }

  lemma SignedAscii(n: int)
    ensures Ascii(Signed(n))
  {
    hide Decimal;
    var d := Decimal(if n < 0 then -n else n);
    assert Ascii(d);
    AsciiConcat("-", d);
  }

  lemma SpacesAscii(s: string)
    requires Spaces(s)
    ensures Ascii(s)
  {
  }

  // --- Any clean document -----------------------------------------------------------

  lemma {:induction false} TextIsAscii(d: Layout)
    requires Clean(d)
    ensures Ascii(Text(d))
    decreases d, 1
  {
    match d
    case LInt(n) => SignedAscii(n);
    case LStr(s) => QuotedAscii(s);
    case LArr(items, hollow) =>
      if items.Item? {
        ItemsAreAscii(items);
        AsciiConcat("[", ItemsText(items));
      } else {
        SpacesAscii(hollow);
      }
    case LObj(fields, hollow) =>
      if fields.Field? {
        FieldsAreAscii(fields);
        AsciiConcat("{", FieldsText(fields));
      } else {
        SpacesAscii(hollow);
      }
    case _ =>
  }

  lemma {:induction false} ItemsAreAscii(items: Items)
    requires items.Item? && CleanItems(items)
    ensures Ascii(ItemsText(items))
    decreases items, 0
  {
    hide Text, ItemsText, Ascii;
    var t, tail := Text(items.item), ItemTail(items);
    TextIsAscii(items.item);
    SpacesAscii(items.before);
    SpacesAscii(items.after);
    assert Ascii(tail) by {
      if items.rest.Item? {
        ItemsAreAscii(items.rest);
        AsciiConcat(",", ItemsText(items.rest));
      }
      Marks();
    }
    ItemsTextSplits(items);
    AsciiConcat(items.before, t);
    AsciiConcat(items.before + t, items.after);
    AsciiConcat(items.before + t + items.after, tail);
  }

  lemma Marks() ensures Ascii(",") && Ascii("]") && Ascii("}") && Ascii(": ") && Ascii(":") && Ascii(" ") {}

  lemma {:induction false} FieldsAreAscii(fields: Fields)
    requires fields.Field? && CleanFields(fields)
    ensures Ascii(FieldsText(fields))
    decreases fields, 0
  {
    hide Text, FieldsText, Ascii, Quoted;
    var k, t, tail := Quoted(fields.key), Text(fields.value), FieldTail(fields);
    TextIsAscii(fields.value);
    QuotedAscii(fields.key);
    SpacesAscii(fields.before);
    SpacesAscii(fields.after);
    Marks();
    assert Ascii(tail) by {
      if fields.rest.Field? {
        FieldsAreAscii(fields.rest);
        AsciiConcat(",", FieldsText(fields.rest));
      }
    }
    FieldsTextSplits(fields);
    FieldPartsAscii(fields.before, k, " " + t, fields.after, tail);
    AsciiConcat(" ", t);
    AsciiConcat(" " + t, fields.after);
    AsciiConcat(" " + t + fields.after, tail);
  }

  lemma FieldPartsAscii(before: string, k: string, t: string, after: string, tail: string)
    ensures Ascii(before + (k + (":" + (t + after + tail)))) <==> Ascii(before) && Ascii(k) && Ascii(t + after + tail)
  {
    hide Ascii;
    Marks();
    AsciiConcat(":", t + after + tail);
    AsciiConcat(k, ":" + (t + after + tail));
    AsciiConcat(before, k + (":" + (t + after + tail)));
  }

  /** Main result: every clean document, white space after it or not, parses to the tree it spells. */
  lemma DocumentReadsBack(d: Layout, tail: string)
    requires Clean(d) && Spaces(tail)
    ensures Parse(Text(d) + tail).Ok? && Bare(Parse(Text(d) + tail).value) == Node(Tree(d), 0)
  {
    hide Text, Tree, Clean, ParseBare, LineAt, SkipSpace, Utf8, BareValue;
    var b := Text(d) + tail;
    TextIsAscii(d);
    SpacesAscii(tail);
    AsciiConcat(Text(d), tail);
    Utf8OfAscii(b);
    var end := |Text(d)|;
    assert At(b, 0, Text(d)) && At(b, end, tail);
    assert StopsAt(b, end);
    assert !d.LOther? by { CleanIsNoOther(d); }
    FirstByte(d);
    SkipsTo(b, 0, "");
    ReadsBack(d, b, 0);
    SkipsTo(b, end, tail);
  }

  lemma CleanIsNoOther(d: Layout)
    requires Clean(d)
    ensures !d.LOther?
  {
  }

  // --- write_json -------------------------------------------------------------------

  /** Every number in the tree is whole and of magnitude below 2^53. */
  predicate WholeTree(v: Value)
    decreases v
  {
    match v
    case Num(x) => x == x.Floor as real && -9007199254740992 < x.Floor < 9007199254740992
    case Arr(es) => forall i :: 0 <= i < |es| ==> WholeTree(es[i].value)
    case Obj(fs) => forall i :: 0 <= i < |fs| ==> WholeTree(fs[i].1.value)
    case _ => true
  }

  /** Every string and key in the tree is below 0x80. */
  predicate AsciiTree(v: Value)
    decreases v
  {
    match v
    case Str(s) => Ascii(s)
    case Arr(es) => forall i :: 0 <= i < |es| ==> AsciiTree(es[i].value)
    case Obj(fs) => forall i :: 0 <= i < |fs| ==> Ascii(fs[i].0) && AsciiTree(fs[i].1.value)
    case _ => true
  }

  lemma {:induction false} LaidIsClean(v: Value, indent: nat, show: Show)
    requires WholeTree(v) && AsciiTree(v) && Distinct(v)
    ensures Clean(Laid(v, indent, show))
    decreases v, 1, 0
  {
    match v
    case Arr(es) => LaidItemsAreClean(v, 0, indent, show);
    case Obj(fs) => LaidFieldsAreClean(v, 0, indent, show);
    case _ =>
  }

  lemma {:induction false} LaidItemsAreClean(v: Value, i: nat, indent: nat, show: Show)
    requires v.Arr? && i <= |v.elements| && WholeTree(v) && AsciiTree(v) && Distinct(v)
    ensures CleanItems(LaidItems(v, i, indent, show))
    decreases v, 0, |v.elements| - i
  {
    hide Indent, Laid;
    if i < |v.elements| {
      LaidIsClean(v.elements[i].value, indent + 1, show);
      LaidItemsAreClean(v, i + 1, indent, show);
    }
  }

  lemma {:induction false} LaidFieldsAreClean(v: Value, i: nat, indent: nat, show: Show)
    requires v.Obj? && i <= |v.entries| && WholeTree(v) && AsciiTree(v) && Distinct(v)
    ensures CleanFields(LaidFields(v, i, indent, show))
    decreases v, 0, |v.entries| - i
  {
    hide Indent, Laid, HasKey;
    if i < |v.entries| {
      LaidIsClean(v.entries[i].1.value, indent + 1, show);
      LaidFieldsAreClean(v, i + 1, indent, show);
      LaidKeys(v, i + 1, indent, show, v.entries[i].0);
    }
  }

  lemma {:induction false} LaidKeys(v: Value, i: nat, indent: nat, show: Show, key: string)
    requires v.Obj? && i <= |v.entries| && forall j :: i <= j < |v.entries| ==> v.entries[j].0 != key
    ensures !HasKey(LaidFields(v, i, indent, show), key)
    decreases |v.entries| - i
  {
    hide Indent, Laid;
    if i < |v.entries| { LaidKeys(v, i + 1, indent, show, key); }
  }

  /** The layout of a tree spells that tree. */
  lemma {:induction false} LaidSpells(v: Value, indent: nat, show: Show)
    requires WholeTree(v)
    ensures Tree(Laid(v, indent, show)) == BareValue(v)
    decreases v, 1, 0
  {
    match v
    case Num(x) => SmallWholeSurvives(x);
    case Arr(es) =>
      LaidItemsSpell(v, 0, indent, show);
    case Obj(fs) =>
      LaidFieldsSpell(v, 0, indent, show);
    case _ =>
  }

  lemma SmallWholeSurvives(x: real)
    requires SmallWhole(x)
    ensures Tree(LInt(x.Floor)) == Num(x)
  {
    hide Floats.Rounded;
    var n := x.Floor;
    Floats.SmallIsExact(if n < 0 then -n else n);
  }

  lemma {:induction false} LaidItemsSpell(v: Value, i: nat, indent: nat, show: Show)
    requires v.Arr? && i <= |v.elements| && WholeTree(v)
    ensures ItemTrees(LaidItems(v, i, indent, show)) == BareValue(v).elements[i..]
    decreases v, 0, |v.elements| - i
  {
    hide Indent, Laid, Tree;
    var bs := BareValue(v).elements;
    if i < |v.elements| {
      LaidSpells(v.elements[i].value, indent + 1, show);
      LaidItemsSpell(v, i + 1, indent, show);
      assert bs[i..] == [bs[i]] + bs[i + 1..];
      assert bs[i] == Bare(v.elements[i]);
    }
  }

  lemma {:induction false} LaidFieldsSpell(v: Value, i: nat, indent: nat, show: Show)
    requires v.Obj? && i <= |v.entries| && WholeTree(v)
    ensures FieldTrees(LaidFields(v, i, indent, show)) == BareValue(v).entries[i..]
    decreases v, 0, |v.entries| - i
  {
    hide Indent, Laid, Tree;
    var bs := BareValue(v).entries;
    if i < |v.entries| {
      LaidSpells(v.entries[i].1.value, indent + 1, show);
      LaidFieldsSpell(v, i + 1, indent, show);
      assert bs[i..] == [bs[i]] + bs[i + 1..];
      assert bs[i] == (v.entries[i].0, Bare(v.entries[i].1));
    }
  }

  /** A tree whose print is below 0x80 is below 0x80 itself. */
  lemma {:induction false} AsciiPrintOnly(v: Value, indent: nat, show: Show)
    requires Ascii(Printed(v, indent, show))
    ensures AsciiTree(v)
    decreases v, 1, 0
  {
    hide Printed, ItemLines, FieldLines, Quoted;
    match v
    case Str(s) =>
      assert Printed(v, indent, show) == Quoted(s) by { PrintedStr(s, indent, show); }
      QuotedAscii(s);
    case Arr(es) =>
      if |es| > 0 {
        ArrayText(v, indent, show);
        AsciiConcat("[\n", ItemLines(v, 0, indent, show));
        AsciiItemsOnly(v, 0, indent, show);
      }
    case Obj(fs) =>
      if |fs| > 0 {
        ObjectText(v, indent, show);
        AsciiConcat("{\n", FieldLines(v, 0, indent, show));
        AsciiFieldsOnly(v, 0, indent, show);
      }
    case _ =>
  }

  lemma PrintedStr(s: string, indent: nat, show: Show)
    ensures Printed(Str(s), indent, show) == Quoted(s)
  {
  }

  lemma {:induction false} AsciiItemsOnly(v: Value, i: nat, indent: nat, show: Show)
    requires v.Arr? && i <= |v.elements| && Ascii(ItemLines(v, i, indent, show))
    ensures forall j :: i <= j < |v.elements| ==> AsciiTree(v.elements[j].value)
    decreases v, 0, |v.elements| - i
  {
    hide Printed, Indent, Ascii, AsciiTree;
    if i < |v.elements| {
      var a, t := Indent(indent + 1), Printed(v.elements[i].value, indent + 1, show);
      var comma := if i + 1 < |v.elements| then "," else "";
      var rest := ItemLines(v, i + 1, indent, show);
      AsciiConcat(a, t);
      AsciiConcat(a + t, comma);
      AsciiConcat(a + t + comma, "\n");
      AsciiConcat(a + t + comma + "\n", rest);
      AsciiPrintOnly(v.elements[i].value, indent + 1, show);
      AsciiItemsOnly(v, i + 1, indent, show);
    }
  }

  lemma {:induction false} AsciiFieldsOnly(v: Value, i: nat, indent: nat, show: Show)
    requires v.Obj? && i <= |v.entries| && Ascii(FieldLines(v, i, indent, show))
    ensures forall j :: i <= j < |v.entries| ==> Ascii(v.entries[j].0) && AsciiTree(v.entries[j].1.value)
    decreases v, 0, |v.entries| - i
  {
    hide Printed, Indent, Ascii, AsciiTree, Quoted;
    if i < |v.entries| {
      var a, k := Indent(indent + 1), Quoted(v.entries[i].0);
      var t := Printed(v.entries[i].1.value, indent + 1, show);
      var comma := if i + 1 < |v.entries| then "," else "";
      var rest := FieldLines(v, i + 1, indent, show);
      AsciiConcat(a, k);
      AsciiConcat(a + k, ": ");
      AsciiConcat(a + k + ": ", t);
      AsciiConcat(a + k + ": " + t, comma);
      AsciiConcat(a + k + ": " + t + comma, "\n");
      AsciiConcat(a + k + ": " + t + comma + "\n", rest);
      QuotedAscii(v.entries[i].0);
      AsciiPrintOnly(v.entries[i].1.value, indent + 1, show);
      AsciiFieldsOnly(v, i + 1, indent, show);
    }
  }

  /**
   Main result: a tree of whole numbers below 2^53 survives printing and parsing, up to line numbers,
   exactly when all its characters are below 0x80 and no object in it names a key twice.
   */
  lemma PrintThenParse(v: Value, indent: nat, show: Show)
    requires WholeTree(v)
    ensures
      var r := Parse(Printed(v, indent, show));
      (r.Ok? && BareValue(r.value.value) == BareValue(v)) <==> AsciiTree(v) && Distinct(v)
  {
    hide Laid, Text, Tree, Parse, Ascii, WholeTree, AsciiTree, Distinct, BareValue, Clean, Spaces;
    var text := Printed(v, indent, show);
    var r := Parse(text);
    if AsciiTree(v) && Distinct(v) {
      LaidIsClean(v, indent, show);
      LaidSpells(v, indent, show);
      assert text + "" == text;
      assert Spaces("") by { NoSpaces(); }
      DocumentReadsBack(Laid(v, indent, show), "");
    }
    if r.Ok? && BareValue(r.value.value) == BareValue(v) {
      AcceptedIsAsciiAndDistinct(text);
      AsciiPrintOnly(v, indent, show);
      BareKeepsKeys(r.value.value);
      BareKeepsKeys(v);
    }
  }

  lemma NoSpaces() ensures Spaces("") {}
}
