/**
 The JSON printer of crates/whirl-cli/src/report.rs (`write_json`), an output buffer that every
 operation only appends to, and the proof that the reader takes its output back to the printed tree.
 How a number that is no small whole number prints is Rust's, and a parameter here.
 */
module JsonWriter {
  import opened Basics
  import opened JsonTree
  import opened JsonSpec
  import opened JsonLayout
  import Floats

  type Show = real -> string

  const BOUND: int := 0x20_0000_0000_0000

  /** Does a number take the printer's integer branch? */
  predicate SmallWhole(x: real) { x == x.Floor as real && -BOUND < x.Floor < BOUND }

  function Indent(n: nat): (s: string)
    ensures Spaces(s)
  {
    if n == 0 then "" else "  " + Indent(n - 1)
  }

  // --- The layout write_json gives a tree -------------------------------------------

  function Laid(v: Value, indent: nat, show: Show): Layout
    decreases v, 1, 0
  {
    match v
    case Null => LNull
    case Bool(f) => LBool(f)
    case Num(x) => if SmallWhole(x) then LInt(x.Floor) else LOther(x, show(x))
    case Str(s) => LStr(s)
    case Arr(es) => LArr(LaidItems(v, 0, indent, show), "")
    case Obj(fs) => LObj(LaidFields(v, 0, indent, show), "")
  }

  /** The elements from number i on, each on a line of its own. */
  function LaidItems(v: Value, i: nat, indent: nat, show: Show): (items: Items)
    requires v.Arr? && i <= |v.elements|
    ensures items.Item? <==> i < |v.elements|
    decreases v, 0, |v.elements| - i
  {
    if i == |v.elements| then NoItems
    else
      var last := i + 1 == |v.elements|;
      Item("\n" + Indent(indent + 1), Laid(v.elements[i].value, indent + 1, show),
           if last then "\n" + Indent(indent) else "", LaidItems(v, i + 1, indent, show))
  }

  function LaidFields(v: Value, i: nat, indent: nat, show: Show): (fields: Fields)
    requires v.Obj? && i <= |v.entries|
    ensures fields.Field? <==> i < |v.entries|
    decreases v, 0, |v.entries| - i
  {
    if i == |v.entries| then NoFields
    else
      var last := i + 1 == |v.entries|;
      Field("\n" + Indent(indent + 1), v.entries[i].0, Laid(v.entries[i].1.value, indent + 1, show),
            if last then "\n" + Indent(indent) else "", LaidFields(v, i + 1, indent, show))
  }

  function Printed(v: Value, indent: nat, show: Show): string { Text(Laid(v, indent, show)) }

  /** What is still to be printed of an array before element i, after the newline. */
  function ItemLines(v: Value, i: nat, indent: nat, show: Show): string
    requires v.Arr? && i <= |v.elements|
    decreases |v.elements| - i
  {
    if i == |v.elements| then Indent(indent) + "]"
    else
      Indent(indent + 1) + Printed(v.elements[i].value, indent + 1, show)
        + (if i + 1 < |v.elements| then "," else "") + "\n" + ItemLines(v, i + 1, indent, show)
  }

  function FieldLines(v: Value, i: nat, indent: nat, show: Show): string
    requires v.Obj? && i <= |v.entries|
    decreases |v.entries| - i
  {
    if i == |v.entries| then Indent(indent) + "}"
    else
      Indent(indent + 1) + Quoted(v.entries[i].0) + ": " + Printed(v.entries[i].1.value, indent + 1, show)
        + (if i + 1 < |v.entries| then "," else "") + "\n" + FieldLines(v, i + 1, indent, show)
  }

  lemma LastJoin(a: string, t: string, c: string, e: string)
    ensures "\n" + a + t + ("\n" + c) + e == "\n" + (a + t + "" + "\n" + (c + e))
  {
  }

  lemma MiddleJoin(a: string, t: string, rest: string)
    ensures "\n" + a + t + "" + ("," + ("\n" + rest)) == "\n" + (a + t + "," + "\n" + rest)
  {
  }

  lemma {:induction false} ItemLinesAreText(v: Value, i: nat, indent: nat, show: Show)
    requires v.Arr? && i < |v.elements|
    ensures ItemsText(LaidItems(v, i, indent, show)) == "\n" + ItemLines(v, i, indent, show)
    decreases |v.elements| - i
  {
    hide Indent, Text, Laid;
    var a, t := Indent(indent + 1), Printed(v.elements[i].value, indent + 1, show);
    if i + 1 < |v.elements| {
      ItemLinesAreText(v, i + 1, indent, show);
      MiddleJoin(a, t, ItemLines(v, i + 1, indent, show));
    } else {
      LastJoin(a, t, Indent(indent), "]");
    }
  }

  lemma {:induction false} FieldLinesAreText(v: Value, i: nat, indent: nat, show: Show)
    requires v.Obj? && i < |v.entries|
    ensures FieldsText(LaidFields(v, i, indent, show)) == "\n" + FieldLines(v, i, indent, show)
    decreases |v.entries| - i
  {
    hide Indent, Text, Laid, Quoted;
    var a, t := Indent(indent + 1), Printed(v.entries[i].1.value, indent + 1, show);
    var k := Quoted(v.entries[i].0) + ": " + t;
    assert a + Quoted(v.entries[i].0) + ": " + t == a + k;
    assert "\n" + a + Quoted(v.entries[i].0) + ": " + t == "\n" + a + k;
    if i + 1 < |v.entries| {
      FieldLinesAreText(v, i + 1, indent, show);
      MiddleJoin(a, k, FieldLines(v, i + 1, indent, show));
    } else {
      LastJoin(a, k, Indent(indent), "}");
    }
  }

  // --- The printer ------------------------------------------------------------------

  class Writer {
    var out: string

    constructor ()
      ensures out == ""
    {
      out := "";
    }

    method IndentInto(indent: nat)
      modifies this
      ensures out == old(out) + Indent(indent)
    {
      for i := 0 to indent
        invariant out + Indent(indent - i) == old(out) + Indent(indent)
      {
        assert out + Indent(indent - i) == out + "  " + Indent(indent - i - 1);
        out := out + "  ";
      }
    }

    method WriteString(text: string)
      modifies this
      ensures out == old(out) + Quoted(text)
    {
      hide EscapeChar;
      out := out + "\"";
      for i := 0 to |text|
        invariant out == old(out) + ("\"" + Escaped(text[..i]))
      {
        EscapedSnoc(text[..i], text[i]);
        assert text[..i + 1] == text[..i] + [text[i]];
        var piece := CharText(text[i]);
        assert out + piece == old(out) + ("\"" + (Escaped(text[..i]) + piece));
        out := out + piece;
      }
      assert text[..|text|] == text;
      assert out + "\"" == old(out) + Quoted(text);
      out := out + "\"";
    }

    /** The arms of the source's match on one character. */
    static method CharText(c: char) returns (t: string)
      ensures t == EscapeChar(c)
    {
      if c == '\"' {
        t := "\\\"";
      } else if c == '\\' {
        t := "\\\\";
      } else if c == '\n' {
        t := "\\n";
      } else if c == '\r' {
        t := "\\r";
      } else if c == '\t' {
        t := "\\t";
      } else if c < ' ' {
        t := "\\u00" + [HexDigit(c as nat / 16), HexDigit(c as nat % 16)];
      } else {
        t := [c];
      }
    }

    method WriteJson(node: Node, indent: nat, show: Show)
      modifies this
      ensures out == old(out) + Printed(node.value, indent, show)
      decreases node, 1
    {
      hide Quoted, LaidItems, LaidFields, ItemsText, FieldsText, Signed;
      match node.value
      case Null => out := out + "null";
      case Bool(f) => out := out + (if f then "true" else "false");
      case Num(x) => out := out + (if SmallWhole(x) then Signed(x.Floor) else show(x));
      case Str(s) => WriteString(s);
      case Arr(es) => WriteArray(node, indent, show);
      case Obj(fs) => WriteObject(node, indent, show);
    }

    method WriteArray(node: Node, indent: nat, show: Show)
      requires node.value.Arr?
      modifies this
      ensures out == old(out) + Printed(node.value, indent, show)
      decreases node, 0
    {
      hide Indent, ItemsText, Laid, Text;
      var v := node.value;
      if |v.elements| == 0 {
        out := out + "[]";
        EmptyText(v, indent, show);
        return;
      }
      ArrayText(v, indent, show);
      var target := old(out) + Printed(v, indent, show);
      out := out + "[\n";
      assert target == out + ItemLines(v, 0, indent, show);
      for i := 0 to |v.elements|
        invariant out + ItemLines(v, i, indent, show) == target
      {
        var start := out;
        IndentInto(indent + 1);
        WriteJson(v.elements[i], indent + 1, show);
        if i + 1 < |v.elements| {
          out := out + ",";
        }
        out := out + "\n";
        LineAppended(start, Indent(indent + 1), Printed(v.elements[i].value, indent + 1, show),
                     if i + 1 < |v.elements| then "," else "", ItemLines(v, i + 1, indent, show));
      }
      assert out + (Indent(indent) + "]") == out + Indent(indent) + "]";
      IndentInto(indent);
      out := out + "]";
    }

    method WriteObject(node: Node, indent: nat, show: Show)
      requires node.value.Obj?
      modifies this
      ensures out == old(out) + Printed(node.value, indent, show)
      decreases node, 0
    {
      hide Indent, FieldsText, Laid, Text, Quoted;
      var v := node.value;
      if |v.entries| == 0 {
        out := out + "{}";
        EmptyText(v, indent, show);
        return;
      }
      ObjectText(v, indent, show);
      var target := old(out) + Printed(v, indent, show);
      out := out + "{\n";
      assert target == out + FieldLines(v, 0, indent, show);
      for i := 0 to |v.entries|
        invariant out + FieldLines(v, i, indent, show) == target
      {
        var start := out;
        var (key, entry) := v.entries[i];
        IndentInto(indent + 1);
        WriteString(key);
        out := out + ": ";
        WriteJson(entry, indent + 1, show);
        if i + 1 < |v.entries| {
          out := out + ",";
        }
        out := out + "\n";
        FieldAppended(start, Indent(indent + 1), Quoted(key), Printed(entry.value, indent + 1, show),
                      if i + 1 < |v.entries| then "," else "", FieldLines(v, i + 1, indent, show));
      }
      assert out + (Indent(indent) + "}") == out + Indent(indent) + "}";
      IndentInto(indent);
      out := out + "}";
    }
  }

  lemma LineAppended(start: string, a: string, t: string, comma: string, rest: string)
    ensures start + (a + t + comma + "\n" + rest) == start + a + t + comma + "\n" + rest
    ensures comma == "" ==> start + a + t + comma == start + a + t
  {
  }

  lemma FieldAppended(start: string, a: string, k: string, t: string, comma: string, rest: string)
    ensures start + (a + k + ": " + t + comma + "\n" + rest) == start + a + k + ": " + t + comma + "\n" + rest
    ensures comma == "" ==> start + a + k + ": " + t + comma == start + a + k + ": " + t
  {
  }

  lemma EmptyText(v: Value, indent: nat, show: Show)
    ensures v.Arr? && |v.elements| == 0 ==> Printed(v, indent, show) == "[]"
    ensures v.Obj? && |v.entries| == 0 ==> Printed(v, indent, show) == "{}"
  {
  }

  lemma ArrayText(v: Value, indent: nat, show: Show)
    requires v.Arr? && |v.elements| > 0
    ensures Printed(v, indent, show) == "[\n" + ItemLines(v, 0, indent, show)
  {
    hide ItemsText, ItemLines;
    ItemLinesAreText(v, 0, indent, show);
    assert "[" + ("\n" + ItemLines(v, 0, indent, show)) == "[\n" + ItemLines(v, 0, indent, show);
  }

  lemma ObjectText(v: Value, indent: nat, show: Show)
    requires v.Obj? && |v.entries| > 0
    ensures Printed(v, indent, show) == "{\n" + FieldLines(v, 0, indent, show)
  {
    hide FieldsText, FieldLines;
    FieldLinesAreText(v, 0, indent, show);
    assert "{" + ("\n" + FieldLines(v, 0, indent, show)) == "{\n" + FieldLines(v, 0, indent, show);
  }

  lemma {:induction false} EscapedSnoc(s: string, c: char)
    ensures Escaped(s + [c]) == Escaped(s) + EscapeChar(c)
  {
    hide EscapeChar;
    var t := s + [c];
    if |s| == 0 {
      assert t[1..] == "";
      assert EscapeChar(c) + "" == "" + EscapeChar(c);
    } else {
      assert t[1..] == s[1..] + [c];
      EscapedSnoc(s[1..], c);
      assert EscapeChar(s[0]) + (Escaped(s[1..]) + EscapeChar(c)) == Escaped(s) + EscapeChar(c);
    }
  }
}
