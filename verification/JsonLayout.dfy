/**
 Documents as the printers lay them out: the tokens of a JSON text with the white space around them,
 and the proof that the reader takes such a text back to the tree it spells.
 */
module JsonLayout {
  import opened Basics
  import opened JsonTree
  import opened JsonSpec
  import Floats

  datatype Layout =
    | LNull
    | LBool(flag: bool)
    | LInt(n: int)
    | LOther(number: real, numeral: string)
    | LStr(text: string)
    | LArr(items: Items, hollow: string)
    | LObj(fields: Fields, hollow: string)

  datatype Items = NoItems | Item(before: string, item: Layout, after: string, rest: Items)

  datatype Fields = NoFields | Field(before: string, key: string, value: Layout, after: string, rest: Fields)

  // --- The text ------------------------------------------------------------------

  /** One character of a printed string. */
  function EscapeChar(c: char): string
  {
    if c == '\"' then "\\\""
    else if c == '\\' then "\\\\"
    else if c == '\n' then "\\n"
    else if c == '\r' then "\\r"
    else if c == '\t' then "\\t"
    else if c < ' ' then "\\u00" + [HexDigit(c as nat / 16), HexDigit(c as nat % 16)]
    else [c]
  }

  function Escaped(s: string): string
  {
    if |s| == 0 then "" else EscapeChar(s[0]) + Escaped(s[1..])
  }

  function Quoted(s: string): string { "\"" + Escaped(s) + "\"" }

  function Signed(n: int): string { if n < 0 then "-" + Decimal(-n) else Decimal(n) }

  function Text(d: Layout): string
    decreases d, 0
  {
    match d
    case LNull => "null"
    case LBool(b) => if b then "true" else "false"
    case LInt(n) => Signed(n)
    case LOther(_, numeral) => numeral
    case LStr(s) => Quoted(s)
    case LArr(items, hollow) => "[" + (if items.NoItems? then hollow + "]" else ItemsText(items))
    case LObj(fields, hollow) => "{" + (if fields.NoFields? then hollow + "}" else FieldsText(fields))
  }

  /** The items and the bracket that closes them. */
  function ItemsText(items: Items): string
    requires items.Item?
    decreases items, 0
  {
    items.before + Text(items.item) + items.after
      + (if items.rest.NoItems? then "]" else "," + ItemsText(items.rest))
  }

  function FieldsText(fields: Fields): string
    requires fields.Field?
    decreases fields, 0
  {
    fields.before + Quoted(fields.key) + ": " + Text(fields.value) + fields.after
      + (if fields.rest.NoFields? then "}" else "," + FieldsText(fields.rest))
  }

  // --- The tree ------------------------------------------------------------------

  function Tree(d: Layout): Value
    decreases d, 0
  {
    match d
    case LNull => Null
    case LBool(b) => Bool(b)
    case LInt(n) => Num(if n < 0 then 0.0 - Nearest(-n) else Nearest(n))
    case LOther(x, _) => Num(x)
    case LStr(s) => Str(s)
    case LArr(items, _) => Arr(ItemTrees(items))
    case LObj(fields, _) => Obj(FieldTrees(fields))
  }

  function ItemTrees(items: Items): seq<Node>
    decreases items, 0
  {
    match items
    case NoItems => []
    case Item(_, d, _, rest) => [Node(Tree(d), 0)] + ItemTrees(rest)
  }

  function FieldTrees(fields: Fields): seq<(string, Node)>
    decreases fields, 0
  {
    match fields
    case NoFields => []
    case Field(_, k, d, _, rest) => [(k, Node(Tree(d), 0))] + FieldTrees(rest)
  }

  // --- What the printers produce -------------------------------------------------

  predicate Spaces(s: string) { forall i :: 0 <= i < |s| ==> IsSpace(s[i]) }

  predicate HasKey(fields: Fields, key: string)
  {
    fields.Field? && (fields.key == key || HasKey(fields.rest, key))
  }

  /** White space between the tokens, whole numbers, characters below 0x80, and no key twice in an object. */
  predicate Clean(d: Layout)
    decreases d, 0
  {
    match d
    case LStr(s) => Ascii(s)
    case LArr(items, hollow) => Spaces(hollow) && CleanItems(items)
    case LObj(fields, hollow) => Spaces(hollow) && CleanFields(fields)
    case LOther(_, _) => false
    case _ => true
  }

  predicate CleanItems(items: Items)
    decreases items, 0
  {
    items.Item? ==> Spaces(items.before) && Clean(items.item) && Spaces(items.after) && CleanItems(items.rest)
  }

  predicate CleanFields(fields: Fields)
    decreases fields, 0
  {
    fields.Field? ==>
      && Spaces(fields.before) && Ascii(fields.key) && Clean(fields.value) && Spaces(fields.after)
      && !HasKey(fields.rest, fields.key) && CleanFields(fields.rest)
  }

  // --- Positions -----------------------------------------------------------------

  /** The text t stands in b at position p. */
  predicate At(b: string, p: nat, t: string)
  {
    p + |t| <= |b| && b[p..p + |t|] == t
  }

  lemma AtSplit(b: string, p: nat, s: string, t: string)
    requires At(b, p, s + t)
    ensures At(b, p, s) && At(b, p + |s|, t)
  {
    var w := b[p..p + |s + t|];
    assert b[p..p + |s|] == w[..|s|] == s;
    assert b[p + |s|..p + |s| + |t|] == w[|s|..] == t;
  }

  lemma AtFirst(b: string, p: nat, t: string)
    requires At(b, p, t) && |t| > 0
    ensures p < |b| && b[p] == t[0]
  {
    assert b[p] == b[p..p + |t|][0];
  }

  /** White space up to a byte that is none. */
  lemma {:induction false} SkipsTo(b: string, p: nat, s: string)
    requires At(b, p, s) && Spaces(s)
    requires p + |s| == |b| || !IsSpace(b[p + |s|])
    ensures SkipSpace(b, p) == p + |s|
    decreases |s|
  {
    if |s| > 0 {
      AtFirst(b, p, s);
      assert s == [s[0]] + s[1..];
      AtSplit(b, p, [s[0]], s[1..]);
      SkipsTo(b, p + 1, s[1..]);
    }
  }

  // --- Strings -------------------------------------------------------------------

  /** The printed form of one character is read back as that character. */
  lemma CharReadsBack(b: string, p: nat, c: char, out: string, start: nat)
    requires At(b, p, EscapeChar(c)) && c < 0x80 as char
    ensures StringFrom(b, p, out, start) == StringFrom(b, p + |EscapeChar(c)|, out + [c], start)
  {
    hide LineAt, Escape, Plain;
    var e := EscapeChar(c);
    AtFirst(b, p, e);
    if |e| > 1 { EscapeReadsBack(b, p, c); }
  }

  lemma EscapeReadsBack(b: string, p: nat, c: char)
    requires At(b, p, EscapeChar(c)) && |EscapeChar(c)| > 1
    ensures Escape(b, p + 1) == Ok(c, p + |EscapeChar(c)|)
  {
    hide LineAt, UnicodeEscape, Plain;
    var e := EscapeChar(c);
    assert b[p + 1] == b[p..p + |e|][1] == e[1];
    if e[1] == 'u' {
      ControlReadsBack(b, p, c);
    }
  }

  lemma HexStep(b: string, p: nat, i: nat, value: nat, d: nat)
    requires p < |b| && i < 4 && d < 16 && b[p] == HexDigit(d)
    ensures HexFrom(b, p, i, value) == HexFrom(b, p + 1, i + 1, value * 16 + d)
  {
    hide LineAt, HexValue;
    assert HexValue(HexDigit(d)) == Some(d) by { HexDigitReads(d); }
  }

  lemma HexDigitReads(d: nat)
    requires d < 16
    ensures HexValue(HexDigit(d)) == Some(d)
  {
  }

  lemma ControlReadsBack(b: string, p: nat, c: char)
    requires c < ' ' && At(b, p, "\\u00" + [HexDigit(c as nat / 16), HexDigit(c as nat % 16)])
    ensures Escape(b, p + 1) == Ok(c, p + 6)
  {
    hide LineAt, HexFrom, HexDigit, HexValue, ShortEscape;
    var h, l := c as nat / 16, c as nat % 16;
    var e := "\\u00" + [HexDigit(h), HexDigit(l)];
    var w := b[p..p + 6];
    assert w == e;
    assert b[p + 1] == w[1] == 'u' && b[p + 2] == w[2] == '0' && b[p + 3] == w[3] == '0';
    assert b[p + 4] == w[4] == HexDigit(h) && b[p + 5] == w[5] == HexDigit(l);
    assert HexDigit(0) == '0' by { ZeroDigit(); }
    HexStep(b, p + 2, 0, 0, 0);
    HexStep(b, p + 3, 1, 0, 0);
    HexStep(b, p + 4, 2, 0, h);
    HexStep(b, p + 5, 3, h, l);
    assert h * 16 + l == c as nat;
    HexDone(b, p + 6, c as nat);
  }

  lemma ZeroDigit() ensures HexDigit(0) == '0' {}

  lemma HexDone(b: string, p: nat, value: nat)
    requires p <= |b|
    ensures HexFrom(b, p, 4, value) == Ok(value, p)
  {
  }

  lemma {:induction false} BodyReadsBack(b: string, p: nat, s: string, out: string, start: nat)
    requires Ascii(s) && At(b, p, Escaped(s) + "\"")
    ensures StringFrom(b, p, out, start) == Ok(out + s, p + |Escaped(s)| + 1)
    decreases |s|
  {
    hide EscapeChar, LineAt;
    if |s| == 0 {
      AtFirst(b, p, "" + "\"");
      assert out + s == out;
    } else {
      var e, t := EscapeChar(s[0]), Escaped(s[1..]);
      assert Escaped(s) + "\"" == e + (t + "\"");
      AtSplit(b, p, e, t + "\"");
      CharReadsBack(b, p, s[0], out, start);
      BodyReadsBack(b, p + |e|, s[1..], out + [s[0]], start);
      assert out + [s[0]] + s[1..] == out + s;
    }
  }

  lemma StringReadsBack(b: string, p: nat, s: string)
    requires Ascii(s) && At(b, p, Quoted(s))
    ensures ParseString(b, p) == Ok(s, p + |Quoted(s)|)
  {
    hide Escaped, LineAt, StringFrom;
    assert Quoted(s) == "\"" + (Escaped(s) + "\"");
    AtSplit(b, p, "\"", Escaped(s) + "\"");
    AtFirst(b, p, "\"");
    BodyReadsBack(b, p + 1, s, "", LineAt(b, p));
    assert "" + s == s;
  }

  // --- Numbers -------------------------------------------------------------------

  lemma {:induction false} DigitsToEnd(t: string, i: nat)
    requires i <= |t| && AllDigits(t)
    ensures DigitsEnd(t, i) == |t|
    decreases |t| - i
  {
    if i < |t| { DigitsToEnd(t, i + 1); }
  }

  /** A printed whole number is read as the nearest `f64`. */
  lemma SignedReadsBack(n: int)
    ensures ParseFloat(Signed(n)) == Some(Tree(LInt(n)).number)
  {
    hide Decimal, Floats.Rounded, ValueOf;
    var d := Decimal(if n < 0 then -n else n);
    UnsignedReadsBack(d);
    DecimalValue(if n < 0 then -n else n);
    assert d[0] != '-' && d[0] != '+';
    assert n < 0 ==> Signed(n)[1..] == d;
  }

  lemma UnsignedReadsBack(d: string)
    requires AllDigits(d) && |d| > 0
    ensures Unsigned(d) == Some(Nearest(ValueOf(d)))
  {
    hide Floats.Rounded, ValueOf, Scaled, Nearest, DigitsEnd, Exponent;
    assert DigitsEnd(d, 0) == |d| by { DigitsToEnd(d, 0); }
    assert d[0..|d|] + "" == d && d[|d|..] == "";
    assert Exponent("") == Some(0) by { NoExponent(); }
    WholeIsNearest(ValueOf(d));
  }

  lemma NoExponent() ensures Exponent("") == Some(0) {}

  lemma WholeIsNearest(n: nat)
    ensures Scaled(n, 0) == Nearest(n)
  {
    assert Pow10(0) == 1;
    assert n * 1 == n;
  }

  lemma {:induction false} NumberEndsAt(b: string, p: nat, q: nat)
    requires p <= q <= |b| && (q == |b| || !IsNumberByte(b[q]))
    requires forall i :: p <= i < q ==> IsNumberByte(b[i])
    ensures NumberEnd(b, p) == q
    decreases q - p
  {
    if p < q { NumberEndsAt(b, p + 1, q); }
  }

  /** The bytes of a printed number are number bytes, the first of them a sign or a digit. */
  lemma SignedBytes(n: int)
    ensures forall i :: 0 <= i < |Signed(n)| ==> IsNumberByte(Signed(n)[i])
    ensures |Signed(n)| > 0 && (Signed(n)[0] == '-' || IsDigit(Signed(n)[0]))
    ensures Signed(n)[0] == '-' ==> |Signed(n)| > 1
  {
    hide Decimal;
    assert IsDigit(Decimal(if n < 0 then -n else n)[0]);
  }

  lemma NumberStopsAt(b: string, p: nat, t: string)
    requires At(b, p, t) && |t| > 0 && (p + |t| == |b| || !IsNumberByte(b[p + |t|]))
    requires forall i :: 0 <= i < |t| ==> IsNumberByte(t[i])
    ensures NumberStop(b, p) == p + |t| && b[p..NumberStop(b, p)] == t
  {
    AtFirst(b, p, t);
    assert forall i :: p <= i < p + |t| ==> b[i] == b[p..p + |t|][i - p] == t[i - p];
    NumberEndsAt(b, if b[p] == '-' then p + 1 else p, p + |t|);
  }

  lemma NumberReadsBack(b: string, p: nat, n: int)
    requires At(b, p, Signed(n))
    requires p + |Signed(n)| == |b| || !IsNumberByte(b[p + |Signed(n)|])
    ensures ParseBare(b, p) == Ok(Tree(LInt(n)), p + |Signed(n)|)
  {
    hide LineAt, ParseFloat, ParseString, ParseObject, ParseArray, NumberStop, IsNumberByte, Signed, At, Word;
    SignedBytes(n);
    AtFirst(b, p, Signed(n));
    NumberStopsAt(b, p, Signed(n));
    SignedReadsBack(n);
  }

  // --- Whole documents -----------------------------------------------------------

  predicate StopsAt(b: string, p: nat)
    requires p <= |b|
  {
    p == |b| || !IsNumberByte(b[p])
  }

  lemma WordReadsBack(b: string, p: nat, word: string, i: nat)
    requires i <= |word| && At(b, p, word[i..])
    ensures Literal(b, p, word, i) == Ok((), p + |word| - i)
    decreases |word| - i
  {
    if i < |word| {
      AtFirst(b, p, word[i..]);
      assert word[i..] == [word[i]] + word[i + 1..];
      AtSplit(b, p, [word[i]], word[i + 1..]);
      WordReadsBack(b, p + 1, word, i + 1);
    }
  }

  /** The first byte of a document is no white space and closes nothing. */
  lemma FirstByte(d: Layout)
    requires !d.LOther?
    ensures |Text(d)| > 0 && !IsSpace(Text(d)[0]) && Text(d)[0] != ']' && Text(d)[0] != '}'
  {
    hide Escaped, ItemsText, FieldsText;
    if d.LInt? { assert IsDigit(Decimal(if d.n < 0 then -d.n else d.n)[0]); }
  }

  /** The reader took a value, ended at `end`, and the tree is `v` up to line numbers. */
  predicate Takes(r: Parsed<Value>, v: Value, end: nat)
  {
    r.Ok? && r.next == end && BareValue(r.value) == v
  }

  lemma PartsAt(b: string, p: nat, before: string, t: string, after: string, tail: string)
    requires At(b, p, before + t + after + tail)
    ensures At(b, p, before) && At(b, p + |before|, t) && At(b, p + |before| + |t|, after)
    ensures At(b, p + |before| + |t| + |after|, tail)
  {
    hide At;
    assert before + t + after + tail == before + (t + (after + tail));
    AtSplit(b, p, before, t + (after + tail));
    AtSplit(b, p + |before|, t, after + tail);
    AtSplit(b, p + |before| + |t|, after, tail);
  }

  /** Where the pieces of one laid-out value are, and what the reader's white space skipping finds there. */
  lemma Between(b: string, p: nat, before: string, d: Layout, after: string, tail: string)
    requires Spaces(before) && Spaces(after) && At(b, p, before + Text(d) + after + tail) && Clean(d)
    requires |tail| > 0 && (tail[0] == ',' || tail[0] == ']' || tail[0] == '}')
    ensures At(b, p + |before|, Text(d)) && At(b, p + |before| + |Text(d)| + |after|, tail)
    ensures
      var q := p + |before|;
      var e := q + |Text(d)|;
      && SkipSpace(b, p) == q && SkipSpace(b, q) == q
      && b[q] != ']' && b[q] != '}'
      && e + |after| < |b| && StopsAt(b, e) && SkipSpace(b, e) == e + |after|
      && b[e + |after|] == tail[0]
  {
    hide Text, SkipSpace, Spaces;
    var t := Text(d);
    assert !d.LOther?;
    FirstByte(d);
    PartsAt(b, p, before, t, after, tail);
    SkipsAround(b, p, before, t, after, tail);
  }

  lemma SkipsAround(b: string, p: nat, before: string, t: string, after: string, tail: string)
    requires Spaces(before) && Spaces(after) && |t| > 0 && !IsSpace(t[0])
    requires |tail| > 0 && !IsSpace(tail[0]) && !IsNumberByte(tail[0])
    requires At(b, p, before) && At(b, p + |before|, t) && At(b, p + |before| + |t|, after)
    requires At(b, p + |before| + |t| + |after|, tail)
    ensures
      var q := p + |before|;
      var e := q + |t|;
      && SkipSpace(b, p) == q && SkipSpace(b, q) == q
      && b[q] == t[0] && e + |after| < |b| && StopsAt(b, e)
      && SkipSpace(b, e) == e + |after| && b[e + |after|] == tail[0]
  {
    hide At, SkipSpace;
    var q := p + |before|;
    var e := q + |t|;
    AtFirst(b, e + |after|, tail);
    AtFirst(b, q, t);
    SkipsTo(b, p, before);
    assert SkipSpace(b, q) == q by { AtNothing(b, q); SkipsTo(b, q, ""); }
    SkipsTo(b, e, after);
    if |after| > 0 { AtFirst(b, e, after); }
  }

  lemma AtNothing(b: string, p: nat)
    requires p <= |b|
    ensures At(b, p, "") && Spaces("")
  {
  }

  /** `grown` is `was` and then the trees, up to line numbers. */
  predicate Grows(was: seq<Node>, grown: seq<Node>, trees: seq<Node>)
  {
    && |grown| == |was| + |trees|
    && grown[..|was|] == was
    && forall i :: 0 <= i < |trees| ==> Bare(grown[|was| + i]) == trees[i]
  }

  predicate GrowsEntries(was: seq<(string, Node)>, grown: seq<(string, Node)>, trees: seq<(string, Node)>)
  {
    && |grown| == |was| + |trees|
    && grown[..|was|] == was
    && forall i :: 0 <= i < |trees| ==> (grown[|was| + i].0, Bare(grown[|was| + i].1)) == trees[i]
  }

  lemma GrowsOneMore(was: seq<Node>, e: Node, grown: seq<Node>, trees: seq<Node>)
    requires Grows(was + [e], grown, trees)
    ensures Grows(was, grown, [Bare(e)] + trees)
  {
    hide Bare;
    var w := was + [e];
    var n := |was|;
    assert grown[..n] == grown[..n + 1][..n] == was;
    assert grown[n] == grown[..n + 1][n] == e;
    var all := [Bare(e)] + trees;
    forall i | 0 <= i < |all| ensures Bare(grown[n + i]) == all[i] {
      if i > 0 { assert all[i] == trees[i - 1] && grown[n + i] == grown[|w| + (i - 1)]; }
    }
  }

  lemma GrowsOneEntry(was: seq<(string, Node)>, k: string, e: Node, grown: seq<(string, Node)>,
                      trees: seq<(string, Node)>)
    requires GrowsEntries(was + [(k, e)], grown, trees)
    ensures GrowsEntries(was, grown, [(k, Bare(e))] + trees)
  {
    hide Bare;
    var w := was + [(k, e)];
    var n := |was|;
    assert grown[..n] == grown[..n + 1][..n] == was;
    assert grown[n] == grown[..n + 1][n] == (k, e);
    var all := [(k, Bare(e))] + trees;
    forall i | 0 <= i < |all| ensures (grown[n + i].0, Bare(grown[n + i].1)) == all[i] {
      if i > 0 { assert all[i] == trees[i - 1] && grown[n + i] == grown[|w| + (i - 1)]; }
    }
  }

  /** What stands after an item: the closing bracket, or a comma and the next item. */
  function ItemTail(items: Items): (t: string)
    requires items.Item?
    ensures |t| > 0 && t[0] == (if items.rest.NoItems? then ']' else ',')
  {
    if items.rest.NoItems? then "]" else "," + ItemsText(items.rest)
  }

  lemma ItemsTextSplits(items: Items)
    requires items.Item?
    ensures ItemsText(items) == items.before + Text(items.item) + items.after + ItemTail(items)
  {
  }

  /** One turn of the array loop. */
  lemma ElementStep(b: string, q: nat, es: seq<Node>, e: Node, m: nat, n: nat)
    requires q <= |b| && ParseValue(b, q) == Ok(e, m) && SkipSpace(b, m) == n < |b|
    ensures b[n] == ']' ==> ParseElements(b, q, es) == Ok(es + [e], n + 1)
    ensures
      b[n] == ',' && SkipSpace(b, n + 1) < |b| && b[SkipSpace(b, n + 1)] != ']' ==>
        ParseElements(b, q, es) == ParseElements(b, SkipSpace(b, n + 1), es + [e])
  {
    hide ParseValue, SkipSpace, LineAt, Plain;
  }

  /** The value after its white space, as the array loop gets it. */
  lemma ValueStep(b: string, q: nat, d: Layout)
    requires q <= |b| && SkipSpace(b, q) == q && Takes(ParseBare(b, q), Tree(d), q + |Text(d)|)
    ensures ParseValue(b, q).Ok? && ParseValue(b, q).next == q + |Text(d)|
    ensures Bare(ParseValue(b, q).value) == Node(Tree(d), 0)
  {
    hide ParseBare, SkipSpace, LineAt, BareValue, Text, Tree, Plain;
  }

  lemma GrowsByOne(was: seq<Node>, e: Node)
    ensures Grows(was, was + [e], [Bare(e)])
  {
    hide Bare;
  }

  /** An item is read as its element, and the reader then stands at what follows it. */
  lemma {:induction false} ItemStep(items: Items, b: string, p: nat, es: seq<Node>) returns (e: Node, n: nat)
    requires items.Item? && CleanItems(items) && At(b, p, ItemsText(items))
    ensures Bare(e) == Node(Tree(items.item), 0)
    ensures n + |ItemTail(items)| == p + |ItemsText(items)| && n < |b|
    ensures At(b, n, ItemTail(items)) && b[n] == ItemTail(items)[0]
    ensures b[n] == ']' ==> ParseElements(b, SkipSpace(b, p), es) == Ok(es + [e], n + 1)
    ensures
      b[n] == ',' && SkipSpace(b, n + 1) < |b| && b[SkipSpace(b, n + 1)] != ']' ==>
        ParseElements(b, SkipSpace(b, p), es) == ParseElements(b, SkipSpace(b, n + 1), es + [e])
    decreases items, 0
  {
    hide Text, ItemsText, SkipSpace, ParseValue, ParseElements, Plain, Tree, Bare, At, ItemTail;
    hide Takes, Spaces, StopsAt, Clean, IsSpace;
    ItemsTextSplits(items);
    Between(b, p, items.before, items.item, items.after, ItemTail(items));
    var q := p + |items.before|;
    ReadsBack(items.item, b, q);
    ValueStep(b, q, items.item);
    var m := q + |Text(items.item)|;
    e := ParseValue(b, q).value;
    n := m + |items.after|;
    ElementStep(b, q, es, e, m, n);
  }

  /** Every laid-out item list is read back, whatever was read before it. */
  lemma {:induction false} ItemsReadBack(items: Items, b: string, p: nat, es: seq<Node>)
    requires items.Item? && CleanItems(items) && At(b, p, ItemsText(items))
    ensures
      var r := ParseElements(b, SkipSpace(b, p), es);
      r.Ok? && r.next == p + |ItemsText(items)| && Grows(es, r.value, ItemTrees(items))
    decreases items, 1
  {
    hide Text, ItemsText, SkipSpace, ParseElements, Plain, Tree, Bare, Grows, At, DistinctElements;
    var e, n := ItemStep(items, b, p, es);
    if items.rest.NoItems? {
      assert ItemTrees(items) == [Bare(e)] by { assert ItemTrees(items.rest) == []; }
      GrowsByOne(es, e);
    } else {
      AtSplit(b, n, ",", ItemsText(items.rest));
      RestStartsWithValue(items.rest, b, n + 1);
      ItemsReadBack(items.rest, b, n + 1, es + [e]);
      var r := ParseElements(b, SkipSpace(b, n + 1), es + [e]);
      GrowsOneMore(es, e, r.value, ItemTrees(items.rest));
    }
  }

  lemma RestStartsWithValue(items: Items, b: string, p: nat)
    requires items.Item? && CleanItems(items) && At(b, p, ItemsText(items))
    ensures SkipSpace(b, p) < |b| && b[SkipSpace(b, p)] != ']'
  {
    hide Text, SkipSpace;
    ItemsTextSplits(items);
    Between(b, p, items.before, items.item, items.after, ItemTail(items));
    FirstByte(items.item);
  }

  function FieldTail(fields: Fields): (t: string)
    requires fields.Field?
    ensures |t| > 0 && t[0] == (if fields.rest.NoFields? then '}' else ',')
  {
    if fields.rest.NoFields? then "}" else "," + FieldsText(fields.rest)
  }

  lemma FieldsTextSplits(fields: Fields)
    requires fields.Field?
    ensures
      FieldsText(fields)
      == fields.before + (Quoted(fields.key) + (":" + (" " + Text(fields.value) + fields.after + FieldTail(fields))))
  {
    hide Text, Quoted;
    assert ": " == ":" + " ";
  }

  /** A laid-out key is read, and its value starts after the colon. */
  lemma KeyReadsBack(b: string, p: nat, before: string, key: string, tail: string)
    requires Spaces(before) && Ascii(key) && At(b, p, before + (Quoted(key) + (":" + tail)))
    ensures
      var q := p + |before|;
      var n := q + |Quoted(key)| + 1;
      && SkipSpace(b, p) == q < |b| && b[q] == '\"'
      && ParseKey(b, q) == Ok(key, n) && At(b, n, tail)
  {
    hide LineAt, ParseString, SkipSpace, Escaped;
    AtSplit(b, p, before, Quoted(key) + (":" + tail));
    var q := p + |before|;
    AtFirst(b, q, Quoted(key) + (":" + tail));
    SkipsTo(b, p, before);
    AtSplit(b, q, Quoted(key), ":" + tail);
    StringReadsBack(b, q, key);
    var m := q + |Quoted(key)|;
    AtSplit(b, m, ":", tail);
    AtFirst(b, m, ":");
    SkipsTo(b, m, "");
  }

  /** One turn of the object loop. */
  lemma EntryStep(b: string, q: nat, fs: seq<(string, Node)>, key: string, k: nat, e: Node, m: nat, n: nat)
    requires q <= |b| && ParseKey(b, q) == Ok(key, k) && ParseValue(b, k) == Ok(e, m)
    requires !Named(fs, key) && SkipSpace(b, m) == n < |b|
    ensures b[n] == '}' ==> ParseEntries(b, q, fs) == Ok(fs + [(key, e)], n + 1)
    ensures
      b[n] == ',' && SkipSpace(b, n + 1) < |b| && b[SkipSpace(b, n + 1)] != '}' ==>
        ParseEntries(b, q, fs) == ParseEntries(b, SkipSpace(b, n + 1), fs + [(key, e)])
  {
    hide ParseValue, SkipSpace, LineAt, Plain, ParseKey, Named, DistinctEntries;
  }

  lemma GrowsByOneEntry(was: seq<(string, Node)>, k: string, e: Node)
    ensures GrowsEntries(was, was + [(k, e)], [(k, Bare(e))])
  {
    hide Bare;
  }

  /** None of the entries read so far has a key of these fields. */
  predicate Apart(fs: seq<(string, Node)>, fields: Fields)
  {
    forall i :: 0 <= i < |fs| ==> !HasKey(fields, fs[i].0)
  }

  lemma ApartStep(fs: seq<(string, Node)>, fields: Fields, e: Node)
    requires fields.Field? && Apart(fs, fields) && !HasKey(fields.rest, fields.key)
    ensures !Named(fs, fields.key) && Apart(fs + [(fields.key, e)], fields.rest)
  {
    forall i | 0 <= i < |fs| ensures fs[i].0 != fields.key && !HasKey(fields.rest, fs[i].0) {
      assert !HasKey(fields, fs[i].0);
    }
  }

  lemma OneSpace() ensures Spaces(" ") {}

  /** A field is read as its entry, and the reader then stands at what follows it. */
  lemma {:induction false} FieldStep(fields: Fields, b: string, p: nat, fs: seq<(string, Node)>)
    returns (e: Node, n: nat)
    requires fields.Field? && CleanFields(fields) && At(b, p, FieldsText(fields)) && !Named(fs, fields.key)
    ensures Bare(e) == Node(Tree(fields.value), 0)
    ensures n + |FieldTail(fields)| == p + |FieldsText(fields)| && n < |b|
    ensures At(b, n, FieldTail(fields)) && b[n] == FieldTail(fields)[0]
    ensures b[n] == '}' ==> ParseEntries(b, SkipSpace(b, p), fs) == Ok(fs + [(fields.key, e)], n + 1)
    ensures
      b[n] == ',' && SkipSpace(b, n + 1) < |b| && b[SkipSpace(b, n + 1)] != '}' ==>
        ParseEntries(b, SkipSpace(b, p), fs) == ParseEntries(b, SkipSpace(b, n + 1), fs + [(fields.key, e)])
    decreases fields, 0
  {
    hide Text, FieldsText, Quoted, SkipSpace, ParseValue, ParseEntries, Plain, Tree, Bare, At;
    hide ParseKey, Named, HasKey, DistinctEntries, FieldTail, Takes, Spaces, Ascii, StopsAt, Clean, IsSpace;
    var tail := FieldTail(fields);
    FieldsTextSplits(fields);
    KeyReadsBack(b, p, fields.before, fields.key, " " + Text(fields.value) + fields.after + tail);
    var q := p + |fields.before|;
    var k := q + |Quoted(fields.key)| + 1;
    OneSpace();
    Between(b, k, " ", fields.value, fields.after, tail);
    ReadsBack(fields.value, b, k + 1);
    FieldValueStep(b, k, fields.value);
    e := ParseValue(b, k).value;
    n := k + 1 + |Text(fields.value)| + |fields.after|;
    EntryStep(b, q, fs, fields.key, k, e, k + 1 + |Text(fields.value)|, n);
  }

  /** Every laid-out field list is read back after entries that share no key with it. */
  lemma {:induction false} FieldsReadBack(fields: Fields, b: string, p: nat, fs: seq<(string, Node)>)
    requires fields.Field? && CleanFields(fields) && At(b, p, FieldsText(fields)) && Apart(fs, fields)
    ensures
      var r := ParseEntries(b, SkipSpace(b, p), fs);
      r.Ok? && r.next == p + |FieldsText(fields)| && GrowsEntries(fs, r.value, FieldTrees(fields))
    decreases fields, 1
  {
    hide Text, FieldsText, SkipSpace, ParseEntries, Plain, Tree, Bare, GrowsEntries, At;
    hide Apart, Named, HasKey, DistinctEntries;
    ApartStep(fs, fields, Node(Null, 0));
    var e, n := FieldStep(fields, b, p, fs);
    ApartStep(fs, fields, e);
    if fields.rest.NoFields? {
      assert FieldTrees(fields) == [(fields.key, Bare(e))] by { assert FieldTrees(fields.rest) == []; }
      GrowsByOneEntry(fs, fields.key, e);
    } else {
      AtSplit(b, n, ",", FieldsText(fields.rest));
      RestStartsWithKey(fields.rest, b, n + 1);
      FieldsReadBack(fields.rest, b, n + 1, fs + [(fields.key, e)]);
      var r := ParseEntries(b, SkipSpace(b, n + 1), fs + [(fields.key, e)]);
      GrowsOneEntry(fs, fields.key, e, r.value, FieldTrees(fields.rest));
    }
  }

  /** The value after the space behind its colon. */
  lemma FieldValueStep(b: string, k: nat, d: Layout)
    requires k + 1 <= |b| && SkipSpace(b, k) == k + 1 && Takes(ParseBare(b, k + 1), Tree(d), k + 1 + |Text(d)|)
    ensures ParseValue(b, k).Ok? && ParseValue(b, k).next == k + 1 + |Text(d)|
    ensures Bare(ParseValue(b, k).value) == Node(Tree(d), 0)
  {
    hide ParseBare, SkipSpace, LineAt, BareValue, Text, Tree, Plain;
  }

  lemma RestStartsWithKey(fields: Fields, b: string, p: nat)
    requires fields.Field? && CleanFields(fields) && At(b, p, FieldsText(fields))
    ensures SkipSpace(b, p) < |b| && b[SkipSpace(b, p)] == '\"'
  {
    hide Text, SkipSpace, Quoted;
    FieldsTextSplits(fields);
    KeyReadsBack(b, p, fields.before, fields.key, " " + Text(fields.value) + fields.after + FieldTail(fields));
  }

  /** Main result: a clean layout is read back as the tree it spells, at any position of any text and any depth. */
  lemma {:induction false} ReadsBack(d: Layout, b: string, p: nat)
    requires Clean(d) && At(b, p, Text(d)) && StopsAt(b, p + |Text(d)|)
    ensures Takes(ParseBare(b, p), Tree(d), p + |Text(d)|)
    decreases d, 1
  {
    hide Text, Tree, ParseBare, BareValue, At, StopsAt;
    match d
    case LArr(items, hollow) => ArrayReadsBack(items, hollow, b, p);
    case LObj(fields, hollow) => ObjectReadsBack(fields, hollow, b, p);
    case LInt(n) => IntReadsBack(n, b, p);
    case _ => ScalarReadsBack(d, b, p);
  }

  lemma IntReadsBack(n: int, b: string, p: nat)
    requires At(b, p, Text(LInt(n))) && StopsAt(b, p + |Text(LInt(n))|)
    ensures Takes(ParseBare(b, p), Tree(LInt(n)), p + |Text(LInt(n))|)
  {
    hide ParseBare, At, Signed;
    NumberReadsBack(b, p, n);
  }

  lemma ScalarReadsBack(d: Layout, b: string, p: nat)
    requires d.LNull? || d.LBool? || d.LStr?
    requires Clean(d) && At(b, p, Text(d))
    ensures Takes(ParseBare(b, p), Tree(d), p + |Text(d)|)
  {
    hide LineAt, ParseString, ParseNumber, ParseObject, ParseArray, Literal;
    AtFirst(b, p, Text(d));
    match d
    case LStr(s) => StringReadsBack(b, p, s);
    case LNull => WordReadsBack(b, p, "null", 0);
    case LBool(f) => WordReadsBack(b, p, if f then "true" else "false", 0);
    case _ =>
  }

  lemma {:induction false} ArrayReadsBack(items: Items, hollow: string, b: string, p: nat)
    requires Clean(LArr(items, hollow)) && At(b, p, Text(LArr(items, hollow)))
    ensures Takes(ParseBare(b, p), Tree(LArr(items, hollow)), p + |Text(LArr(items, hollow))|)
    decreases items, 2
  {
    hide ItemsText, ParseElements, LineAt, SkipSpace;
    if items.NoItems? {
      AtSplit(b, p, "[", hollow + "]");
      AtFirst(b, p, "[");
      AtSplit(b, p + 1, hollow, "]");
      AtFirst(b, p + 1 + |hollow|, "]");
      SkipsTo(b, p + 1, hollow);
    } else {
      AtSplit(b, p, "[", ItemsText(items));
      AtFirst(b, p, "[");
      RestStartsWithValue(items, b, p + 1);
      ItemsReadBack(items, b, p + 1, []);
      var r := ParseElements(b, SkipSpace(b, p + 1), []);
      assert BareValue(Arr(r.value)).elements == ItemTrees(items);
    }
  }

  lemma {:induction false} ObjectReadsBack(fields: Fields, hollow: string, b: string, p: nat)
    requires Clean(LObj(fields, hollow)) && At(b, p, Text(LObj(fields, hollow)))
    ensures Takes(ParseBare(b, p), Tree(LObj(fields, hollow)), p + |Text(LObj(fields, hollow))|)
    decreases fields, 2
  {
    hide FieldsText, ParseEntries, LineAt, SkipSpace;
    if fields.NoFields? {
      AtSplit(b, p, "{", hollow + "}");
      AtFirst(b, p, "{");
      AtSplit(b, p + 1, hollow, "}");
      AtFirst(b, p + 1 + |hollow|, "}");
      SkipsTo(b, p + 1, hollow);
    } else {
      AtSplit(b, p, "{", FieldsText(fields));
      AtFirst(b, p, "{");
      RestStartsWithKey(fields, b, p + 1);
      FieldsReadBack(fields, b, p + 1, []);
      var r := ParseEntries(b, SkipSpace(b, p + 1), []);
      assert BareValue(Obj(r.value)).entries == FieldTrees(fields);
    }
  }
}
