/**
 How the state files are read (crates/whirl-core/src/state.rs:751-899): the document, and fields that
 may be absent, null, or of the wrong kind. Nothing here looks at a line number, so the document's are
 dropped at once.
 */
module StateReading {
  import opened Basics
  import opened JsonTree
  import opened JsonSpec
  import opened JsonLayout
  import opened JsonRoundTrip
  import opened StateLayouts
  import Floats

  datatype Fault =
    | EmptyFile
    | Syntax(line: nat, problem: Problem)
    | NotAnObject(what: string)
    | NotAnArray(what: string)
    | SchemaMissing
    | SchemaNotInteger
    | Missing(key: string)
    | Mismatch(key: string)
    | UnknownName(what: string, name: string)

  datatype Fallible<+T> = Good(value: T) | Bad(fault: Fault) {
    predicate IsFailure() { Bad? }

    function PropagateFailure<U>(): Fallible<U>
      requires Bad?
    {
      Bad(fault)
    }

    function Extract(): T
      requires Good?
    {
      value
    }
  }

  /** What reading a state file found: a value, or a file of a newer schema that must be left alone. */
  datatype StateFile<+T> = Read(value: T) | SchemaNewer(found: nat)

  const SCHEMA: nat := 1

  type Table = seq<(string, Node)>

  /** Rust's `char::is_whitespace`, which `trim` uses. */
  predicate IsWhite(c: char)
  {
    var n := c as int;
    9 <= n <= 13 || n == 32 || n == 0x85 || n == 0xA0 || n == 0x1680 || 0x2000 <= n <= 0x200A
      || n == 0x2028 || n == 0x2029 || n == 0x202F || n == 0x205F || n == 0x3000
  }

  predicate Blank(text: string) { forall i :: 0 <= i < |text| ==> IsWhite(text[i]) }

  function Document(text: string): Fallible<Table>
  {
    if Blank(text) then Bad(EmptyFile)
    else
      match Parse(text)
      case Err(_, line, problem) => Bad(Syntax(line, problem))
      case Ok(root, _) => AsObject(Bare(root), "the document")
  }

  const WHITE_SPACE :=
    "\t\n\U{B}\U{C}\r \U{85}\U{A0}\U{1680}\U{2000}\U{2001}\U{2002}\U{2003}\U{2004}\U{2005}\U{2006}"
    + "\U{2007}\U{2008}\U{2009}\U{200A}\U{2028}\U{2029}\U{202F}\U{205F}\U{3000}"

  /** White space is the 25 characters of the Unicode property White_Space, and a file of nothing else is empty. */
  lemma EmptyFileIs(text: string)
    ensures
      Document(text) == Bad(EmptyFile)
      <==> forall i :: 0 <= i < |text| ==> text[i] in WHITE_SPACE
  {
    hide Parse, Bare;
    forall c: char
      ensures IsWhite(c) <==> c in WHITE_SPACE
    {
    }
  }

  function AsObject(n: Node, what: string): Fallible<Table>
  {
    if n.value.Obj? then Good(n.value.entries) else Bad(NotAnObject(what))
  }

  /** The first entry of a name. */
  function FieldOf(fs: Table, key: string): Option<Node>
  {
    if |fs| == 0 then None else if fs[0].0 == key then Some(fs[0].1) else FieldOf(fs[1..], key)
  }

  /** A field that counts: absent and null are the same. */
  function Present(fs: Table, key: string): (n: Option<Node>)
    ensures n.Some? ==> !n.value.value.Null?
  {
    var n := FieldOf(fs, key);
    if n.Some? && n.value.value.Null? then None else n
  }

  function OptStr(fs: Table, key: string): Fallible<Option<string>>
  {
    match Present(fs, key)
    case None => Good(None)
    case Some(n) => if n.value.Str? then Good(Some(n.value.text)) else Bad(Mismatch(key))
  }

  function ReqStr(fs: Table, key: string): Fallible<string>
  {
    var s :- OptStr(fs, key);
    if s.Some? then Good(s.value) else Bad(Missing(key))
  }

  /** A number that is a counter: whole, not negative, and no larger than 2^64, which becomes 2^64 - 1. */
  function AsCounter(x: real): Option<nat>
  {
    if x >= 0.0 && x == x.Floor as real && x <= (Floats.U64_MAX + 1) as real then Some(Floats.Saturated(x.Floor))
    else None
  }

  function OptInt(fs: Table, key: string): Fallible<Option<nat>>
  {
    match Present(fs, key)
    case None => Good(None)
    case Some(n) =>
      if n.value.Num? && AsCounter(n.value.number).Some? then Good(AsCounter(n.value.number))
      else Bad(Mismatch(key))
  }

  function OptBool(fs: Table, key: string): Fallible<Option<bool>>
  {
    match Present(fs, key)
    case None => Good(None)
    case Some(n) => if n.value.Bool? then Good(Some(n.value.flag)) else Bad(Mismatch(key))
  }

  function OptObject(fs: Table, key: string): Fallible<Option<Table>>
  {
    match Present(fs, key)
    case None => Good(None)
    case Some(n) =>
      var o :- AsObject(n, key);
      Good(Some(o))
  }

  /** `unwrap_or` and `unwrap_or_default`. */
  function Or<T>(x: Option<T>, default: T): T { if x.Some? then x.value else default }

  function SchemaOf(fs: Table): Fallible<nat>
  {
    match FieldOf(fs, "schema")
    case None => Bad(SchemaMissing)
    case Some(n) =>
      if n.value.Num? && AsCounter(n.value.number).Some? then Good(AsCounter(n.value.number).value)
      else Bad(SchemaNotInteger)
  }

  // --- Reading a laid-out object ------------------------------------------------------

  /** What becomes of a counter on its way through the file. */
  function Through(n: nat): nat { Floats.Saturated(Floats.Rounded(n)) }

  predicate Survives(n: nat) { Floats.Exact(n) || n == Floats.U64_MAX }

  lemma ThroughSurvives(n: nat)
    requires n <= Floats.U64_MAX
    ensures Through(n) == n <==> Survives(n)
  {
    hide Floats.Rounded, Floats.Exact;
    Floats.CounterSurvives(n);
  }

  lemma CounterRead(n: nat)
    requires n <= Floats.U64_MAX
    ensures AsCounter(Nearest(n)) == Some(Through(n)) && Tree(LInt(n)) == Num(Nearest(n))
  {
    hide Floats.Rounded;
    Floats.CounterSurvives(n);
  }

  lemma {:induction false} FieldIsThere(fs: Table, i: nat)
    requires i < |fs| && DistinctKeys(fs)
    ensures FieldOf(fs, fs[i].0) == Some(fs[i].1)
  {
    if i > 0 { FieldIsThere(fs[1..], i - 1); }
  }

  lemma RowIsThere(rs: seq<Row>, i: nat)
    requires i < |rs| && DistinctNames(rs)
    ensures FieldOf(Entries(rs), rs[i].0) == Some(Node(Tree(rs[i].1), 0))
  {
    hide FieldOf, Tree;
    FieldIsThere(Entries(rs), i);
  }

  lemma StrIsRead(rs: seq<Row>, i: nat, s: Option<string>)
    requires i < |rs| && DistinctNames(rs) && rs[i].1 == MaybeStr(s)
    ensures OptStr(Entries(rs), rs[i].0) == Good(s)
  {
    hide FieldOf, Entries;
    RowIsThere(rs, i);
  }

  lemma ReqStrIsRead(rs: seq<Row>, i: nat, s: string)
    requires i < |rs| && DistinctNames(rs) && rs[i].1 == LStr(s)
    ensures OptStr(Entries(rs), rs[i].0) == Good(Some(s)) && ReqStr(Entries(rs), rs[i].0) == Good(s)
  {
    hide OptStr;
    StrIsRead(rs, i, Some(s));
  }

  lemma IntIsRead(rs: seq<Row>, i: nat, n: nat)
    requires i < |rs| && DistinctNames(rs) && rs[i].1 == LInt(n) && n <= Floats.U64_MAX
    ensures OptInt(Entries(rs), rs[i].0) == Good(Some(Through(n)))
  {
    hide FieldOf, Entries, Nearest, AsCounter;
    RowIsThere(rs, i);
    CounterRead(n);
  }

  lemma MaybeIntIsRead(rs: seq<Row>, i: nat, n: Option<nat>)
    requires i < |rs| && DistinctNames(rs) && rs[i].1 == MaybeInt(n)
    requires n.Some? ==> n.value <= Floats.U64_MAX
    ensures OptInt(Entries(rs), rs[i].0) == Good(if n.Some? then Some(Through(n.value)) else None)
  {
    hide FieldOf, Entries, Nearest, AsCounter;
    RowIsThere(rs, i);
    if n.Some? { CounterRead(n.value); }
  }

  lemma BoolIsRead(rs: seq<Row>, i: nat, b: bool)
    requires i < |rs| && DistinctNames(rs) && rs[i].1 == LBool(b)
    ensures OptBool(Entries(rs), rs[i].0) == Good(Some(b))
  {
    hide FieldOf, Entries;
    RowIsThere(rs, i);
  }

  lemma SchemaIsRead(rs: seq<Row>)
    requires |rs| > 0 && DistinctNames(rs) && rs[0] == ("schema", LInt(SCHEMA))
    ensures SchemaOf(Entries(rs)) == Good(SCHEMA)
  {
    hide FieldOf, Entries, Nearest, AsCounter, Floats.Rounded;
    RowIsThere(rs, 0);
    CounterRead(SCHEMA);
    Floats.SmallIsExact(SCHEMA);
  }

  lemma ObjectIsRead(rs: seq<Row>, i: nat, inner: seq<Row>, before: string, last: string)
    requires i < |rs| && DistinctNames(rs) && rs[i].1 == Object(inner, before, last)
    ensures OptObject(Entries(rs), rs[i].0) == Good(Some(Entries(inner)))
  {
    hide FieldOf, Entries, FieldTrees, Rows;
    RowIsThere(rs, i);
    RowsTrees(inner, before, last);
  }

  lemma NullIsRead(rs: seq<Row>, i: nat)
    requires i < |rs| && DistinctNames(rs) && rs[i].1 == LNull
    ensures OptObject(Entries(rs), rs[i].0) == Good(None)
  {
    hide FieldOf, Entries;
    RowIsThere(rs, i);
  }

  /** Main step: the text of a clean laid-out object is read as its rows. */
  lemma DocumentIsRead(rs: seq<Row>, before: string, last: string)
    requires |rs| > 0 && Spaces(before) && Spaces(last)
    requires DistinctNames(rs) && AsciiNames(rs) && CleanValues(rs)
    ensures Document(Text(Object(rs, before, last)) + "\n") == Good(Entries(rs))
  {
    hide Text, Object, Entries, Parse, Clean, Tree, BareValue, DistinctNames, AsciiNames, CleanValues;
    var d := Object(rs, before, last);
    ObjectClean(rs, before, last);
    DocumentReadsBack(d, "\n");
    NotBlank(rs, before, last);
  }

  lemma NotBlank(rs: seq<Row>, before: string, last: string)
    requires |rs| > 0
    ensures !Blank(Text(Object(rs, before, last)) + "\n")
  {
    hide Text, Object, Joined;
    ObjectText(rs, before, last);
    var t := Text(Object(rs, before, last)) + "\n";
    assert t[0] == '{';
  }

  /** Text with a character of 0x80 or above is never read. */
  lemma NonAsciiIsRefused(text: string)
    requires !Ascii(text) && !Blank(text)
    ensures Document(text).Bad?
  {
    hide Parse, Ascii, Bare;
    if Parse(text).Ok? { AcceptedIsAsciiAndDistinct(text); }
  }
}
