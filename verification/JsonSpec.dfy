/**
 What the JSON reader of crates/whirl-core/src/config.rs accepts and reports, as functions from a
 position in the bytes to a value or a failure. The reader itself is the class in JsonReader.dfy.
 A byte is written as the character of its value.
 */
module JsonSpec {
  import opened Basics
  import opened JsonTree
  import Floats

  datatype Problem =
    | Expected(want: char, found: Option<char>)
    | UnexpectedByte(byte: char)
    | ValueMissing
    | WordExpected(word: string)
    | DuplicateKey(key: string)
    | TrailingComma
    | CommaOrEndExpected
    | UnterminatedString
    | UnterminatedEscape
    | UnknownEscape(byte: char)
    | ControlCharacter
    | NotUtf8
    | LowSurrogateExpected
    | NotACharacter(code: nat)
    | NotHex
    | NotANumber(numeral: string)
    | InKey(inner: Problem)
    | TrailingContent

  /** A value and the position after it, or the position where the reader stopped, the line and the reason. */
  datatype Parsed<+T> = Ok(value: T, next: nat) | Err(at: nat, line: nat, problem: Problem)

  /** The line of a position, counting from 1. */
  function LineAt(b: string, p: nat): nat
    requires p <= |b|
  {
    if p == 0 then 1 else LineAt(b, p - 1) + (if b[p - 1] == '\n' then 1 else 0)
  }

  predicate IsSpace(c: char) { c == ' ' || c == '\t' || c == '\n' || c == '\r' }

  function Peek(b: string, p: nat): Option<char>
  {
    if p < |b| then Some(b[p]) else None
  }

  /** The bytes from p up to q are all below 0x80. */
  predicate Plain(b: string, p: nat, q: nat)
  {
    p <= q <= |b| && forall i :: p <= i < q ==> b[i] < 0x80 as char
  }

  function SkipSpace(b: string, p: nat): (q: nat)
    requires p <= |b|
    ensures Plain(b, p, q)
    decreases |b| - p
  {
    if p < |b| && IsSpace(b[p]) then SkipSpace(b, p + 1) else p
  }

  function Expect(b: string, p: nat, c: char): Parsed<()>
    requires p <= |b|
  {
    if p < |b| && b[p] == c then Ok((), p + 1) else Err(p, LineAt(b, p), Expected(c, Peek(b, p)))
  }

  /** The position after the byte at p, if there is one. */
  function Bumped(b: string, p: nat): (q: nat)
    requires p <= |b|
    ensures p <= q <= |b|
  {
    if p < |b| then p + 1 else p
  }

  /** The rest of a word from its character i on. */
  function Literal(b: string, p: nat, word: string, i: nat): (r: Parsed<()>)
    requires p <= |b| && i <= |word|
    ensures r.Ok? ==> r.next == p + (|word| - i) && r.next <= |b| && b[p..r.next] == word[i..]
    ensures r.Err? ==> r.at <= |b|
    decreases |word| - i
  {
    if i == |word| then Ok((), p)
    else if p < |b| && b[p] == word[i] then
      var r := Literal(b, p + 1, word, i + 1);
      assert r.Ok? ==> b[p..r.next] == [b[p]] + b[p + 1..r.next];
      r
    else Err(Bumped(b, p), LineAt(b, Bumped(b, p)), WordExpected(word))
  }

  // --- Strings -------------------------------------------------------------------

  function HexValue(c: char): Option<nat>
  {
    if '0' <= c <= '9' then Some(c as nat - 48)
    else if 'a' <= c <= 'f' then Some(c as nat - 87)
    else if 'A' <= c <= 'F' then Some(c as nat - 55)
    else None
  }

  /** The hex digits from number i of four on, after the value of the earlier ones. */
  function HexFrom(b: string, p: nat, i: nat, value: nat): (r: Parsed<nat>)
    requires p <= |b| && i <= 4
    ensures r.Ok? ==> Plain(b, p, r.next) && r.next == p + (4 - i)
    ensures r.Err? ==> r.at <= |b|
    decreases 4 - i
  {
    if i == 4 then Ok(value, p)
    else if p == |b| then Err(p, LineAt(b, p), UnterminatedEscape)
    else match HexValue(b[p])
      case None => Err(p + 1, LineAt(b, p + 1), NotHex)
      case Some(d) => HexFrom(b, p + 1, i + 1, value * 16 + d)
  }

  predicate IsHigh(code: nat) { 0xD800 <= code < 0xDC00 }

  predicate IsLow(code: nat) { 0xDC00 <= code < 0xE000 }

  predicate IsScalar(code: nat) { code < 0xD800 || 0xE000 <= code < 0x11_0000 }

  /** A `\u` escape, from its first hex digit on; a pair of surrogates is one character. */
  function UnicodeEscape(b: string, p: nat): (r: Parsed<char>)
    requires p <= |b|
    ensures r.Ok? ==> Plain(b, p, r.next) && p < r.next
    ensures r.Err? ==> r.at <= |b|
  {
    match HexFrom(b, p, 0, 0)
    case Err(at, line, problem) => Err(at, line, problem)
    case Ok(high, q) =>
      if IsHigh(high) then LowSurrogate(b, q, high)
      else if IsScalar(high) then Ok(high as char, q)
      else Err(q, LineAt(b, q), NotACharacter(high))
  }

  function LowSurrogate(b: string, p: nat, high: nat): (r: Parsed<char>)
    requires p <= |b| && IsHigh(high)
    ensures r.Ok? ==> Plain(b, p, r.next)
    ensures r.Err? ==> r.at <= |b|
  {
    match Expect(b, p, '\\')
    case Err(at, line, problem) => Err(at, line, problem)
    case Ok(_, q) =>
      match Expect(b, q, 'u')
      case Err(at, line, problem) => Err(at, line, problem)
      case Ok(_, q') =>
        match HexFrom(b, q', 0, 0)
        case Err(at, line, problem) => Err(at, line, problem)
        case Ok(low, next) =>
          if IsLow(low) then Ok(Combined(high, low), next) else Err(next, LineAt(b, next), LowSurrogateExpected)
  }

  /** The character a surrogate pair stands for; it is always one, so the source's last check never fails. */
  function Combined(high: nat, low: nat): char
    requires IsHigh(high) && IsLow(low)
  {
    (0x1_0000 + (high - 0xD800) * 1024 + (low - 0xDC00)) as char
  }

  /** The character a one-letter escape stands for. */
  function ShortEscape(c: char): Option<char>
  {
    match c
    case '\"' => Some('\"')
    case '\\' => Some('\\')
    case '/' => Some('/')
    case 'b' => Some(8 as char)
    case 'f' => Some(12 as char)
    case 'n' => Some('\n')
    case 'r' => Some('\r')
    case 't' => Some('\t')
    case _ => None
  }

  /** An escape, from the byte after its backslash on. */
  function Escape(b: string, p: nat): (r: Parsed<char>)
    requires p <= |b|
    ensures r.Ok? ==> Plain(b, p, r.next) && p < r.next
    ensures r.Err? ==> r.at <= |b|
  {
    if p == |b| then Err(p, LineAt(b, p), UnterminatedEscape)
    else if b[p] == 'u' then UnicodeEscape(b, p + 1)
    else match ShortEscape(b[p])
      case Some(c) => Ok(c, p + 1)
      case None => Err(p + 1, LineAt(b, p + 1), UnknownEscape(b[p]))
  }

  /** The rest of a string whose first characters are `out`, opened on the given line. */
  function StringFrom(b: string, p: nat, out: string, start: nat): (r: Parsed<string>)
    requires p <= |b|
    ensures r.Ok? ==> Plain(b, p, r.next) && p < r.next
    ensures r.Err? ==> r.at <= |b|
    decreases |b| - p
  {
    if p == |b| then Err(p, start, UnterminatedString)
    else if b[p] == '\"' then Ok(out, p + 1)
    else if b[p] == '\\' then
      (match Escape(b, p + 1)
       case Err(at, line, problem) => Err(at, line, problem)
       case Ok(c, next) => StringFrom(b, next, out + [c], start))
    else if b[p] < ' ' then Err(p + 1, LineAt(b, p), ControlCharacter)
    else if b[p] >= 0x80 as char then Err(p + 1, LineAt(b, p + 1), NotUtf8)
    else StringFrom(b, p + 1, out + [b[p]], start)
  }

  function ParseString(b: string, p: nat): (r: Parsed<string>)
    requires p <= |b|
    ensures r.Ok? ==> Plain(b, p, r.next) && p < r.next
    ensures r.Err? ==> r.at <= |b|
  {
    match Expect(b, p, '\"')
    case Err(at, line, problem) => Err(at, line, problem)
    case Ok(_, q) => StringFrom(b, q, "", LineAt(b, p))
  }

  // --- Numbers -------------------------------------------------------------------

  predicate IsNumberByte(c: char)
  {
    IsDigit(c) || c == '.' || c == 'e' || c == 'E' || c == '+' || c == '-'
  }

  function NumberEnd(b: string, p: nat): (q: nat)
    requires p <= |b|
    ensures Plain(b, p, q)
    ensures q == |b| || !IsNumberByte(b[q])
    ensures forall i :: p <= i < q ==> IsNumberByte(b[i])
    decreases |b| - p
  {
    if p < |b| && IsNumberByte(b[p]) then NumberEnd(b, p + 1) else p
  }

  function DigitsEnd(t: string, i: nat): (j: nat)
    requires i <= |t|
    ensures i <= j <= |t| && AllDigits(t[i..j])
    ensures j == |t| || !IsDigit(t[j])
    decreases |t| - i
  {
    if i < |t| && IsDigit(t[i]) then
      var j := DigitsEnd(t, i + 1);
      assert t[i..j] == [t[i]] + t[i + 1..j];
      j
    else i
  }

  /** The number a numeral of digits stands for when its point is `shift` places from its right end. */
  function Scaled(digits: nat, shift: int): real
  {
    if shift >= 0 then Nearest(digits * Pow10(shift))
    else if digits % Pow10(-shift) == 0 then Nearest(digits / Pow10(-shift))
    else digits as real / Pow10(-shift) as real
  }

  /** A whole number is rounded to the nearest `f64`; any other value is kept exact. */
  function Nearest(n: nat): real { Floats.Rounded(n) as real }

  /** Rust's grammar for an `f64`, without the words for infinity and not-a-number. */
  function ParseFloat(t: string): Option<real>
  {
    if |t| > 0 && t[0] == '-' then
      (match Unsigned(t[1..])
       case Some(x) => Some(0.0 - x)
       case None => None)
    else if |t| > 0 && t[0] == '+' then Unsigned(t[1..])
    else Unsigned(t)
  }

  function Unsigned(t: string): Option<real>
  {
    var i := DigitsEnd(t, 0);
    var j := if i < |t| && t[i] == '.' then DigitsEnd(t, i + 1) else i;
    var fraction := if j == i then "" else t[i + 1..j];
    var digits := t[0..i] + fraction;
    if |digits| == 0 then None
    else
      match Exponent(t[j..])
      case None => None
      case Some(e) => Some(Scaled(ValueOf(digits), e - |fraction|))
  }

  function Exponent(t: string): Option<int>
  {
    if |t| == 0 then Some(0)
    else if t[0] != 'e' && t[0] != 'E' then None
    else
      var signed := |t| > 1 && (t[1] == '-' || t[1] == '+');
      var digits := t[if signed then 2 else 1..];
      if |digits| == 0 || !AllDigits(digits) then None
      else
        var e: int := ValueOf(digits);
        Some(if signed && t[1] == '-' then -e else e)
  }

  /** Where a number that starts at p ends. */
  function NumberStop(b: string, p: nat): (q: nat)
    requires p <= |b|
    ensures Plain(b, p, q)
  {
    NumberEnd(b, if p < |b| && b[p] == '-' then p + 1 else p)
  }

  function ParseNumber(b: string, p: nat): (r: Parsed<real>)
    requires p <= |b|
    ensures r.Ok? ==> r.next == NumberStop(b, p)
    ensures r.Err? ==> r.at == NumberStop(b, p)
  {
    var q := NumberStop(b, p);
    match ParseFloat(b[p..q])
    case Some(x) => Ok(x, q)
    case None => Err(q, LineAt(b, p), NotANumber(b[p..q]))
  }

  // --- Values --------------------------------------------------------------------

  /** A parsed piece became a value. */
  function Then<T>(r: Parsed<T>, f: T -> Value): (v: Parsed<Value>)
    ensures v.Ok? <==> r.Ok?
    ensures r.Ok? ==> v == Ok(f(r.value), r.next)
    ensures r.Err? ==> v == Err(r.at, r.line, r.problem)
  {
    match r
    case Ok(x, next) => Ok(f(x), next)
    case Err(at, line, problem) => Err(at, line, problem)
  }

  function ParseValue(b: string, p: nat): (r: Parsed<Node>)
    requires p <= |b|
    ensures r.Ok? ==> Plain(b, p, r.next) && p < r.next && Distinct(r.value.value)
    ensures r.Err? ==> r.at <= |b|
    decreases |b| - p, 2
  {
    var q := SkipSpace(b, p);
    match ParseBare(b, q)
    case Ok(v, next) => Ok(Node(v, LineAt(b, q)), next)
    case Err(at, line, problem) => Err(at, line, problem)
  }

  /** The value that starts at p, where no white space is left to skip. */
  function ParseBare(b: string, p: nat): (r: Parsed<Value>)
    requires p <= |b|
    ensures r.Ok? ==> Plain(b, p, r.next) && p < r.next && Distinct(r.value)
    ensures r.Err? ==> r.at <= |b|
    decreases |b| - p, 1
  {
    if p == |b| then Err(p, LineAt(b, p), ValueMissing)
    else if b[p] == '{' then ParseObject(b, p)
    else if b[p] == '[' then ParseArray(b, p)
    else ParseScalar(b, p)
  }

  function ParseScalar(b: string, p: nat): (r: Parsed<Value>)
    requires p < |b|
    ensures r.Ok? ==> Plain(b, p, r.next) && p < r.next && Distinct(r.value)
    ensures r.Err? ==> r.at <= |b|
  {
    if b[p] == '\"' then Then(ParseString(b, p), s => Str(s))
    else if b[p] == 't' then Word(b, p, "true", Bool(true))
    else if b[p] == 'f' then Word(b, p, "false", Bool(false))
    else if b[p] == 'n' then Word(b, p, "null", Null)
    else if b[p] == '-' || IsDigit(b[p]) then Then(ParseNumber(b, p), x => Num(x))
    else Err(p, LineAt(b, p), UnexpectedByte(b[p]))
  }

  function Word(b: string, p: nat, word: string, v: Value): (r: Parsed<Value>)
    requires p <= |b| && Ascii(word)
    ensures r.Ok? ==> r.value == v && r.next == p + |word| && Plain(b, p, r.next)
    ensures r.Err? ==> r.at <= |b|
  {
    var r := Literal(b, p, word, 0);
    assert r.Ok? ==> forall i :: p <= i < r.next ==> b[i] == b[p..r.next][i - p] == word[i - p];
    Then(r, _ => v)
  }

  function ParseArray(b: string, p: nat): (r: Parsed<Value>)
    requires p < |b| && b[p] == '['
    ensures r.Ok? ==> Plain(b, p, r.next) && p < r.next && Distinct(r.value)
    ensures r.Err? ==> r.at <= |b|
    decreases |b| - p, 0
  {
    var q := SkipSpace(b, p + 1);
    if q < |b| && b[q] == ']' then Ok(Arr([]), q + 1) else Then(ParseElements(b, q, []), es => Arr(es))
  }

  predicate DistinctElements(es: seq<Node>)
  {
    forall i :: 0 <= i < |es| ==> Distinct(es[i].value)
  }

  /** The rest of an array whose first elements are `es`, from an element on. */
  function ParseElements(b: string, p: nat, es: seq<Node>): (r: Parsed<seq<Node>>)
    requires p <= |b|
    ensures r.Ok? ==> Plain(b, p, r.next) && p < r.next
    ensures r.Ok? && DistinctElements(es) ==> DistinctElements(r.value)
    ensures r.Err? ==> r.at <= |b|
    decreases |b| - p, 3
  {
    match ParseValue(b, p)
    case Err(at, line, problem) => Err(at, line, problem)
    case Ok(e, n) =>
      var q := SkipSpace(b, n);
      if q < |b| && b[q] == ',' then
        var next := SkipSpace(b, q + 1);
        if next < |b| && b[next] == ']' then Err(next, LineAt(b, next), TrailingComma)
        else ParseElements(b, next, es + [e])
      else if q < |b| && b[q] == ']' then Ok(es + [e], q + 1)
      else Err(q, LineAt(b, q), CommaOrEndExpected)
  }

  function ParseObject(b: string, p: nat): (r: Parsed<Value>)
    requires p < |b| && b[p] == '{'
    ensures r.Ok? ==> Plain(b, p, r.next) && p < r.next && Distinct(r.value)
    ensures r.Err? ==> r.at <= |b|
    decreases |b| - p, 0
  {
    var q := SkipSpace(b, p + 1);
    if q < |b| && b[q] == '}' then Ok(Obj([]), q + 1) else Then(ParseEntries(b, q, []), fs => Obj(fs))
  }

  predicate DistinctEntries(fs: seq<(string, Node)>)
  {
    DistinctKeys(fs) && forall i :: 0 <= i < |fs| ==> Distinct(fs[i].1.value)
  }

  predicate Named(fs: seq<(string, Node)>, key: string)
  {
    exists i :: 0 <= i < |fs| && fs[i].0 == key
  }

  /** A key, its colon, and where its value starts. */
  function ParseKey(b: string, p: nat): (r: Parsed<string>)
    requires p <= |b|
    ensures r.Ok? ==> Plain(b, p, r.next) && p < r.next
    ensures r.Err? ==> r.at <= |b|
  {
    match ParseString(b, p)
    case Err(at, line, problem) => Err(at, LineAt(b, at), InKey(problem))
    case Ok(key, n) =>
      match Expect(b, SkipSpace(b, n), ':')
      case Err(at, line, problem) => Err(at, line, problem)
      case Ok(_, next) => Ok(key, next)
  }

  /** The rest of an object whose first entries are `fs`, from a key on. */
  function ParseEntries(b: string, p: nat, fs: seq<(string, Node)>): (r: Parsed<seq<(string, Node)>>)
    requires p <= |b|
    ensures r.Ok? ==> Plain(b, p, r.next) && p < r.next
    ensures r.Ok? && DistinctEntries(fs) ==> DistinctEntries(r.value)
    ensures r.Err? ==> r.at <= |b|
    decreases |b| - p, 3
  {
    match ParseKey(b, p)
    case Err(at, line, problem) => Err(at, line, problem)
    case Ok(key, n) =>
      match ParseValue(b, n)
      case Err(at, line, problem) => Err(at, line, problem)
      case Ok(v, m) =>
        if Named(fs, key) then Err(m, v.line, DuplicateKey(key))
        else AfterEntry(b, m, fs + [(key, v)])
  }

  /** What may follow an entry: a comma and another entry, or the end of the object. */
  function AfterEntry(b: string, p: nat, fs: seq<(string, Node)>): (r: Parsed<seq<(string, Node)>>)
    requires p <= |b|
    ensures r.Ok? ==> Plain(b, p, r.next) && p < r.next
    ensures r.Ok? && DistinctEntries(fs) ==> DistinctEntries(r.value)
    ensures r.Err? ==> r.at <= |b|
    decreases |b| - p, 0
  {
    var q := SkipSpace(b, p);
    if q < |b| && b[q] == ',' then
      var next := SkipSpace(b, q + 1);
      if next < |b| && b[next] == '}' then Err(next, LineAt(b, next), TrailingComma)
      else ParseEntries(b, next, fs)
    else if q < |b| && b[q] == '}' then Ok(fs, q + 1)
    else Err(q, LineAt(b, q), CommaOrEndExpected)
  }

  function ParseBytes(b: string): (r: Parsed<Node>)
    ensures r.Ok? ==> Ascii(b) && Distinct(r.value.value)
  {
    match ParseValue(b, SkipSpace(b, 0))
    case Err(at, line, problem) => Err(at, line, problem)
    case Ok(n, p) =>
      var q := SkipSpace(b, p);
      if q < |b| then Err(q, LineAt(b, q), TrailingContent) else Ok(n, q)
  }

  /** Parse one document. */
  function Parse(text: string): Parsed<Node> { ParseBytes(Utf8(text)) }

  /**
   Main result: only documents of characters below 0x80 with no repeated key are ever accepted. The
   reader copies a string byte by byte, and a byte of a multi-byte character is not valid UTF-8.
   */
  lemma AcceptedIsAsciiAndDistinct(text: string)
    requires Parse(text).Ok?
    ensures Ascii(text) && Distinct(Parse(text).value.value)
  {
    Utf8OfAscii(text);
  }
}
