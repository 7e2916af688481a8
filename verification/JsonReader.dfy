/**
 The recursive-descent reader of crates/whirl-core/src/config.rs (`Parser`): a cursor over the bytes
 with a line counter. Each operation is proved to do what JsonSpec says, failure positions included.
 */
module JsonReader {
  import opened Basics
  import opened JsonTree
  import opened JsonSpec

  datatype Result<+T> = Fine(value: T) | Failed(line: nat, problem: Problem) {
    predicate IsFailure() { Failed? }

    function PropagateFailure<U>(): Result<U>
      requires Failed?
    {
      Failed(line, problem)
    }

    function Extract(): T
      requires Fine?
    {
      value
    }
  }

  /** A result, and the position it left the cursor at, are what the specification gives. */
  predicate Matches<T(==)>(r: Result<T>, pos: nat, spec: Parsed<T>)
  {
    match r
    case Fine(v) => spec == Ok(v, pos)
    case Failed(line, problem) => spec == Err(pos, line, problem)
  }

  class Reader {
    const bytes: string
    var pos: nat
    var line: nat

    /** The line counter is the line of the cursor. */
    ghost predicate Valid()
      reads this
    {
      pos <= |bytes| && line == LineAt(bytes, pos)
    }

    constructor (text: string)
      ensures Valid() && bytes == Utf8(text) && pos == 0
    {
      bytes := Utf8(text);
      pos, line := 0, 1;
    }

    function Next(): Option<char>
      reads this
    {
      Peek(bytes, pos)
    }

    method Bump() returns (c: Option<char>)
      requires Valid()
      modifies this
      ensures Valid() && c == old(Next()) && pos == Bumped(bytes, old(pos))
    {
      c := Next();
      if c.None? {
        return;
      }
      pos := pos + 1;
      if c.value == '\n' {
        line := line + 1;
      }
    }

    method SkipWhite()
      requires Valid()
      modifies this
      ensures Valid() && pos == SkipSpace(bytes, old(pos))
    {
      while pos < |bytes| && IsSpace(bytes[pos])
        invariant Valid() && SkipSpace(bytes, pos) == SkipSpace(bytes, old(pos))
        decreases |bytes| - pos
      {
        var _ := Bump();
      }
    }

    method ExpectByte(want: char) returns (r: Result<()>)
      requires Valid()
      modifies this
      ensures Valid() && Matches(r, pos, Expect(bytes, old(pos), want))
    {
      hide LineAt;
      if Next() == Some(want) {
        var _ := Bump();
        r := Fine(());
      } else {
        r := Failed(line, Expected(want, Next()));
      }
    }

    method ReadLiteral(word: string) returns (r: Result<()>)
      requires Valid()
      modifies this
      ensures Valid() && Matches(r, pos, Literal(bytes, old(pos), word, 0))
    {
      hide LineAt;
      for i := 0 to |word|
        invariant Valid() && Literal(bytes, pos, word, i) == Literal(bytes, old(pos), word, 0)
      {
        var found := Bump();
        if found != Some(word[i]) {
          return Failed(line, WordExpected(word));
        }
      }
      r := Fine(());
    }

    method Hex4() returns (r: Result<nat>)
      requires Valid()
      modifies this
      ensures Valid() && Matches(r, pos, HexFrom(bytes, old(pos), 0, 0))
    {
      hide LineAt, HexValue;
      var value := 0;
      for i := 0 to 4
        invariant Valid() && HexFrom(bytes, pos, i, value) == HexFrom(bytes, old(pos), 0, 0)
      {
        var byte := Bump();
        if byte.None? {
          return Failed(line, UnterminatedEscape);
        }
        var digit := HexValue(byte.value);
        if digit.None? {
          return Failed(line, NotHex);
        }
        value := value * 16 + digit.value;
      }
      r := Fine(value);
    }

    method ReadUnicodeEscape() returns (r: Result<char>)
      requires Valid()
      modifies this
      ensures Valid() && Matches(r, pos, UnicodeEscape(bytes, old(pos)))
    {
      hide LineAt, HexFrom, Expect;
      var high :- Hex4();
      if IsHigh(high) {
        var _ :- ExpectByte('\\');
        var _ :- ExpectByte('u');
        var low :- Hex4();
        if !IsLow(low) {
          return Failed(line, LowSurrogateExpected);
        }
        r := Fine(Combined(high, low));
      } else if IsScalar(high) {
        r := Fine(high as char);
      } else {
        r := Failed(line, NotACharacter(high));
      }
    }

    method ReadEscape() returns (r: Result<char>)
      requires Valid()
      modifies this
      ensures Valid() && Matches(r, pos, Escape(bytes, old(pos)))
    {
      hide LineAt, UnicodeEscape, ShortEscape;
      var escape := Bump();
      if escape.None? {
        return Failed(line, UnterminatedEscape);
      }
      if escape.value == 'u' {
        r := ReadUnicodeEscape();
      } else {
        var c := ShortEscape(escape.value);
        r := if c.Some? then Fine(c.value) else Failed(line, UnknownEscape(escape.value));
      }
    }

    /** Copies on past a plain byte as long as the source's inner loop does. */
    method CopyChunk() returns (end: nat)
      requires Valid()
      modifies this
      ensures Valid() && end == pos == RunEnd(bytes, old(pos), CopiesOn)
    {
      hide CopiesOn, LineAt;
      end := pos;
      while pos < |bytes| && CopiesOn(bytes[pos])
        invariant Valid() && end == pos && RunEnd(bytes, pos, CopiesOn) == RunEnd(bytes, old(pos), CopiesOn)
        decreases |bytes| - pos
      {
        end := end + 1;
        var _ := Bump();
      }
    }

    method ReadString() returns (r: Result<string>)
      requires Valid()
      modifies this
      ensures Valid() && Matches(r, pos, ParseString(bytes, old(pos)))
    {
      hide LineAt, Escape;
      var start := line;
      var _ :- ExpectByte('\"');
      var out := "";
      while true
        invariant Valid() && StringFrom(bytes, pos, out, start) == ParseString(bytes, old(pos))
        decreases |bytes| - pos
      {
        var was, before := pos, line;
        var byte := Bump();
        if byte.None? {
          return Failed(start, UnterminatedString);
        } else if byte == Some('\"') {
          return Fine(out);
        } else if byte == Some('\\') {
          var c :- ReadEscape();
          out := out + [c];
        } else if byte.value < ' ' {
          BumpedLine(bytes, was);
          return Failed(if byte == Some('\n') then line - 1 else line, ControlCharacter);
        } else {
          ChunkIsOneByte(bytes, pos);
          var end := CopyChunk();
          var chunk := bytes[was..end];
          assert chunk == [bytes[was]];
          if chunk[0] >= 0x80 as char {
            return Failed(line, NotUtf8);
          }
          out := out + chunk;
        }
      }
    }

    method ReadNumber() returns (r: Result<real>)
      requires Valid()
      modifies this
      ensures Valid() && Matches(r, pos, ParseNumber(bytes, old(pos)))
    {
      hide LineAt, ParseFloat;
      var start, startLine := pos, line;
      if Next() == Some('-') {
        var _ := Bump();
      }
      while pos < |bytes| && IsNumberByte(bytes[pos])
        invariant Valid() && old(pos) <= pos && NumberEnd(bytes, pos) == NumberStop(bytes, old(pos))
        decreases |bytes| - pos
      {
        var _ := Bump();
      }
      var x := ParseFloat(bytes[start..pos]);
      r := if x.Some? then Fine(x.value) else Failed(startLine, NotANumber(bytes[start..pos]));
    }

    method ReadScalar() returns (r: Result<Value>)
      requires Valid() && pos < |bytes|
      modifies this
      ensures Valid() && Matches(r, pos, ParseScalar(bytes, old(pos)))
    {
      hide LineAt, Literal, ParseString, ParseNumber;
      var first := bytes[pos];
      if first == '\"' {
        var s :- ReadString();
        r := Fine(Str(s));
      } else if first == 't' {
        var _ :- ReadLiteral("true");
        r := Fine(Bool(true));
      } else if first == 'f' {
        var _ :- ReadLiteral("false");
        r := Fine(Bool(false));
      } else if first == 'n' {
        var _ :- ReadLiteral("null");
        r := Fine(Null);
      } else if first == '-' || IsDigit(first) {
        var x :- ReadNumber();
        r := Fine(Num(x));
      } else {
        r := Failed(line, UnexpectedByte(first));
      }
    }

    method ReadValue() returns (r: Result<Node>)
      requires Valid()
      modifies this
      ensures Valid() && Matches(r, pos, ParseValue(bytes, old(pos)))
      decreases |bytes| - pos, 2
    {
      hide LineAt, SkipSpace, ParseObject, ParseArray, ParseScalar;
      SkipWhite();
      var start := line;
      if pos == |bytes| {
        return Failed(start, ValueMissing);
      }
      var v;
      if bytes[pos] == '{' {
        v :- ReadObject();
      } else if bytes[pos] == '[' {
        v :- ReadArray();
      } else {
        v :- ReadScalar();
      }
      r := Fine(Node(v, start));
    }

    method ReadArray() returns (r: Result<Value>)
      requires Valid() && pos < |bytes| && bytes[pos] == '['
      modifies this
      ensures Valid() && Matches(r, pos, ParseArray(bytes, old(pos)))
      decreases |bytes| - pos, 1
    {
      hide LineAt, SkipSpace, ParseValue;
      var _ := ExpectByte('[');
      var elements := [];
      SkipWhite();
      if Next() == Some(']') {
        var _ := Bump();
        return Fine(Arr(elements));
      }
      while true
        invariant Valid() && old(pos) < pos
        invariant ParseArray(bytes, old(pos)) == Then(ParseElements(bytes, pos, elements), es => Arr(es))
        decreases |bytes| - pos
      {
        var element :- ReadValue();
        elements := elements + [element];
        SkipWhite();
        if Next() == Some(',') {
          var _ := Bump();
          SkipWhite();
          if Next() == Some(']') {
            return Failed(line, TrailingComma);
          }
        } else if Next() == Some(']') {
          var _ := Bump();
          return Fine(Arr(elements));
        } else {
          return Failed(line, CommaOrEndExpected);
        }
      }
    }

    method ReadKey() returns (r: Result<string>)
      requires Valid()
      modifies this
      ensures Valid() && Matches(r, pos, ParseKey(bytes, old(pos)))
    {
      hide LineAt, SkipSpace, ParseString;
      var key := ReadString();
      if key.Failed? {
        return Failed(line, InKey(key.problem));
      }
      SkipWhite();
      var _ :- ExpectByte(':');
      r := Fine(key.value);
    }

    method ReadObject() returns (r: Result<Value>)
      requires Valid() && pos < |bytes| && bytes[pos] == '{'
      modifies this
      ensures Valid() && Matches(r, pos, ParseObject(bytes, old(pos)))
      decreases |bytes| - pos, 1
    {
      hide LineAt, SkipSpace, ParseValue, ParseKey, Named, Distinct, DistinctEntries;
      var _ := ExpectByte('{');
      var entries := [];
      SkipTwice(bytes, pos);
      SkipWhite();
      if Next() == Some('}') {
        var _ := Bump();
        return Fine(Obj(entries));
      }
      while true
        invariant Valid() && old(pos) < pos && SkipSpace(bytes, pos) == pos
        invariant ParseObject(bytes, old(pos)) == Then(ParseEntries(bytes, pos, entries), fs => Obj(fs))
        decreases |bytes| - pos
      {
        SkipWhite();
        ghost var from, read := pos, entries;
        var key :- ReadKey();
        var value :- ReadValue();
        if Named(entries, key) {
          return Failed(value.line, DuplicateKey(key));
        }
        entries := entries + [(key, value)];
        assert ParseEntries(bytes, from, read) == AfterEntry(bytes, pos, entries);
        SkipWhite();
        if Next() == Some(',') {
          var _ := Bump();
          SkipTwice(bytes, pos);
          SkipWhite();
          if Next() == Some('}') {
            return Failed(line, TrailingComma);
          }
        } else if Next() == Some('}') {
          var _ := Bump();
          return Fine(Obj(entries));
        } else {
          return Failed(line, CommaOrEndExpected);
        }
      }
    }

    method ReadDocument() returns (r: Result<Node>)
      requires Valid() && pos == 0
      modifies this
      ensures Valid() && Matches(r, pos, ParseBytes(bytes))
    {
      hide LineAt, SkipSpace, ParseValue;
      SkipWhite();
      var node :- ReadValue();
      SkipWhite();
      if pos < |bytes| {
        return Failed(line, TrailingContent);
      }
      r := Fine(node);
    }
  }

  /** Does the source's inner loop copy this byte and go on? */
  predicate CopiesOn(c: char)
  {
    !(c < 0x80 as char || (c >= ' ' && c != '\"' && c != '\\'))
  }

  function RunEnd(b: string, p: nat, go: char -> bool): (q: nat)
    requires p <= |b|
    ensures p <= q <= |b|
    decreases |b| - p
  {
    if p < |b| && go(b[p]) then RunEnd(b, p + 1, go) else p
  }

  /** The inner loop never copies a second byte: a byte from 0x80 up is also one from 0x20 up. */
  lemma ChunkIsOneByte(b: string, p: nat)
    requires p <= |b|
    ensures RunEnd(b, p, CopiesOn) == p
  {
  }

  lemma BumpedLine(b: string, p: nat)
    requires p < |b|
    ensures LineAt(b, p + 1) == LineAt(b, p) + (if b[p] == '\n' then 1 else 0)
  {
  }

  /** Skipping white space twice is skipping it once. */
  lemma {:induction false} SkipTwice(b: string, p: nat)
    requires p <= |b|
    ensures SkipSpace(b, SkipSpace(b, p)) == SkipSpace(b, p)
    decreases |b| - p
  {
    if p < |b| && IsSpace(b[p]) {
      SkipTwice(b, p + 1);
    }
  }
}
