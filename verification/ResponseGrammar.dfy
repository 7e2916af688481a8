/**
 The response grammar (docs/architecture.md 2.5 and 2.7, crates/whirl-core/src/protocol.rs:186-214, 578-696): which
 texts are which response, stated on the bytes of their lines.
 */
module ResponseGrammar {
  import opened Basics
  import opened Texts
  import opened Responses

  /** The word of an error code. */
  predicate IsWordOf(word: string, code: ErrorCode)
  {
    match code
    case UnknownVerb => word == "unknown_verb"
    case BadArgs => word == "bad_args"
    case TooLong => word == "too_long"
    case BadFraming => word == "bad_framing"
    case BadProtocol => word == "bad_protocol"
    case Busy => word == "busy"
    case NotFound => word == "not_found"
    case NoPrev => word == "no_prev"
    case NoCandidates => word == "no_candidates"
    case Offline => word == "offline"
    case TooLarge => word == "too_large"
    case NotAnImage => word == "not_an_image"
    case SetFailed => word == "set_failed"
    case Enospc => word == "enospc"
    case CacheReadonly => word == "cache_readonly"
    case CacheUnwritable => word == "cache_unwritable"
    case WorkerFailed => word == "worker_failed"
    case Timeout => word == "timeout"
    case FavoritesDegraded => word == "favorites_degraded"
    case BadConfig => word == "bad_config"
    case Internal => word == "internal"
  }

  function Returns(k: nat): string { seq(k, _ => '\r') }

  /** The last line of a response. */
  ghost predicate IsTerminator(line: string, t: Terminator)
  {
    match t
    case Done => line == "OK"
    case Failed(code, message) =>
      exists word: string :: IsWordOf(word, code)
        && (line == "ERR " + word + " " + message || (line == "ERR " + word && message == ""))
  }

  predicate IsData(line: string) { line != "OK" && !("ERR " <= line) }

  /** `line` up to a newline, less up to two carriage returns, or up to the end of the text, less one. */
  ghost predicate IsFirstLine(text: string, line: string, rest: string)
  {
    '\n' !in line
    && ((exists k: nat :: k <= 2 && (k < 2 ==> !EndsWith(line, '\r')) && text == line + Returns(k) + "\n" + rest)
        || (rest == "" && '\n' !in text && text != ""
            && exists k: nat :: k <= 1 && (k < 1 ==> !EndsWith(line, '\r')) && text == line + Returns(k)))
  }

  /** Data lines, and then a terminator; what follows the terminator is not looked at. */
  ghost predicate IsResponse(text: string, lines: seq<string>, t: Terminator)
    decreases |lines|
  {
    if |lines| == 0 then
      exists line: string, rest: string :: IsFirstLine(text, line, rest) && IsTerminator(line, t)
    else
      IsData(lines[0]) && exists rest: string :: IsFirstLine(text, lines[0], rest) && IsResponse(rest, lines[1..], t)
  }

  // --- Words --------------------------------------------------------------------------

  lemma WordIsName(word: string, code: ErrorCode)
    ensures IsWordOf(word, code) <==> Name(code) == word
  {
  }

  lemma {:induction false} FoundIsNamed(codes: seq<ErrorCode>, name: string)
    ensures CodeNamed(codes, name).Some? ==> Name(CodeNamed(codes, name).value) == name
  {
    hide Name;
    if |codes| > 0 { FoundIsNamed(codes[1..], name); }
  }

  lemma CodeIsWord(word: string, code: ErrorCode)
    ensures CodeNamed(ALL, word) == Some(code) <==> IsWordOf(word, code)
  {
    hide Name, IsWordOf, CodeNamed;
    WordIsName(word, code);
    FoundIsNamed(ALL, word);
    AllCodes(code);
  }

  // --- One line -----------------------------------------------------------------------

  lemma WordIsPlain(word: string, code: ErrorCode)
    requires IsWordOf(word, code)
    ensures ' ' !in word
  {
    hide Name, IsWordOf;
    WordIsName(word, code);
    NameIsPlain(code);
  }

  lemma DoneIs(raw: string, line: string, t: Terminator)
    requires StripOne(raw, '\r') == line && (line == "OK" || t == Done)
    ensures ReadLine(raw) == End(t) <==> IsTerminator(line, t)
  {
    hide CodeNamed, IsWordOf;
    assert "OK"[0] != "ERR "[0];
  }

  /** The word after `ERR `, and the message after it. */
  function WordIn(rest: string): string { var cut := SplitOnce(rest, ' '); if cut.Some? then cut.value.0 else rest }

  function MessageIn(rest: string): string { var cut := SplitOnce(rest, ' '); if cut.Some? then cut.value.1 else "" }

  /** A word and a message spell what follows `ERR ` if and only if they are what it is cut into. */
  lemma FailureIs(rest: string, word: string, message: string)
    requires ' ' !in word
    ensures rest == word + " " + message || (rest == word && message == "")
            <==> word == WordIn(rest) && message == MessageIn(rest)
  {
    if rest == word + " " + message {
      assert rest == word + [' '] + message;
      SplitOnceOf(word, ' ', message);
    }
  }

  lemma ReadFailure(raw: string, rest: string, code: ErrorCode, message: string)
    requires StripOne(raw, '\r') == "ERR " + rest
    ensures ReadLine(raw) == End(Failed(code, message))
            <==> CodeNamed(ALL, WordIn(rest)) == Some(code) && message == MessageIn(rest)
  {
    PrefixStripped("ERR ", rest);
    assert ("ERR " + rest)[0] == 'E';
    hide CodeNamed, SplitOnce, StripOne, StripPrefix;
  }

  lemma FailedTerminator(rest: string, code: ErrorCode, message: string)
    ensures IsTerminator("ERR " + rest, Failed(code, message)) <==> IsWordOf(WordIn(rest), code) && message == MessageIn(rest)
  {
    var line, name := "ERR " + rest, WordIn(rest);
    hide IsWordOf, WordIn, MessageIn;
    forall word: string | IsWordOf(word, code)
      ensures line == "ERR " + word + " " + message || (line == "ERR " + word && message == "")
              <==> word == name && message == MessageIn(rest)
    {
      WordIsPlain(word, code);
      FailureIs(rest, word, message);
      AfterErr(line, rest, word, message);
    }
  }

  lemma FailedIs(raw: string, line: string, code: ErrorCode, message: string)
    requires StripOne(raw, '\r') == line && line != "OK"
    ensures ReadLine(raw) == End(Failed(code, message)) <==> IsTerminator(line, Failed(code, message))
  {
    if "ERR " <= line {
      var rest := line[4..];
      assert line == "ERR " + rest;
      hide ReadLine, IsTerminator, IsWordOf, CodeNamed, WordIn, MessageIn;
      ReadFailure(raw, rest, code, message);
      CodeIsWord(WordIn(rest), code);
      FailedTerminator(rest, code, message);
    } else {
      NotErr(line, code, message);
      hide IsTerminator, CodeNamed;
    }
  }

  lemma AfterErr(line: string, rest: string, word: string, message: string)
    requires line == "ERR " + rest
    ensures line == "ERR " + word + " " + message <==> rest == word + " " + message
    ensures line == "ERR " + word <==> rest == word
  {
    assert rest == line[4..];
    if line == "ERR " + word + " " + message {
      assert line == "ERR " + (word + " " + message);
    }
    if rest == word + " " + message {
      assert line == "ERR " + (word + " " + message);
    }
  }

  lemma NotErr(line: string, code: ErrorCode, message: string)
    requires !("ERR " <= line)
    ensures !IsTerminator(line, Failed(code, message))
  {
    hide IsWordOf;
    assert forall word: string :: "ERR " <= "ERR " + word && "ERR " <= "ERR " + word + " " + message;
  }

  lemma LineIs(raw: string, line: string, t: Terminator)
    requires StripOne(raw, '\r') == line
    ensures ReadLine(raw) == End(t) <==> IsTerminator(line, t)
  {
    hide ReadLine, IsTerminator;
    if line == "OK" || t == Done {
      DoneIs(raw, line, t);
    } else {
      FailedIs(raw, line, t.code, t.message);
    }
  }

  lemma DataIs(raw: string, line: string)
    requires StripOne(raw, '\r') == line
    ensures forall data :: ReadLine(raw) == Data(data) <==> data == line && IsData(line)
  {
    hide CodeNamed;
  }

  // --- Cutting lines ------------------------------------------------------------------

  lemma StrippedOnce(front: string, line: string)
    ensures StripOne(front, '\r') == line
            <==> exists k: nat :: k <= 1 && (k < 1 ==> !EndsWith(line, '\r')) && front == line + Returns(k)
  {
    assert front == front + Returns(0) && line == line + Returns(0);
    assert line + "\r" == line + Returns(1);
    if EndsWith(front, '\r') {
      assert front == front[..|front| - 1] + Returns(1);
    }
  }

  lemma StrippedTwice(front: string, line: string)
    ensures StripOne(StripOne(front, '\r'), '\r') == line
            <==> exists k: nat :: k <= 2 && (k < 2 ==> !EndsWith(line, '\r')) && front == line + Returns(k)
  {
    var once := StripOne(front, '\r');
    assert front == front + Returns(0);
    assert once + "\r" == once + Returns(1);
    if EndsWith(once, '\r') {
      assert front == once[..|once| - 1] + Returns(2);
    }
    forall k: nat | k <= 2 && (k < 2 ==> !EndsWith(line, '\r')) && front == line + Returns(k)
      ensures StripOne(once, '\r') == line
    {
      if k == 2 { assert once == line + Returns(1); }
    }
  }

  /** The line in front, when there is a newline. */
  lemma CutAtNewline(text: string, front: string, back: string, line: string, rest: string)
    requires text == front + ['\n'] + back && '\n' !in front
    ensures IsFirstLine(text, line, rest) <==> StripOne(StripOne(front, '\r'), '\r') == line && rest == back
  {
    StrippedTwice(front, line);
    assert text[|front|] == '\n';
    hide StripOne, EndsWith;
    forall k: nat | '\n' !in line && text == line + Returns(k) + "\n" + rest ensures line + Returns(k) == front && rest == back {
      assert text == (line + Returns(k)) + ['\n'] + rest;
      SplitOnceOf(line + Returns(k), '\n', rest);
      SplitOnceOf(front, '\n', back);
    }
    forall k: nat | front == line + Returns(k) && rest == back ensures '\n' !in line && text == line + Returns(k) + "\n" + rest {
      assert forall c :: c in line ==> c in front;
    }
  }

  lemma CutAtEnd(text: string, line: string, rest: string)
    requires text != "" && '\n' !in text
    ensures IsFirstLine(text, line, rest) <==> StripOne(text, '\r') == line && rest == ""
  {
    StrippedOnce(text, line);
    hide StripOne, EndsWith;
    forall k: nat ensures text != line + Returns(k) + "\n" + rest {
      assert '\n' in line + Returns(k) + "\n" + rest;
    }
    forall k: nat | text == line + Returns(k) ensures '\n' !in line {
      assert forall c :: c in line ==> c in text;
    }
  }

  lemma FirstLineIs(text: string, line: string, rest: string)
    requires text != ""
    ensures IsFirstLine(text, line, rest) <==> StripOne(NextLine(text).0, '\r') == line && NextLine(text).1 == rest
  {
    hide StripOne, IsFirstLine;
    match SplitOnce(text, '\n')
    case Some((front, back)) => CutAtNewline(text, front, back, line, rest);
    case None => CutAtEnd(text, line, rest);
  }

  lemma NothingIsNoLine(line: string, rest: string)
    ensures !IsFirstLine("", line, rest)
  {
  }

  lemma LastLine(text: string, t: Terminator)
    requires text != ""
    ensures IsResponse(text, [], t) <==> IsTerminator(StripOne(NextLine(text).0, '\r'), t)
  {
    hide IsFirstLine, IsTerminator, StripOne, NextLine;
    var line, rest := StripOne(NextLine(text).0, '\r'), NextLine(text).1;
    FirstLineIs(text, line, rest);
    forall l: string, r: string | IsFirstLine(text, l, r) ensures l == line { FirstLineIs(text, l, r); }
  }

  lemma OneMoreLine(text: string, lines: seq<string>, t: Terminator)
    requires text != "" && |lines| > 0
    ensures IsResponse(text, lines, t)
            <==> (IsData(lines[0]) && StripOne(NextLine(text).0, '\r') == lines[0] && IsResponse(NextLine(text).1, lines[1..], t))
  {
    hide IsFirstLine, IsData, StripOne, NextLine;
    forall r: string ensures IsFirstLine(text, lines[0], r) <==> StripOne(NextLine(text).0, '\r') == lines[0] && NextLine(text).1 == r {
      FirstLineIs(text, lines[0], r);
    }
  }

  /** What the reader makes of the first line and the rest. */
  lemma FirstIsRead(text: string, line: string, lines: seq<string>, t: Terminator)
    requires text != "" && line == StripOne(NextLine(text).0, '\r')
    ensures ParseSpec(text) == Ok(Response(lines, t))
            <==> (if |lines| == 0 then IsTerminator(line, t)
                  else IsData(line) && line == lines[0] && ParseSpec(NextLine(text).1) == Ok(Response(lines[1..], t)))
  {
    var (raw, rest) := NextLine(text);
    LineIs(raw, line, t);
    DataIs(raw, line);
    hide IsTerminator, ReadLine, StripOne, NextLine, IsData;
    match ReadLine(raw)
    case End(terminator) =>
      NotBoth(raw, line);
    case BadCode =>
      NotBoth(raw, line);
    case Data(data) =>
      if |lines| > 0 { assert lines == [lines[0]] + lines[1..]; }
  }

  /** A line that ends a response, or breaks it, is no data. */
  lemma NotBoth(raw: string, line: string)
    requires line == StripOne(raw, '\r') && !ReadLine(raw).Data?
    ensures !IsData(line)
  {
    hide CodeNamed;
  }

  /** Main result: a text is a response if and only if it is data lines and then a terminator. */
  lemma {:induction false} ResponseIsExact(text: string, lines: seq<string>, t: Terminator)
    ensures ParseSpec(text) == Ok(Response(lines, t)) <==> IsResponse(text, lines, t)
    decreases |lines|
  {
    if text == "" {
      forall l: string, r: string ensures !IsFirstLine(text, l, r) { NothingIsNoLine(l, r); }
      assert ParseSpec("") == Err;
    } else {
      var line := StripOne(NextLine(text).0, '\r');
      FirstIsRead(text, line, lines, t);
      if |lines| == 0 {
        assert lines == [];
        LastLine(text, t);
      } else {
        OneMoreLine(text, lines, t);
        ResponseIsExact(NextLine(text).1, lines[1..], t);
      }
      hide ParseSpec, IsResponse, IsTerminator, IsData, NextLine, StripOne;
    }
  }

  // --- Printing -----------------------------------------------------------------------

  /** Every line with its newline. */
  function Lines(lines: seq<string>): string
  {
    if |lines| == 0 then "" else lines[0] + "\n" + Lines(lines[1..])
  }

  lemma {:induction false} LinesArePrinted(lines: seq<string>)
    ensures EncodeLines(lines) == Lines(lines)
  {
    if |lines| > 0 {
      EncodeLinesFront(lines);
      LinesArePrinted(lines[1..]);
      hide EncodeLines;
    }
  }

  /** A response is printed as its lines and `OK`, or `ERR`, the word of the error and its message if there is one. */
  lemma ResponseIsPrinted(lines: seq<string>, word: string, code: ErrorCode, message: string)
    requires IsWordOf(word, code) && message != ""
    ensures EncodeSpec(Response(lines, Done)) == Lines(lines) + "OK\n"
    ensures EncodeSpec(Response(lines, Failed(code, ""))) == Lines(lines) + "ERR " + word + "\n"
    ensures EncodeSpec(Response(lines, Failed(code, message))) == Lines(lines) + "ERR " + word + " " + message + "\n"
  {
    LinesArePrinted(lines);
    WordIsName(word, code);
    hide EncodeLines, IsWordOf, Name, Lines;
    var front := Lines(lines);
    assert front + "OK" + "\n" == front + "OK\n";
    assert front + ("ERR " + word) + "\n" == front + "ERR " + word + "\n";
    assert front + ("ERR " + (word + " " + message)) + "\n" == front + "ERR " + word + " " + message + "\n";
  }
}
