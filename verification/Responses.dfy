/**
 The response half of the line protocol: `Response::encode` and `parse_response`
 (crates/whirl-core/src/protocol.rs:133-214, 598-696).
 */
module Responses {
  import opened Basics
  import opened Texts

  datatype ErrorCode =
    | UnknownVerb | BadArgs | TooLong | BadFraming | BadProtocol | Busy | NotFound | NoPrev | NoCandidates
    | Offline | TooLarge | NotAnImage | SetFailed | Enospc | CacheReadonly | CacheUnwritable | WorkerFailed
    | Timeout | FavoritesDegraded | BadConfig | Internal

  function Name(code: ErrorCode): string
  {
    match code
    case UnknownVerb => "unknown_verb"
    case BadArgs => "bad_args"
    case TooLong => "too_long"
    case BadFraming => "bad_framing"
    case BadProtocol => "bad_protocol"
    case Busy => "busy"
    case NotFound => "not_found"
    case NoPrev => "no_prev"
    case NoCandidates => "no_candidates"
    case Offline => "offline"
    case TooLarge => "too_large"
    case NotAnImage => "not_an_image"
    case SetFailed => "set_failed"
    case Enospc => "enospc"
    case CacheReadonly => "cache_readonly"
    case CacheUnwritable => "cache_unwritable"
    case WorkerFailed => "worker_failed"
    case Timeout => "timeout"
    case FavoritesDegraded => "favorites_degraded"
    case BadConfig => "bad_config"
    case Internal => "internal"
  }

  const ALL: seq<ErrorCode> := [
    UnknownVerb, BadArgs, TooLong, BadFraming, BadProtocol, Busy, NotFound, NoPrev, NoCandidates,
    Offline, TooLarge, NotAnImage, SetFailed, Enospc, CacheReadonly, CacheUnwritable, WorkerFailed,
    Timeout, FavoritesDegraded, BadConfig, Internal]

  /** `ErrorCode::parse`: the first code of the list with that name. */
  function CodeNamed(codes: seq<ErrorCode>, name: string): Option<ErrorCode>
  {
    if |codes| == 0 then None
    else if Name(codes[0]) == name then Some(codes[0])
    else CodeNamed(codes[1..], name)
  }

  datatype Terminator = Done | Failed(code: ErrorCode, message: string)

  datatype Response = Response(lines: seq<string>, terminator: Terminator)

  datatype Parsed = Ok(response: Response) | Err

  /** `Terminator::encode`. */
  function EncodeTerminator(t: Terminator): string
  {
    match t
    case Done => "OK"
    case Failed(code, message) => if message == "" then "ERR " + Name(code) else "ERR " + (Name(code) + " " + message)
  }

  function EncodeLines(lines: seq<string>): string
  {
    if |lines| == 0 then "" else EncodeLines(lines[..|lines| - 1]) + lines[|lines| - 1] + "\n"
  }

  function EncodeSpec(r: Response): string
  {
    EncodeLines(r.lines) + EncodeTerminator(r.terminator) + "\n"
  }

  /** `Response::encode`. */
  method Encode(r: Response) returns (out: string)
    ensures out == EncodeSpec(r)
  {
    out := "";
    for k := 0 to |r.lines|
      invariant out == EncodeLines(r.lines[..k])
    {
      assert r.lines[..k + 1][..k] == r.lines[..k];
      out := out + r.lines[k];
      out := out + "\n";
    }
    assert r.lines[..|r.lines|] == r.lines;
    out := out + EncodeTerminator(r.terminator);
    out := out + "\n";
  }

  // --- Parsing ------------------------------------------------------------------------

  /** The first item of `str::lines`, and what follows it: a newline goes, and one carriage return before it. */
  function NextLine(text: string): (r: (string, string))
    requires text != ""
    ensures |r.1| < |text|
  {
    match SplitOnce(text, '\n')
    case Some((line, rest)) => (StripOne(line, '\r'), rest)
    case None => (text, "")
  }

  datatype Line = Data(text: string) | End(terminator: Terminator) | BadCode

  /** One raw line, as `parse_response` reads it. */
  function ReadLine(raw: string): Line
  {
    var line := StripOne(raw, '\r');
    if line == "OK" then End(Done)
    else match StripPrefix(line, "ERR ")
      case None => Data(line)
      case Some(rest) =>
        var cut := SplitOnce(rest, ' ');
        var name, message := if cut.Some? then cut.value.0 else rest, if cut.Some? then cut.value.1 else "";
        var code := CodeNamed(ALL, name);
        if code.Some? then End(Failed(code.value, message)) else BadCode
  }

  function ParseSpec(text: string): Parsed
    decreases |text|
  {
    if text == "" then Err
    else
      var (raw, rest) := NextLine(text);
      match ReadLine(raw)
      case End(terminator) => Ok(Response([], terminator))
      case BadCode => Err
      case Data(line) => Prepend(line, ParseSpec(rest))
  }

  function Prepend(line: string, parsed: Parsed): Parsed
  {
    if parsed.Ok? then Ok(Response([line] + parsed.response.lines, parsed.response.terminator)) else Err
  }

  function PrependAll(lines: seq<string>, parsed: Parsed): Parsed
  {
    if parsed.Ok? then Ok(Response(lines + parsed.response.lines, parsed.response.terminator)) else Err
  }

  /** `parse_response`: collect data lines until the first terminator. */
  method Parse(text: string) returns (parsed: Parsed)
    ensures parsed == ParseSpec(text)
  {
    var lines: seq<string>, left := [], text;
    while left != ""
      invariant PrependAll(lines, ParseSpec(left)) == ParseSpec(text)
      decreases |left|
    {
      var (raw, rest) := NextLine(left);
      match ReadLine(raw)
      case End(terminator) =>
        assert lines + [] == lines;
        return Ok(Response(lines, terminator));
      case BadCode => return Err;
      case Data(line) =>
        if ParseSpec(rest).Ok? {
          assert lines + ([line] + ParseSpec(rest).response.lines) == (lines + [line]) + ParseSpec(rest).response.lines;
        }
        lines := lines + [line];
        left := rest;
    }
    return Err;
  }

  // --- Round trip -----------------------------------------------------------------------

  /** A text that stays on its line: no newline inside, no carriage return for the reader to take. */
  predicate OneLine(s: string) { '\n' !in s && !EndsWith(s, '\r') }

  predicate DataLine(s: string) { OneLine(s) && s != "OK" && !("ERR " <= s) }

  predicate WellFormed(r: Response)
  {
    (forall k :: 0 <= k < |r.lines| ==> DataLine(r.lines[k]))
    && (r.terminator.Failed? ==> OneLine(r.terminator.message))
  }

  predicate Word(s: string)
  {
    s != "" && forall i :: 0 <= i < |s| ==> s[i] == '_' || 'a' <= s[i] <= 'z'
  }

  lemma RequestNames(code: ErrorCode)
    requires code.UnknownVerb? || code.BadArgs? || code.TooLong? || code.BadFraming?
             || code.BadProtocol? || code.Busy? || code.NotFound?
    ensures Word(Name(code))
  {
  }

  lemma RotationNames(code: ErrorCode)
    requires code.NoPrev? || code.NoCandidates? || code.Offline? || code.TooLarge?
             || code.NotAnImage? || code.SetFailed? || code.Enospc?
    ensures Word(Name(code))
  {
  }

  lemma CacheNames(code: ErrorCode)
    requires code.CacheReadonly? || code.CacheUnwritable? || code.WorkerFailed? || code.Timeout?
             || code.FavoritesDegraded? || code.BadConfig? || code.Internal?
    ensures Word(Name(code))
  {
  }

  lemma NameIsPlain(code: ErrorCode)
    ensures ' ' !in Name(code) && '\n' !in Name(code) && !EndsWith(Name(code), '\r') && Name(code) != ""
  {
    hide Name;
    if code.UnknownVerb? || code.BadArgs? || code.TooLong? || code.BadFraming?
       || code.BadProtocol? || code.Busy? || code.NotFound? {
      RequestNames(code);
    } else if code.NoPrev? || code.NoCandidates? || code.Offline? || code.TooLarge?
              || code.NotAnImage? || code.SetFailed? || code.Enospc? {
      RotationNames(code);
    } else {
      CacheNames(code);
    }
  }

  lemma NamesDiffer(a: ErrorCode, b: ErrorCode)
    requires Name(a) == Name(b)
    ensures a == b
  {
  }

  lemma {:induction false} CodeFound(codes: seq<ErrorCode>, code: ErrorCode)
    requires code in codes
    ensures CodeNamed(codes, Name(code)) == Some(code)
  {
    hide Name;
    if Name(codes[0]) == Name(code) {
      NamesDiffer(codes[0], code);
    } else {
      assert codes == [codes[0]] + codes[1..];
      CodeFound(codes[1..], code);
    }
  }

  lemma AllCodes(code: ErrorCode)
    ensures CodeNamed(ALL, Name(code)) == Some(code)
  {
    hide Name, CodeNamed;
    assert code in ALL by {
      var k := match code
        case UnknownVerb => 0 case BadArgs => 1 case TooLong => 2 case BadFraming => 3 case BadProtocol => 4
        case Busy => 5 case NotFound => 6 case NoPrev => 7 case NoCandidates => 8 case Offline => 9
        case TooLarge => 10 case NotAnImage => 11 case SetFailed => 12 case Enospc => 13 case CacheReadonly => 14
        case CacheUnwritable => 15 case WorkerFailed => 16 case Timeout => 17 case FavoritesDegraded => 18
        case BadConfig => 19 case Internal => 20;
      assert ALL[k] == code;
    }
    CodeFound(ALL, code);
  }

  /** The terminator line of a response, read back. */
  lemma TerminatorReads(t: Terminator)
    requires t.Failed? ==> OneLine(t.message)
    ensures ReadLine(EncodeTerminator(t)) == End(t) && OneLine(EncodeTerminator(t))
  {
    hide CodeNamed, Name;
    match t
    case Done =>
    case Failed(code, message) =>
      NameIsPlain(code);
      AllCodes(code);
      if message == "" {
        PrefixStripped("ERR ", Name(code));
      } else {
        PrefixStripped("ERR ", Name(code) + " " + message);
        SplitOnceOf(Name(code), ' ', message);
      }
  }

  /** One encoded line in front of anything. */
  lemma NextLineOf(line: string, rest: string)
    requires '\n' !in line
    ensures NextLine(line + "\n" + rest) == (StripOne(line, '\r'), rest)
  {
    SplitOnceOf(line, '\n', rest);
  }

  lemma {:induction false} EncodeLinesFront(lines: seq<string>)
    requires |lines| > 0
    ensures EncodeLines(lines) == lines[0] + "\n" + EncodeLines(lines[1..])
  {
    if |lines| == 1 {
      assert lines[..0] == [] && lines[1..] == [];
    } else {
      var first, last, middle := lines[0] + "\n", lines[|lines| - 1] + "\n", EncodeLines(lines[1..][..|lines| - 2]);
      EncodeLinesFront(lines[..|lines| - 1]);
      assert lines[..|lines| - 1][1..] == lines[1..][..|lines| - 2];
      assert EncodeLines(lines) == (first + middle) + last && EncodeLines(lines[1..]) == middle + last;
    }
  }

  /** What the reader makes of the bytes in front of the first newline of an encoded line. */
  lemma BadLineIsLost(line: string, rest: string)
    requires !DataLine(line)
    ensures var (raw, _) := NextLine(line + "\n" + rest);
            ReadLine(raw) != Data(line)
  {
    hide NextLine, CodeNamed, SplitOnce;
    if '\n' in line {
      FirstPartIsShorter(line, rest);
    } else {
      NextLineOf(line, rest);
    }
  }

  lemma FirstPartIsShorter(line: string, rest: string)
    requires '\n' in line
    ensures |NextLine(line + "\n" + rest).0| < |line|
  {
    var text := line + "\n" + rest;
    var cut := SplitOnce(line, '\n').value;
    assert text == cut.0 + ['\n'] + (cut.1 + "\n" + rest);
    SplitOnceOf(cut.0, '\n', cut.1 + "\n" + rest);
    assert |cut.0| < |line|;
  }

  lemma BadMessageIsLost(t: Terminator, tail: string)
    requires t.Failed? && !OneLine(t.message)
    ensures ParseSpec(EncodeTerminator(t) + "\n" + tail) != Ok(Response([], t))
  {
    hide CodeNamed, Name;
    NameIsPlain(t.code);
    var line := EncodeTerminator(t);
    var text := line + "\n" + tail;
    if '\n' in t.message {
      MessageHasNoNewline(text);
    } else {
      NextLineOf(line, tail);
      MessageIsShorter(StripOne(line, '\r'), t);
    }
  }

  /** The message of a parsed terminator is a stretch of its line. */
  lemma MessageWithin(raw: string)
    requires ReadLine(raw).End? && ReadLine(raw).terminator.Failed?
    ensures var m := ReadLine(raw).terminator.message;
            |m| <= |StripOne(raw, '\r')| && m == StripOne(raw, '\r')[|StripOne(raw, '\r')| - |m|..]
  {
    hide CodeNamed, SplitOnce, StripOne;
    var line := StripOne(raw, '\r');
    var m := ReadLine(raw).terminator.message;
    assert m == "" || m == SplitOnce(line[4..], ' ').value.1;
    if m != "" {
      SecondPartEnds(line[4..]);
      EndOfEnd(line, m);
    }
  }

  lemma EndOfEnd(line: string, m: string)
    requires |line| >= 4 && |m| <= |line| - 4 && m == line[4..][|line| - 4 - |m|..]
    ensures m == line[|line| - |m|..]
  {
  }

  lemma SecondPartEnds(s: string)
    requires SplitOnce(s, ' ').Some?
    ensures var m := SplitOnce(s, ' ').value.1; |m| <= |s| && m == s[|s| - |m|..]
  {
    var cut := SplitOnce(s, ' ').value;
    assert s == cut.0 + [' '] + cut.1;
  }

  lemma MessageHasNoNewline(text: string)
    requires text != ""
    ensures var (raw, _) := NextLine(text);
            '\n' !in raw && (ReadLine(raw).End? && ReadLine(raw).terminator.Failed? ==> '\n' !in ReadLine(raw).terminator.message)
  {
    hide ReadLine;
    var (raw, _) := NextLine(text);
    if ReadLine(raw).End? && ReadLine(raw).terminator.Failed? {
      MessageWithin(raw);
      var line, m := StripOne(raw, '\r'), ReadLine(raw).terminator.message;
      forall i | 0 <= i < |m|
        ensures m[i] != '\n'
      {
        assert m[i] == line[|line| - |m| + i] == raw[|line| - |m| + i];
      }
    }
  }

  lemma MessageIsShorter(raw: string, t: Terminator)
    requires t.Failed? && EndsWith(t.message, '\r') && raw == StripOne(EncodeTerminator(t), '\r')
    ensures ReadLine(raw) != End(t)
  {
    var head := "ERR " + (Name(t.code) + " ");
    assert EncodeTerminator(t) == head + t.message;
    assert |raw| == |head| + |t.message| - 1;
    NameIsPlain(t.code);
    if ReadLine(raw).End? && ReadLine(raw).terminator.Failed? && ReadLine(raw).terminator.code == t.code {
      NameLength(raw);
    }
  }

  /** A parsed failure accounts for every byte of its line. */
  lemma NameLength(raw: string)
    requires ReadLine(raw).End? && ReadLine(raw).terminator.Failed?
    ensures var t := ReadLine(raw).terminator;
            |t.message| > 0 ==> |StripOne(raw, '\r')| == 4 + |Name(t.code)| + 1 + |t.message|
  {
    hide Name, CodeNamed, SplitOnce, StripOne;
    var rest := StripOne(raw, '\r')[4..];
    if SplitOnce(rest, ' ').Some? {
      PartLengths(rest);
      CodeHasItsName(ALL, SplitOnce(rest, ' ').value.0);
    }
  }

  lemma PartLengths(s: string)
    requires SplitOnce(s, ' ').Some?
    ensures |s| == |SplitOnce(s, ' ').value.0| + 1 + |SplitOnce(s, ' ').value.1|
  {
  }

  lemma {:induction false} CodeHasItsName(codes: seq<ErrorCode>, name: string)
    ensures CodeNamed(codes, name).Some? ==> Name(CodeNamed(codes, name).value) == name
  {
    if |codes| > 0 { CodeHasItsName(codes[1..], name); }
  }

  /**
   Main result: an encoded response followed by any text reads back as that response exactly when it
   is well formed, so the first response on a connection always ends where it was meant to.
   */
  lemma {:induction false} ResponseRoundTrip(r: Response, tail: string)
    ensures ParseSpec(EncodeSpec(r) + tail) == Ok(r) <==> WellFormed(r)
    decreases |r.lines|
  {
    hide ReadLine, EncodeTerminator, NextLine;
    var end := EncodeTerminator(r.terminator);
    if |r.lines| == 0 {
      assert EncodeSpec(r) + tail == end + "\n" + tail;
      if WellFormed(r) {
        TerminatorReads(r.terminator);
        NextLineOf(end, tail);
      } else {
        BadMessageIsLost(r.terminator, tail);
      }
    } else {
      var line, rest := r.lines[0], Response(r.lines[1..], r.terminator);
      EncodeLinesFront(r.lines);
      var after := EncodeSpec(rest) + tail;
      assert EncodeSpec(r) + tail == line + "\n" + after;
      assert r.lines == [line] + rest.lines;
      if DataLine(line) {
        NextLineOf(line, after);
        DataReads(line);
        ResponseRoundTrip(rest, tail);
        assert WellFormed(r) <==> WellFormed(rest);
      } else {
        BadLineIsLost(line, after);
        FirstLineDecides(line + "\n" + after, r);
      }
    }
  }

  lemma DataReads(line: string)
    requires DataLine(line)
    ensures ReadLine(StripOne(line, '\r')) == Data(line)
  {
  }

  lemma FirstLineDecides(text: string, r: Response)
    requires text != "" && |r.lines| > 0
    requires var (raw, _) := NextLine(text);
             ReadLine(raw) != Data(r.lines[0])
    ensures ParseSpec(text) != Ok(r)
  {
  }
}
