/**
 The request grammar (docs/architecture.md 2.5, crates/whirl-core/src/protocol.rs:381-576): which lines ask for which
 request, and which refusal every other line gets, stated on the words and bytes of the line.
 */
module RequestGrammar {
  import opened Basics
  import opened Texts
  import opened Requests

  // --- Printing -----------------------------------------------------------------------

  /** The line of a request. */
  predicate Spells(line: string, r: Request)
  {
    match r
    case Hello(version, None) => line == "hello " + Decimal(version)
    case Hello(version, Some(client)) => line == "hello " + Decimal(version) + " " + client
    case Ping => line == "ping"
    case Version => line == "version"
    case Status => line == "status"
    case Next => line == "next"
    case Prev => line == "prev"
    case SetPath(path) => line == "set path " + path
    case SetId(id) => line == "set id " + id
    case Pause => line == "pause"
    case Resume => line == "resume"
    case History(count) => line == "history " + Decimal(count)
    case Favorites => line == "favorites"
    case Favorite(None) => line == "favorite"
    case Favorite(Some(id)) => line == "favorite " + id
    case Unfavorite(id) => line == "unfavorite " + id
    case Sources => line == "sources"
    case ConfigPath => line == "config path"
    case ConfigCheck => line == "config check"
    case Subscribe(None) => line == "subscribe"
    case Subscribe(Some(since)) => line == "subscribe " + Decimal(since)
    case Close => line == "close"
  }

  /** A request is printed as its one line. */
  lemma RequestIsPrinted(r: Request)
    ensures forall line :: Spells(line, r) <==> Encode(r) == line
  {
    hide Decimal;
    assert Spells(Encode(r), r);
  }

  // --- What a line asks for -----------------------------------------------------------

  /** `text` is the word and what follows the first space, with one carriage return at the end tolerated. */
  predicate IsLine(text: string, word: string, rest: Option<string>)
  {
    var line := word + if rest.Some? then " " + rest.value else "";
    ' ' !in word && (text == line + "\r" || (text == line && (|line| == 0 || line[|line| - 1] != '\r')))
  }

  /** A numeral of an unsigned type: digits, with an optional plus sign. */
  predicate Numeral(s: string, n: nat)
  {
    || (|s| >= 1 && AllDigits(s) && ValueOf(s) == n)
    || (|s| >= 2 && s[0] == '+' && AllDigits(s[1..]) && ValueOf(s[1..]) == n)
  }

  /** A slash, a tilde, two backslashes, or a drive. */
  predicate Absolute(path: string)
  {
    || (|path| >= 1 && (path[0] == '/' || path[0] == '~'))
    || (|path| >= 2 && path[0] == '\\' && path[1] == '\\')
    || (|path| >= 3 && ('A' <= path[0] <= 'Z' || 'a' <= path[0] <= 'z') && path[1] == ':' && path[2] in "\\/")
  }

  function Returns(k: nat): string { seq(k, _ => '\r') }

  /** The argument of a `set`: not empty, and without the carriage returns at its end. */
  ghost predicate IsArgument(text: string, value: string)
  {
    value != "" && value[|value| - 1] != '\r' && exists k: nat :: text == value + Returns(k)
  }

  predicate NoArgument(rest: Option<string>) { rest == None || rest == Some("") }

  /** One word. */
  predicate IsId(rest: Option<string>, id: string) { rest == Some(id) && id != "" && ' ' !in id }

  /** The version, and the client after a space. */
  ghost predicate IsGreeting(rest: string, version: nat, client: Option<string>)
  {
    version <= 4294967295
    && match client
       case None => Numeral(rest, version)
       case Some(name) => ' ' !in name && exists front: string :: Numeral(front, version) && rest == front + " " + name
  }

  /** A word and what follows it ask for a request. */
  ghost predicate Asks(word: string, rest: Option<string>, r: Request)
  {
    match r
    case Hello(version, client) => word == "hello" && rest.Some? && IsGreeting(rest.value, version, client)
    case Ping => word == "ping" && NoArgument(rest)
    case Version => word == "version" && NoArgument(rest)
    case Status => word == "status" && NoArgument(rest)
    case Next => word == "next" && NoArgument(rest)
    case Prev => word == "prev" && NoArgument(rest)
    case SetPath(path) =>
      word == "set" && rest.Some? && Absolute(path) && "path " <= rest.value && IsArgument(rest.value[5..], path)
    case SetId(id) => word == "set" && rest.Some? && "id " <= rest.value && IsArgument(rest.value[3..], id)
    case Pause => word == "pause" && NoArgument(rest)
    case Resume => word == "resume" && NoArgument(rest)
    case History(count) =>
      word == "history" && if rest.None? then count == 10 else Numeral(rest.value, count) && 1 <= count <= 50
    case Favorites => word == "favorites" && NoArgument(rest)
    case Favorite(None) => word == "favorite" && rest.None?
    case Favorite(Some(id)) => word == "favorite" && IsId(rest, id)
    case Unfavorite(id) => word == "unfavorite" && IsId(rest, id)
    case Sources => word == "sources" && NoArgument(rest)
    case ConfigPath => word == "config" && rest == Some("path")
    case ConfigCheck => word == "config" && rest == Some("check")
    case Subscribe(None) => word == "subscribe" && rest.None?
    case Subscribe(Some(since)) =>
      word == "subscribe" && rest.Some? && Numeral(rest.value, since) && since <= 18446744073709551615
    case Close => word == "close" && NoArgument(rest)
  }

  // --- The parser's pieces ------------------------------------------------------------

  lemma NumeralIsParsed(s: string, n: nat, max: nat)
    ensures ParseUnsigned(s, max) == Some(n) <==> Numeral(s, n) && n <= max
  {
    hide ValueOf;
    if |s| >= 1 && s[0] == '+' {
      assert !IsDigit(s[0]);
    }
  }

  lemma NumeralHasNoSpace(s: string, n: nat)
    requires Numeral(s, n)
    ensures ' ' !in s
  {
    hide ValueOf;
    var digits := if s[0] == '+' then s[1..] else s;
    assert forall c :: c in s ==> c == '+' || c in digits;
    assert forall c :: c in digits ==> IsDigit(c);
  }

  lemma AbsoluteIsTested(path: string)
    ensures IsAbsolute(path) <==> Absolute(path)
  {
    if |path| >= 1 {
      assert path == [path[0]] + path[1..];
    }
    if |path| >= 2 {
      assert path == [path[0], path[1]] + path[2..];
    }
  }

  lemma {:induction false} TrimmedIs(text: string) returns (k: nat)
    ensures text == TrimEnd(text, '\r') + Returns(k)
  {
    if EndsWith(text, '\r') {
      k := TrimmedIs(text[..|text| - 1]);
      assert Returns(k + 1) == Returns(k) + ['\r'];
      assert text == text[..|text| - 1] + ['\r'];
      k := k + 1;
    } else {
      k := 0;
    }
  }

  lemma {:induction false} ReturnsAreTrimmed(value: string, k: nat)
    requires !EndsWith(value, '\r')
    ensures TrimEnd(value + Returns(k), '\r') == value
  {
    if k == 0 {
      assert value + Returns(0) == value;
    } else {
      var text := value + Returns(k);
      assert text[..|text| - 1] == value + Returns(k - 1);
      ReturnsAreTrimmed(value, k - 1);
    }
  }

  lemma ArgumentIsTrimmed(text: string, value: string)
    ensures value != "" && TrimEnd(text, '\r') == value <==> IsArgument(text, value)
  {
    hide TrimEnd, Returns;
    if value != "" && TrimEnd(text, '\r') == value {
      var k := TrimmedIs(text);
    }
    if IsArgument(text, value) {
      var k: nat :| text == value + Returns(k);
      ReturnsAreTrimmed(value, k);
    }
  }

  lemma FrontIs(rest: string, front: string, back: string, f: string, b: string)
    requires rest == front + [' '] + back && ' ' !in front
    requires rest == f + [' '] + b && ' ' !in f
    ensures f == front && b == back
  {
    SplitOnceOf(front, ' ', back);
    SplitOnceOf(f, ' ', b);
  }

  lemma OneGreeting(rest: string, version: nat, client: Option<string>)
    requires ' ' !in rest
    ensures ParseHello([rest]) == Ok(Hello(version, client)) <==> IsGreeting(rest, version, client)
  {
    NumeralIsParsed(rest, version, U32_MAX);
    hide Numeral, ParseUnsigned;
    if client.Some? {
      assert forall front: string :: ' ' in front + " " + client.value;
    }
  }

  lemma TwoGreeting(front: string, back: string, version: nat, client: Option<string>)
    requires ' ' !in front
    ensures ParseHello([front] + Split(back, ' ')) == Ok(Hello(version, client))
            <==> IsGreeting(front + [' '] + back, version, client)
  {
    var rest := front + [' '] + back;
    NumeralIsParsed(front, version, U32_MAX);
    SplitOfToken(back);
    if Numeral(rest, version) { NumeralHasNoSpace(rest, version); }
    hide Numeral, ParseUnsigned, Split;
    assert ' ' in rest;
    if client.Some? {
      forall f: string | Numeral(f, version) && rest == f + " " + client.value ensures f == front && client.value == back {
        NumeralHasNoSpace(f, version);
        FrontIs(rest, front, back, f, client.value);
      }
      assert rest == front + " " + back;
    }
  }

  lemma GreetingIs(rest: string, version: nat, client: Option<string>)
    ensures ParseHello(Split(rest, ' ')) == Ok(Hello(version, client)) <==> IsGreeting(rest, version, client)
  {
    hide ParseHello, IsGreeting;
    match SplitOnce(rest, ' ')
    case None => OneGreeting(rest, version, client);
    case Some((front, back)) => TwoGreeting(front, back, version, client);
  }

  lemma SetPathIs(rest: string, path: string)
    ensures ParseSet(rest) == Ok(SetPath(path)) <==> Absolute(path) && "path " <= rest && IsArgument(rest[5..], path)
  {
    if "path " <= rest {
      AbsoluteIsTested(path);
      ArgumentIsTrimmed(rest[5..], path);
    }
    hide IsArgument, TrimEnd, IsAbsolute, Absolute;
  }

  lemma SetIdIs(rest: string, id: string)
    ensures ParseSet(rest) == Ok(SetId(id)) <==> "id " <= rest && IsArgument(rest[3..], id)
  {
    if "id " <= rest {
      assert rest[0] == 'i';
      assert "path "[0] == 'p';
      ArgumentIsTrimmed(rest[3..], id);
    }
    hide IsArgument, TrimEnd, IsAbsolute;
  }

  // --- One verb at a time -------------------------------------------------------------

  lemma NoArgumentIs(rest: Option<string>, request: Request, r: Request)
    ensures ParseVerb(Bare(request), rest) == Ok(r) <==> NoArgument(rest) && r == request
  {
    if rest.Some? { SplitOfToken(rest.value); }
    hide Split;
  }

  lemma HelloIs(rest: Option<string>, r: Request)
    ensures ParseVerb(VHello, rest) == Ok(r)
            <==> r.Hello? && rest.Some? && IsGreeting(rest.value, r.version, r.client)
  {
    if rest.Some? && r.Hello? { GreetingIs(rest.value, r.version, r.client); }
    assert ParseUnsigned("", U32_MAX) == None;
    hide IsGreeting, Split, ParseUnsigned;
  }

  lemma HistoryIs(rest: Option<string>, r: Request)
    ensures ParseVerb(VHistory, rest) == Ok(r)
            <==> r.History? && if rest.None? then r.count == 10 else Numeral(rest.value, r.count) && 1 <= r.count <= 50
  {
    if rest.Some? {
      SplitOfToken(rest.value);
      if r.History? {
        NumeralIsParsed(rest.value, r.count, U64_MAX);
        if Numeral(rest.value, r.count) { NumeralHasNoSpace(rest.value, r.count); }
      }
    }
    hide Numeral, Split, ParseUnsigned;
  }

  lemma SubscribeIs(rest: Option<string>, r: Request)
    ensures ParseVerb(VSubscribe, rest) == Ok(r)
            <==> r.Subscribe? && (rest.None? <==> r.since.None?)
                 && (rest.Some? ==> Numeral(rest.value, r.since.value) && r.since.value <= 18446744073709551615)
  {
    if rest.Some? {
      SplitOfToken(rest.value);
      if r.Subscribe? && r.since.Some? {
        NumeralIsParsed(rest.value, r.since.value, U64_MAX);
        if Numeral(rest.value, r.since.value) { NumeralHasNoSpace(rest.value, r.since.value); }
      }
    }
    hide Numeral, Split, ParseUnsigned;
  }

  lemma FavoriteIs(rest: Option<string>, r: Request)
    ensures ParseVerb(VFavorite, rest) == Ok(r)
            <==> r.Favorite? && if r.optId.None? then rest.None? else IsId(rest, r.optId.value)
  {
    if rest.Some? { SplitOfToken(rest.value); }
    hide Split;
  }

  lemma UnfavoriteIs(rest: Option<string>, r: Request)
    ensures ParseVerb(VUnfavorite, rest) == Ok(r) <==> r.Unfavorite? && IsId(rest, r.id)
  {
    if rest.Some? { SplitOfToken(rest.value); }
    hide Split;
  }

  lemma SetKeepsTheRest(rest: Option<string>)
    ensures ParseVerb(VSet, rest) == ParseSet(if rest.Some? then rest.value else "")
  {
    hide Split, ParseSet;
  }

  lemma SetIs(rest: Option<string>, r: Request)
    ensures ParseVerb(VSet, rest) == Ok(r) <==> rest.Some? && (r.SetPath? || r.SetId?) && Asks("set", rest, r)
  {
    SetWord();
    hide ParseVerb, VerbOf, IsArgument, ParseSet, Absolute, Numeral, IsGreeting, IsId, NoArgument;
    SetKeepsTheRest(rest);
    if rest.Some? {
      SetGivesSet(rest.value);
      if r.SetPath? { SetPathIs(rest.value, r.path); }
      if r.SetId? { SetIdIs(rest.value, r.id); }
    }
  }

  lemma SetGivesSet(rest: string)
    ensures ParseSet(rest).Ok? ==> ParseSet(rest).request.SetPath? || ParseSet(rest).request.SetId?
  {
    hide TrimEnd, IsAbsolute;
  }

  lemma OneWord(text: string, word: string)
    requires ' ' !in word
    ensures Split(text, ' ') == [word] <==> text == word
  {
    SplitOfToken(text);
    hide Split;
  }

  lemma ConfigIs(rest: Option<string>, r: Request)
    ensures ParseVerb(VConfig, rest) == Ok(r)
            <==> (r.ConfigPath? && rest == Some("path")) || (r.ConfigCheck? && rest == Some("check"))
  {
    hide Split;
    if rest.Some? {
      OneWord(rest.value, "path");
      OneWord(rest.value, "check");
    }
  }

  /** The verb of a word of one's own. */
  lemma OwnWords(word: string)
    ensures VerbOf(word) == VHello <==> word == "hello"
    ensures VerbOf(word) == VHistory <==> word == "history"
    ensures VerbOf(word) == VFavorite <==> word == "favorite"
    ensures VerbOf(word) == VUnfavorite <==> word == "unfavorite"
    ensures VerbOf(word) == VSet <==> word == "set"
    ensures VerbOf(word) == VConfig <==> word == "config"
    ensures VerbOf(word) == VSubscribe <==> word == "subscribe"
  {
  }

  lemma BareWords(word: string, r: Request)
    ensures VerbOf(word) == Bare(r) <==>
            || (word == "ping" && r == Ping) || (word == "version" && r == Version) || (word == "status" && r == Status)
            || (word == "next" && r == Next) || (word == "prev" && r == Prev) || (word == "pause" && r == Pause)
            || (word == "resume" && r == Resume) || (word == "favorites" && r == Favorites)
            || (word == "sources" && r == Sources) || (word == "close" && r == Close)
  {
  }

  /** The words a line can start with. */
  predicate IsVerb(word: string)
  {
    word in {"hello", "ping", "version", "status", "next", "prev", "set", "pause", "resume", "history", "favorites",
             "favorite", "unfavorite", "sources", "config", "subscribe", "close"}
  }

  lemma OtherWords(word: string)
    ensures VerbOf(word) == Unknown <==> !IsVerb(word)
  {
  }

  /** A bare word asks for its request. */
  lemma BareAsks(word: string, rest: Option<string>, request: Request, r: Request)
    requires VerbOf(word) == Bare(request)
    ensures Asks(word, rest, r) <==> NoArgument(rest) && r == request
  {
    BareWords(word, request);
    hide VerbOf, NoArgument, Numeral, IsArgument, IsGreeting, IsId, Absolute;
  }

  lemma WordAsks(word: string, rest: Option<string>, r: Request)
    requires word in {"hello", "history", "favorite", "unfavorite", "set", "config", "subscribe"}
    ensures ParseVerb(VerbOf(word), rest) == Ok(r) <==> Asks(word, rest, r)
  {
    OwnWords(word);
    hide VerbOf, NoArgument, Numeral, IsArgument, IsGreeting, IsId, Absolute, ParseVerb;
    match VerbOf(word)
    case VHello => HelloIs(rest, r);
    case VSet => SetIs(rest, r);
    case VFavorite => FavoriteIs(rest, r);
    case VUnfavorite => UnfavoriteIs(rest, r);
    case VHistory => HistoryIs(rest, r);
    case VSubscribe => SubscribeIs(rest, r);
    case VConfig => ConfigIs(rest, r);
  }

  lemma OnlyVerbsAsk(word: string, rest: Option<string>, r: Request)
    requires Asks(word, rest, r)
    ensures IsVerb(word)
  {
    hide NoArgument, Numeral, IsArgument, IsGreeting, IsId, Absolute;
  }

  lemma VerbAsks(word: string, rest: Option<string>, r: Request)
    ensures ParseVerb(VerbOf(word), rest) == Ok(r) <==> Asks(word, rest, r)
  {
    OtherWords(word);
    OwnWords(word);
    var verb := VerbOf(word);
    hide VerbOf, Asks, ParseVerb;
    match verb
    case Bare(request) => NoArgumentIs(rest, request, r); BareAsks(word, rest, request, r);
    case Unknown =>
      assert ParseVerb(Unknown, rest) == Err(UnknownVerb) by { UnknownIs(rest); }
      if Asks(word, rest, r) { OnlyVerbsAsk(word, rest, r); }
    case _ => WordAsks(word, rest, r);
  }

  lemma UnknownIs(rest: Option<string>)
    ensures ParseVerb(Unknown, rest) == Err(UnknownVerb)
  {
  }

  lemma Unreturned(text: string, line: string)
    requires text == line + "\r" || (text == line && (|line| == 0 || line[|line| - 1] != '\r'))
    ensures StripOne(text, '\r') == line
  {
  }

  lemma CutOnce(line: string, word: string, rest: Option<string>)
    requires ' ' !in word && line == word + if rest.Some? then " " + rest.value else ""
    ensures SplitOnce(line, ' ') == if rest.Some? then Some((word, rest.value)) else None
    ensures rest.None? ==> line == word
  {
    if rest.Some? {
      assert line == word + [' '] + rest.value;
      SplitOnceOf(word, ' ', rest.value);
    } else {
      assert line == word;
    }
  }

  /** Cutting a line at its first space gives the word and the rest. */
  lemma LineIsCut(text: string, word: string, rest: Option<string>)
    requires IsLine(text, word, rest) && |text| <= 8192 && '\0' !in text
    ensures Parse(text) == ParseVerb(VerbOf(word), rest)
  {
    hide ParseVerb, VerbOf, StripOne, SplitOnce;
    var line := word + if rest.Some? then " " + rest.value else "";
    Unreturned(text, line);
    CutOnce(line, word, rest);
  }

  /** Every text is one such line. */
  lemma EveryTextIsALine(text: string) returns (word: string, rest: Option<string>)
    ensures IsLine(text, word, rest)
  {
    var line := StripOne(text, '\r');
    assert text == line + "\r" || (text == line && (|line| == 0 || line[|line| - 1] != '\r'));
    hide StripOne;
    match SplitOnce(line, ' ')
    case Some((front, back)) => word, rest := front, Some(back); assert line == word + " " + back;
    case None => word, rest := line, None; assert line == word + "";
  }

  /**
   Main result: a line is accepted, as one request, if and only if it has at most 8192 bytes, no zero byte, and its
   words ask for that request.
   */
  lemma GrammarIsExact(text: string, word: string, rest: Option<string>, r: Request)
    requires IsLine(text, word, rest)
    ensures Parse(text) == Ok(r) <==> |text| <= 8192 && '\0' !in text && Asks(word, rest, r)
  {
    if |text| <= 8192 && '\0' !in text {
      LineIsCut(text, word, rest);
      hide Parse, IsLine, Asks;
      VerbAsks(word, rest, r);
    } else {
      hide Asks;
    }
  }

  // --- What a refused line is told ----------------------------------------------------

  /** The first word of a text. */
  predicate Begins(text: string, front: string)
  {
    ' ' !in front && (text == front || front + " " <= text)
  }

  /** The word after `hello` is no protocol version. */
  ghost predicate NoVersion(rest: Option<string>)
  {
    rest.Some? ==> forall n: nat, front: string :: Begins(rest.value, front) && Numeral(front, n) ==> n > 4294967295
  }

  lemma SpaceAfter(text: string, front: string)
    ensures front + " " <= text ==> ' ' in text
  {
    if front + " " <= text {
      assert text[|front|] == ' ';
    }
  }

  lemma FirstBegins(text: string, front: string)
    ensures Begins(text, front) <==> Split(text, ' ')[0] == front
  {
    match SplitOnce(text, ' ')
    case None =>
      SpaceAfter(text, front);
    case Some((f, b)) =>
      assert f + " " <= text;
      if Begins(text, front) {
        assert text != front by { assert text[|f|] == ' '; }
        assert text == front + [' '] + text[|front| + 1..];
        FrontIs(text, f, b, front, text[|front| + 1..]);
      }
  }

  lemma VersionIs(text: string, first: string)
    requires forall front: string :: Begins(text, front) <==> first == front
    ensures NoVersion(Some(text)) <==> ParseUnsigned(first, U32_MAX).None?
  {
    hide Numeral, ParseUnsigned, Begins;
    forall n: nat ensures ParseUnsigned(first, U32_MAX) == Some(n) <==> Numeral(first, n) && n <= U32_MAX {
      NumeralIsParsed(first, n, U32_MAX);
    }
    var v := ParseUnsigned(first, U32_MAX);
    if v.Some? {
      assert Begins(text, first) && Numeral(first, v.value);
    }
  }

  lemma FirstIs(text: string)
    ensures NoVersion(Some(text)) <==> ParseUnsigned(Split(text, ' ')[0], U32_MAX).None?
  {
    hide Split, Begins, NoVersion;
    forall front: string ensures Begins(text, front) <==> Split(text, ' ')[0] == front {
      FirstBegins(text, front);
    }
    VersionIs(text, Split(text, ' ')[0]);
  }

  lemma HelloRefuses(rest: Option<string>)
    ensures ParseVerb(VHello, rest) == Err(BadProtocol) <==> NoVersion(rest)
    ensures ParseVerb(VHello, rest) != Err(UnknownVerb)
  {
    if rest.Some? {
      FirstIs(rest.value);
      hide NoVersion, Split, ParseUnsigned;
    } else {
      assert ParseUnsigned("", U32_MAX) == None;
    }
  }

  lemma OthersRefuse(verb: Verb, rest: Option<string>)
    requires verb != VHello && verb != Unknown
    ensures ParseVerb(verb, rest).Ok? || ParseVerb(verb, rest) == Err(BadArgs)
  {
    hide Split, ParseUnsigned, TrimEnd, IsAbsolute;
  }

  /**
   Main result: a line that is not accepted is refused as too long, then as badly framed, then for its verb, then for
   a greeting without a protocol version, and for its arguments otherwise.
   */
  lemma RefusalIsExact(text: string, word: string, rest: Option<string>)
    requires IsLine(text, word, rest) && Parse(text).Err?
    ensures Parse(text).code ==
            if |text| > 8192 then TooLong
            else if '\0' in text then BadFraming
            else if !IsVerb(word) then UnknownVerb
            else if word == "hello" && NoVersion(rest) then BadProtocol
            else BadArgs
  {
    if |text| <= 8192 && '\0' !in text {
      LineIsCut(text, word, rest);
      OtherWords(word);
      OwnWords(word);
      hide Parse, IsLine, VerbOf, IsVerb, NoVersion, ParseVerb;
      UnknownIs(rest);
      HelloRefuses(rest);
      if VerbOf(word) != VHello && VerbOf(word) != Unknown { OthersRefuse(VerbOf(word), rest); }
    }
  }
}
