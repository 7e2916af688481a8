/**
 The request half of the line protocol: `Request::encode` and `Request::parse`
 (crates/whirl-core/src/protocol.rs:253-597).
 */
module Requests {
  import opened Basics
  import opened Texts

  const MAX_REQUEST_LINE := 8192
  const DEFAULT_HISTORY_COUNT := 10
  const MAX_HISTORY_COUNT := 50
  const U32_MAX := 0xFFFF_FFFF
  const U64_MAX := 0xFFFF_FFFF_FFFF_FFFF

  datatype Request =
    | Hello(version: nat, client: Option<string>)
    | Ping | Version | Status | Next | Prev
    | SetPath(path: string)
    | SetId(id: string)
    | Pause | Resume
    | History(count: nat)
    | Favorites
    | Favorite(optId: Option<string>)
    | Unfavorite(id: string)
    | Sources | ConfigPath | ConfigCheck
    | Subscribe(since: Option<nat>)
    | Close

  datatype Refusal = TooLong | BadFraming | BadProtocol | BadArgs | UnknownVerb

  datatype Parsed = Ok(request: Request) | Err(code: Refusal)

  /** The integer fields stay within their types. */
  predicate InRange(r: Request)
  {
    match r
    case Hello(version, _) => version <= U32_MAX
    case History(count) => count <= U64_MAX
    case Subscribe(Some(since)) => since <= U64_MAX
    case _ => true
  }

  /** `Request::encode`. */
  function Encode(r: Request): string
  {
    match r
    case Hello(version, client) =>
      if client.Some? then "hello" + " " + (Decimal(version) + " " + client.value) else "hello" + " " + Decimal(version)
    case Ping => "ping"
    case Version => "version"
    case Status => "status"
    case Next => "next"
    case Prev => "prev"
    case SetPath(path) => "set" + " " + ("path " + path)
    case SetId(id) => "set" + " " + ("id " + id)
    case Pause => "pause"
    case Resume => "resume"
    case History(count) => "history" + " " + Decimal(count)
    case Favorites => "favorites"
    case Favorite(id) => if id.Some? then "favorite" + " " + id.value else "favorite"
    case Unfavorite(id) => "unfavorite" + " " + id
    case Sources => "sources"
    case ConfigPath => "config" + " " + "path"
    case ConfigCheck => "config" + " " + "check"
    case Subscribe(since) => if since.Some? then "subscribe" + " " + Decimal(since.value) else "subscribe"
    case Close => "close"
  }

  predicate IsAbsolute(p: string)
  {
    "/" <= p || "~" <= p || "\\\\" <= p
    || (|p| >= 3 && ('a' <= p[0] <= 'z' || 'A' <= p[0] <= 'Z') && p[1] == ':' && (p[2] == '\\' || p[2] == '/'))
  }

  /** `no_args`: a verb without arguments tolerates one empty one. */
  function NoArgs(args: seq<string>, r: Request): Parsed
  {
    if |args| > 1 || (|args| == 1 && args[0] != "") then Err(BadArgs) else Ok(r)
  }

  function ParseHello(args: seq<string>): Parsed
  {
    var version := ParseUnsigned(if |args| > 0 then args[0] else "", U32_MAX);
    if version.None? then Err(BadProtocol)
    else if |args| <= 1 then Ok(Hello(version.value, None))
    else if |args| == 2 then Ok(Hello(version.value, Some(args[1])))
    else Err(BadArgs)
  }

  function ParseHistory(args: seq<string>): Parsed
  {
    if |args| == 0 then Ok(History(DEFAULT_HISTORY_COUNT))
    else if |args| > 1 then Err(BadArgs)
    else
      var n := ParseUnsigned(args[0], U64_MAX);
      if n.None? || n.value < 1 || n.value > MAX_HISTORY_COUNT then Err(BadArgs) else Ok(History(n.value))
  }

  function ParseSet(rest: string): Parsed
  {
    if StripPrefix(rest, "path ").Some? then
      var path := TrimEnd(StripPrefix(rest, "path ").value, '\r');
      if path == "" || !IsAbsolute(path) then Err(BadArgs) else Ok(SetPath(path))
    else if StripPrefix(rest, "id ").Some? then
      var id := TrimEnd(StripPrefix(rest, "id ").value, '\r');
      if id == "" then Err(BadArgs) else Ok(SetId(id))
    else Err(BadArgs)
  }

  /** What the first word of a line asks for. */
  datatype Verb = Bare(request: Request) | VHello | VHistory | VFavorite | VUnfavorite | VSet | VConfig | VSubscribe | Unknown

  function VerbOf(word: string): Verb
  {
    if word == "hello" then VHello
    else if word == "ping" then Bare(Ping)
    else if word == "version" then Bare(Version)
    else if word == "status" then Bare(Status)
    else if word == "next" then Bare(Next)
    else if word == "prev" then Bare(Prev)
    else if word == "pause" then Bare(Pause)
    else if word == "resume" then Bare(Resume)
    else if word == "favorites" then Bare(Favorites)
    else if word == "sources" then Bare(Sources)
    else if word == "close" then Bare(Close)
    else if word == "history" then VHistory
    else if word == "favorite" then VFavorite
    else if word == "unfavorite" then VUnfavorite
    else if word == "set" then VSet
    else if word == "config" then VConfig
    else if word == "subscribe" then VSubscribe
    else Unknown
  }

  function ParseVerb(verb: Verb, rest: Option<string>): Parsed
  {
    var args := match rest case None => [] case Some(text) => Split(text, ' ');
    match verb
    case Bare(request) => NoArgs(args, request)
    case VHello => ParseHello(args)
    case VHistory => ParseHistory(args)
    case VFavorite =>
      if |args| == 0 then Ok(Favorite(None))
      else if |args| == 1 && args[0] != "" then Ok(Favorite(Some(args[0])))
      else Err(BadArgs)
    case VUnfavorite => if |args| == 1 && args[0] != "" then Ok(Unfavorite(args[0])) else Err(BadArgs)
    case VSet => ParseSet(if rest.Some? then rest.value else "")
    case VConfig =>
      if args == ["path"] then Ok(ConfigPath) else if args == ["check"] then Ok(ConfigCheck) else Err(BadArgs)
    case VSubscribe =>
      if |args| == 0 then Ok(Subscribe(None))
      else if |args| > 1 || ParseUnsigned(args[0], U64_MAX).None? then Err(BadArgs)
      else Ok(Subscribe(ParseUnsigned(args[0], U64_MAX)))
    case Unknown => Err(UnknownVerb)
  }

  /** `Request::parse`. */
  function Parse(text: string): Parsed
  {
    if |text| > MAX_REQUEST_LINE then Err(TooLong)
    else if '\0' in text then Err(BadFraming)
    else
      var line := StripOne(text, '\r');
      match SplitOnce(line, ' ')
      case Some((verb, rest)) => ParseVerb(VerbOf(verb), Some(rest))
      case None => ParseVerb(VerbOf(line), None)
  }

  // --- Parsing what was printed -------------------------------------------------------

  /** One word of a request line: it survives the split and the tolerated carriage return. */
  predicate Token(s: string)
  {
    ' ' !in s && '\0' !in s && !EndsWith(s, '\r')
  }

  /** The requests a line can carry. */
  predicate WellFormed(r: Request)
  {
    |Encode(r)| <= MAX_REQUEST_LINE
    && match r
       case Hello(_, client) => client.Some? ==> Token(client.value)
       case SetPath(path) => IsAbsolute(path) && '\0' !in path && !EndsWith(path, '\r')
       case SetId(id) => id != "" && '\0' !in id && !EndsWith(id, '\r')
       case History(count) => 1 <= count <= MAX_HISTORY_COUNT
       case Favorite(id) => id.Some? ==> id.value != "" && Token(id.value)
       case Unfavorite(id) => id != "" && Token(id)
       case _ => true
  }

  /** A bare verb. */
  lemma ParseBare(verb: string)
    requires |verb| <= MAX_REQUEST_LINE && Token(verb)
    ensures Parse(verb) == ParseVerb(VerbOf(verb), None)
  {
    hide ParseVerb, VerbOf;
  }

  /** A verb, a space, and the rest of the line. */
  lemma ParseRest(verb: string, rest: string)
    requires Token(verb)
    ensures Parse(verb + " " + rest) ==
            if |verb| + 1 + |rest| > MAX_REQUEST_LINE then Err(TooLong)
            else if '\0' in rest then Err(BadFraming)
            else ParseVerb(VerbOf(verb), Some(StripOne(rest, '\r')))
  {
    hide ParseVerb, VerbOf;
    var text := verb + " " + rest;
    assert '\0' in text <==> '\0' in rest;
    assert StripOne(text, '\r') == verb + [' '] + StripOne(rest, '\r');
    SplitOnceOf(verb, ' ', StripOne(rest, '\r'));
  }

  lemma WordsWithArguments()
    ensures VerbOf("hello") == VHello && VerbOf("history") == VHistory && VerbOf("favorite") == VFavorite
    ensures VerbOf("unfavorite") == VUnfavorite && VerbOf("set") == VSet && VerbOf("config") == VConfig
    ensures VerbOf("subscribe") == VSubscribe
  {
  }

  lemma SplitOfToken(s: string)
    ensures |Split(s, ' ')| == 1 <==> ' ' !in s
    ensures ' ' !in s ==> Split(s, ' ') == [s]
  {
  }

  lemma BareRoundTrips(r: Request)
    requires r.Ping? || r.Version? || r.Status? || r.Next? || r.Prev? || r.Pause? || r.Resume? || r.Favorites?
             || r.Sources? || r.Close?
    ensures Parse(Encode(r)) == Ok(r)
  {
    ParseBare(Encode(r));
    WordOf(r);
  }

  lemma WordOf(r: Request)
    requires r.Ping? || r.Version? || r.Status? || r.Next? || r.Prev? || r.Pause? || r.Resume? || r.Favorites?
             || r.Sources? || r.Close?
    ensures VerbOf(Encode(r)) == Bare(r)
  {
  }

  lemma OptionalRoundTrips(r: Request)
    requires r == Favorite(None) || r == Subscribe(None)
    ensures Parse(Encode(r)) == Ok(r)
  {
    WordsWithArguments();
    hide VerbOf, Parse;
    var word := if r.Favorite? then "favorite" else "subscribe";
    assert Encode(r) == word && Token(word);
    ParseBare(word);
  }

  lemma ConfigRoundTrips(r: Request)
    requires r.ConfigPath? || r.ConfigCheck?
    ensures Parse(Encode(r)) == Ok(r)
  {
    WordsWithArguments();
    hide VerbOf, Split, TrimEnd, ParseUnsigned, Parse;
    var word := if r.ConfigPath? then "path" else "check";
    ParseRest("config", word);
    SplitOfToken(word);
  }

  lemma NumberRoundTrips(r: Request)
    requires r.History? || (r.Subscribe? && r.since.Some?)
    requires InRange(r)
    ensures Parse(Encode(r)) == Ok(r) <==> WellFormed(r)
  {
    WordsWithArguments();
    hide VerbOf, Split, TrimEnd, ParseUnsigned, Parse;
    var n := if r.History? then r.count else r.since.value;
    ParsePrinted(n, U64_MAX);
    ParseRest(if r.History? then "history" else "subscribe", Decimal(n));
    SplitOfToken(Decimal(n));
  }

  lemma IdRoundTrips(r: Request)
    requires r.Unfavorite? || (r.Favorite? && r.optId.Some?)
    ensures Parse(Encode(r)) == Ok(r) <==> WellFormed(r)
  {
    WordsWithArguments();
    hide VerbOf, Split, TrimEnd, ParseUnsigned, Parse;
    var id := if r.Unfavorite? then r.id else r.optId.value;
    ParseRest(if r.Unfavorite? then "unfavorite" else "favorite", id);
    SplitOfToken(StripOne(id, '\r'));
  }

  lemma ParseSetPath(value: string)
    ensures ParseSet("path " + value) ==
            var path := TrimEnd(value, '\r');
            if path == "" || !IsAbsolute(path) then Err(BadArgs) else Ok(SetPath(path))
  {
    hide TrimEnd, IsAbsolute;
    PrefixStripped("path ", value);
  }

  lemma ParseSetId(value: string)
    ensures ParseSet("id " + value) ==
            var id := TrimEnd(value, '\r');
            if id == "" then Err(BadArgs) else Ok(SetId(id))
  {
    hide TrimEnd, IsAbsolute;
    PrefixStripped("id ", value);
    assert ("id " + value)[0] == 'i' && "path "[0] == 'p';
    assert StripPrefix("id " + value, "path ").None?;
  }

  /** `set` keeps the rest of the line, spaces included. */
  lemma ParseSetLine(word: string, value: string)
    requires word == "path " || word == "id "
    ensures Parse("set" + " " + (word + value)) ==
            if |word| + |value| + 4 > MAX_REQUEST_LINE then Err(TooLong)
            else if '\0' in value then Err(BadFraming)
            else ParseSet(word + StripOne(value, '\r'))
  {
    WordsWithArguments();
    hide VerbOf, Split, TrimEnd, Parse, ParseSet;
    var rest := word + value;
    ParseRest("set", rest);
    assert '\0' in rest <==> '\0' in value;
    assert StripOne(rest, '\r') == word + StripOne(value, '\r');
  }

  lemma SetRoundTrips(r: Request)
    requires r.SetPath? || r.SetId?
    ensures Parse(Encode(r)) == Ok(r) <==> WellFormed(r)
  {
    hide Parse, ParseSet, TrimEnd;
    if r.SetPath? {
      ParseSetLine("path ", r.path);
      ParseSetPath(StripOne(r.path, '\r'));
      TrimAfterStrip(r.path);
    } else {
      ParseSetLine("id ", r.id);
      ParseSetId(StripOne(r.id, '\r'));
      TrimAfterStrip(r.id);
    }
  }

  lemma TrimAfterStrip(s: string)
    ensures TrimEnd(StripOne(s, '\r'), '\r') == TrimEnd(s, '\r')
    ensures TrimEnd(s, '\r') == s <==> !EndsWith(s, '\r')
  {
  }

  lemma HelloRoundTrips(r: Request)
    requires r.Hello? && InRange(r)
    ensures Parse(Encode(r)) == Ok(r) <==> WellFormed(r)
  {
    WordsWithArguments();
    hide VerbOf, Split, TrimEnd, ParseUnsigned, Parse;
    var v := Decimal(r.version);
    ParsePrinted(r.version, U32_MAX);
    SplitOfToken(v);
    if r.client.None? {
      ParseRest("hello", v);
    } else {
      var c := r.client.value;
      var rest := v + " " + c;
      ParseRest("hello", rest);
      assert StripOne(rest, '\r') == v + [' '] + StripOne(c, '\r');
      SplitTwo(v, ' ', StripOne(c, '\r'));
      SplitOfToken(StripOne(c, '\r'));
      assert '\0' in rest <==> '\0' in c;
    }
  }

  /** Main result: a request survives its own line exactly when it is well formed. */
  lemma RequestRoundTrip(r: Request)
    requires InRange(r)
    ensures Parse(Encode(r)) == Ok(r) <==> WellFormed(r)
  {
    hide Parse, WellFormed, Encode;
    match r
    case Hello(_, _) => HelloRoundTrips(r);
    case SetPath(_) => SetRoundTrips(r);
    case SetId(_) => SetRoundTrips(r);
    case History(_) => NumberRoundTrips(r);
    case Unfavorite(_) => IdRoundTrips(r);
    case ConfigPath => ConfigRoundTrips(r); ShortIsWellFormed(r);
    case ConfigCheck => ConfigRoundTrips(r); ShortIsWellFormed(r);
    case Favorite(id) => if id.Some? { IdRoundTrips(r); } else { OptionalRoundTrips(r); ShortIsWellFormed(r); }
    case Subscribe(since) => if since.Some? { NumberRoundTrips(r); } else { OptionalRoundTrips(r); ShortIsWellFormed(r); }
    case _ => BareRoundTrips(r); ShortIsWellFormed(r);
  }

  lemma ShortIsWellFormed(r: Request)
    requires !r.Hello? && !r.SetPath? && !r.SetId? && !r.History? && !r.Unfavorite?
    requires (r.Favorite? ==> r.optId.None?) && (r.Subscribe? ==> r.since.None?)
    ensures WellFormed(r)
  {
  }

  // --- Printing what was parsed -------------------------------------------------------

  predicate EndsInTwoReturns(text: string)
  {
    |text| >= 2 && text[|text| - 1] == '\r' && text[|text| - 2] == '\r'
  }

  lemma StrippedReturns(text: string)
    ensures EndsWith(StripOne(text, '\r'), '\r') <==> EndsInTwoReturns(text)
    ensures |StripOne(text, '\r')| <= |text|
    ensures '\0' !in text ==> '\0' !in StripOne(text, '\r')
  {
  }

  lemma KnownWordsAreClean(word: string)
    requires VerbOf(word) != Unknown
    ensures !EndsWith(word, '\r') && |word| >= 3
    ensures VerbOf(word) == VHello ==> word == "hello"
    ensures VerbOf(word) == VFavorite ==> word == "favorite"
    ensures VerbOf(word) == VUnfavorite ==> word == "unfavorite"
    ensures VerbOf(word) == VSet ==> word == "set"
    ensures VerbOf(word) == VSubscribe ==> word == "subscribe"
  {
  }

  /** What may follow the verb, for the request to print as an acceptable line again. */
  predicate Reprints(r: Request, returned: bool)
  {
    WellFormed(r) <==> (returned ==> r.SetPath? || r.SetId?)
  }

  lemma NumeralToken(s: string, max: nat)
    requires ParseUnsigned(s, max).Some?
    ensures ParseUnsigned(s, max).value <= max && !EndsWith(s, '\r') && |s| >= 1
    ensures |Decimal(ParseUnsigned(s, max).value)| <= |s|
  {
    var digits := if s[0] == '+' then s[1..] else s;
    PrintedNoLonger(digits);
    assert IsDigit(digits[|digits| - 1]);
  }

  lemma HelloClientReprints(front: string, client: string)
    requires |front| + |client| + 7 <= MAX_REQUEST_LINE && '\0' !in client && ' ' !in client
    requires ParseUnsigned(front, U32_MAX).Some?
    ensures var r := Hello(ParseUnsigned(front, U32_MAX).value, Some(client));
            InRange(r) && Reprints(r, EndsWith(client, '\r'))
  {
    NumeralToken(front, U32_MAX);
    hide ParseUnsigned, Decimal;
  }

  lemma HelloReprints(rest: string)
    requires |rest| + 6 <= MAX_REQUEST_LINE && '\0' !in rest && ParseHello(Split(rest, ' ')).Ok?
    ensures var r := ParseHello(Split(rest, ' ')).request;
            r.Hello? && InRange(r) && Reprints(r, EndsWith(rest, '\r'))
  {
    hide ParseUnsigned, Decimal, WellFormed;
    match SplitOnce(rest, ' ')
    case None =>
      NumeralToken(rest, U32_MAX);
      ShortHello(ParseUnsigned(rest, U32_MAX).value, rest);
    case Some((front, client)) =>
      assert rest == front + [' '] + client;
      assert Split(rest, ' ') == [front] + Split(client, ' ');
      SplitOfToken(client);
      assert EndsWith(rest, '\r') <==> EndsWith(client, '\r');
      HelloClientReprints(front, client);
  }

  lemma ShortHello(version: nat, rest: string)
    requires |Decimal(version)| <= |rest| && |rest| + 6 <= MAX_REQUEST_LINE
    ensures WellFormed(Hello(version, None))
  {
    hide Decimal;
  }

  lemma SetReprints(rest: string)
    requires |rest| + 4 <= MAX_REQUEST_LINE && '\0' !in rest && ParseSet(rest).Ok?
    ensures var r := ParseSet(rest).request;
            (r.SetPath? || r.SetId?) && WellFormed(r)
  {
    hide IsAbsolute;
    var word := if StripPrefix(rest, "path ").Some? then "path " else "id ";
    var value := StripPrefix(rest, word).value;
    TrimmedFits(rest, |word|, value);
  }

  lemma TrimmedFits(rest: string, n: nat, value: string)
    requires '\0' !in rest && n <= |rest| && value == rest[n..]
    ensures var kept := TrimEnd(value, '\r');
            '\0' !in kept && n + |kept| <= |rest| && !EndsWith(kept, '\r')
  {
    var kept := TrimEnd(value, '\r');
    assert forall c :: c in kept ==> c in value;
  }

  lemma IdReprints(id: string, r: Request)
    requires |id| + 11 <= MAX_REQUEST_LINE || (|id| + 9 <= MAX_REQUEST_LINE && r.Favorite?)
    requires '\0' !in id && ' ' !in id && id != "" && (r == Favorite(Some(id)) || r == Unfavorite(id))
    ensures Reprints(r, EndsWith(id, '\r'))
  {
  }

  lemma NumberReprints(s: string, r: Request)
    requires |s| + 8 <= MAX_REQUEST_LINE
    requires (r.Subscribe? && |s| + 10 <= MAX_REQUEST_LINE && r.since == ParseUnsigned(s, U64_MAX) && r.since.Some?)
             || (ParseUnsigned(s, U64_MAX) == Some(if r.History? then r.count else 0) && r.History? && 1 <= r.count <= MAX_HISTORY_COUNT)
    ensures Reprints(r, EndsWith(s, '\r')) && InRange(r)
  {
    NumeralToken(s, U64_MAX);
  }

  lemma FavoriteReprints(rest: string)
    requires |rest| + 9 <= MAX_REQUEST_LINE && '\0' !in rest && ParseVerb(VFavorite, Some(rest)).Ok?
    ensures var r := ParseVerb(VFavorite, Some(rest)).request; InRange(r) && Reprints(r, EndsWith(rest, '\r'))
  {
    hide WellFormed, Split;
    SplitOfToken(rest);
    IdReprints(rest, Favorite(Some(rest)));
  }

  lemma UnfavoriteReprints(rest: string)
    requires |rest| + 11 <= MAX_REQUEST_LINE && '\0' !in rest && ParseVerb(VUnfavorite, Some(rest)).Ok?
    ensures var r := ParseVerb(VUnfavorite, Some(rest)).request; InRange(r) && Reprints(r, EndsWith(rest, '\r'))
  {
    hide WellFormed, Split;
    SplitOfToken(rest);
    IdReprints(rest, Unfavorite(rest));
  }

  lemma HistoryReprints(rest: string)
    requires |rest| + 8 <= MAX_REQUEST_LINE && ParseVerb(VHistory, Some(rest)).Ok?
    ensures var r := ParseVerb(VHistory, Some(rest)).request; InRange(r) && Reprints(r, EndsWith(rest, '\r'))
  {
    hide WellFormed, Split, ParseUnsigned;
    SplitOfToken(rest);
    NumberReprints(rest, ParseVerb(VHistory, Some(rest)).request);
  }

  lemma SubscribeReprints(rest: string)
    requires |rest| + 10 <= MAX_REQUEST_LINE && ParseVerb(VSubscribe, Some(rest)).Ok?
    ensures var r := ParseVerb(VSubscribe, Some(rest)).request; InRange(r) && Reprints(r, EndsWith(rest, '\r'))
  {
    hide WellFormed, Split, ParseUnsigned;
    SplitOfToken(rest);
    NumberReprints(rest, ParseVerb(VSubscribe, Some(rest)).request);
  }

  lemma BareAndConfigReprint(word: string, rest: string)
    requires VerbOf(word).Bare? || VerbOf(word) == VConfig
    requires ParseVerb(VerbOf(word), Some(rest)).Ok?
    ensures var r := ParseVerb(VerbOf(word), Some(rest)).request; InRange(r) && Reprints(r, EndsWith(rest, '\r'))
  {
    hide VerbOf, WellFormed, Split;
    var r := ParseVerb(VerbOf(word), Some(rest)).request;
    SplitOfToken(rest);
    if VerbOf(word).Bare? { BareVerbs(word, r); }
    ShortIsWellFormed(r);
  }

  /** The verb and rest of an accepted line. */
  lemma VerbReprints(word: string, rest: string)
    requires |word| + 1 + |rest| <= MAX_REQUEST_LINE && '\0' !in rest
    requires ParseVerb(VerbOf(word), Some(rest)).Ok?
    ensures var r := ParseVerb(VerbOf(word), Some(rest)).request;
            InRange(r) && Reprints(r, EndsWith(rest, '\r'))
  {
    KnownWordsAreClean(word);
    hide VerbOf, ParseHello, ParseSet, WellFormed, Split, ParseHistory;
    match VerbOf(word)
    case VHello => HelloReprints(rest);
    case VSet => SetReprints(rest);
    case VFavorite => FavoriteReprints(rest);
    case VUnfavorite => UnfavoriteReprints(rest);
    case VHistory => HistoryReprints(rest);
    case VSubscribe => SubscribeReprints(rest);
    case Bare(request) => BareAndConfigReprint(word, rest);
    case VConfig => BareAndConfigReprint(word, rest);
    case Unknown =>
  }

  lemma BareVerbs(word: string, r: Request)
    requires VerbOf(word) == Bare(r)
    ensures !r.Hello? && !r.SetPath? && !r.SetId? && !r.History? && !r.Unfavorite? && !r.Favorite? && !r.Subscribe?
  {
  }

  lemma BareReprints(word: string)
    requires ParseVerb(VerbOf(word), None).Ok?
    ensures var r := ParseVerb(VerbOf(word), None).request;
            InRange(r) && WellFormed(r)
  {
    var verb := VerbOf(word);
    var r := ParseVerb(verb, None).request;
    if verb.Bare? { BareVerbs(word, r); }
    hide VerbOf;
    if !r.History? { ShortIsWellFormed(r); }
  }

  /** An accepted line asks for a `set` exactly when it starts with the word and a space. */
  lemma SetStarts(text: string)
    requires Parse(text).Ok?
    ensures var r := Parse(text).request; r.SetPath? || r.SetId? <==> "set " <= text
  {
    var line := StripOne(text, '\r');
    hide VerbOf, ParseSet, ParseUnsigned;
    assert VerbOf("set") == VSet && ParseSet("").Err? by { SetWord(); }
    match SplitOnce(line, ' ')
    case Some((verb, rest)) =>
      assert line == verb + [' '] + rest && line <= text;
      assert verb == "set" <==> "set " <= text by { FirstWord(verb, rest, text); }
      KnownWordsAreClean(verb);
      OnlySetSets(verb, rest);
    case None =>
      if "set " <= text { SpaceInside(text); }
      NoSetAlone(line);
  }

  lemma SetWord()
    ensures VerbOf("set") == VSet && ParseSet("").Err?
  {
  }

  lemma SpaceInside(text: string)
    requires "set " <= text
    ensures ' ' in text
  {
    assert text[3] == ' ';
  }

  lemma FirstWord(word: string, rest: string, text: string)
    requires ' ' !in word && word + [' '] + rest <= text
    ensures word == "set" <==> "set " <= text
  {
    assert text[..|word|] == word && text[|word|] == ' ';
    if "set " <= text {
      assert text[0] == 's' && text[1] == 'e' && text[2] == 't';
      if |word| > 3 {
        assert "set " <= text[..|word|];
        SpaceInside(word);
      }
    }
  }

  lemma OnlySetSets(word: string, rest: string)
    requires ParseVerb(VerbOf(word), Some(rest)).Ok? && VerbOf("set") == VSet && (VerbOf(word) == VSet ==> word == "set")
    ensures var r := ParseVerb(VerbOf(word), Some(rest)).request; r.SetPath? || r.SetId? <==> word == "set"
  {
    hide VerbOf, ParseUnsigned, Split;
    var verb := VerbOf(word);
    if verb.Bare? { BareVerbs(word, verb.request); }
  }

  lemma NoSetAlone(word: string)
    requires ParseVerb(VerbOf(word), None).Ok? && ParseSet("").Err?
    ensures var r := ParseVerb(VerbOf(word), None).request; !r.SetPath? && !r.SetId?
  {
    hide VerbOf, ParseUnsigned, ParseSet;
    var verb := VerbOf(word);
    if verb.Bare? { BareVerbs(word, verb.request); }
  }

  /**
   Main result: printing an accepted line's request and parsing it again gives the same request,
   exactly unless the line ends in two carriage returns and is not a `set`, whose argument keeps one.
   */
  lemma AcceptedLineIsStable(text: string)
    requires Parse(text).Ok?
    ensures var r := Parse(text).request;
            InRange(r) && (Parse(Encode(r)) == Ok(r) <==> (EndsInTwoReturns(text) ==> "set " <= text))
  {
    SetStarts(text);
    var line := StripOne(text, '\r');
    StrippedReturns(text);
    hide ParseVerb, VerbOf, Encode, WellFormed;
    var r := Parse(text).request;
    match SplitOnce(line, ' ')
    case Some((verb, rest)) =>
      assert line == verb + [' '] + rest;
      assert EndsWith(line, '\r') <==> EndsWith(rest, '\r');
      VerbReprints(verb, rest);
      RequestRoundTrip(r);
    case None =>
      BareReprints(line);
      KnownVerb(line);
      RequestRoundTrip(r);
  }

  /** The failing input: an accepted greeting that keeps one of its two carriage returns, then loses it. */
  lemma TwoReturnsAreLost()
    ensures Parse("hello 1 x\r\r") == Ok(Hello(1, Some("x\r")))
    ensures Parse(Encode(Hello(1, Some("x\r")))) == Ok(Hello(1, Some("x")))
  {
    hide Parse;
    ParsedGreeting("x\r");
    ParsedGreeting("x");
    assert "hello 1 x\r\r" == "hello 1 " + "x\r" + "\r" && "hello 1 x\r" == "hello 1 " + "x" + "\r";
    assert Decimal(1) == "1";
    assert Encode(Hello(1, Some("x\r"))) == "hello 1 x\r";
  }

  lemma ParsedGreeting(client: string)
    requires ' ' !in client && '\0' !in client && |client| < 100
    ensures Parse("hello 1 " + client + "\r") == Ok(Hello(1, Some(client)))
  {
    hide ParseUnsigned, Split;
    var text := "hello 1 " + client + "\r";
    var rest := "1" + [' '] + client;
    assert StripOne(text, '\r') == "hello" + [' '] + rest;
    SplitOnceOf("hello", ' ', rest);
    SplitTwo("1", ' ', client);
    assert Split(rest, ' ') == ["1", client];
    assert ParseUnsigned("1", U32_MAX) == Some(1) by { ParseOne(); }
  }

  lemma ParseOne()
    ensures ParseUnsigned("1", U32_MAX) == Some(1)
  {
    assert "1"[..0] == "";
    assert ValueOf("1") == 10 * ValueOf("") + DigitValue('1');
  }

  lemma KnownVerb(line: string)
    requires ParseVerb(VerbOf(line), None).Ok?
    ensures !EndsWith(line, '\r')
  {
    KnownWordsAreClean(line);
  }
}
