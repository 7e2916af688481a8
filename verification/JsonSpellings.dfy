/**
 What the strings and numbers of a document mean (RFC 8259 sections 6 and 7; crates/whirl-core/src/config.rs:2089-2214):
 every way to spell a character, and every numeral, said without the reader's own functions.
 */
module JsonSpellings {
  import opened Basics
  import opened JsonTree
  import opened JsonSpec
  import opened JsonLayout
  import opened JsonNumbers
  import Floats

  // --- Characters --------------------------------------------------------------------------

  /** The eight escapes of two bytes. */
  predicate ShortForm(letter: char, c: char)
  {
    || (letter == '\"' && c == '\"') || (letter == '\\' && c == '\\') || (letter == '/' && c == '/')
    || (letter == 'b' && c == 0x08 as char) || (letter == 'f' && c == 0x0C as char) || (letter == 'n' && c == 0x0A as char)
    || (letter == 'r' && c == 0x0D as char) || (letter == 't' && c == 0x09 as char)
  }

  /** The UTF-16 code units of a character (RFC 2781 section 2.1). */
  function Units(c: char): (us: seq<nat>)
    ensures |us| == 1 || |us| == 2
    ensures forall i :: 0 <= i < |us| ==> us[i] < 0x1_0000
  {
    var n := c as nat;
    if n < 0x1_0000 then [n] else [0xD800 + (n - 0x1_0000) / 0x400, 0xDC00 + (n - 0x1_0000) % 0x400]
  }

  /** The character is hexadecimal digit d, of either case. */
  predicate HexSpells(c: char, d: nat)
  {
    d < 16 && (c == "0123456789abcdef"[d] || c == "0123456789ABCDEF"[d])
  }

  /** Four digits spell a code unit. */
  predicate UnitSpells(t: string, n: nat)
  {
    && |t| == 4 && n < 0x1_0000
    && HexSpells(t[0], n / 0x1000) && HexSpells(t[1], n / 0x100 % 16) && HexSpells(t[2], n / 16 % 16) && HexSpells(t[3], n % 16)
  }

  /** One character of a string: itself, a two-byte escape, or one or two `\u` escapes. */
  datatype Spelling = Raw(c: char) | Short(letter: char, c: char) | OneUnit(digits: string, c: char)
                    | TwoUnits(high: string, low: string, c: char)

  predicate Valid(s: Spelling)
  {
    match s
    case Raw(c) => 0x20 as char <= c < 0x80 as char && c != '\"' && c != '\\'
    case Short(letter, c) => ShortForm(letter, c)
    case OneUnit(digits, c) => |Units(c)| == 1 && UnitSpells(digits, Units(c)[0])
    case TwoUnits(high, low, c) => |Units(c)| == 2 && UnitSpells(high, Units(c)[0]) && UnitSpells(low, Units(c)[1])
  }

  function Spelled(s: Spelling): string
  {
    match s
    case Raw(c) => [c]
    case Short(letter, _) => ['\\', letter]
    case OneUnit(digits, _) => "\\u" + digits
    case TwoUnits(high, low, _) => "\\u" + high + "\\u" + low
  }

  function AllSpelled(ss: seq<Spelling>): string { if |ss| == 0 then "" else Spelled(ss[0]) + AllSpelled(ss[1..]) }

  function Meant(ss: seq<Spelling>): string { if |ss| == 0 then "" else [ss[0].c] + Meant(ss[1..]) }

  // --- Every spelling is read ------------------------------------------------------------------

  lemma HexIsRead(c: char, d: nat)
    requires HexSpells(c, d)
    ensures HexValue(c) == Some(d)
  {
  }

  lemma OneDigit(b: string, p: nat, i: nat, value: nat, d: nat)
    requires p < |b| && i < 4 && HexSpells(b[p], d)
    ensures HexFrom(b, p, i, value) == HexFrom(b, p + 1, i + 1, value * 16 + d)
  {
    hide LineAt, HexValue, HexSpells;
    HexIsRead(b[p], d);
  }

  lemma UnitIsRead(b: string, p: nat, t: string, n: nat)
    requires At(b, p, t) && UnitSpells(t, n)
    ensures HexFrom(b, p, 0, 0) == Ok(n, p + 4)
  {
    hide LineAt, HexFrom, HexSpells;
    assert b[p] == b[p..p + 4][0] && b[p + 1] == b[p..p + 4][1] && b[p + 2] == b[p..p + 4][2] && b[p + 3] == b[p..p + 4][3];
    OneDigit(b, p, 0, 0, n / 0x1000);
    OneDigit(b, p + 1, 1, n / 0x1000, n / 0x100 % 16);
    OneDigit(b, p + 2, 2, n / 0x1000 * 16 + n / 0x100 % 16, n / 16 % 16);
    OneDigit(b, p + 3, 3, (n / 0x1000 * 16 + n / 0x100 % 16) * 16 + n / 16 % 16, n % 16);
    FourDigits(n);
    HexDone(b, p + 4, n);
  }

  lemma FourDigits(n: nat)
    ensures ((n / 0x1000 * 16 + n / 0x100 % 16) * 16 + n / 16 % 16) * 16 + n % 16 == n
  {
    assert n / 0x1000 * 16 + n / 0x100 % 16 == n / 0x100;
    assert n / 0x100 * 16 + n / 16 % 16 == n / 16;
  }

  lemma OneUnitIsRead(b: string, p: nat, digits: string, c: char)
    requires At(b, p, digits) && |Units(c)| == 1 && UnitSpells(digits, Units(c)[0])
    ensures UnicodeEscape(b, p) == Ok(c, p + 4)
  {
    hide HexFrom, UnitSpells, LineAt, LowSurrogate;
    UnitIsRead(b, p, digits, c as nat);
    assert |digits| == 4 by { UnitLength(digits, c as nat); }
  }

  lemma UnitLength(t: string, n: nat)
    requires UnitSpells(t, n)
    ensures |t| == 4 && n < 0x1_0000
  {
  }

  lemma PairMeans(c: char)
    requires |Units(c)| == 2
    ensures IsHigh(Units(c)[0]) && IsLow(Units(c)[1]) && Combined(Units(c)[0], Units(c)[1]) == c
  {
    var m := c as nat - 0x1_0000;
    assert m == m / 0x400 * 0x400 + m % 0x400;
  }

  lemma TwoUnitsAreRead(b: string, p: nat, high: string, low: string, c: char)
    requires At(b, p, high + "\\u" + low) && |Units(c)| == 2
    requires UnitSpells(high, Units(c)[0]) && UnitSpells(low, Units(c)[1])
    ensures UnicodeEscape(b, p) == Ok(c, p + 10)
  {
    hide HexFrom, UnitSpells, LineAt, Units, Combined, At;
    UnitLength(high, Units(c)[0]);
    UnitLength(low, Units(c)[1]);
    assert high + "\\u" + low == high + ("\\u" + low);
    AtSplit(b, p, high, "\\u" + low);
    AtSplit(b, p + 4, "\\u", low);
    UnitIsRead(b, p, high, Units(c)[0]);
    UnitIsRead(b, p + 6, low, Units(c)[1]);
    PairMeans(c);
    BothBytes(b, p + 4);
  }

  lemma BothBytes(b: string, p: nat)
    requires At(b, p, "\\u")
    ensures p + 2 <= |b| && b[p] == '\\' && b[p + 1] == 'u'
  {
    assert b[p] == b[p..p + 2][0] && b[p + 1] == b[p..p + 2][1];
  }

  lemma ShortIsRead(b: string, p: nat, letter: char, c: char)
    requires p < |b| && b[p] == letter && ShortForm(letter, c)
    ensures Escape(b, p) == Ok(c, p + 1)
  {
  }

  /** Any other byte behind a backslash but `u` is refused. */
  lemma OtherEscapesAreRefused(b: string, p: nat)
    requires p < |b| && b[p] != 'u' && forall c :: !ShortForm(b[p], c)
    ensures Escape(b, p).Err?
  {
    assert ShortEscape(b[p]).Some? ==> ShortForm(b[p], ShortEscape(b[p]).value);
  }

  lemma RawStep(b: string, p: nat, out: string, start: nat)
    requires p < |b| && 0x20 as char <= b[p] < 0x80 as char && b[p] != '\"' && b[p] != '\\'
    ensures StringFrom(b, p, out, start) == StringFrom(b, p + 1, out + [b[p]], start)
  {
    hide LineAt, Escape;
  }

  lemma EscapeStep(b: string, p: nat, out: string, start: nat)
    requires p < |b| && b[p] == '\\' && Escape(b, p + 1).Ok?
    ensures StringFrom(b, p, out, start) == StringFrom(b, Escape(b, p + 1).next, out + [Escape(b, p + 1).value], start)
  {
    hide LineAt, Escape;
  }

  /** Behind its backslash, a spelling is the escape it means. */
  lemma EscapeIsRead(b: string, p: nat, s: Spelling)
    requires At(b, p, Spelled(s)) && Valid(s) && !s.Raw?
    ensures p < |b| && b[p] == '\\' && Escape(b, p + 1) == Ok(s.c, p + |Spelled(s)|)
  {
    hide LineAt, UnicodeEscape, ShortEscape, UnitSpells, Units, ShortForm, At;
    AtFirst(b, p, Spelled(s));
    match s
    case Short(letter, c) =>
      assert Spelled(s) == "\\" + [letter];
      AtSplit(b, p, "\\", [letter]);
      AtFirst(b, p + 1, [letter]);
      ShortIsRead(b, p + 1, letter, c);
    case OneUnit(digits, c) =>
      UnitLength(digits, Units(c)[0]);
      AtSplit(b, p, "\\u", digits);
      BothBytes(b, p);
      OneUnitIsRead(b, p + 2, digits, c);
    case TwoUnits(high, low, c) =>
      UnitLength(high, Units(c)[0]);
      UnitLength(low, Units(c)[1]);
      assert "\\u" + high + "\\u" + low == "\\u" + (high + "\\u" + low);
      AtSplit(b, p, "\\u", high + "\\u" + low);
      BothBytes(b, p);
      TwoUnitsAreRead(b, p + 2, high, low, c);
  }

  lemma SpellingIsRead(b: string, p: nat, s: Spelling, out: string, start: nat)
    requires At(b, p, Spelled(s)) && Valid(s)
    ensures p + |Spelled(s)| <= |b|
    ensures StringFrom(b, p, out, start) == StringFrom(b, p + |Spelled(s)|, out + [s.c], start)
  {
    hide StringFrom, Escape, UnitSpells, Units, ShortForm;
    if s.Raw? {
      AtFirst(b, p, Spelled(s));
      RawStep(b, p, out, start);
    } else {
      EscapeIsRead(b, p, s);
      EscapeStep(b, p, out, start);
    }
  }

  lemma {:induction false} BodyIsRead(b: string, p: nat, ss: seq<Spelling>, out: string, start: nat)
    requires At(b, p, AllSpelled(ss) + "\"") && forall i :: 0 <= i < |ss| ==> Valid(ss[i])
    ensures StringFrom(b, p, out, start) == Ok(out + Meant(ss), p + |AllSpelled(ss)| + 1)
    decreases |ss|
  {
    hide Spelled, Valid, At;
    if |ss| == 0 {
      AtFirst(b, p, "" + "\"");
      assert out + "" == out;
    } else {
      hide StringFrom;
      assert AllSpelled(ss) + "\"" == Spelled(ss[0]) + (AllSpelled(ss[1..]) + "\"");
      AtSplit(b, p, Spelled(ss[0]), AllSpelled(ss[1..]) + "\"");
      SpellingIsRead(b, p, ss[0], out, start);
      BodyIsRead(b, p + |Spelled(ss[0])|, ss[1..], out + [ss[0].c], start);
      assert (out + [ss[0].c]) + Meant(ss[1..]) == out + Meant(ss);
    }
  }

  /** Main result: a string is read as the characters it spells, in whichever way it spells each of them. */
  lemma SpelledStringIsRead(b: string, p: nat, ss: seq<Spelling>)
    requires At(b, p, "\"" + AllSpelled(ss) + "\"") && forall i :: 0 <= i < |ss| ==> Valid(ss[i])
    ensures ParseString(b, p) == Ok(Meant(ss), p + |AllSpelled(ss)| + 2)
  {
    hide StringFrom, AllSpelled, Meant, Valid, LineAt, At;
    assert "\"" + AllSpelled(ss) + "\"" == "\"" + (AllSpelled(ss) + "\"");
    AtSplit(b, p, "\"", AllSpelled(ss) + "\"");
    AtFirst(b, p, "\"");
    BodyIsRead(b, p + 1, ss, "", LineAt(b, p));
    assert "" + Meant(ss) == Meant(ss);
  }

  // --- Nothing else is read --------------------------------------------------------------------

  lemma HexIsSpelled(c: char)
    requires HexValue(c).Some?
    ensures HexSpells(c, HexValue(c).value)
  {
  }

  lemma OneDigitBack(b: string, p: nat, i: nat, value: nat) returns (d: nat)
    requires p <= |b| && i < 4 && HexFrom(b, p, i, value).Ok?
    ensures p < |b| && HexSpells(b[p], d) && HexFrom(b, p, i, value) == HexFrom(b, p + 1, i + 1, value * 16 + d)
  {
    hide LineAt, HexSpells, HexValue;
    HexIsSpelled(b[p]);
    d := HexValue(b[p]).value;
  }

  lemma DigitsOf(d0: nat, d1: nat, d2: nat, d3: nat)
    requires d0 < 16 && d1 < 16 && d2 < 16 && d3 < 16
    ensures
      var n := ((d0 * 16 + d1) * 16 + d2) * 16 + d3;
      n < 0x1_0000 && n / 0x1000 == d0 && n / 0x100 % 16 == d1 && n / 16 % 16 == d2 && n % 16 == d3
  {
    var n := ((d0 * 16 + d1) * 16 + d2) * 16 + d3;
    assert n / 16 == (d0 * 16 + d1) * 16 + d2;
    assert n / 0x100 == d0 * 16 + d1;
  }

  lemma DigitsAreSpelled(b: string, p: nat)
    requires p <= |b| && HexFrom(b, p, 0, 0).Ok?
    ensures p + 4 <= |b| && UnitSpells(b[p..p + 4], HexFrom(b, p, 0, 0).value) && HexFrom(b, p, 0, 0).next == p + 4
  {
    hide LineAt, HexSpells, HexFrom;
    var d0 := OneDigitBack(b, p, 0, 0);
    var d1 := OneDigitBack(b, p + 1, 1, d0);
    var d2 := OneDigitBack(b, p + 2, 2, d0 * 16 + d1);
    var d3 := OneDigitBack(b, p + 3, 3, (d0 * 16 + d1) * 16 + d2);
    HexDone(b, p + 4, ((d0 * 16 + d1) * 16 + d2) * 16 + d3);
    HexBelow(b[p], d0);
    HexBelow(b[p + 1], d1);
    HexBelow(b[p + 2], d2);
    HexBelow(b[p + 3], d3);
    DigitsOf(d0, d1, d2, d3);
  }

  lemma HexBelow(c: char, d: nat)
    requires HexSpells(c, d)
    ensures d < 16
  {
  }

  lemma PairIsMeant(high: nat, low: nat)
    requires IsHigh(high) && IsLow(low)
    ensures Units(Combined(high, low)) == [high, low]
  {
    var n := Combined(high, low) as nat;
    assert n - 0x1_0000 == (high - 0xD800) * 0x400 + (low - 0xDC00);
    assert (n - 0x1_0000) / 0x400 == high - 0xD800 && (n - 0x1_0000) % 0x400 == low - 0xDC00;
  }

  lemma PairIsSpelled(b: string, p: nat, high: nat) returns (s: Spelling)
    requires p + 4 <= |b| && IsHigh(high) && UnitSpells(b[p..p + 4], high) && LowSurrogate(b, p + 4, high).Ok?
    ensures
      var r := LowSurrogate(b, p + 4, high);
      Valid(s) && s.c == r.value && r.next <= |b| && Spelled(s) == "\\u" + b[p..r.next]
  {
    hide LineAt, UnitSpells, HexFrom, Combined, Units;
    DigitsAreSpelled(b, p + 6);
    var low := HexFrom(b, p + 6, 0, 0).value;
    PairIsMeant(high, low);
    s := TwoUnits(b[p..p + 4], b[p + 6..p + 10], Combined(high, low));
    assert b[p..p + 10] == b[p..p + 4] + "\\u" + b[p + 6..p + 10];
  }

  lemma UnicodeIsSpelled(b: string, p: nat) returns (s: Spelling)
    requires p <= |b| && UnicodeEscape(b, p).Ok?
    ensures
      var r := UnicodeEscape(b, p);
      Valid(s) && s.c == r.value && r.next <= |b| && Spelled(s) == "\\u" + b[p..r.next]
  {
    hide LineAt, UnitSpells, HexFrom, LowSurrogate;
    DigitsAreSpelled(b, p);
    var n := HexFrom(b, p, 0, 0).value;
    if IsHigh(n) {
      s := PairIsSpelled(b, p, n);
    } else {
      UnitLength(b[p..p + 4], n);
      s := OneUnit(b[p..p + 4], n as char);
    }
  }

  /** One character of a string that is read, and where the rest of it starts. */
  lemma CharacterIsSpelled(b: string, p: nat, out: string, start: nat) returns (s: Spelling)
    requires p < |b| && b[p] != '\"' && StringFrom(b, p, out, start).Ok?
    ensures Valid(s) && At(b, p, Spelled(s)) && |Spelled(s)| > 0
    ensures StringFrom(b, p, out, start) == StringFrom(b, p + |Spelled(s)|, out + [s.c], start)
  {
    hide LineAt, Escape, Spelled, Valid, ShortForm;
    if b[p] != '\\' {
      s := RawIsSpelled(b, p);
    } else {
      s := EscapeIsSpelled(b, p + 1);
    }
  }

  lemma RawIsSpelled(b: string, p: nat) returns (s: Spelling)
    requires p < |b| && 0x20 as char <= b[p] < 0x80 as char && b[p] != '\"' && b[p] != '\\'
    ensures Valid(s) && At(b, p, Spelled(s)) && |Spelled(s)| == 1 && s.c == b[p]
  {
    s := Raw(b[p]);
  }

  lemma EscapeIsSpelled(b: string, p: nat) returns (s: Spelling)
    requires 0 < p <= |b| && b[p - 1] == '\\' && Escape(b, p).Ok?
    ensures Valid(s) && At(b, p - 1, Spelled(s)) && |Spelled(s)| == Escape(b, p).next - (p - 1) && s.c == Escape(b, p).value
  {
    hide LineAt, UnicodeEscape, UnitSpells, Units;
    if b[p] == 'u' {
      s := UnicodeIsSpelled(b, p + 1);
      var next := UnicodeEscape(b, p + 1).next;
      assert b[p - 1..next] == "\\u" + b[p + 1..next];
    } else {
      s := Short(b[p], ShortEscape(b[p]).value);
      assert b[p - 1..p + 1] == ['\\', b[p]];
    }
  }

  lemma {:induction false} BodyIsSpelled(b: string, p: nat, out: string, start: nat) returns (ss: seq<Spelling>)
    requires p <= |b| && StringFrom(b, p, out, start).Ok?
    ensures forall i :: 0 <= i < |ss| ==> Valid(ss[i])
    ensures At(b, p, AllSpelled(ss) + "\"") && StringFrom(b, p, out, start).next == p + |AllSpelled(ss)| + 1
    ensures StringFrom(b, p, out, start).value == out + Meant(ss)
    decreases |b| - p
  {
    hide Spelled, Valid;
    if b[p] == '\"' {
      ss := [];
      assert out + "" == out && b[p..p + 1] == "\"";
    } else {
      var s := CharacterIsSpelled(b, p, out, start);
      hide StringFrom;
      var rest := BodyIsSpelled(b, p + |Spelled(s)|, out + [s.c], start);
      ss := [s] + rest;
      FirstSpelling(s, rest);
      AtJoined(b, p, Spelled(s), AllSpelled(rest) + "\"");
      assert (out + [s.c]) + Meant(rest) == out + Meant(ss);
      assert AllSpelled(ss) + "\"" == Spelled(s) + (AllSpelled(rest) + "\"");
    }
  }

  lemma FirstSpelling(s: Spelling, rest: seq<Spelling>)
    ensures AllSpelled([s] + rest) == Spelled(s) + AllSpelled(rest) && Meant([s] + rest) == [s.c] + Meant(rest)
  {
    hide Spelled;
    assert ([s] + rest)[1..] == rest;
  }

  lemma AtJoined(b: string, p: nat, s: string, t: string)
    requires At(b, p, s) && At(b, p + |s|, t)
    ensures At(b, p, s + t)
  {
    assert b[p..p + |s + t|] == b[p..p + |s|] + b[p + |s|..p + |s| + |t|];
  }

  /** Main result: whatever is read as a string is spelled like that, so nothing else is. */
  lemma ReadStringIsSpelled(b: string, p: nat) returns (ss: seq<Spelling>)
    requires p <= |b| && ParseString(b, p).Ok?
    ensures forall i :: 0 <= i < |ss| ==> Valid(ss[i])
    ensures At(b, p, "\"" + AllSpelled(ss) + "\"") && ParseString(b, p) == Ok(Meant(ss), p + |AllSpelled(ss)| + 2)
  {
    hide StringFrom, AllSpelled, Meant, Valid, LineAt;
    ss := BodyIsSpelled(b, p + 1, "", LineAt(b, p));
    assert b[p..p + 1] == "\"";
    AtJoined(b, p, "\"", AllSpelled(ss) + "\"");
    assert "\"" + AllSpelled(ss) + "\"" == "\"" + (AllSpelled(ss) + "\"");
    assert "" + Meant(ss) == Meant(ss);
  }

  // --- Numerals --------------------------------------------------------------------------------

  /** A numeral: a minus sign, digits, a point with digits behind it, an exponent with a sign. */
  datatype Numeral = Numeral(minus: bool, whole: string, fraction: Option<string>, exponent: Option<Scale>)

  datatype Scale = Scale(e: char, sign: string, digits: string)

  predicate IsNumeral(n: Numeral)
  {
    && AllDigits(n.whole) && |n.whole| > 0
    && (n.fraction.Some? ==> AllDigits(n.fraction.value))
    && (n.exponent.Some? ==>
          && n.exponent.value.e in "eE" && n.exponent.value.sign in ["", "+", "-"]
          && AllDigits(n.exponent.value.digits) && |n.exponent.value.digits| > 0)
  }

  function UnsignedText(n: Numeral): string
  {
    n.whole
    + ((if n.fraction.Some? then "." + n.fraction.value else "")
       + (if n.exponent.Some? then ScaleText(n.exponent.value) else ""))
  }

  function ScaleText(x: Scale): string { [x.e] + x.sign + x.digits }

  function NumeralText(n: Numeral): string { if n.minus then "-" + UnsignedText(n) else UnsignedText(n) }

  /** The power of ten, positive or negative. */
  function TenTo(k: int): real { if k >= 0 then Pow10(k) as real else 1.0 / Pow10(-k) as real }

  /** A whole number becomes the nearest `f64`. */
  function NearestReal(x: real): real
    requires x >= 0.0
  {
    if x == x.Floor as real then Floats.Rounded(x.Floor) as real else x
  }

  function FractionDigits(n: Numeral): string { if n.fraction.Some? then n.fraction.value else "" }

  function Power(n: Numeral): int
    requires IsNumeral(n)
  {
    if n.exponent.None? then 0
    else
      var e: int := ValueOf(n.exponent.value.digits);
      if n.exponent.value.sign == "-" then -e else e
  }

  /** All its digits, times the power of ten of its exponent less the digits behind the point. */
  function Magnitude(n: Numeral): (x: real)
    requires IsNumeral(n)
    ensures x >= 0.0
  {
    ValueOf(n.whole + FractionDigits(n)) as real * TenTo(Power(n) - |FractionDigits(n)|)
  }

  function Value(n: Numeral): real
    requires IsNumeral(n)
  {
    if n.minus then 0.0 - NearestReal(Magnitude(n)) else NearestReal(Magnitude(n))
  }

  lemma WholeReal(n: nat)
    ensures NearestReal(n as real) == Nearest(n)
  {
    hide Floats.Rounded;
    assert (n as real).Floor == n;
  }

  lemma ScaledMeans(digits: nat, k: int)
    ensures digits as real * TenTo(k) >= 0.0 && Scaled(digits, k) == NearestReal(digits as real * TenTo(k))
  {
    hide Nearest, NearestReal, Pow10, Scaled, TenTo;
    if k >= 0 {
      ScaledUp(digits, k);
      WholeReal(digits * Pow10(k));
    } else {
      ScaledDown(digits, k);
      QuotientMeans(digits, Pow10(-k));
    }
  }

  lemma ScaledUp(digits: nat, k: int)
    requires k >= 0
    ensures Scaled(digits, k) == Nearest(digits * Pow10(k)) && digits as real * TenTo(k) == (digits * Pow10(k)) as real
  {
    hide Nearest, Pow10;
    RealProduct(digits, Pow10(k));
  }

  lemma ScaledDown(digits: nat, k: int)
    requires k < 0
    ensures TenTo(k) == 1.0 / Pow10(-k) as real
    ensures
      Scaled(digits, k) ==
        if digits % Pow10(-k) == 0 then Nearest(digits / Pow10(-k)) else digits as real / Pow10(-k) as real
  {
    hide Nearest, Pow10;
  }

  lemma RealProduct(a: nat, b: nat)
    ensures a as real * b as real == (a * b) as real
  {
  }

  lemma QuotientMeans(n: nat, d: nat)
    requires d >= 1
    ensures
      var x := n as real * (1.0 / d as real);
      x >= 0.0 && NearestReal(x) == if n % d == 0 then Nearest(n / d) else n as real / d as real
  {
    hide Nearest;
    var x := n as real * (1.0 / d as real);
    assert x == n as real / d as real;
    if n % d == 0 {
      ExactQuotient(n, d);
      WholeReal(n / d);
    } else {
      FractionIsNotWhole(n, d);
    }
  }

  lemma ExactQuotient(n: nat, d: nat)
    requires d >= 1 && n % d == 0
    ensures n as real / d as real == (n / d) as real
  {
    var q := n / d;
    assert n == q * d;
    assert n as real == q as real * d as real;
  }

  lemma {:induction false} DigitsStopAt(t: string, i: nat, j: nat)
    requires i <= j <= |t| && AllDigits(t[i..j]) && (j == |t| || !IsDigit(t[j]))
    ensures DigitsEnd(t, i) == j
    decreases j - i
  {
    if i < j {
      assert t[i] == t[i..j][0] && t[i + 1..j] == t[i..j][1..];
      DigitsStopAt(t, i + 1, j);
    }
  }

  lemma ScaleIsRead(x: Scale)
    requires x.e in "eE" && x.sign in ["", "+", "-"] && AllDigits(x.digits) && |x.digits| > 0
    ensures Exponent(ScaleText(x)) == Some(var e: int := ValueOf(x.digits); if x.sign == "-" then -e else e)
  {
    hide ValueOf;
    var t := ScaleText(x);
    assert t[0] == x.e && (x.e == 'e' || x.e == 'E');
    if x.sign == "" {
      assert t == [x.e] + x.digits && t[1] == x.digits[0] && t[1..] == x.digits;
      assert IsDigit(t[1]);
    } else {
      assert x.sign == "+" || x.sign == "-";
      assert t[1] == x.sign[0] && t[2..] == x.digits;
    }
  }

  /** The tail of a numeral behind its point: the exponent's text, if any. */
  function TailText(n: Numeral): string { if n.exponent.Some? then ScaleText(n.exponent.value) else "" }

  lemma TailIsRead(n: Numeral)
    requires IsNumeral(n)
    ensures Exponent(TailText(n)) == Some(Power(n)) && (|TailText(n)| > 0 ==> TailText(n)[0] == 'e' || TailText(n)[0] == 'E')
  {
    hide ValueOf;
    if n.exponent.Some? { ScaleIsRead(n.exponent.value); }
  }

  /** A numeral taken apart at the end of its digits and at the end of its fraction. */
  lemma UnsignedParts(t: string, i: nat, j: nat, whole: string, f: string, e: int)
    requires DigitsEnd(t, 0) == i <= j <= |t| && t[0..i] == whole && |whole| > 0 && AllDigits(whole) && AllDigits(f)
    requires j == if i < |t| && t[i] == '.' then DigitsEnd(t, i + 1) else i
    requires f == if j == i then "" else t[i + 1..j]
    requires Exponent(t[j..]) == Some(e)
    ensures Unsigned(t) == Some(Scaled(ValueOf(whole + f), e - |f|))
  {
    hide Exponent, Scaled, ValueOf, DigitsEnd, AllDigits, IsDigit;
  }

  /** Digits, a point with more of them, an exponent. */
  lemma WithPoint(t: string, whole: string, f: string, tail: string, e: int)
    requires AllDigits(whole) && |whole| > 0 && AllDigits(f) && Exponent(tail) == Some(e)
    requires |tail| > 0 ==> tail[0] == 'e' || tail[0] == 'E'
    requires |t| == |whole| + 1 + |f| + |tail| && t[0..|whole|] == whole && t[|whole|] == '.'
    requires t[|whole| + 1..|whole| + 1 + |f|] == f && t[|whole| + 1 + |f|..] == tail
    requires |tail| > 0 ==> t[|whole| + 1 + |f|] == tail[0]
    ensures Unsigned(t) == Some(Scaled(ValueOf(whole + f), e - |f|))
  {
    hide Exponent, Scaled, ValueOf, DigitsEnd, Unsigned;
    DigitsStopAt(t, 0, |whole|);
    DigitsStopAt(t, |whole| + 1, |whole| + 1 + |f|);
    UnsignedParts(t, |whole|, |whole| + 1 + |f|, whole, f, e);
  }

  lemma PointParts(whole: string, f: string, tail: string)
    ensures
      var t, i, j := whole + "." + f + tail, |whole|, |whole| + 1 + |f|;
      && t[0..i] == whole && t[i] == '.' && t[i + 1..j] == f && t[j..] == tail && |t| == j + |tail|
      && (|tail| > 0 ==> t[j] == tail[0])
  {
  }

  lemma WithoutPoint(t: string, whole: string, tail: string, e: int)
    requires AllDigits(whole) && |whole| > 0 && Exponent(tail) == Some(e) && t == whole + tail
    requires |tail| > 0 ==> tail[0] == 'e' || tail[0] == 'E'
    ensures Unsigned(t) == Some(Scaled(ValueOf(whole + ""), e))
  {
    hide Exponent, Scaled, ValueOf, DigitsEnd, Unsigned;
    assert t[0..|whole|] == whole && t[|whole|..] == tail;
    assert |whole| < |t| ==> t[|whole|] == tail[0];
    DigitsStopAt(t, 0, |whole|);
    UnsignedParts(t, |whole|, |whole|, whole, "", e);
  }

  lemma PointText(n: Numeral)
    requires n.fraction.Some?
    ensures UnsignedText(n) == n.whole + "." + n.fraction.value + TailText(n)
  {
    hide ScaleText;
  }

  lemma PointlessText(n: Numeral)
    requires n.fraction.None?
    ensures UnsignedText(n) == n.whole + TailText(n)
  {
    hide ScaleText;
  }

  lemma UnsignedIsScaled(n: Numeral)
    requires IsNumeral(n)
    ensures Unsigned(UnsignedText(n)) == Some(Scaled(ValueOf(n.whole + FractionDigits(n)), Power(n) - |FractionDigits(n)|))
  {
    hide Unsigned, Exponent, Scaled, ValueOf, Power, UnsignedText, TailText;
    TailIsRead(n);
    if n.fraction.Some? {
      PointText(n);
      PointParts(n.whole, n.fraction.value, TailText(n));
      WithPoint(UnsignedText(n), n.whole, n.fraction.value, TailText(n), Power(n));
      assert FractionDigits(n) == n.fraction.value;
    } else {
      PointlessText(n);
      WithoutPoint(UnsignedText(n), n.whole, TailText(n), Power(n));
      assert FractionDigits(n) == "";
    }
  }

  lemma UnsignedIsRead(n: Numeral)
    requires IsNumeral(n)
    ensures Unsigned(UnsignedText(n)) == Some(NearestReal(Magnitude(n)))
  {
    hide Unsigned, Scaled, ValueOf, TenTo, Power, NearestReal, UnsignedText;
    var digits, k := ValueOf(n.whole + FractionDigits(n)), Power(n) - |FractionDigits(n)|;
    UnsignedIsScaled(n);
    ScaledMeans(digits, k);
    assert Magnitude(n) == digits as real * TenTo(k);
    assert Scaled(digits, k) == NearestReal(Magnitude(n));
    assert Unsigned(UnsignedText(n)) == Some(Scaled(digits, k));
  }

  /** Main result: a numeral is read as its digits times its power of ten, rounded to an `f64` when it is whole. */
  lemma NumeralIsRead(n: Numeral)
    requires IsNumeral(n)
    ensures ParseFloat(NumeralText(n)) == Some(Value(n))
  {
    hide Unsigned, NearestReal, Magnitude;
    var t := NumeralText(n);
    UnsignedIsRead(n);
    if n.minus {
      assert t[1..] == UnsignedText(n);
    } else {
      assert t[0] == n.whole[0] && IsDigit(n.whole[0]);
    }
  }

  lemma NumeralBytes(n: Numeral)
    requires IsNumeral(n)
    ensures forall i :: 0 <= i < |NumeralText(n)| ==> IsNumberByte(NumeralText(n)[i])
    ensures |NumeralText(n)| > 0 && (NumeralText(n)[0] == '-' || IsDigit(NumeralText(n)[0]))
    ensures NumeralText(n)[0] == '-' ==> |NumeralText(n)| > 1
  {
    var tail := TailText(n);
    assert forall i :: 0 <= i < |tail| ==> IsNumberByte(tail[i]) by { if n.exponent.Some? { ScaleBytes(n.exponent.value); } }
    assert forall i :: 0 <= i < |n.whole| ==> IsDigit(n.whole[i]);
  }

  lemma ScaleBytes(x: Scale)
    requires x.e in "eE" && x.sign in ["", "+", "-"] && AllDigits(x.digits)
    ensures forall i :: 0 <= i < |ScaleText(x)| ==> IsNumberByte(ScaleText(x)[i])
  {
  }

  /** The same in the bytes of a document, in front of anything that does not go on as a number. */
  lemma NumeralInDocument(b: string, p: nat, n: Numeral)
    requires IsNumeral(n) && At(b, p, NumeralText(n))
    requires p + |NumeralText(n)| == |b| || !IsNumberByte(b[p + |NumeralText(n)|])
    ensures ParseBare(b, p) == Ok(Num(Value(n)), p + |NumeralText(n)|)
  {
    hide LineAt, ParseFloat, ParseString, ParseObject, ParseArray, NumberStop, IsNumberByte, NumeralText, At, Word, Value;
    NumeralBytes(n);
    AtFirst(b, p, NumeralText(n));
    NumberStopsAt(b, p, NumeralText(n));
    NumeralIsRead(n);
  }

  /** White space is the four bytes of the standard. */
  lemma WhiteSpaceIs(c: char)
    ensures IsSpace(c) <==> c == 0x20 as char || c == 0x09 as char || c == 0x0A as char || c == 0x0D as char
  {
  }
}
