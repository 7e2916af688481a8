/**
 The pieces of Rust's `str` the line protocol is written with. A text is its bytes, one character
 each; every delimiter is ASCII, so cutting bytes and cutting characters agree.
 */
module Texts {
  import opened Basics

  predicate EndsWith(s: string, c: char) { |s| > 0 && s[|s| - 1] == c }

  /** `strip_suffix` of one character. */
  function StripOne(s: string, c: char): string
  {
    if EndsWith(s, c) then s[..|s| - 1] else s
  }

  /** `trim_end_matches` of one character. */
  function TrimEnd(s: string, c: char): (t: string)
    ensures t <= s && !EndsWith(t, c)
    ensures !EndsWith(s, c) ==> t == s
  {
    if EndsWith(s, c) then TrimEnd(s[..|s| - 1], c) else s
  }

  /** `strip_prefix`. */
  function StripPrefix(s: string, p: string): Option<string>
  {
    if p <= s then Some(s[|p|..]) else None
  }

  lemma PrefixStripped(p: string, s: string)
    ensures StripPrefix(p + s, p) == Some(s)
  {
    assert (p + s)[|p|..] == s;
  }

  /** The place of the first `c`, or the length. */
  function Find(s: string, c: char): (k: nat)
    ensures k <= |s| && c !in s[..k] && (k < |s| ==> s[k] == c)
  {
    if |s| == 0 then 0
    else if s[0] == c then 0
    else
      var k := 1 + Find(s[1..], c);
      assert s[..k] == [s[0]] + s[1..][..k - 1];
      k
  }

  /** `split_once`: the text before the first `c` and the text after it. */
  function SplitOnce(s: string, c: char): (r: Option<(string, string)>)
    ensures r.None? <==> c !in s
    ensures r.Some? ==> c !in r.value.0 && s == r.value.0 + [c] + r.value.1
  {
    var k := Find(s, c);
    if k == |s| then
      assert s[..k] == s;
      None
    else
      assert s == s[..k] + [s[k]] + s[k + 1..];
      assert s[k] in s;
      Some((s[..k], s[k + 1..]))
  }

  /** The first delimiter is the one right after a part that has none. */
  lemma {:induction false} FindAfter(a: string, c: char, b: string)
    requires c !in a
    ensures Find(a + [c] + b, c) == |a|
  {
    if |a| > 0 {
      assert (a + [c] + b)[1..] == a[1..] + [c] + b;
      FindAfter(a[1..], c, b);
    }
  }

  lemma SplitOnceOf(a: string, c: char, b: string)
    requires c !in a
    ensures SplitOnce(a + [c] + b, c) == Some((a, b))
  {
    FindAfter(a, c, b);
    var s := a + [c] + b;
    assert s[..|a|] == a && s[|a| + 1..] == b;
  }

  /** `split`: every piece between delimiters; an empty text has one empty piece. */
  function Split(s: string, c: char): (pieces: seq<string>)
    ensures |pieces| >= 1
    ensures c !in s ==> pieces == [s]
    ensures c in s ==> |pieces| >= 2
    decreases |s|
  {
    match SplitOnce(s, c)
    case None => [s]
    case Some((front, back)) => [front] + Split(back, c)
  }

  lemma SplitTwo(a: string, c: char, b: string)
    requires c !in a
    ensures Split(a + [c] + b, c) == [a] + Split(b, c)
  {
    SplitOnceOf(a, c, b);
    assert c in a + [c] + b;
  }

  // --- Unsigned integers ------------------------------------------------------------

  /** `parse` of an unsigned integer type: an optional plus sign, digits, and a value within the type. */
  function ParseUnsigned(s: string, max: nat): Option<nat>
  {
    var digits := if |s| > 0 && s[0] == '+' then s[1..] else s;
    if |digits| == 0 || !AllDigits(digits) || ValueOf(digits) > max then None else Some(ValueOf(digits))
  }

  lemma ParsePrinted(n: nat, max: nat)
    ensures ParseUnsigned(Decimal(n), max) == if n <= max then Some(n) else None
    ensures ' ' !in Decimal(n) && '\r' !in Decimal(n) && '\0' !in Decimal(n) && '\n' !in Decimal(n)
  {
    DecimalValue(n);
    var s := Decimal(n);
    assert IsDigit(s[0]);
    assert forall c :: c in s ==> IsDigit(c);
  }
}
