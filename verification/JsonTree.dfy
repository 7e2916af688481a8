/**
 The JSON tree of crates/whirl-core/src/config.rs (`mod json`), and the text encodings under it.
 */
module JsonTree {
  import opened Basics

  datatype Node = Node(value: Value, line: nat)

  datatype Value =
    | Null
    | Bool(flag: bool)
    | Num(number: real)
    | Str(text: string)
    | Arr(elements: seq<Node>)
    | Obj(entries: seq<(string, Node)>)

  /** The same tree with every line number 0, which is how the printers' callers build theirs. */
  function Bare(n: Node): Node
    decreases n, 1
  {
    Node(BareValue(n.value), 0)
  }

  function BareValue(v: Value): Value
    decreases v, 0
  {
    match v
    case Arr(es) => Arr(seq(|es|, i requires 0 <= i < |es| => Bare(es[i])))
    case Obj(fs) => Obj(seq(|fs|, i requires 0 <= i < |fs| => (fs[i].0, Bare(fs[i].1))))
    case _ => v
  }

  predicate DistinctKeys(fs: seq<(string, Node)>)
  {
    forall i, j :: 0 <= i < j < |fs| ==> fs[i].0 != fs[j].0
  }

  /** No object anywhere in the tree names a key twice. */
  predicate Distinct(v: Value)
    decreases v
  {
    match v
    case Arr(es) => forall i :: 0 <= i < |es| ==> Distinct(es[i].value)
    case Obj(fs) => DistinctKeys(fs) && (forall i :: 0 <= i < |fs| ==> Distinct(fs[i].1.value))
    case _ => true
  }

  lemma {:induction false} BareKeepsKeys(v: Value)
    ensures Distinct(BareValue(v)) <==> Distinct(v)
    decreases v
  {
    match v
    case Arr(es) =>
      forall i | 0 <= i < |es| ensures Distinct(Bare(es[i]).value) <==> Distinct(es[i].value) {
        BareKeepsKeys(es[i].value);
      }
      var bs := BareValue(v).elements;
      assert forall i :: 0 <= i < |es| ==> bs[i] == Bare(es[i]);
    case Obj(fs) =>
      forall i | 0 <= i < |fs| ensures Distinct(Bare(fs[i].1).value) <==> Distinct(fs[i].1.value) {
        BareKeepsKeys(fs[i].1.value);
      }
      var bs := BareValue(v).entries;
      assert forall i :: 0 <= i < |fs| ==> bs[i].0 == fs[i].0 && bs[i].1 == Bare(fs[i].1);
      assert DistinctKeys(bs) <==> DistinctKeys(fs) by {
        if DistinctKeys(bs) {
          forall i, j | 0 <= i < j < |fs| ensures fs[i].0 != fs[j].0 { assert bs[i].0 != bs[j].0; }
        }
      }
    case _ =>
  }

  // --- UTF-8 ---------------------------------------------------------------------

  predicate Ascii(s: string) { forall i :: 0 <= i < |s| ==> s[i] < 0x80 as char }

  /** The UTF-8 bytes of one character, each written as the character of its value (RFC 3629 section 3). */
  function Utf8Char(c: char): (b: string)
    ensures |b| >= 1
    ensures c < 0x80 as char ==> b == [c]
    ensures c >= 0x80 as char ==> b[0] >= 0x80 as char
  {
    var n := c as int;
    if n < 0x80 then [c]
    else if n < 0x800 then [(0xC0 + n / 0x40) as char, (0x80 + n % 0x40) as char]
    else if n < 0x1_0000 then
      [(0xE0 + n / 0x1000) as char, (0x80 + n / 0x40 % 0x40) as char, (0x80 + n % 0x40) as char]
    else
      [(0xF0 + n / 0x4_0000) as char, (0x80 + n / 0x1000 % 0x40) as char, (0x80 + n / 0x40 % 0x40) as char,
       (0x80 + n % 0x40) as char]
  }

  function Utf8(s: string): string
  {
    if |s| == 0 then "" else Utf8Char(s[0]) + Utf8(s[1..])
  }

  /** Text below 0x80 is its own encoding, and no other text encodes to bytes below 0x80. */
  lemma {:induction false} Utf8OfAscii(s: string)
    ensures Ascii(s) ==> Utf8(s) == s
    ensures Ascii(Utf8(s)) ==> Ascii(s)
  {
    if |s| > 0 {
      var head, tail := Utf8Char(s[0]), s[1..];
      Utf8OfAscii(tail);
      var u := Utf8(s);
      assert s == [s[0]] + tail;
      if Ascii(s) {
        assert Ascii(tail);
      }
      if Ascii(u) {
        assert u[0] == head[0];
        forall i | 0 <= i < |Utf8(tail)| ensures Utf8(tail)[i] < 0x80 as char {
          assert u[|head| + i] == Utf8(tail)[i];
        }
      }
    }
  }

  /** A byte of a longer encoding after its first one. */
  predicate Trails(b: char) { 0x80 as char <= b < 0xC0 as char }

  lemma Sixes(n: nat)
    ensures n == 0x40 * (n / 0x40) + n % 0x40 && n / 0x40 == 0x40 * (n / 0x1000) + n / 0x40 % 0x40
    ensures n / 0x1000 == 0x40 * (n / 0x4_0000) + n / 0x1000 % 0x40
  {
  }

  lemma OneByte(c: char)
    ensures c as int < 0x80 ==> Utf8Char(c) == [c]
  {
  }

  lemma TwoBytes(c: char, n: nat)
    requires n == c as int && 0x80 <= n < 0x800
    ensures
      var b := Utf8Char(c);
      |b| == 2 && b[0] as int == 0xC0 + n / 0x40 && b[1] as int == 0x80 + n % 0x40 && 2 <= n / 0x40 < 0x20
  {
  }

  lemma ThreeBytes(c: char, n: nat)
    requires n == c as int && 0x800 <= n < 0x1_0000
    ensures
      var b := Utf8Char(c);
      && |b| == 3 && b[0] as int == 0xE0 + n / 0x1000 && b[1] as int == 0x80 + n / 0x40 % 0x40
      && b[2] as int == 0x80 + n % 0x40 && n / 0x1000 < 0x10
  {
  }

  lemma FourBytes(c: char, n: nat)
    requires n == c as int && 0x1_0000 <= n
    ensures
      var b := Utf8Char(c);
      && |b| == 4 && b[0] as int == 0xF0 + n / 0x4_0000 && b[1] as int == 0x80 + n / 0x1000 % 0x40
      && b[2] as int == 0x80 + n / 0x40 % 0x40 && b[3] as int == 0x80 + n % 0x40 && n / 0x4_0000 < 5
  {
  }

  /** The encoding of a character is the one the standard's table gives for its code. */
  lemma Utf8Is(c: char)
    ensures
      var b, n := Utf8Char(c), c as int;
      && 1 <= |b| <= 4 && (forall i :: 1 <= i < |b| ==> Trails(b[i]))
      && (|b| == 1 <==> n < 0x80) && (|b| <= 2 <==> n < 0x800) && (|b| <= 3 <==> n < 0x1_0000)
      && (|b| == 1 ==> b[0] as int == n)
      && (|b| == 2 ==> 0xC2 <= b[0] as int < 0xE0 && n == 0x40 * (b[0] as int - 0xC0) + (b[1] as int - 0x80))
      && (|b| == 3 ==>
            0xE0 <= b[0] as int < 0xF0
            && n == 0x1000 * (b[0] as int - 0xE0) + 0x40 * (b[1] as int - 0x80) + (b[2] as int - 0x80))
      && (|b| == 4 ==>
            0xF0 <= b[0] as int < 0xF5
            && n == 0x4_0000 * (b[0] as int - 0xF0) + 0x1000 * (b[1] as int - 0x80) + 0x40 * (b[2] as int - 0x80)
                    + (b[3] as int - 0x80))
  {
    var n := c as int;
    Sixes(n);
    hide Utf8Char;
    if n < 0x80 {
      OneByte(c);
    } else if n < 0x800 {
      TwoBytes(c, n);
    } else if n < 0x1_0000 {
      ThreeBytes(c, n);
    } else {
      FourBytes(c, n);
    }
  }
}
