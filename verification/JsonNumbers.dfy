/**
 The numbers a document can hold (crates/whirl-core/src/config.rs:2198-2214): whatever its text, a whole
 number in it has been rounded to an `f64`.
 */
module JsonNumbers {
  import opened Basics
  import opened JsonTree
  import opened JsonSpec
  import Floats

  /** If the number is a whole one, it is its own nearest `f64`. */
  predicate Settled(x: real) { x >= 0.0 && x == x.Floor as real ==> Floats.Exact(x.Floor) }

  /** Every number of the tree is. */
  predicate AllSettled(v: Value)
    decreases v
  {
    match v
    case Num(x) => Settled(x)
    case Arr(es) => forall i :: 0 <= i < |es| ==> AllSettled(es[i].value)
    case Obj(fs) => forall i :: 0 <= i < |fs| ==> AllSettled(fs[i].1.value)
    case _ => true
  }

  predicate SettledElements(es: seq<Node>) { forall i :: 0 <= i < |es| ==> AllSettled(es[i].value) }

  predicate SettledEntries(fs: seq<(string, Node)>) { forall i :: 0 <= i < |fs| ==> AllSettled(fs[i].1.value) }

  // --- One number ----------------------------------------------------------------------

  lemma NearestIsSettled(n: nat)
    ensures Settled(Nearest(n)) && Settled(0.0 - Nearest(n))
  {
    hide Floats.Rounded, Floats.Exact;
    Floats.RoundedIsExact(n);
    Floats.RoundedIsExact(0);
    Floats.SmallIsExact(0);
  }

  /** A fraction in lowest terms or not: it is whole only if the denominator divides. */
  lemma FractionIsNotWhole(n: nat, d: nat)
    requires d >= 1 && n % d != 0
    ensures var x := n as real / d as real; x != x.Floor as real && 0.0 - x != (0.0 - x).Floor as real
  {
    var x := n as real / d as real;
    assert x * d as real == n as real;
    if x == x.Floor as real { WholeQuotient(n, d, x.Floor); }
    if 0.0 - x == (0.0 - x).Floor as real { WholeQuotient(n, d, -(0.0 - x).Floor); }
  }

  lemma WholeQuotient(n: nat, d: nat, q: int)
    requires d >= 1 && q as real * d as real == n as real
    ensures n % d == 0
  {
    assert q * d == n;
    NegativeProduct(q, d);
    Floats.DivideMultiple(q, d);
  }

  lemma NegativeProduct(q: int, d: nat)
    requires d >= 1
    ensures q < 0 ==> q * d < 0
  {
    if q < 0 {
      Floats.ProductBound(1, -q, d);
      assert q * d == -(-q * d);
    }
  }

  lemma ScaledIsSettled(digits: nat, shift: int)
    ensures Settled(Scaled(digits, shift)) && Settled(0.0 - Scaled(digits, shift))
  {
    hide Nearest, Pow10, Floats.Exact;
    if shift >= 0 {
      NearestIsSettled(digits * Pow10(shift));
    } else if digits % Pow10(-shift) == 0 {
      NearestIsSettled(digits / Pow10(-shift));
    } else {
      FractionIsNotWhole(digits, Pow10(-shift));
    }
  }

  lemma FloatIsSettled(t: string)
    requires ParseFloat(t).Some?
    ensures Settled(ParseFloat(t).value)
  {
    hide Unsigned, Settled;
    if Unsigned(t).Some? { UnsignedIsSettled(t); }
    if |t| > 0 && Unsigned(t[1..]).Some? { UnsignedIsSettled(t[1..]); }
  }

  lemma UnsignedIsSettled(t: string)
    requires Unsigned(t).Some?
    ensures Settled(Unsigned(t).value) && Settled(0.0 - Unsigned(t).value)
  {
    hide Scaled, ValueOf, Exponent, Settled;
    var i := DigitsEnd(t, 0);
    var j := if i < |t| && t[i] == '.' then DigitsEnd(t, i + 1) else i;
    var fraction := if j == i then "" else t[i + 1..j];
    ScaledIsSettled(ValueOf(t[0..i] + fraction), Exponent(t[j..]).value - |fraction|);
  }

  // --- Whole documents --------------------------------------------------------------------

  lemma ScalarIsSettled(b: string, p: nat)
    requires p < |b| && ParseScalar(b, p).Ok?
    ensures AllSettled(ParseScalar(b, p).value)
  {
    hide ParseString, ParseFloat, Settled, LineAt, NumberStop;
    if b[p] == '-' || IsDigit(b[p]) {
      FloatIsSettled(b[p..NumberStop(b, p)]);
    }
  }

  lemma {:induction false} ValueIsSettled(b: string, p: nat)
    requires p <= |b| && ParseValue(b, p).Ok?
    ensures AllSettled(ParseValue(b, p).value.value)
    decreases |b| - p, 2
  {
    hide ParseBare, AllSettled, LineAt;
    BareIsSettled(b, SkipSpace(b, p));
  }

  lemma {:induction false} BareIsSettled(b: string, p: nat)
    requires p <= |b| && ParseBare(b, p).Ok?
    ensures AllSettled(ParseBare(b, p).value)
    decreases |b| - p, 1
  {
    hide ParseScalar, ParseObject, ParseArray, AllSettled, LineAt;
    if b[p] == '{' {
      ObjectIsSettled(b, p);
    } else if b[p] == '[' {
      ArrayIsSettled(b, p);
    } else {
      ScalarIsSettled(b, p);
    }
  }

  lemma {:induction false} ObjectIsSettled(b: string, p: nat)
    requires p < |b| && b[p] == '{' && ParseObject(b, p).Ok?
    ensures AllSettled(ParseObject(b, p).value)
    decreases |b| - p, 0
  {
    hide ParseEntries, Settled, LineAt;
    var q := SkipSpace(b, p + 1);
    if !(q < |b| && b[q] == '}') { EntriesAreSettled(b, q, []); }
  }

  lemma {:induction false} ArrayIsSettled(b: string, p: nat)
    requires p < |b| && b[p] == '[' && ParseArray(b, p).Ok?
    ensures AllSettled(ParseArray(b, p).value)
    decreases |b| - p, 0
  {
    hide ParseElements, Settled, LineAt;
    var q := SkipSpace(b, p + 1);
    if !(q < |b| && b[q] == ']') { ElementsAreSettled(b, q, []); }
  }

  lemma OneMoreElement(es: seq<Node>, e: Node)
    requires SettledElements(es) && AllSettled(e.value)
    ensures SettledElements(es + [e])
  {
  }

  lemma OneMoreEntry(fs: seq<(string, Node)>, key: string, v: Node)
    requires SettledEntries(fs) && AllSettled(v.value)
    ensures SettledEntries(fs + [(key, v)])
  {
  }

  lemma {:induction false} ElementsAreSettled(b: string, p: nat, es: seq<Node>)
    requires p <= |b| && SettledElements(es) && ParseElements(b, p, es).Ok?
    ensures SettledElements(ParseElements(b, p, es).value)
    decreases |b| - p, 3
  {
    hide ParseBare, ParseValue, LineAt, AllSettled, SettledElements, SkipSpace;
    ValueIsSettled(b, p);
    var r := ParseValue(b, p);
    OneMoreElement(es, r.value);
    var q := SkipSpace(b, r.next);
    if b[q] == ',' {
      ElementsAreSettled(b, SkipSpace(b, q + 1), es + [r.value]);
    }
  }

  lemma {:induction false} EntriesAreSettled(b: string, p: nat, fs: seq<(string, Node)>)
    requires p <= |b| && SettledEntries(fs) && ParseEntries(b, p, fs).Ok?
    ensures SettledEntries(ParseEntries(b, p, fs).value)
    decreases |b| - p, 3
  {
    hide ParseBare, ParseValue, ParseKey, LineAt, AllSettled, Named, SettledEntries, SkipSpace;
    var k := ParseKey(b, p);
    ValueIsSettled(b, k.next);
    var r := ParseValue(b, k.next);
    OneMoreEntry(fs, k.value, r.value);
    var q := SkipSpace(b, r.next);
    if b[q] == ',' {
      EntriesAreSettled(b, SkipSpace(b, q + 1), fs + [(k.value, r.value)]);
    }
  }

  /** Main result: whatever document was accepted, its whole numbers are `f64`s already. */
  lemma AcceptedNumbersAreSettled(text: string)
    requires Parse(text).Ok?
    ensures AllSettled(Parse(text).value.value)
  {
    hide ParseValue;
    ValueIsSettled(Utf8(text), SkipSpace(Utf8(text), 0));
  }

  lemma {:induction false} BareKeepsNumbers(v: Value)
    requires AllSettled(v)
    ensures AllSettled(BareValue(v))
    decreases v
  {
    match v
    case Arr(es) =>
      forall i | 0 <= i < |es| ensures AllSettled(Bare(es[i]).value) { BareKeepsNumbers(es[i].value); }
    case Obj(fs) =>
      forall i | 0 <= i < |fs| ensures AllSettled(Bare(fs[i].1).value) { BareKeepsNumbers(fs[i].1.value); }
    case _ =>
  }
}
