/**
 The box walk of crates/whirl-worker/src/pipeline.rs:1063-1132: the boxes of a byte range, each skipped
 by the size it declares (ISO/IEC 14496-12 section 4.2), over a window that may cut the file off anywhere.
 */
module Boxes {
  import opened Basics
  import opened Octets
  import opened Sniff

  const USIZE_MAX: nat := 0xFFFF_FFFF_FFFF_FFFF

  /** The platform's 64-bit size type; no value of it may be exceeded on the way. */
  type Usize = n: nat | n <= USIZE_MAX

  datatype BoxHeader = BoxHeader(kind: Bytes, payload: nat, end: nat)

  function Be64(b: Bytes, i: nat): (n: nat)
    requires i + 8 <= |b|
    ensures n <= USIZE_MAX
  {
    Be32(b, i) * 0x1_0000_0000 + Be32(b, i + 4)
  }

  /** The eight bytes of a large size, the most significant first. */
  lemma Be64Is(b: Bytes, i: nat)
    requires i + 8 <= |b|
    ensures Be64(b, i) == BigEndian(b[i..i + 8])
  {
    hide Be32, BigEndian;
    Be32Is(b, i);
    Be32Is(b, i + 4);
    BigEndian8(b, i);
  }

  // --- What a box is --------------------------------------------------------------------

  /** The length of the header of the box at a position: the 64-bit size needs eight bytes more. */
  function HeaderLength(b: Bytes, at: nat): nat
    requires at + 8 <= |b|
  {
    if Be32(b, at) == 1 then 16 else 8
  }

  /** The size a box declares: 1 stands for the 64-bit size after the type, 0 for the rest of the range. */
  function DeclaredSize(b: Bytes, at: nat, end: nat): Option<nat>
    requires at + 8 <= end <= |b|
  {
    if Be32(b, at) == 1 then if at + 16 <= |b| then Some(Be64(b, at + 8)) else None
    else if Be32(b, at) == 0 then Some(end - at)
    else Some(Be32(b, at))
  }

  /** A box starts at a position: its header is there, and its declared size covers it and stays in the range. */
  predicate StartsBox(b: Bytes, at: nat, end: nat)
    requires end <= |b|
  {
    && at + 8 <= end
    && DeclaredSize(b, at, end).Some?
    && HeaderLength(b, at) <= DeclaredSize(b, at, end).value <= end - at
  }

  function BoxAt(b: Bytes, at: nat, end: nat): BoxHeader
    requires end <= |b| && StartsBox(b, at, end)
  {
    BoxHeader(b[at + 4..at + 8], at + HeaderLength(b, at), at + DeclaredSize(b, at, end).value)
  }

  /** Where box number i of a list starts: where the one before it ends. */
  function StartOf(bs: seq<BoxHeader>, from: nat, i: nat): nat
    requires i <= |bs|
  {
    if i == 0 then from else bs[i - 1].end
  }

  /** The boxes lie side by side from the start of the range, and no further box follows the last. */
  predicate IsWalk(b: Bytes, from: nat, end: nat, bs: seq<BoxHeader>)
    requires end <= |b|
  {
    && (forall i :: 0 <= i < |bs| ==> IsBoxOf(b, from, end, bs, i))
    && !StartsBox(b, StartOf(bs, from, |bs|), end)
  }

  predicate IsBoxOf(b: Bytes, from: nat, end: nat, bs: seq<BoxHeader>, i: nat)
    requires end <= |b| && i < |bs|
  {
    StartsBox(b, StartOf(bs, from, i), end) && bs[i] == BoxAt(b, StartOf(bs, from, i), end)
  }

  function Boxes(b: Bytes, from: nat, end: nat): seq<BoxHeader>
    requires end <= |b|
    decreases end - from
  {
    if StartsBox(b, from, end) then [BoxAt(b, from, end)] + Boxes(b, BoxAt(b, from, end).end, end) else []
  }

  // --- The walk -------------------------------------------------------------------------

  function Least(a: nat, b: nat): nat { if a < b then a else b }

  /** One turn of the source's loop: the box at a position, or none where the walk ends. */
  method ReadBox(b: Bytes, at: Usize, end: Usize) returns (found: Option<BoxHeader>)
    requires |b| + 16 <= USIZE_MAX && at + 8 <= end <= |b|
    ensures found == if StartsBox(b, at, end) then Some(BoxAt(b, at, end)) else None
  {
    hide Be32, Be64;
    var declared := Be32(b, at);
    var size, header := declared, 8;
    if declared == 1 {
      if at + 16 > |b| {
        return None;
      }
      size, header := Be64(b, at + 8), 16;
    } else if declared == 0 {
      size := end - at;
    }
    if at + size > USIZE_MAX {
      return None;
    }
    var next: Usize := at + size;
    if size < header || next > end {
      return None;
    }
    found := Some(BoxHeader(b[at + 4..at + 8], at + header, next));
  }

  /** The source's walk; every sum in it is a 64-bit value. */
  method Walk(b: Bytes, from: nat, limit: nat) returns (out: seq<BoxHeader>)
    requires |b| + 16 <= USIZE_MAX && from + 8 <= USIZE_MAX
    ensures out == Boxes(b, from, Least(limit, |b|))
  {
    hide Be32, Be64, BoxAt, DeclaredSize;
    var end: Usize := Least(limit, |b|);
    out := [];
    var at: Usize := from;
    while AtMost(at, 8, end)
      invariant at + 8 <= USIZE_MAX
      invariant out + Boxes(b, at, end) == Boxes(b, from, end)
      decreases |b| + 8 - at
    {
      var found := ReadBox(b, at, end);
      if found.None? {
        assert out + [] == out;
        break;
      }
      BoxIsInside(b, at, end);
      ghost var rest := Boxes(b, found.value.end, end);
      assert out + ([found.value] + rest) == out + [found.value] + rest;
      out := out + [found.value];
      at := found.value.end;
    }
  }

  /** `at + width <= end`, where the sum does not overflow. */
  predicate AtMost(at: Usize, width: nat, end: nat)
    requires at + width <= USIZE_MAX
  {
    var sum: Usize := at + width;
    sum <= end
  }

  // --- Tiling ---------------------------------------------------------------------------

  lemma {:induction false} WalkIsAWalk(b: Bytes, from: nat, end: nat)
    requires end <= |b|
    ensures IsWalk(b, from, end, Boxes(b, from, end))
    decreases end - from
  {
    hide Be32, Be64, StartsBox;
    var bs := Boxes(b, from, end);
    if StartsBox(b, from, end) {
      BoxIsInside(b, from, end);
      var found := BoxAt(b, from, end);
      var rest := Boxes(b, found.end, end);
      WalkIsAWalk(b, found.end, end);
      assert forall i :: 1 <= i <= |bs| ==> StartOf(bs, from, i) == StartOf(rest, found.end, i - 1);
      forall i | 0 <= i < |bs| ensures IsBoxOf(b, from, end, bs, i) {
        if i > 0 { assert IsBoxOf(b, found.end, end, rest, i - 1); }
      }
    }
  }

  lemma BoxIsInside(b: Bytes, at: nat, end: nat)
    requires end <= |b| && StartsBox(b, at, end)
    ensures
      var box := BoxAt(b, at, end);
      at + 8 <= box.payload <= box.end <= end && box.kind == b[at + 4..at + 8]
  {
    hide Be32, Be64;
  }

  /** There is only one walk over a range. */
  lemma {:induction false} WalkIsUnique(b: Bytes, from: nat, end: nat, bs: seq<BoxHeader>)
    requires end <= |b| && IsWalk(b, from, end, bs)
    ensures bs == Boxes(b, from, end)
    decreases |bs|
  {
    hide Be32, Be64, StartsBox;
    if |bs| > 0 {
      assert IsBoxOf(b, from, end, bs, 0);
      var rest := bs[1..];
      assert forall i :: 0 <= i <= |rest| ==> StartOf(rest, bs[0].end, i) == StartOf(bs, from, i + 1);
      forall i | 0 <= i < |rest| ensures IsBoxOf(b, bs[0].end, end, rest, i) {
        assert IsBoxOf(b, from, end, bs, i + 1);
      }
      WalkIsUnique(b, bs[0].end, end, rest);
      assert bs == [bs[0]] + rest;
    }
  }

  /** Main result: the boxes tile the range from its start, each no shorter than its header and inside the range. */
  lemma BoxesTile(b: Bytes, from: nat, end: nat, i: nat)
    requires end <= |b| && i < |Boxes(b, from, end)|
    ensures
      var bs := Boxes(b, from, end);
      var start := StartOf(bs, from, i);
      && from <= start && start + 8 <= bs[i].payload <= bs[i].end <= end
      && bs[i].kind == b[start + 4..start + 8]
      && (i + 1 < |bs| ==> StartOf(bs, from, i + 1) == bs[i].end)
    decreases i
  {
    hide Be32, Be64, StartsBox, Boxes;
    var bs := Boxes(b, from, end);
    WalkIsAWalk(b, from, end);
    assert IsBoxOf(b, from, end, bs, i);
    BoxIsInside(b, StartOf(bs, from, i), end);
    if i > 0 { BoxesTile(b, from, end, i - 1); }
  }

  // --- A longer window ------------------------------------------------------------------

  /** Does a box of the walk run to the end of its range, whatever that is? */
  predicate HasOpenBox(b: Bytes, from: nat, end: nat)
    requires end <= |b|
    decreases end - from
  {
    StartsBox(b, from, end) && (Be32(b, from) == 0 || HasOpenBox(b, BoxAt(b, from, end).end, end))
  }

  lemma Be32Same(b: Bytes, m: nat, at: nat)
    requires at + 4 <= m <= |b|
    ensures Be32(b[..m], at) == Be32(b, at)
  {
    assert forall i :: at <= i < at + 4 ==> b[..m][i] == b[i];
  }

  lemma StartExtends(b: Bytes, m: nat, at: nat, end: nat, wider: nat)
    requires end <= m <= |b| && end <= wider <= |b|
    requires StartsBox(b[..m], at, end) && Be32(b[..m], at) != 0
    ensures StartsBox(b, at, wider) && BoxAt(b, at, wider) == BoxAt(b[..m], at, end)
  {
    hide Be32;
    Be32Same(b, m, at);
    if Be32(b, at) == 1 {
      Be32Same(b, m, at + 8);
      Be32Same(b, m, at + 12);
    }
    assert b[..m][at + 4..at + 8] == b[at + 4..at + 8];
  }

  /** Main result: with no box of size 0 in it, a window's list of boxes is how a longer window's list begins. */
  lemma {:induction false} LongerWindowExtends(b: Bytes, m: nat, from: nat, end: nat, wider: nat)
    requires end <= m <= |b| && end <= wider <= |b|
    requires !HasOpenBox(b[..m], from, end)
    ensures Boxes(b[..m], from, end) <= Boxes(b, from, wider)
    decreases end - from
  {
    hide Be32, Be64, StartsBox, BoxAt;
    var p := b[..m];
    if StartsBox(p, from, end) {
      StartExtends(b, m, from, end, wider);
      BoxIsInside(p, from, end);
      var next := BoxAt(p, from, end).end;
      LongerWindowExtends(b, m, next, end, wider);
    }
  }

  /** A box of size 0 is the last of its list, and the only one a longer window can change. */
  lemma {:induction false} OpenBoxIsLast(b: Bytes, from: nat, end: nat)
    requires end <= |b| && HasOpenBox(b, from, end)
    ensures
      var bs := Boxes(b, from, end);
      && |bs| > 0 && bs[|bs| - 1].end == end
      && StartOf(bs, from, |bs| - 1) + 8 <= end && Be32(b, StartOf(bs, from, |bs| - 1)) == 0
    decreases end - from
  {
    hide Be64, Be32, StartsBox, BoxAt;
    BoxIsInside(b, from, end);
    var bs, next := Boxes(b, from, end), BoxAt(b, from, end).end;
    var rest := Boxes(b, next, end);
    assert bs == [BoxAt(b, from, end)] + rest;
    if Be32(b, from) != 0 {
      OpenBoxIsLast(b, next, end);
      assert StartOf(bs, from, |bs| - 1) == StartOf(rest, next, |rest| - 1);
    } else {
      OpenBoxEnds(b, from, end);
      assert rest == [];
    }
  }

  lemma OpenBoxEnds(b: Bytes, from: nat, end: nat)
    requires end <= |b| && StartsBox(b, from, end) && Be32(b, from) == 0
    ensures BoxAt(b, from, end).end == end && !StartsBox(b, end, end)
  {
    hide Be32;
  }
}
