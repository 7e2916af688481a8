/**
 The head of a HEIC stream (crates/whirl-worker/src/pipeline.rs:852-880, 1433-1444): its size may stand behind the small
 window, so the head widens, and what it is measured as can depend on where the reads end.
 */
module HeicReads {
  import opened Basics
  import opened Octets
  import opened Sniff
  import opened Heads
  import opened PictureSizes
  import opened Store

  /** What a HEIC is found to be by its tables. */
  function ByTables(b: Bytes, size: HeicSize): Verdict
  {
    if size(b).Some? then Measured(size(b).value) else NotAnImage
  }

  /** The first 65536 bytes. */
  function Widest(s: Bytes): Bytes { if |s| <= 0x1_0000 then s else s[..0x1_0000] }

  /** The first 1024 bytes, if the stream is longer and they already hold the size, or the first 65536. */
  function Enough(s: Bytes, size: HeicSize): Bytes
  {
    if |s| >= 1024 && size(s[..1024]).Some? then s[..1024] else Widest(s)
  }

  /** The tables say, over every part of the first 65536 bytes that they can be read from, what they say over all of them. */
  predicate Settled(s: Bytes, size: HeicSize)
  {
    || (|s| >= 1024 && size(s[..1024]).Some?)
    || forall m :: 1024 < m < |Widest(s)| && size(s[..m]).Some? ==> size(s[..m]) == size(Widest(s))
  }

  lemma PrefixIsHeic(s: Bytes, m: nat)
    requires HeicOf(s) && 16 <= m <= |s|
    ensures HeicOf(s[..m])
  {
    var p := s[..m];
    assert p[4..8] == s[4..8] && p[8..12] == s[8..12];
  }

  /** How much of a HEIC is worth keeping. */
  lemma WindowOfHeic(b: Bytes, size: HeicSize)
    requires HeicOf(b)
    ensures HeadWindow(b, size) == if |b| < 1024 || size(b).Some? then 1024 else 65536
  {
    HeicIsMeasuredByItsTables(b, size);
    hide HeicOf, Sniffed, IsHeic;
  }

  /** The head of such a stream, however it is read. */
  lemma HeicHead(chunks: seq<Bytes>, s: Bytes, size: HeicSize)
    requires HeicOf(s) && Flat(chunks) == s
    ensures
      var h := HeadOf(chunks, size);
      h == Enough(s, size)
      || (1024 < |h| < |Widest(s)| && h == s[..|h|] && size(h).Some? && size(s[..1024]).None?)
  {
    HeadAlwaysFits(chunks, size);
    hide HeicOf, HeadWindow, HeadOf, Flat;
    var h := HeadOf(chunks, size);
    if |s| >= 1024 {
      PrefixIsHeic(s, 1024);
      WindowOfHeic(s[..1024], size);
    }
    if |h| >= 1024 {
      assert h[..1024] == s[..1024];
      PrefixIsHeic(s, |h|);
      WindowOfHeic(h, size);
      if |h| == 1024 { assert h == h[..1024]; }
    }
  }

  lemma EnoughIsHeic(s: Bytes, size: HeicSize)
    requires HeicOf(s)
    ensures HeicOf(Enough(s, size))
  {
    if |s| > 0x1_0000 { PrefixIsHeic(s, 0x1_0000); }
    if |s| >= 1024 { PrefixIsHeic(s, 1024); }
    hide HeicOf;
  }

  /** One read takes the head to the small window, and then on to its own end. */
  lemma OneRead(p: Bytes, size: HeicSize)
    requires HeicOf(p) && 1024 < |p| <= 65536 && size(p[..1024]).None?
    ensures Extend([], p, size) == p
  {
    hide HeicOf, HeadWindow, Sniffed;
    var small, rest := p[..1024], p[1024..];
    assert HeadWindow([], size) == 1024 by { SmallHead([], size); }
    PrefixIsHeic(p, 1024);
    WindowOfHeic(small, size);
    assert [] + p[..1024] == small;
    assert Extend([], p, size) == Extend(small, rest, size);
    assert rest[..|rest|] == rest && rest[|rest|..] == [];
    assert small + rest == p;
    assert Extend(small, rest, size) == Extend(p, [], size);
  }

  lemma HeadOfOne(p: Bytes, size: HeicSize)
    ensures HeadOf([p], size) == Extend([], p, size)
  {
    var one := [p];
    assert one[..0] == [];
    assert HeadOf([], size) == [];
  }

  lemma FlatOfOne(p: Bytes)
    ensures Flat([p]) == p
  {
    var one := [p];
    assert one[..0] == [];
    assert Flat([]) + p == p;
  }

  /** A first read that ends where the head stops decides the head. */
  lemma CutHead(s: Bytes, m: nat, size: HeicSize)
    requires HeicOf(s) && 1024 < m <= |s| && m <= 65536 && size(s[..1024]).None?
    requires size(s[..m]).Some? || m == |s| || m == 65536
    ensures var chunks := [s[..m]] + Pieces(s[m..]); Reads(chunks, s) && HeadOf(chunks, size) == s[..m]
  {
    hide HeicOf, Extend, Sniffed;
    var p, back := s[..m], Pieces(s[m..]);
    var chunks := [p] + back;
    PiecesAreReads(s[m..]);
    FlatOfOne(p);
    FlatAppends([p], back);
    assert p + s[m..] == s;
    PrefixIsHeic(s, m);
    assert p[..1024] == s[..1024];
    OneRead(p, size);
    HeadOfOne(p, size);
    WindowOfHeic(p, size);
    if m == |s| {
      assert s[m..] == [] && back == [] && chunks == [p];
    } else {
      assert chunks[..1] == [p];
      HeadStays(chunks, 1, size);
    }
  }

  /** A read that ends where the tables say something else than they do over the whole window. */
  lemma UnsettledReads(s: Bytes, m: nat, size: HeicSize)
    requires HeicOf(s) && 1024 < m < |Widest(s)| && size(s[..1024]).None?
    requires size(s[..m]).Some? && size(s[..m]) != size(Widest(s))
    ensures exists chunks :: Reads(chunks, s) && Sniffed(HeadOf(chunks, size), size) != ByTables(Enough(s, size), size)
  {
    hide HeicOf, HeadOf, Sniffed, Reads;
    CutHead(s, m, size);
    PrefixIsHeic(s, m);
    HeicIsMeasuredByItsTables(s[..m], size);
  }

  /**
   Main result: a HEIC is found to be, however it is cut into reads, what its tables say over its first 1024 bytes, if
   they say something there, or else over its first 65536, exactly if they do not say anything else in between.
   */
  lemma HeicReadsDoNotMatter(s: Bytes, size: HeicSize)
    requires HeicOf(s)
    ensures
      (forall chunks :: Reads(chunks, s) ==> Sniffed(HeadOf(chunks, size), size) == ByTables(Enough(s, size), size))
      <==> Settled(s, size)
  {
    hide HeicOf, HeadOf, Sniffed, Flat;
    EnoughIsHeic(s, size);
    HeicIsMeasuredByItsTables(Enough(s, size), size);
    if Settled(s, size) {
      forall chunks | Reads(chunks, s)
        ensures Sniffed(HeadOf(chunks, size), size) == ByTables(Enough(s, size), size)
      {
        HeicHead(chunks, s, size);
        var h := HeadOf(chunks, size);
        if h != Enough(s, size) {
          PrefixIsHeic(s, |h|);
          HeicIsMeasuredByItsTables(h, size);
        }
      }
    } else {
      var m :| 1024 < m < |Widest(s)| && size(s[..m]).Some? && size(s[..m]) != size(Widest(s));
      UnsettledReads(s, m, size);
    }
  }

  // --- What a store answers -------------------------------------------------------------

  /** What a store makes of a HEIC whose tables are settled. */
  function Promised(files: map<string, Bytes>, root: string, s: Bytes, cap: nat, size: HeicSize, faults: Faults): Outcome
  {
    if |s| > cap then Failed(TooLarge) else Placed(files, root, s, ByTables(Enough(s, size), size), faults)
  }

  lemma PlacedShowsTheVerdict(files: map<string, Bytes>, root: string, s: Bytes, v: Verdict, w: Verdict, faults: Faults)
    requires !faults.parent && !faults.rename && v != BeyondWindow && w != BeyondWindow
    ensures Placed(files, root, s, v, faults) == Placed(files, root, s, w, faults) <==> v == w
  {
    hide Named, Holds;
  }

  lemma VerdictOfHeic(chunks: seq<Bytes>, s: Bytes, size: HeicSize)
    requires HeicOf(s) && Reads(chunks, s)
    ensures Sniffed(HeadOf(chunks, size), size) != BeyondWindow
  {
    hide HeicOf, HeadOf, Sniffed, Flat;
    HeicHead(chunks, s, size);
    EnoughIsHeic(s, size);
    var h := HeadOf(chunks, size);
    if h != Enough(s, size) { PrefixIsHeic(s, |h|); }
    HeicIsMeasuredByItsTables(h, size);
  }

  /** One way to deliver the stream, and what the store answers to it. */
  lemma OneDelivery(files: map<string, Bytes>, root: string, s: Bytes, input: seq<Read>, names: seq<string>, cap: nat,
                    size: HeicSize, faults: Faults)
    requires HeicOf(s) && Quiet(files, root, names, faults) && !faults.parent && !faults.rename && |s| <= cap
    requires Delivers(input, s)
    ensures
      Expected(files, root, input, names, cap, size, faults) == Promised(files, root, s, cap, size, faults)
      <==> Sniffed(HeadOf(Chunks(input, |input|), size), size) == ByTables(Enough(s, size), size)
  {
    hide HeicOf, Expected, Placed, Sniffed, HeadOf, Quiet, Reads, Enough, Chunks;
    var chunks := Chunks(input, |input|);
    ExpectedOf(files, root, input, s, names, cap, size, faults);
    VerdictOfHeic(chunks, s, size);
    PlacedShowsTheVerdict(files, root, s, Sniffed(HeadOf(chunks, size), size), ByTables(Enough(s, size), size), faults);
  }

  lemma UnsettledDelivery(files: map<string, Bytes>, root: string, s: Bytes, names: seq<string>, cap: nat,
                          size: HeicSize, faults: Faults)
    requires HeicOf(s) && Quiet(files, root, names, faults) && !faults.parent && !faults.rename && |s| <= cap
    requires !Settled(s, size)
    ensures
      exists input :: Delivers(input, s)
        && Expected(files, root, input, names, cap, size, faults) != Promised(files, root, s, cap, size, faults)
  {
    hide HeicOf, Expected, Promised, Sniffed, HeadOf, Quiet, Reads, Enough, Settled;
    HeicReadsDoNotMatter(s, size);
    var chunks :| Reads(chunks, s) && Sniffed(HeadOf(chunks, size), size) != ByTables(Enough(s, size), size);
    var input := Wrapped(chunks);
    assert Chunks(input, |input|) == chunks;
    assert Delivers(input, s);
    OneDelivery(files, root, s, input, names, cap, size, faults);
  }

  /**
   Main result: for a HEIC, when nothing but the stream decides, what a store returns is the same for every way to cut
   the stream into reads exactly if it is over the cap or its tables are settled.
   */
  lemma HeicOutcomeIsTheStreams(files: map<string, Bytes>, root: string, s: Bytes, names: seq<string>, cap: nat,
                                size: HeicSize, faults: Faults)
    requires HeicOf(s) && Quiet(files, root, names, faults) && !faults.parent && !faults.rename
    ensures
      (forall input :: Delivers(input, s) ==>
         Expected(files, root, input, names, cap, size, faults) == Promised(files, root, s, cap, size, faults))
      <==> |s| > cap || Settled(s, size)
  {
    hide HeicOf, Expected, Placed, Sniffed, HeadOf, Quiet, Reads, Settled;
    forall input | Delivers(input, s) && (|s| > cap || Settled(s, size))
      ensures Expected(files, root, input, names, cap, size, faults) == Promised(files, root, s, cap, size, faults)
    {
      if |s| > cap {
        ExpectedOf(files, root, input, s, names, cap, size, faults);
      } else {
        HeicReadsDoNotMatter(s, size);
        assert Reads(Chunks(input, |input|), s);
        OneDelivery(files, root, s, input, names, cap, size, faults);
      }
    }
    if |s| <= cap && !Settled(s, size) {
      UnsettledDelivery(files, root, s, names, cap, size, faults);
    }
  }
}
