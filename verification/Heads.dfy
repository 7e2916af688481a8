/**
 The adaptive head window of crates/whirl-worker/src/pipeline.rs:838-880, 1433-1444: how much of a
 stream is kept for sniffing, and what the sniffed answer owes to the way the stream was cut up.
 */
module Heads {
  import opened Basics
  import opened Octets
  import opened Sniff

  const HEAD_WINDOW: nat := 1024
  const WIDE_WINDOW: nat := 0x1_0000

  function HeadWindow(head: Bytes, size: HeicSize): (w: nat)
    ensures w == HEAD_WINDOW || w == WIDE_WINDOW
  {
    if |head| < HEAD_WINDOW then HEAD_WINDOW
    else
      match Sniffed(head, size)
      case Measured(_) => HEAD_WINDOW
      case BeyondWindow => WIDE_WINDOW
      case NotAnImage => if IsHeic(head) then WIDE_WINDOW else HEAD_WINDOW
  }

  /** The head after one more read. */
  function Extend(head: Bytes, chunk: Bytes, size: HeicSize): Bytes
    decreases |chunk|
  {
    var room := SaturatingSub(HeadWindow(head, size), |head|);
    if |chunk| == 0 || room == 0 then head
    else
      var take := if room < |chunk| then room else |chunk|;
      Extend(head + chunk[..take], chunk[take..], size)
  }

  /** One read handed to the head, piece by piece, the window asked again after each piece. */
  method Take(head: Bytes, window: nat, chunk: Bytes, size: HeicSize) returns (h: Bytes, w: nat)
    requires window == HeadWindow(head, size)
    ensures h == Extend(head, chunk, size) && w == HeadWindow(h, size)
  {
    hide HeadWindow;
    h, w := head, window;
    var taken := 0;
    assert chunk[taken..] == chunk;
    while taken < |chunk|
      invariant taken <= |chunk| && w == HeadWindow(h, size)
      invariant Extend(h, chunk[taken..], size) == Extend(head, chunk, size)
    {
      var room := SaturatingSub(w, |h|);
      if room == 0 {
        break;
      }
      var take := if room < |chunk| - taken then room else |chunk| - taken;
      assert chunk[taken..][..take] == chunk[taken..taken + take];
      assert chunk[taken..][take..] == chunk[taken + take..];
      h := h + chunk[taken..taken + take];
      taken := taken + take;
      w := HeadWindow(h, size);
    }
  }

  function Flat(chunks: seq<Bytes>): Bytes
  {
    if |chunks| == 0 then [] else Flat(chunks[..|chunks| - 1]) + chunks[|chunks| - 1]
  }

  /** The head after a sequence of reads. */
  function HeadOf(chunks: seq<Bytes>, size: HeicSize): Bytes
  {
    if |chunks| == 0 then [] else Extend(HeadOf(chunks[..|chunks| - 1], size), chunks[|chunks| - 1], size)
  }

  /** The prefix the verdict is promised for. */
  function Window(s: Bytes): Bytes { if |s| <= WIDE_WINDOW then s else s[..WIDE_WINDOW] }

  // --- What the head is -----------------------------------------------------------------

  /**
   The head is a prefix of what was read: all of it, or no longer growing; and it outgrew the small window
   only if that was not enough.
   */
  predicate HeadFits(u: Bytes, head: Bytes, size: HeicSize)
  {
    && |head| <= |u| && head == u[..|head|] && |head| <= 0x1_0000
    && (head == u || |head| >= HeadWindow(head, size))
    && (|head| > HEAD_WINDOW ==> HeadWindow(head[..HEAD_WINDOW], size) == WIDE_WINDOW)
  }

  lemma {:induction false} ExtendFits(u: Bytes, head: Bytes, chunk: Bytes, size: HeicSize)
    requires HeadFits(u, head, size)
    ensures HeadFits(u + chunk, Extend(head, chunk, size), size)
    decreases |chunk|
  {
    hide HeadWindow;
    var room := SaturatingSub(HeadWindow(head, size), |head|);
    assert head == (u + chunk)[..|head|];
    if |chunk| == 0 {
      assert u + chunk == u;
    } else if room > 0 {
      var take := if room < |chunk| then room else |chunk|;
      var u' := u + chunk[..take];
      assert head + chunk[..take] == u';
      assert u' == u'[..|u'|];
      assert |head| < HEAD_WINDOW ==> HeadWindow(head, size) == HEAD_WINDOW by { SmallHead(head, size); }
      assert |u'| > HEAD_WINDOW ==> u'[..HEAD_WINDOW] == head[..HEAD_WINDOW];
      assert |head| == HEAD_WINDOW ==> head[..HEAD_WINDOW] == head;
      ExtendFits(u', u', chunk[take..], size);
      assert u' + chunk[take..] == u + chunk;
    }
  }

  lemma SmallHead(head: Bytes, size: HeicSize)
    ensures |head| < HEAD_WINDOW ==> HeadWindow(head, size) == HEAD_WINDOW
  {
    hide Sniffed;
  }

  lemma {:induction false} HeadAlwaysFits(chunks: seq<Bytes>, size: HeicSize)
    ensures HeadFits(Flat(chunks), HeadOf(chunks, size), size)
  {
    hide HeadWindow;
    if |chunks| > 0 {
      HeadAlwaysFits(chunks[..|chunks| - 1], size);
      ExtendFits(Flat(chunks[..|chunks| - 1]), HeadOf(chunks[..|chunks| - 1], size), chunks[|chunks| - 1], size);
    }
  }

  /** A head that has filled its window never grows again. */
  lemma {:induction false} HeadStays(chunks: seq<Bytes>, k: nat, size: HeicSize)
    requires k <= |chunks|
    requires |HeadOf(chunks[..k], size)| >= HeadWindow(HeadOf(chunks[..k], size), size)
    ensures HeadOf(chunks, size) == HeadOf(chunks[..k], size)
    decreases |chunks|
  {
    hide HeadWindow;
    if k == |chunks| {
      assert chunks[..k] == chunks;
    } else {
      var fewer := chunks[..|chunks| - 1];
      assert fewer[..k] == chunks[..k];
      HeadStays(fewer, k, size);
    }
  }

  // --- What the verdict is --------------------------------------------------------------

  lemma PngExtends(b: Bytes, m: nat)
    requires 24 <= m <= |b|
    ensures SniffPng(b[..m]) == SniffPng(b)
  {
    var p := b[..m];
    assert p[..8] == b[..8] && p[12..16] == b[12..16];
  }

  lemma WebpExtends(b: Bytes, m: nat)
    requires 30 <= m <= |b|
    ensures SniffWebp(b[..m]) == SniffWebp(b)
  {
    hide Le16, Le24, Le32;
    var p := b[..m];
    assert p[0..4] == b[0..4] && p[8..12] == b[8..12] && p[12..16] == b[12..16] && p[23..26] == b[23..26];
    LeSame(b, m);
  }

  lemma LeSame(b: Bytes, m: nat)
    requires 30 <= m <= |b|
    ensures Le16(b[..m], 26) == Le16(b, 26) && Le16(b[..m], 28) == Le16(b, 28) && Le32(b[..m], 21) == Le32(b, 21)
    ensures Le24(b[..m], 24) == Le24(b, 24) && Le24(b[..m], 27) == Le24(b, 27)
  {
    assert forall i :: 0 <= i < m ==> b[..m][i] == b[i];
  }

  lemma BrandExtends(b: Bytes, m: nat)
    requires 16 <= m <= |b|
    ensures IsHeic(b[..m]) == IsHeic(b)
  {
    var p := b[..m];
    assert p[4..8] == b[4..8] && p[8..12] == b[8..12];
  }

  lemma OnlyJpeg(b: Bytes)
    requires IsJpeg(b)
    ensures SniffPng(b).None? && SniffWebp(b).None?
  {
    hide Le16, Le24, Le32, Be32;
    assert PNG_MAGIC[0] == 0x89 && RIFF[0] == 0x52;
    assert |b| >= 8 ==> b[..8][0] == b[0];
    assert b[0..4][0] == b[0];
  }

  /** Main step: the verdict over more bytes, from the verdict over fewer of them. */
  lemma VerdictExtends(b: Bytes, m: nat, size: HeicSize)
    requires 30 <= m <= |b| && !IsHeic(b)
    ensures Sniffed(b[..m], size).Measured? ==> Sniffed(b, size) == Sniffed(b[..m], size)
    ensures Sniffed(b[..m], size) == NotAnImage && !Misread(b, m) ==> Sniffed(b, size) == NotAnImage
    ensures Misread(b, m) ==> Sniffed(b[..m], size) == NotAnImage && Sniffed(b, size).Measured?
  {
    hide SniffPng, SniffWebp, IsHeic, JpegFrom, FrameFrom, MisreadAt;
    PngExtends(b, m);
    WebpExtends(b, m);
    BrandExtends(b, m);
    WalkExtends(b, m, 2);
    assert IsJpeg(b[..m]) == IsJpeg(b);
    if IsJpeg(b) { OnlyJpeg(b); }
  }

  /** Main result: for every way to cut a stream into reads, what is sniffed of the head is what the window says. */
  lemma VerdictOfReads(chunks: seq<Bytes>, size: HeicSize)
    requires !IsHeic(Flat(chunks))
    ensures
      var b, h := Window(Flat(chunks)), HeadOf(chunks, size);
      Sniffed(h, size) == Sniffed(b, size) || (HEAD_WINDOW <= |h| < |b| && Misread(b, |h|))
  {
    hide Sniffed, IsHeic, Misread, Flat, HeadOf;
    var s, h := Flat(chunks), HeadOf(chunks, size);
    var b := Window(s);
    HeadAlwaysFits(chunks, size);
    if h != s {
      assert h == b[..|h|];
      if |h| == |b| {
        assert h == b;
      } else {
        assert HeadWindow(h, size) == HEAD_WINDOW;
        WindowBrand(s);
        BrandExtends(b, |h|);
        VerdictExtends(b, |h|, size);
      }
    }
  }

  lemma WindowBrand(s: Bytes)
    ensures IsHeic(Window(s)) == IsHeic(s)
  {
    if |s| > WIDE_WINDOW { BrandExtends(s, WIDE_WINDOW); }
  }

  // --- When the cutting matters ---------------------------------------------------------

  /** Reads as the source makes them: none empty, none larger than its buffer. */
  predicate Reads(chunks: seq<Bytes>, s: Bytes)
  {
    Flat(chunks) == s && forall i :: 0 <= i < |chunks| ==> 0 < |chunks[i]| <= WIDE_WINDOW
  }

  /** The four bytes at a position neither start a marker nor go on as fill bytes. */
  predicate NoMarker(b: Bytes, i: nat)
    requires i + 4 <= |b|
  {
    b[i] != 0xFF || (b[i + 1] != 0xFF && !Standalone(b[i + 1]) && Be16(b, i + 2) < 2)
  }

  /**
   The window's frame header declares a segment of 2 or 3 bytes, and what stands behind that segment,
   inside the header, is no marker; a cut 8 or 9 bytes into the header, no earlier than the small window
   ends, then decides the walk there.
   */
  predicate ShortFrame(b: Bytes)
  {
    IsJpeg(b) && FrameFrom(b, 2).Some? && ShortFrameAt(b, FrameFrom(b, 2).value)
  }

  predicate ShortFrameAt(b: Bytes, a: nat)
    requires a + 9 < |b|
  {
    || (a + 8 >= HEAD_WINDOW && NoMarkerBy8(b, a))
    || (a + 9 >= HEAD_WINDOW && NoMarkerBy9(b, a))
  }

  /** What the first 8 bytes of the header show behind a segment of 2 bytes. */
  predicate NoMarkerBy8(b: Bytes, a: nat)
    requires a + 9 < |b|
  {
    Be16(b, a + 2) == 2 && NoMarker(b, a + 4)
  }

  /** What its first 9 bytes show behind a segment of 2 bytes, one fill byte skipped, or of 3. */
  predicate NoMarkerBy9(b: Bytes, a: nat)
    requires a + 9 < |b|
  {
    || (Be16(b, a + 2) == 2 && (NoMarker(b, a + 4) || (b[a + 4] == 0xFF && b[a + 5] == 0xFF && NoMarker(b, a + 5))))
    || (Be16(b, a + 2) == 3 && NoMarker(b, a + 5))
  }

  /** A step of the walk over cut bytes, four bytes before the cut or less. */
  lemma LastStep(b: Bytes, m: nat, i: nat)
    requires i + 4 == m <= |b|
    ensures JpegFrom(b[..m], i) == NotAnImage <==> NoMarker(b, i)
  {
    var p := b[..m];
    assert p[i] == b[i] && p[i + 1] == b[i + 1] && Be16(p, i + 2) == Be16(b, i + 2);
  }

  lemma LastTwoSteps(b: Bytes, m: nat, i: nat)
    requires i + 5 == m <= |b|
    ensures
      JpegFrom(b[..m], i) == NotAnImage
      <==> NoMarker(b, i) || (b[i] == 0xFF && b[i + 1] == 0xFF && NoMarker(b, i + 1))
  {
    var p := b[..m];
    assert p[i] == b[i] && p[i + 1] == b[i + 1] && Be16(p, i + 2) == Be16(b, i + 2);
    LastStep(b, m, i + 1);
  }

  /** The bytes say exactly where the walk over a cut header is misled. */
  lemma MisreadInBytes(b: Bytes, a: nat)
    requires a + 9 < |b| && Be16(b, a + 2) >= 2
    ensures MisreadAt(b, a + 8, a) <==> NoMarkerBy8(b, a)
    ensures MisreadAt(b, a + 9, a) <==> NoMarkerBy9(b, a)
  {
    hide NoMarker, JpegStep;
    var length := Be16(b, a + 2);
    if length == 2 {
      LastStep(b, a + 8, a + 4);
      LastTwoSteps(b, a + 9, a + 4);
    } else if length == 3 {
      LastStep(b, a + 9, a + 5);
    }
  }

  lemma ShortFrameIsMisread(b: Bytes)
    ensures ShortFrame(b) <==> exists m :: HEAD_WINDOW <= m < |b| && Misread(b, m)
  {
    hide JpegFrom, FrameFrom, MisreadAt, NoMarkerBy8, NoMarkerBy9;
    if FrameFrom(b, 2).Some? { MisreadInBytes(b, FrameFrom(b, 2).value); }
    if ShortFrame(b) {
      var a := FrameFrom(b, 2).value;
      var m := if a + 8 >= HEAD_WINDOW && MisreadAt(b, a + 8, a) then a + 8 else a + 9;
      assert Misread(b, m);
    }
    if m :| HEAD_WINDOW <= m < |b| && Misread(b, m) {
      MisreadIsShort(b, m);
    }
  }

  /** Cut bytes into pieces of at most a buffer each. */
  function Pieces(s: Bytes): (cs: seq<Bytes>)
    ensures forall i :: 0 <= i < |cs| ==> 0 < |cs[i]| <= WIDE_WINDOW
    decreases |s|
  {
    if |s| == 0 then []
    else if |s| <= WIDE_WINDOW then [s]
    else Pieces(s[..|s| - WIDE_WINDOW]) + [s[|s| - WIDE_WINDOW..]]
  }

  lemma {:induction false} PiecesAreReads(s: Bytes)
    ensures Reads(Pieces(s), s)
    decreases |s|
  {
    if 0 < |s| <= WIDE_WINDOW {
      assert [s][..0] == [];
      assert Flat([s]) == [] + s == s;
    } else if |s| > WIDE_WINDOW {
      var front, back := s[..|s| - WIDE_WINDOW], s[|s| - WIDE_WINDOW..];
      PiecesAreReads(front);
      var cs := Pieces(front) + [back];
      assert cs[..|cs| - 1] == Pieces(front);
      assert front + back == s;
    }
  }

  lemma {:induction false} FlatAppends(cs: seq<Bytes>, ds: seq<Bytes>)
    ensures Flat(cs + ds) == Flat(cs) + Flat(ds)
    decreases |ds|
  {
    if |ds| == 0 {
      assert cs + ds == cs && Flat(ds) == [];
      assert Flat(cs) + [] == Flat(cs);
    } else {
      var all := cs + ds;
      assert all[..|all| - 1] == cs + ds[..|ds| - 1];
      FlatAppends(cs, ds[..|ds| - 1]);
      assert Flat(cs) + (Flat(ds[..|ds| - 1]) + ds[|ds| - 1]) == Flat(cs) + Flat(ds);
    }
  }

  /** A stream cut inside such a header is called no image, whatever follows. */
  lemma CutIsMisjudged(s: Bytes, m: nat, size: HeicSize)
    requires !IsHeic(s) && HEAD_WINDOW <= m < |Window(s)| && Misread(Window(s), m)
    ensures
      var chunks := Pieces(s[..m]) + Pieces(s[m..]);
      Reads(chunks, s) && Sniffed(HeadOf(chunks, size), size) == NotAnImage && Sniffed(Window(s), size).Measured?
  {
    hide Sniffed, IsHeic, Misread, Flat, HeadOf, Pieces;
    var first, b := Pieces(s[..m]), Window(s);
    var chunks := first + Pieces(s[m..]);
    PiecesAreReads(s[..m]);
    PiecesAreReads(s[m..]);
    FlatAppends(first, Pieces(s[m..]));
    assert s[..m] + s[m..] == s;
    WindowBrand(s);
    VerdictExtends(b, m, size);
    assert chunks[..|first|] == first;
    HeadAlwaysFits(first, size);
    var h, p := HeadOf(first, size), b[..m];
    assert p == s[..m];
    BrandExtends(b, m);
    if h == p {
      assert HeadWindow(h, size) == HEAD_WINDOW;
    } else {
      StoppedHead(p, h, size);
    }
    HeadStays(chunks, |first|, size);
  }

  /** A head that stopped before bytes that are judged no image was judged no image itself. */
  lemma StoppedHead(p: Bytes, h: Bytes, size: HeicSize)
    requires HeadFits(p, h, size) && h != p && |p| <= WIDE_WINDOW && !IsHeic(p) && Sniffed(p, size) == NotAnImage
    ensures Sniffed(h, size) == NotAnImage && |h| >= HeadWindow(h, size)
  {
    hide Sniffed, IsHeic, Misread;
    assert HeadWindow(h, size) == HEAD_WINDOW;
    BrandExtends(p, |h|);
    VerdictExtends(p, |h|, size);
  }

  /**
   Main result: the verdict on a stream that is no HEIC is the same for every way to cut it into reads,
   and is the verdict on its first 65536 bytes, exactly when its frame header is not a short one.
   */
  lemma ReadsDoNotMatter(s: Bytes, size: HeicSize)
    requires !IsHeic(s)
    ensures
      (forall chunks :: Reads(chunks, s) ==> Sniffed(HeadOf(chunks, size), size) == Sniffed(Window(s), size))
      <==> !ShortFrame(Window(s))
  {
    hide Sniffed, IsHeic, Misread, HeadOf, ShortFrame, Flat, Pieces;
    ShortFrameIsMisread(Window(s));
    if ShortFrame(Window(s)) {
      var m :| HEAD_WINDOW <= m < |Window(s)| && Misread(Window(s), m);
      CutIsMisjudged(s, m, size);
    } else {
      forall chunks | Reads(chunks, s)
        ensures Sniffed(HeadOf(chunks, size), size) == Sniffed(Window(s), size)
      {
        VerdictOfReads(chunks, size);
      }
    }
  }

  /** A JPEG whose frame header stands at byte 1016 and declares a length of 2. */
  function ShortFrameExample(): (b: Bytes)
    ensures |b| == 1030
  {
    seq(1030, i => if i == 0 || i == 2 || i == 1016 then 0xFF else if i == 1 then 0xD8 else if i == 3 then 0xE0
                   else if i == 4 then 0x03 else if i == 5 then 0xF4 else if i == 1017 then 0xC0
                   else if i == 1019 then 0x02 else 0x08 * (if i == 1020 then 1 else 0))
  }

  /** The failing family is real: such a picture is measured whole, and called no image by every read loop. */
  lemma ShortFrameIsReal(size: HeicSize)
    ensures
      var s := ShortFrameExample();
      && !IsHeic(s) && ShortFrame(Window(s)) && Sniffed(s, size).Measured?
      && (forall chunks :: Reads(chunks, s) ==> Sniffed(HeadOf(chunks, size), size) == NotAnImage)
  {
    hide Sniffed, HeadOf, Flat;
    var s := ShortFrameExample();
    assert s[4] != 0x66 && s[4..8][0] == s[4] && FTYP[0] == 0x66;
    ExampleWalk();
    assert MisreadAt(s, 1024, 1016);
    MisreadInBytes(s, 1016);
    assert Misread(s, 1024);
    VerdictExtends(s, 1024, size);
    forall chunks | Reads(chunks, s)
      ensures Sniffed(HeadOf(chunks, size), size) == NotAnImage
    {
      HeadAlwaysFits(chunks, size);
      ExampleHead(HeadOf(chunks, size), size);
    }
  }

  lemma ExampleWalk()
    ensures
      var s := ShortFrameExample();
      IsJpeg(s) && FrameFrom(s, 2) == Some(1016) && Be16(s, 1018) == 2 && JpegFrom(s[..1024], 1020) == NotAnImage
  {
    var s := ShortFrameExample();
    assert JpegStep(s, 2) == Next(1016);
    assert JpegStep(s, 1016).Decided?;
    assert s[..1024][1020] == s[1020] == 0x08;
  }

  /** The head of that stream is its first 1024 bytes. */
  lemma ExampleHead(h: Bytes, size: HeicSize)
    requires HeadFits(ShortFrameExample(), h, size) && !IsHeic(ShortFrameExample())
    requires Sniffed(ShortFrameExample()[..HEAD_WINDOW], size) == NotAnImage
    ensures Sniffed(h, size) == NotAnImage
  {
    hide Sniffed, ShortFrameExample, IsHeic;
    var s := ShortFrameExample();
    BrandExtends(s, HEAD_WINDOW);
    assert |h| >= HEAD_WINDOW ==> h[..HEAD_WINDOW] == s[..HEAD_WINDOW];
    assert HeadWindow(s[..HEAD_WINDOW], size) == HEAD_WINDOW;
    assert |h| == HEAD_WINDOW;
    assert h == s[..HEAD_WINDOW];
  }
}
