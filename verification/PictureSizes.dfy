/**
 Which width and height a picture is found to have (crates/whirl-worker/src/pipeline.rs:826-1008), said of
 its bytes as the formats lay them out, and carried to what a store answers.
 */
module PictureSizes {
  import opened Basics
  import opened Octets
  import opened Sniff
  import opened Heads
  import opened Store

  // --- PNG -------------------------------------------------------------------------------

  /** A PNG that declares a width and a height: the signature, the IHDR chunk, and the two numbers in it. */
  predicate PngOf(b: Bytes, w: nat, h: nat)
  {
    && |b| >= 24 && b[..8] == [0x89, 0x50, 0x4E, 0x47, 0x0D, 0x0A, 0x1A, 0x0A] && b[12..16] == [0x49, 0x48, 0x44, 0x52]
    && BigEndian(b[16..20]) == w && BigEndian(b[20..24]) == h
  }

  /** Main result: a PNG is measured as the width and height it declares. */
  lemma PngIsMeasured(b: Bytes, w: nat, h: nat, size: HeicSize)
    requires PngOf(b, w, h)
    ensures Sniffed(b, size) == Measured(Header("png", w, h))
  {
    hide Be32, BigEndian;
    Be32Is(b, 16);
    Be32Is(b, 20);
  }

  // --- WebP ------------------------------------------------------------------------------

  predicate WebpOf(b: Bytes, kind: Bytes)
  {
    && |b| >= 30 && b[0..4] == [0x52, 0x49, 0x46, 0x46] && b[8..12] == [0x57, 0x45, 0x42, 0x50] && b[12..16] == kind
  }

  lemma WebpComesThird(b: Bytes, size: HeicSize)
    requires |b| >= 30 && b[0..4] == [0x52, 0x49, 0x46, 0x46] && SniffWebp(b).Some?
    ensures Sniffed(b, size) == Measured(SniffWebp(b).value)
  {
    hide SniffWebp, Be32, JpegFrom;
    assert b[0] == b[0..4][0] == 0x52;
    assert b[..8][0] == b[0] && PNG_MAGIC[0] == 0x89;
  }

  /** A lossy frame: 14 bits of width and of height, each below two bits of scale. */
  predicate LossyOf(b: Bytes, w: nat, h: nat, scaleX: nat, scaleY: nat)
  {
    && WebpOf(b, [0x56, 0x50, 0x38, 0x20]) && b[23..26] == [0x9D, 0x01, 0x2A] && w < 0x4000 && h < 0x4000
    && LittleEndian(b[26..28]) == w + 0x4000 * scaleX && LittleEndian(b[28..30]) == h + 0x4000 * scaleY
  }

  lemma LossyWebpIsMeasured(b: Bytes, w: nat, h: nat, scaleX: nat, scaleY: nat, size: HeicSize)
    requires LossyOf(b, w, h, scaleX, scaleY)
    ensures Sniffed(b, size) == Measured(Header("webp", w, h))
  {
    hide Le16, Le24, Le32, LittleEndian, Sniffed;
    Le16Is(b, 26);
    Le16Is(b, 28);
    WebpComesThird(b, size);
  }

  /** A lossless image: 14 bits of width minus one, 14 of height minus one, four more. */
  predicate LosslessOf(b: Bytes, w: nat, h: nat, rest: nat)
  {
    && WebpOf(b, [0x56, 0x50, 0x38, 0x4C]) && b[20] == 0x2F && 1 <= w <= 0x4000 && 1 <= h <= 0x4000
    && LittleEndian(b[21..25]) == (w - 1) + 0x4000 * (h - 1) + 0x1000_0000 * rest
  }

  lemma LosslessWebpIsMeasured(b: Bytes, w: nat, h: nat, rest: nat, size: HeicSize)
    requires LosslessOf(b, w, h, rest)
    ensures Sniffed(b, size) == Measured(Header("webp", w, h))
  {
    hide Le16, Le24, Le32, LittleEndian, Sniffed;
    assert VP8_LOSSY[3] == 0x20;
    Le32Is(b, 21);
    Unpacked(w - 1, h - 1, rest);
    WebpComesThird(b, size);
  }

  lemma Unpacked(w: nat, h: nat, rest: nat)
    requires w < 0x4000 && h < 0x4000
    ensures
      var n := w + 0x4000 * h + 0x1000_0000 * rest;
      n % 0x4000 == w && n / 0x4000 % 0x4000 == h
  {
    var n := w + 0x4000 * h + 0x1000_0000 * rest;
    assert n == w + 0x4000 * (h + 0x4000 * rest);
    assert n / 0x4000 == h + 0x4000 * rest;
  }

  /** An extended file: 24 bits of width minus one and 24 of height minus one. */
  predicate ExtendedOf(b: Bytes, w: nat, h: nat)
  {
    && WebpOf(b, [0x56, 0x50, 0x38, 0x58])
    && LittleEndian(b[24..27]) + 1 == w && LittleEndian(b[27..30]) + 1 == h
  }

  lemma ExtendedWebpIsMeasured(b: Bytes, w: nat, h: nat, size: HeicSize)
    requires ExtendedOf(b, w, h)
    ensures Sniffed(b, size) == Measured(Header("webp", w, h))
  {
    hide Le16, Le24, Le32, LittleEndian, Sniffed;
    assert VP8_LOSSY[3] == 0x20 && VP8L[3] == 0x4C;
    Le24Is(b, 24);
    Le24Is(b, 27);
    WebpComesThird(b, size);
  }

  /** A WebP that declares a width and a height, in one of the three ways. */
  ghost predicate WebpDeclares(b: Bytes, w: nat, h: nat)
  {
    || (exists scaleX, scaleY :: LossyOf(b, w, h, scaleX, scaleY))
    || (exists rest :: LosslessOf(b, w, h, rest))
    || ExtendedOf(b, w, h)
  }

  /** Main result: a WebP is measured as the width and height it declares. */
  lemma WebpIsMeasured(b: Bytes, w: nat, h: nat, size: HeicSize)
    requires WebpDeclares(b, w, h)
    ensures Sniffed(b, size) == Measured(Header("webp", w, h))
  {
    hide Sniffed, LossyOf, LosslessOf, ExtendedOf;
    if scaleX, scaleY :| LossyOf(b, w, h, scaleX, scaleY) {
      LossyWebpIsMeasured(b, w, h, scaleX, scaleY, size);
    } else if rest :| LosslessOf(b, w, h, rest) {
      LosslessWebpIsMeasured(b, w, h, rest, size);
    } else {
      ExtendedWebpIsMeasured(b, w, h, size);
    }
  }

  // --- HEIC ------------------------------------------------------------------------------

  /** A HEIC: a `ftyp` box, whose length is below 2^24, of one of the six brands. */
  predicate HeicOf(b: Bytes)
  {
    && |b| >= 16 && b[0] == 0 && b[4..8] == [0x66, 0x74, 0x79, 0x70]
    && b[8..12] in {
         [0x68, 0x65, 0x69, 0x63], [0x68, 0x65, 0x69, 0x78], [0x68, 0x65, 0x76, 0x63], [0x68, 0x65, 0x76, 0x78],
         [0x6D, 0x69, 0x66, 0x31], [0x6D, 0x73, 0x66, 0x31]}
  }

  /** A HEIC is measured by its item tables, or is no image. */
  lemma HeicIsMeasuredByItsTables(b: Bytes, size: HeicSize)
    requires HeicOf(b)
    ensures IsHeic(b)
    ensures Sniffed(b, size) == if size(b).Some? then Measured(size(b).value) else NotAnImage
  {
    hide Be32, JpegFrom;
    assert b[..8][0] == b[0] && PNG_MAGIC[0] == 0x89 && b[0..4][0] == b[0] && RIFF[0] == 0x52;
    assert IsHeic(b) by { BrandIsListed(b[8..12]); }
  }

  lemma BrandIsListed(brand: Bytes)
    requires brand in {
      [0x68, 0x65, 0x69, 0x63], [0x68, 0x65, 0x69, 0x78], [0x68, 0x65, 0x76, 0x63], [0x68, 0x65, 0x76, 0x78],
      [0x6D, 0x69, 0x66, 0x31], [0x6D, 0x73, 0x66, 0x31]}
    ensures brand in HEIF_BRANDS
  {
    assert brand == HEIF_BRANDS[0] || brand == HEIF_BRANDS[1] || brand == HEIF_BRANDS[2] || brand == HEIF_BRANDS[3]
        || brand == HEIF_BRANDS[4] || brand == HEIF_BRANDS[5];
  }

  // --- JPEG ------------------------------------------------------------------------------

  /** What may stand in front of the frame header. */
  datatype Segment = Fill | Alone(marker: Byte) | Skipped(marker: Byte, length: Bytes, payload: Bytes)

  /** SOF0 to SOF15, except DHT, JPG and DAC. */
  const FRAME_MARKERS: set<Byte> :=
    {0xC0, 0xC1, 0xC2, 0xC3, 0xC5, 0xC6, 0xC7, 0xC9, 0xCA, 0xCB, 0xCD, 0xCE, 0xCF}

  predicate StandsAlone(m: Byte) { m == 0x01 || 0xD0 <= m <= 0xD9 }

  predicate WellFormed(s: Segment)
  {
    match s
    case Fill => true
    case Alone(m) => StandsAlone(m)
    case Skipped(m, length, payload) =>
      && m != 0xFF && !StandsAlone(m) && m !in FRAME_MARKERS
      && |length| == 2 && BigEndian(length) == 2 + |payload|
  }

  function SegmentBytes(s: Segment): Bytes
  {
    match s
    case Fill => [0xFF]
    case Alone(m) => [0xFF, m]
    case Skipped(m, length, payload) => [0xFF, m] + length + payload
  }

  function AllBytes(ss: seq<Segment>): Bytes { if |ss| == 0 then [] else SegmentBytes(ss[0]) + AllBytes(ss[1..]) }

  /** A frame header: its length, the sample precision, the height, the width, and what follows. */
  predicate FrameOf(f: Bytes, w: nat, h: nat)
  {
    && |f| >= 10 && f[0] == 0xFF && f[1] in FRAME_MARKERS && BigEndian(f[2..4]) >= 2
    && BigEndian(f[5..7]) == h && BigEndian(f[7..9]) == w
  }

  lemma FrameMarkers(m: Byte)
    ensures m in FRAME_MARKERS <==> IsFrame(m)
    ensures m in FRAME_MARKERS ==> m != 0xFF && !Standalone(m)
  {
  }

  lemma FrameStep(b: Bytes, at: nat, f: Bytes, w: nat, h: nat)
    requires at <= |b| && b[at..] == f && FrameOf(f, w, h)
    ensures JpegFrom(b, at) == Measured(Header("jpg", w, h))
    ensures FrameFrom(b, at) == Some(at)
  {
    hide Be16, BigEndian, IsFrame, Standalone;
    FrameMarkers(f[1]);
    assert b[at] == f[0] && b[at + 1] == f[1];
    assert b[at + 2..at + 4] == f[2..4] && b[at + 5..at + 7] == f[5..7] && b[at + 7..at + 9] == f[7..9];
    Be16Is(b, at + 2);
    Be16Is(b, at + 5);
    Be16Is(b, at + 7);
  }

  lemma SegmentStep(b: Bytes, at: nat, s: Segment, rest: Bytes)
    requires at <= |b| && b[at..] == SegmentBytes(s) + rest && WellFormed(s) && |rest| >= 10 && rest[0] == 0xFF
    ensures at + 3 < |b| && JpegStep(b, at) == Next(at + |SegmentBytes(s)|)
    ensures b[at + |SegmentBytes(s)|..] == rest
  {
    hide JpegStep, StandsAlone, BigEndian;
    var t := SegmentBytes(s) + rest;
    assert b[at..][|SegmentBytes(s)|..] == t[|SegmentBytes(s)|..] == rest;
    match s
    case Fill => FillStep(b, at, rest);
    case Alone(m) => AloneStep(b, at, m, rest);
    case Skipped(m, length, payload) => SkippedStep(b, at, m, length, payload, rest);
  }

  lemma FillStep(b: Bytes, at: nat, rest: Bytes)
    requires at <= |b| && b[at..] == [0xFF] + rest && |rest| >= 10 && rest[0] == 0xFF
    ensures at + 3 < |b| && JpegStep(b, at) == Next(at + 1)
  {
    hide Be16, IsFrame, Standalone;
    assert b[at] == b[at..][0] && b[at + 1] == b[at..][1] == rest[0];
  }

  lemma AloneStep(b: Bytes, at: nat, m: Byte, rest: Bytes)
    requires at <= |b| && b[at..] == [0xFF, m] + rest && |rest| >= 10 && StandsAlone(m)
    ensures at + 3 < |b| && JpegStep(b, at) == Next(at + 2)
  {
    hide Be16, IsFrame;
    assert b[at] == b[at..][0] && b[at + 1] == b[at..][1] == m;
  }

  lemma SkippedStep(b: Bytes, at: nat, m: Byte, length: Bytes, payload: Bytes, rest: Bytes)
    requires at <= |b| && b[at..] == [0xFF, m] + length + payload + rest && |rest| >= 10
    requires WellFormed(Skipped(m, length, payload))
    ensures at + 3 < |b| && JpegStep(b, at) == Next(at + 4 + |payload|)
  {
    hide Be16, BigEndian, IsFrame;
    var t := b[at..];
    assert b[at] == t[0] && b[at + 1] == t[1] == m && t[2..4] == length && b[at + 2..at + 4] == t[2..4];
    Be16Is(b, at + 2);
    FrameMarkers(m);
  }

  lemma PassOne(b: Bytes, at: nat, s: Segment, rest: Bytes)
    requires at <= |b| && b[at..] == SegmentBytes(s) + rest && WellFormed(s) && |rest| >= 10 && rest[0] == 0xFF
    ensures var next := at + |SegmentBytes(s)|;
            next <= |b| && b[next..] == rest && JpegFrom(b, at) == JpegFrom(b, next) && FrameFrom(b, at) == FrameFrom(b, next)
  {
    hide JpegStep, SegmentBytes, WellFormed;
    SegmentStep(b, at, s, rest);
  }

  /** The walk passes everything in front of the frame header. */
  lemma {:induction false} WalkReaches(b: Bytes, at: nat, ss: seq<Segment>, f: Bytes, w: nat, h: nat)
    requires at <= |b| && b[at..] == AllBytes(ss) + f && FrameOf(f, w, h)
    requires forall i :: 0 <= i < |ss| ==> WellFormed(ss[i])
    ensures JpegFrom(b, at) == Measured(Header("jpg", w, h))
    ensures FrameFrom(b, at) == Some(at + |AllBytes(ss)|)
    decreases |ss|
  {
    hide SegmentBytes, WellFormed, JpegFrom, FrameFrom, FrameOf, AllBytes;
    assert |f| >= 10 && f[0] == 0xFF by { FrameIsLong(f, w, h); }
    if |ss| == 0 {
      assert AllBytes(ss) == [] && [] + f == f by { NoSegments(); }
      FrameStep(b, at, f, w, h);
    } else {
      var rest := AllBytes(ss[1..]) + f;
      FirstSegment(ss, f);
      StartsWithMarker(ss[1..], f);
      PassOne(b, at, ss[0], rest);
      WalkReaches(b, at + |SegmentBytes(ss[0])|, ss[1..], f, w, h);
    }
  }

  lemma FirstSegment(ss: seq<Segment>, f: Bytes)
    requires |ss| > 0
    ensures AllBytes(ss) + f == SegmentBytes(ss[0]) + (AllBytes(ss[1..]) + f)
    ensures |AllBytes(ss)| == |SegmentBytes(ss[0])| + |AllBytes(ss[1..])|
  {
    hide SegmentBytes;
    assert SegmentBytes(ss[0]) + AllBytes(ss[1..]) + f == SegmentBytes(ss[0]) + (AllBytes(ss[1..]) + f);
  }

  lemma NoSegments() ensures AllBytes([]) == [] {}

  lemma StartsWithMarker(ss: seq<Segment>, f: Bytes)
    requires |f| >= 10 && f[0] == 0xFF
    ensures var rest := AllBytes(ss) + f; |rest| >= 10 && rest[0] == 0xFF
  {
  }

  predicate JpegOf(b: Bytes, ss: seq<Segment>, f: Bytes, w: nat, h: nat)
  {
    && b == [0xFF, 0xD8] + AllBytes(ss) + f && FrameOf(f, w, h)
    && forall i :: 0 <= i < |ss| ==> WellFormed(ss[i])
  }

  /** Main result: a JPEG is measured as its frame header says - height first - whatever stands in front of it. */
  lemma JpegIsMeasured(b: Bytes, ss: seq<Segment>, f: Bytes, w: nat, h: nat, size: HeicSize)
    requires JpegOf(b, ss, f, w, h)
    ensures Sniffed(b, size) == Measured(Header("jpg", w, h))
  {
    hide JpegFrom, FrameOf, AllBytes, WellFormed, SniffPng, SniffWebp;
    assert |f| >= 10 by { FrameIsLong(f, w, h); }
    assert b[2..] == AllBytes(ss) + f;
    WalkReaches(b, 2, ss, f, w, h);
    assert b[0] == 0xFF && b[1] == 0xD8;
    OnlyJpeg(b);
  }

  lemma FrameIsLong(f: Bytes, w: nat, h: nat)
    requires FrameOf(f, w, h)
    ensures |f| >= 10 && f[0] == 0xFF
  {
  }

  // --- What a store answers ----------------------------------------------------------------

  /** The window of a PNG or a WebP shows what the whole stream shows. */
  lemma MagicIsInWindow(s: Bytes, size: HeicSize)
    requires SniffPng(s).Some? || SniffWebp(s).Some?
    ensures !IsHeic(s) && !ShortFrame(Window(s)) && Sniffed(Window(s), size) == Sniffed(s, size)
  {
    hide SniffPng, SniffWebp, JpegFrom, ShortFrameAt;
    assert |s| >= 24 && (SniffPng(s).None? ==> |s| >= 30) by { MagicIsLong(s); }
    NotTheOthers(s);
    NotTheOthers(Window(s));
    if |s| > WIDE_WINDOW {
      PngExtends(s, WIDE_WINDOW);
      WebpExtends(s, WIDE_WINDOW);
    }
  }

  lemma MagicIsLong(s: Bytes)
    requires SniffPng(s).Some? || SniffWebp(s).Some?
    ensures |s| >= 24 && (SniffPng(s).None? ==> |s| >= 30)
  {
  }

  lemma NotTheOthers(s: Bytes)
    ensures SniffPng(s).Some? || SniffWebp(s).Some? ==> !IsHeic(s) && !IsJpeg(s)
  {
    hide Be32, Le16, Le24, Le32;
    if IsJpeg(s) { OnlyJpeg(s); }
    if IsHeic(s) {
      assert s[..8][4] == s[4] == s[4..8][0] && PNG_MAGIC[4] == 0x0D && FTYP[0] == 0x66;
      assert s[8..12][0] != 0x57 by { BrandsAreNotWebp(s[8..12]); }
    }
  }

  lemma BrandsAreNotWebp(brand: Bytes)
    requires brand in HEIF_BRANDS
    ensures |brand| == 4 && brand[0] != 0x57
  {
  }

  /** Any reads of a stream that is measured in its window, under the cap and without a fault. */
  predicate Received(files: map<string, Bytes>, root: string, input: seq<Read>, s: Bytes, names: seq<string>, cap: nat,
                     faults: Faults)
  {
    Delivers(input, s) && Quiet(files, root, names, faults) && |s| <= cap
  }

  /** The store's answer, and the floor's: a success carries the measured header, and only its sides decide. */
  ghost predicate Answered(r: Outcome, header: Header, faults: Faults)
  {
    && (r.Failed? ==> faults.parent || faults.rename)
    && (r.Done? ==>
          && r.stored.header == header
          && (forall minWidth: nat, minHeight: nat ::
                Admit(r, minWidth, minHeight).UnderFloor? <==> header.width < minWidth || header.height < minHeight))
  }

  lemma StoredAsMeasured(files: map<string, Bytes>, root: string, input: seq<Read>, s: Bytes, names: seq<string>,
                         cap: nat, size: HeicSize, faults: Faults, header: Header)
    requires Received(files, root, input, s, names, cap, faults)
    requires !IsHeic(s) && !ShortFrame(Window(s)) && Sniffed(Window(s), size) == Measured(header)
    ensures Answered(Expected(files, root, input, names, cap, size, faults), header, faults)
  {
    hide Expected, Sniffed, ShortFrame, IsHeic, Quiet, Delivers, Window, Named, Holds;
    OutcomeIsTheStreams(files, root, s, names, cap, size, faults);
  }

  /** Main result: whatever the reads, the header stored with a PNG carries the width and height it declares. */
  lemma PngIsStored(files: map<string, Bytes>, root: string, input: seq<Read>, s: Bytes, names: seq<string>, cap: nat,
                    size: HeicSize, faults: Faults, w: nat, h: nat)
    requires Received(files, root, input, s, names, cap, faults) && PngOf(s, w, h)
    ensures Answered(Expected(files, root, input, names, cap, size, faults), Header("png", w, h), faults)
  {
    hide Expected, Sniffed, ShortFrame, IsHeic, Received, Answered;
    PngIsMeasured(s, w, h, size);
    MagicIsInWindow(s, size);
    StoredAsMeasured(files, root, input, s, names, cap, size, faults, Header("png", w, h));
  }

  /** Main result: so does the header stored with a WebP. */
  lemma WebpIsStored(files: map<string, Bytes>, root: string, input: seq<Read>, s: Bytes, names: seq<string>, cap: nat,
                     size: HeicSize, faults: Faults, w: nat, h: nat)
    requires Received(files, root, input, s, names, cap, faults) && WebpDeclares(s, w, h)
    ensures Answered(Expected(files, root, input, names, cap, size, faults), Header("webp", w, h), faults)
  {
    hide Expected, Sniffed, ShortFrame, IsHeic, Received, Answered;
    WebpIsMeasured(s, w, h, size);
    WebpIsSniffed(s, w, h);
    MagicIsInWindow(s, size);
    StoredAsMeasured(files, root, input, s, names, cap, size, faults, Header("webp", w, h));
  }

  lemma WebpIsSniffed(s: Bytes, w: nat, h: nat)
    requires WebpDeclares(s, w, h)
    ensures SniffWebp(s).Some?
  {
    hide LittleEndian, Le16, Le24, Le32;
  }

  /**
   Main result: so does the header stored with a JPEG whose frame header lies in the first 65536 bytes and
   declares a length of 4 or more, if its bytes 4 to 12 do not happen to spell a HEIC brand.
   */
  lemma JpegIsStored(files: map<string, Bytes>, root: string, input: seq<Read>, s: Bytes, names: seq<string>, cap: nat,
                     size: HeicSize, faults: Faults, ss: seq<Segment>, f: Bytes, w: nat, h: nat)
    requires Received(files, root, input, s, names, cap, faults) && JpegOf(s, ss, f, w, h)
    requires 2 + |AllBytes(ss)| + 10 <= 0x1_0000 && |f| >= 10 && BigEndian(f[2..4]) >= 4 && !IsHeic(s)
    ensures Answered(Expected(files, root, input, names, cap, size, faults), Header("jpg", w, h), faults)
  {
    hide Expected, Sniffed, ShortFrame, IsHeic, Received, Answered, JpegOf, BigEndian, WellFormed;
    JpegInWindow(s, ss, f, w, h);
    var g := f[..if |f| <= 0x1_0000 - 2 - |AllBytes(ss)| then |f| else 0x1_0000 - 2 - |AllBytes(ss)|];
    JpegIsMeasured(Window(s), ss, g, w, h, size);
    LongFrame(Window(s), ss, g, w, h);
    StoredAsMeasured(files, root, input, s, names, cap, size, faults, Header("jpg", w, h));
  }

  lemma JpegInWindow(s: Bytes, ss: seq<Segment>, f: Bytes, w: nat, h: nat)
    requires JpegOf(s, ss, f, w, h) && 2 + |AllBytes(ss)| + 10 <= 0x1_0000
    ensures |f| >= 10
    ensures
      var n := if |f| <= 0x1_0000 - 2 - |AllBytes(ss)| then |f| else 0x1_0000 - 2 - |AllBytes(ss)|;
      JpegOf(Window(s), ss, f[..n], w, h) && f[..n][2..4] == f[2..4]
  {
    hide BigEndian, WellFormed, AllBytes;
    var n := if |f| <= 0x1_0000 - 2 - |AllBytes(ss)| then |f| else 0x1_0000 - 2 - |AllBytes(ss)|;
    var head := [0xFF, 0xD8] + AllBytes(ss);
    assert s == head + f && Window(s) == head + f[..n];
    assert f[..n][2..4] == f[2..4] && f[..n][5..7] == f[5..7] && f[..n][7..9] == f[7..9];
  }

  lemma LongFrame(b: Bytes, ss: seq<Segment>, f: Bytes, w: nat, h: nat)
    requires JpegOf(b, ss, f, w, h) && |f| >= 10 && BigEndian(f[2..4]) >= 4
    ensures !ShortFrame(b)
  {
    hide JpegFrom, FrameFrom, FrameOf, AllBytes, WellFormed, BigEndian, NoMarker, Be16;
    assert b[2..] == AllBytes(ss) + f;
    WalkReaches(b, 2, ss, f, w, h);
    var a := 2 + |AllBytes(ss)|;
    assert b[a + 2..a + 4] == f[2..4];
    Be16Is(b, a + 2);
  }
}
