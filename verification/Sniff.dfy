/**
 What the first bytes of a file say about its format and size: the PNG, JPEG and WebP walks of
 crates/whirl-worker/src/pipeline.rs:826-1008. A HEIC's size comes from its item tables, which are a
 parameter here; only its brand test is modelled.
 */
module Sniff {
  import opened Basics
  import opened Octets

  datatype Header = Header(ext: string, width: nat, height: nat)

  datatype Verdict = Measured(header: Header) | BeyondWindow | NotAnImage

  /** How a HEIC's item tables are read. */
  type HeicSize = Bytes -> Option<Header>

  function Be16(b: Bytes, i: nat): nat
    requires i + 2 <= |b|
  {
    256 * (b[i] as nat) + b[i + 1] as nat
  }

  function Be32(b: Bytes, i: nat): nat
    requires i + 4 <= |b|
  {
    0x1_0000 * Be16(b, i) + Be16(b, i + 2)
  }

  function Le16(b: Bytes, i: nat): nat
    requires i + 2 <= |b|
  {
    b[i] as nat + 256 * (b[i + 1] as nat)
  }

  function Le24(b: Bytes, i: nat): nat
    requires i + 3 <= |b|
  {
    Le16(b, i) + 0x1_0000 * (b[i + 2] as nat)
  }

  function Le32(b: Bytes, i: nat): nat
    requires i + 4 <= |b|
  {
    Le16(b, i) + 0x1_0000 * Le16(b, i + 2)
  }

  // --- The readers of numbers ------------------------------------------------------------

  lemma Be16Is(b: Bytes, i: nat)
    requires i + 2 <= |b|
    ensures Be16(b, i) == BigEndian(b[i..i + 2])
  {
    BigEndian2(b, i);
  }

  lemma Be32Is(b: Bytes, i: nat)
    requires i + 4 <= |b|
    ensures Be32(b, i) == BigEndian(b[i..i + 4])
  {
    Be16Is(b, i);
    Be16Is(b, i + 2);
    BigEndian4(b, i);
  }

  lemma Le16Is(b: Bytes, i: nat)
    requires i + 2 <= |b|
    ensures Le16(b, i) == LittleEndian(b[i..i + 2])
  {
    LittleEndian2(b, i);
  }

  lemma Le24Is(b: Bytes, i: nat)
    requires i + 3 <= |b|
    ensures Le24(b, i) == LittleEndian(b[i..i + 3])
  {
    Le16Is(b, i);
    LittleEndian3(b, i);
  }

  lemma Le32Is(b: Bytes, i: nat)
    requires i + 4 <= |b|
    ensures Le32(b, i) == LittleEndian(b[i..i + 4])
  {
    Le16Is(b, i);
    Le16Is(b, i + 2);
    LittleEndian4(b, i);
  }

  // --- PNG, WebP and HEIC ---------------------------------------------------------------

  const PNG_MAGIC: Bytes := [0x89, 0x50, 0x4E, 0x47, 0x0D, 0x0A, 0x1A, 0x0A]
  const IHDR: Bytes := [0x49, 0x48, 0x44, 0x52]
  const RIFF: Bytes := [0x52, 0x49, 0x46, 0x46]
  const WEBP: Bytes := [0x57, 0x45, 0x42, 0x50]
  const VP8_LOSSY: Bytes := [0x56, 0x50, 0x38, 0x20]
  const VP8L: Bytes := [0x56, 0x50, 0x38, 0x4C]
  const VP8X: Bytes := [0x56, 0x50, 0x38, 0x58]
  const FTYP: Bytes := [0x66, 0x74, 0x79, 0x70]
  const HEIF_BRANDS: seq<Bytes> := [
    [0x68, 0x65, 0x69, 0x63], [0x68, 0x65, 0x69, 0x78], [0x68, 0x65, 0x76, 0x63], [0x68, 0x65, 0x76, 0x78],
    [0x6D, 0x69, 0x66, 0x31], [0x6D, 0x73, 0x66, 0x31]]

  function SniffPng(b: Bytes): Option<Header>
  {
    if |b| < 24 || b[..8] != PNG_MAGIC || b[12..16] != IHDR then None
    else Some(Header("png", Be32(b, 16), Be32(b, 20)))
  }

  function SniffWebp(b: Bytes): Option<Header>
  {
    if |b| < 30 || b[0..4] != RIFF || b[8..12] != WEBP then None
    else if b[12..16] == VP8_LOSSY then
      if b[23..26] != [0x9D, 0x01, 0x2A] then None
      else Some(Header("webp", Le16(b, 26) % 0x4000, Le16(b, 28) % 0x4000))
    else if b[12..16] == VP8L then
      if b[20] != 0x2F then None
      else Some(Header("webp", Le32(b, 21) % 0x4000 + 1, Le32(b, 21) / 0x4000 % 0x4000 + 1))
    else if b[12..16] == VP8X then Some(Header("webp", 1 + Le24(b, 24), 1 + Le24(b, 27)))
    else None
  }

  predicate IsHeic(b: Bytes)
  {
    |b| >= 16 && b[4..8] == FTYP && b[8..12] in HEIF_BRANDS
  }

  function SniffHeic(b: Bytes, size: HeicSize): Option<Header>
  {
    if IsHeic(b) then size(b) else None
  }

  // --- JPEG -----------------------------------------------------------------------------

  predicate IsJpeg(b: Bytes) { |b| >= 4 && b[0] == 0xFF && b[1] == 0xD8 }

  /** A marker that stands alone, without a length. */
  predicate Standalone(marker: Byte) { marker == 0x01 || 0xD0 <= marker <= 0xD9 }

  /** SOF0 to SOF15, except DHT, JPG and DAC. */
  predicate IsFrame(marker: Byte)
  {
    0xC0 <= marker <= 0xCF && marker != 0xC4 && marker != 0xC8 && marker != 0xCC
  }

  function FrameHeader(b: Bytes, at: nat): Header
    requires at + 9 < |b|
  {
    Header("jpg", Be16(b, at + 7), Be16(b, at + 5))
  }

  /** Where the walk stands after the marker at a position, or what it decides there. */
  datatype Step = Decided(verdict: Verdict) | Next(at: nat)

  function JpegStep(b: Bytes, at: nat): (s: Step)
    requires at + 3 < |b|
    ensures s.Next? ==> s.at > at
  {
    if b[at] != 0xFF then Decided(NotAnImage)
    else if b[at + 1] == 0xFF then Next(at + 1)
    else if Standalone(b[at + 1]) then Next(at + 2)
    else if Be16(b, at + 2) < 2 then Decided(NotAnImage)
    else if IsFrame(b[at + 1]) && at + 9 < |b| then Decided(Measured(FrameHeader(b, at)))
    else Next(at + 2 + Be16(b, at + 2))
  }

  /** The segment walk from a position on. */
  function JpegFrom(b: Bytes, at: nat): Verdict
    decreases |b| - at
  {
    if at + 3 >= |b| then BeyondWindow
    else
      match JpegStep(b, at)
      case Decided(v) => v
      case Next(n) => JpegFrom(b, n)
  }

  method SniffJpeg(b: Bytes) returns (v: Verdict)
    ensures v == (if IsJpeg(b) then JpegFrom(b, 2) else NotAnImage)
  {
    if |b| < 4 || b[0] != 0xFF || b[1] != 0xD8 {
      return NotAnImage;
    }
    var at := 2;
    while at + 3 < |b|
      invariant JpegFrom(b, at) == JpegFrom(b, 2)
      decreases |b| - at
    {
      if b[at] != 0xFF {
        return NotAnImage;
      }
      var marker := b[at + 1];
      if marker == 0xFF {
        at := at + 1;
        continue;
      }
      if marker == 0x01 || 0xD0 <= marker <= 0xD9 {
        at := at + 2;
        continue;
      }
      var length := Be16(b, at + 2);
      if length < 2 {
        return NotAnImage;
      }
      var frame := 0xC0 <= marker <= 0xCF && !(marker == 0xC4 || marker == 0xC8 || marker == 0xCC);
      if frame && at + 9 < |b| {
        return Measured(Header("jpg", Be16(b, at + 7), Be16(b, at + 5)));
      }
      at := at + 2 + length;
    }
    v := BeyondWindow;
  }

  // --- All four -------------------------------------------------------------------------

  function Sniffed(b: Bytes, size: HeicSize): Verdict
  {
    if SniffPng(b).Some? then Measured(SniffPng(b).value)
    else if IsJpeg(b) && JpegFrom(b, 2) != NotAnImage then JpegFrom(b, 2)
    else if SniffWebp(b).Some? then Measured(SniffWebp(b).value)
    else if SniffHeic(b, size).Some? then Measured(SniffHeic(b, size).value)
    else NotAnImage
  }

  method SniffHead(b: Bytes, size: HeicSize) returns (v: Verdict)
    ensures v == Sniffed(b, size)
  {
    hide SniffPng, SniffWebp, SniffHeic, JpegFrom, IsJpeg;
    var png := SniffPng(b);
    if png.Some? {
      return Measured(png.value);
    }
    var jpeg := SniffJpeg(b);
    match jpeg
    case Measured(header) => return Measured(header);
    case BeyondWindow => return BeyondWindow;
    case NotAnImage =>
    var webp := SniffWebp(b);
    if webp.Some? {
      return Measured(webp.value);
    }
    var heic := SniffHeic(b, size);
    v := if heic.Some? then Measured(heic.value) else NotAnImage;
  }

  // --- A longer prefix of the same bytes ------------------------------------------------

  /** What a walk over fewer bytes finds at a marker, a walk over more finds too, unless it is a frame cut off. */
  lemma StepExtends(b: Bytes, m: nat, at: nat)
    requires at + 3 < m <= |b|
    ensures
      JpegStep(b[..m], at) == JpegStep(b, at)
      || (b[at] == 0xFF && IsFrame(b[at + 1]) && Be16(b, at + 2) >= 2 && m <= at + 9 < |b|
          && JpegStep(b[..m], at) == Next(at + 2 + Be16(b, at + 2)))
  {
    assert forall i :: 0 <= i < m ==> b[..m][i] == b[i];
  }

  /** The first complete frame header on the walk from a position: where it is. */
  function FrameFrom(b: Bytes, at: nat): (a: Option<nat>)
    ensures a.Some? ==> at <= a.value && a.value + 9 < |b| && Be16(b, a.value + 2) >= 2
    ensures a.Some? <==> JpegFrom(b, at).Measured?
    decreases |b| - at
  {
    if at + 3 >= |b| then None
    else
      match JpegStep(b, at)
      case Decided(v) => if v.Measured? then Some(at) else None
      case Next(n) => FrameFrom(b, n)
  }

  /**
   A frame header that the first m bytes cut off, and that declares so short a segment that a walk over
   those bytes goes on inside it and finds no marker there.
   */
  predicate Misread(b: Bytes, m: nat)
  {
    IsJpeg(b) && m <= |b| && FrameFrom(b, 2).Some? && MisreadAt(b, m, FrameFrom(b, 2).value)
  }

  predicate MisreadAt(b: Bytes, m: nat, a: nat)
    requires a + 9 < |b| && m <= |b|
  {
    m <= a + 9 && JpegFrom(b[..m], a + 2 + Be16(b, a + 2)) == NotAnImage
  }

  /** Such a segment declares a length of 2 or 3, and only the two lengths just short of the header cut it off. */
  lemma MisreadIsShort(b: Bytes, m: nat)
    requires Misread(b, m)
    ensures
      var a := FrameFrom(b, 2).value;
      Be16(b, a + 2) < 4 && a + 8 <= m <= a + 9
  {
    hide JpegStep;
  }

  /** The walk over the first m bytes against the walk over all of them. */
  lemma {:induction false} WalkExtends(b: Bytes, m: nat, at: nat)
    requires m <= |b|
    ensures JpegFrom(b[..m], at).Measured? ==> JpegFrom(b, at) == JpegFrom(b[..m], at)
    ensures
      JpegFrom(b[..m], at) == NotAnImage <==>
        || (JpegFrom(b, at) == NotAnImage && JpegFrom(b[..m], at) != BeyondWindow)
        || (FrameFrom(b, at).Some? && MisreadAt(b, m, FrameFrom(b, at).value))
    decreases |b| - at
  {
    hide IsFrame, Standalone, FrameHeader, Be16, JpegStep;
    var p := b[..m];
    if at + 3 < m {
      StepExtends(b, m, at);
      var s := JpegStep(p, at);
      if s == JpegStep(b, at) {
        if s.Next? {
          WalkExtends(b, m, s.at);
        } else {
          DecidedEarly(b, m, at);
        }
      } else {
        FrameIsDecided(b, at);
        assert !FrameFrom(p, s.at).Some?;
      }
    } else if FrameFrom(b, at).Some? {
      var a := FrameFrom(b, at).value;
      assert JpegFrom(p, a + 2 + Be16(b, a + 2)) == BeyondWindow;
    }
  }

  lemma FrameIsDecided(b: Bytes, at: nat)
    requires at + 9 < |b| && b[at] == 0xFF && IsFrame(b[at + 1]) && Be16(b, at + 2) >= 2
    ensures JpegStep(b, at) == Decided(Measured(FrameHeader(b, at)))
  {
  }

  /** A walk that is decided at its first marker decides the same over a prefix that holds the decision. */
  lemma DecidedEarly(b: Bytes, m: nat, at: nat)
    requires at + 3 < m <= |b| && JpegStep(b[..m], at) == JpegStep(b, at) && JpegStep(b, at).Decided?
    ensures FrameFrom(b, at).Some? ==> !MisreadAt(b, m, FrameFrom(b, at).value)
  {
    hide IsFrame, Standalone, FrameHeader, Be16;
  }
}
