/** The TIM2 segment format as pure functions: the 0x30-byte little-endian header, the
    two packed bytes inside it (depth and clut format), decoding a whole segment and
    encoding one back, with the round trips between the two.

    Layout of a segment: header (0x30 bytes), user data (header size - 0x30 bytes),
    image data (data size bytes), palette data (palette size bytes). */
module Tim2Header {
  import opened ByteCodec
  import opened Results
  import opened Textures

  /** Length of the fixed part of the header. */
  const FixedHeaderLength: nat := 0x30

  /** The bit depths a segment can have. */
  predicate IsBpp(bpp: int) {
    bpp == 4 || bpp == 8 || bpp == 16 || bpp == 24 || bpp == 32
  }

  /** Bits per pixel of a depth byte; only the bytes 1 to 5 have one. */
  function BppOfDepth(depth: byte): (bpp: Option<byte>)
    ensures bpp.Some? <==> 1 <= depth <= 5
    ensures bpp.Some? ==> IsBpp(bpp.value)
  {
    match depth
    case 1 => Some(16)
    case 2 => Some(24)
    case 3 => Some(32)
    case 4 => Some(4)
    case 5 => Some(8)
    case _ => None
  }

  /** The depth byte written for a bit depth: the inverse of `BppOfDepth`. */
  function DepthOfBpp(bpp: byte): (depth: Option<byte>)
    ensures depth.Some? <==> IsBpp(bpp)
    ensures depth.Some? ==> BppOfDepth(depth.value) == Some(bpp)
  {
    match bpp
    case 4 => Some(4)
    case 8 => Some(5)
    case 16 => Some(1)
    case 24 => Some(2)
    case 32 => Some(3)
    case _ => None
  }

  /** The two tables are inverse bijections between {1, 2, 3, 4, 5} and {16, 24, 32, 4, 8}. */
  lemma LemmaDepthBijection(depth: byte, bpp: byte)
    ensures BppOfDepth(depth) == Some(bpp) <==> DepthOfBpp(bpp) == Some(depth)
  {
  }

  /** The two fields packed in the clut-format byte. */
  datatype ClutFormat = ClutFormat(linearPalette: bool, colorSize: int)

  /** Bit 7 is the linear-palette flag. The palette entry size is `bpp / 8` for direct
      colour and the low seven bits plus one for indexed colour. */
  function UnpackClut(clut: byte, bpp: byte): (c: ClutFormat)
    ensures c.linearPalette <==> clut >= 0x80
    ensures bpp > 8 ==> c.colorSize == bpp / 8
    ensures bpp <= 8 ==> 1 <= c.colorSize <= 0x80 && PackClut(bpp, c) == clut
  {
    ClutFormat(clut >= 0x80, if bpp > 8 then bpp / 8 else clut % 0x80 + 1)
  }

  /** `x | 0x80` on a byte. */
  function SetBit7(x: byte): byte
  {
    if x >= 0x80 then x else x + 0x80
  }

  /** The byte written for a clut format: the entry size less one, truncated to a byte,
      for indexed colour and zero for direct colour, with bit 7 set for a linear
      palette. An entry size above 0x80 spills into bit 7. */
  function PackClut(bpp: byte, c: ClutFormat): (clut: byte)
    ensures c.linearPalette ==> clut >= 0x80
    ensures bpp > 8 ==> clut == if c.linearPalette then 0x80 else 0
    ensures bpp <= 8 && 1 <= c.colorSize <= 0x80 ==> clut % 0x80 == c.colorSize - 1
  {
    var low := if bpp > 8 then 0 else Wrap8(c.colorSize - 1);
    if c.linearPalette then SetBit7(low) else low
  }

  /** For indexed colour and an entry size of 1 to 0x80, packing and unpacking give the
      clut format back. */
  lemma {:induction false} LemmaClutRoundTrip(bpp: byte, c: ClutFormat)
    requires bpp <= 8 && 1 <= c.colorSize <= 0x80
    ensures UnpackClut(PackClut(bpp, c), bpp) == c
  {
    var clut := PackClut(bpp, c);
    assert clut % 0x80 == c.colorSize - 1;
    assert (clut >= 0x80) == c.linearPalette;
  }

  /** The fields of the fixed header, in file order. */
  datatype RawHeader = RawHeader(
    totalSize: u32,
    paletteSize: u32,
    dataSize: u32,
    headerSize: u16,
    colorEntries: u16,
    format: byte,
    mipmapCount: byte,
    clutFormat: byte,
    depth: byte,
    width: u16,
    height: u16,
    gsTex0: seq<byte>,
    gsTex1: seq<byte>,
    gsRegs: u32,
    gsTexClut: u32)

  /** The fields stored in the first 0x30 bytes. */
  function ParseHeader(s: seq<byte>): (h: RawHeader)
    requires |s| >= FixedHeaderLength
    ensures |h.gsTex0| == 8 && |h.gsTex1| == 8
  {
    RawHeader(
      U32At(s, 0x00), U32At(s, 0x04), U32At(s, 0x08), U16At(s, 0x0C), U16At(s, 0x0E),
      s[0x10], s[0x11], s[0x12], s[0x13], U16At(s, 0x14), U16At(s, 0x16),
      s[0x18..0x20], s[0x20..0x28], U32At(s, 0x28), U32At(s, 0x2C))
  }

  /** The bytes of a header, every field written in file order; the two register blocks
      are written verbatim whatever their length. */
  function HeaderBytes(h: RawHeader): (s: seq<byte>)
    ensures |s| == 0x20 + |h.gsTex0| + |h.gsTex1|
  {
    U32Le(h.totalSize) + U32Le(h.paletteSize) + U32Le(h.dataSize)
    + U16Le(h.headerSize) + U16Le(h.colorEntries)
    + [h.format, h.mipmapCount, h.clutFormat, h.depth]
    + U16Le(h.width) + U16Le(h.height)
    + h.gsTex0 + h.gsTex1
    + U32Le(h.gsRegs) + U32Le(h.gsTexClut)
  }

  /** Writing a header with 8-byte register blocks and parsing it back gives it back,
      whatever follows it. */
  lemma {:induction false} LemmaParseHeaderBytes(h: RawHeader, rest: seq<byte>)
    requires |h.gsTex0| == 8 && |h.gsTex1| == 8
    ensures |HeaderBytes(h)| == FixedHeaderLength
    ensures ParseHeader(HeaderBytes(h) + rest) == h
  {
    var s := HeaderBytes(h) + rest;
    var b := HeaderBytes(h);
    assert s[..0x30] == b;
    assert b[0x18..0x20] == h.gsTex0;
    assert b[0x20..0x28] == h.gsTex1;
  }

  /** Parsing the first 0x30 bytes and writing the header back gives the same bytes. */
  lemma {:induction false} LemmaHeaderBytesOfParse(s: seq<byte>)
    requires |s| >= FixedHeaderLength
    ensures HeaderBytes(ParseHeader(s)) == s[..FixedHeaderLength]
  {
    var h := ParseHeader(s);
    LemmaU32LeOfAt(s, 0x00);
    LemmaU32LeOfAt(s, 0x04);
    LemmaU32LeOfAt(s, 0x08);
    LemmaU16LeOfAt(s, 0x0C);
    LemmaU16LeOfAt(s, 0x0E);
    LemmaU16LeOfAt(s, 0x14);
    LemmaU16LeOfAt(s, 0x16);
    LemmaU32LeOfAt(s, 0x28);
    LemmaU32LeOfAt(s, 0x2C);
    assert s[0x10..0x14] == [h.format, h.mipmapCount, h.clutFormat, h.depth];
    assert s[..0x04] == s[0x00..0x04];
    LemmaPrefixSplit(s, 0x04, 0x08);
    LemmaPrefixSplit(s, 0x08, 0x0C);
    LemmaPrefixSplit(s, 0x0C, 0x0E);
    LemmaPrefixSplit(s, 0x0E, 0x10);
    LemmaPrefixSplit(s, 0x10, 0x14);
    LemmaPrefixSplit(s, 0x14, 0x16);
    LemmaPrefixSplit(s, 0x16, 0x18);
    LemmaPrefixSplit(s, 0x18, 0x20);
    LemmaPrefixSplit(s, 0x20, 0x28);
    LemmaPrefixSplit(s, 0x28, 0x2C);
    LemmaPrefixSplit(s, 0x2C, 0x30);
  }

  /** The fixed header depends only on its own 0x30 bytes: reading them out of a stream
      first and parsing them there gives the header of the stream's remaining input. */
  lemma LemmaParseHeaderSlice(data: seq<byte>, start: nat, fullHeader: seq<byte>)
    requires start + FixedHeaderLength <= |data|
    requires fullHeader == data[start..start + FixedHeaderLength]
    ensures ParseHeader(fullHeader) == ParseHeader(data[start..])
  {
    var s := data[start..];
    assert fullHeader == s[..FixedHeaderLength];
    assert fullHeader[0x18..0x20] == s[0x18..0x20];
    assert fullHeader[0x20..0x28] == s[0x20..0x28];
  }

  /** A prefix is the shorter prefix followed by the slice between the two ends. */
  lemma LemmaPrefixSplit(s: seq<byte>, j: nat, k: nat)
    requires j <= k <= |s|
    ensures s[..k] == s[..j] + s[j..k]
  {
  }

  /** Length of the user data that follows the fixed header: the header size less
      0x30, or nothing when the header size is not above 0x30. */
  function UserDataLength(h: RawHeader): nat
  {
    if h.headerSize > FixedHeaderLength then h.headerSize - FixedHeaderLength else 0
  }

  /** A header that decoding does not reject. */
  predicate Accepted(h: RawHeader) {
    h.mipmapCount <= 1 && BppOfDepth(h.depth).Some?
  }

  /** Bytes a segment occupies: header, user data, image and palette. */
  function SegmentLength(h: RawHeader): nat
  {
    FixedHeaderLength + UserDataLength(h) + h.dataSize + h.paletteSize
  }

  /** The input holds the whole header and, when the header is accepted, the user data. */
  predicate HoldsHeader(s: seq<byte>) {
    |s| >= FixedHeaderLength && (Accepted(ParseHeader(s)) ==>
      |s| >= FixedHeaderLength + UserDataLength(ParseHeader(s)))
  }

  /** The input holds the whole header and, when the header is accepted, the rest of the segment. */
  predicate HoldsSegment(s: seq<byte>) {
    |s| >= FixedHeaderLength && (Accepted(ParseHeader(s)) ==> |s| >= SegmentLength(ParseHeader(s)))
  }

  /** What reading a header yields besides the parameters. */
  datatype SegmentInfo = SegmentInfo(parameters: Tim2Parameters, dataSize: u32, paletteSize: u32, colorEntries: u16)

  /** Reading the header and user data at the start of `s`. More than one mipmap level
      is rejected first, then an unknown depth byte. The stored total size is not used. */
  function DecodeHeader(s: seq<byte>, swizzled: bool): (r: Result<SegmentInfo>)
    requires HoldsHeader(s)
    ensures r.Success? <==> Accepted(ParseHeader(s))
    ensures r.Success? ==> |r.value.parameters.userData| == UserDataLength(ParseHeader(s))
  {
    var h := ParseHeader(s);
    if h.mipmapCount > 1 then Failure(MipmapsNotSupported)
    else match BppOfDepth(h.depth)
      case None => Failure(IllegalBitDepth)
      case Some(bpp) =>
        var clut := UnpackClut(h.clutFormat, bpp);
        var userData := s[FixedHeaderLength..FixedHeaderLength + UserDataLength(h)];
        Success(SegmentInfo(
          Tim2Parameters(h.width, h.height, bpp, clut.colorSize, h.mipmapCount, h.format,
            clut.linearPalette, swizzled, h.gsTex0, h.gsTex1, h.gsRegs, h.gsTexClut, userData),
          h.dataSize, h.paletteSize, h.colorEntries))
  }

  /** What decoding an accepted header yields, field by field. */
  lemma LemmaDecodedHeader(s: seq<byte>, swizzled: bool, h: RawHeader, bpp: byte, clut: ClutFormat, userData: seq<byte>)
    requires HoldsHeader(s) && ParseHeader(s) == h
    requires h.mipmapCount <= 1 && BppOfDepth(h.depth) == Some(bpp)
    requires clut == UnpackClut(h.clutFormat, bpp)
    requires userData == s[FixedHeaderLength..FixedHeaderLength + UserDataLength(h)]
    ensures DecodeHeader(s, swizzled) == Success(SegmentInfo(
      Tim2Parameters(h.width, h.height, bpp, clut.colorSize, h.mipmapCount, h.format,
        clut.linearPalette, swizzled, h.gsTex0, h.gsTex1, h.gsRegs, h.gsTexClut, userData),
      h.dataSize, h.paletteSize, h.colorEntries))
  {
  }

  /** Decoding a whole segment: the header, then exactly data-size image bytes, then
      exactly palette-size palette bytes. */
  function DecodeSegment(s: seq<byte>, swizzled: bool): (r: Result<Tim2SegmentData>)
    requires HoldsSegment(s)
    ensures r.Success? <==> Accepted(ParseHeader(s))
    ensures ParseHeader(s).mipmapCount > 1 ==> r == Failure(MipmapsNotSupported)
    ensures ParseHeader(s).mipmapCount <= 1 && !(1 <= ParseHeader(s).depth <= 5) ==>
      r == Failure(IllegalBitDepth)
    ensures r.Success? ==>
      var h, p := ParseHeader(s), r.value.parameters;
      && p.swizzled == swizzled
      && IsBpp(p.bpp) && (p.bpp > 8 ==> p.colorSize == p.bpp / 8)
      && (p.bpp <= 8 ==> 1 <= p.colorSize <= 0x80)
      && s[FixedHeaderLength..SegmentLength(h)] == p.userData + r.value.imageData + r.value.paletteData
      && |r.value.imageData| == h.dataSize && |r.value.paletteData| == h.paletteSize
  {
    var info :- DecodeHeader(s, swizzled);
    var at := FixedHeaderLength + |info.parameters.userData|;
    var imageEnd := at + info.dataSize;
    var d := Tim2SegmentData(s[at..imageEnd], s[imageEnd..imageEnd + info.paletteSize],
      info.colorEntries, info.parameters);
    LemmaSliceSplit(s, FixedHeaderLength, at, imageEnd, imageEnd + info.paletteSize);
    Success(d)
  }

  /** Decoding a segment whose header decodes to `info`: the image and palette bytes
      follow the user data, and the segment ends after them. */
  lemma LemmaDecodedSegment(s: seq<byte>, swizzled: bool, info: SegmentInfo, imageData: seq<byte>, paletteData: seq<byte>)
    requires HoldsSegment(s) && HoldsHeader(s) && DecodeHeader(s, swizzled) == Success(info)
    requires var at := FixedHeaderLength + |info.parameters.userData|;
      && at + info.dataSize + info.paletteSize <= |s|
      && imageData == s[at..at + info.dataSize]
      && paletteData == s[at + info.dataSize..at + info.dataSize + info.paletteSize]
    ensures DecodeSegment(s, swizzled) == Success(Tim2SegmentData(imageData, paletteData, info.colorEntries, info.parameters))
    ensures FixedHeaderLength + |info.parameters.userData| + info.dataSize + info.paletteSize == SegmentLength(ParseHeader(s))
  {
  }

  /** C#'s integer division of a non-negative number, rounding toward zero. */
  function TruncDiv(a: nat, b: int): int
    requires b != 0
  {
    if b > 0 then a / b else -(a / -b)
  }

  /** The header written for given parameters and image and palette lengths. The sizes
      are recomputed rather than taken from anywhere: the palette entry count divides
      first (a zero entry size fails), then the bit depth is mapped back to a depth
      byte (an unknown one fails). */
  function HeaderFor(p: Tim2Parameters, imageLength: nat, paletteLength: nat): (r: Result<RawHeader>)
    ensures r.Failure? <==> p.colorSize == 0 || !IsBpp(p.bpp)
    ensures p.colorSize == 0 ==> r == Failure(DivisionByZero)
    ensures p.colorSize != 0 && !IsBpp(p.bpp) ==> r == Failure(UnexpectedBpp)
    ensures r.Success? ==>
      var h := r.value;
      && BppOfDepth(h.depth) == Some(p.bpp)
      && (p.linearPalette ==> h.clutFormat >= 0x80)
      && (p.bpp > 8 || 1 <= p.colorSize <= 0x80 ==> UnpackClut(h.clutFormat, p.bpp).linearPalette == p.linearPalette)
      && h.mipmapCount == p.mipmapCount && h.format == p.format
      && h.gsTex0 == p.gsTex0 && h.gsTex1 == p.gsTex1
      && (imageLength < 0x1_0000_0000 ==> h.dataSize == imageLength)
      && (paletteLength < 0x1_0000_0000 ==> h.paletteSize == paletteLength)
      && (FixedHeaderLength + |p.userData| < 0x1_0000 ==> UserDataLength(h) == |p.userData|)
      && (FixedHeaderLength + |p.userData| < 0x1_0000
          && FixedHeaderLength + |p.userData| + imageLength + paletteLength < 0x1_0000_0000
          ==> h.totalSize == SegmentLength(h))
  {
    if p.colorSize == 0 then Failure(DivisionByZero)
    else match DepthOfBpp(p.bpp)
      case None => Failure(UnexpectedBpp)
      case Some(depth) =>
        Success(RawHeader(
          Wrap32(FixedHeaderLength + |p.userData| + imageLength + paletteLength),
          Wrap32(paletteLength),
          Wrap32(imageLength),
          Wrap16(FixedHeaderLength + |p.userData|),
          Wrap16(TruncDiv(paletteLength, p.colorSize)),
          p.format,
          p.mipmapCount,
          PackClut(p.bpp, ClutFormat(p.linearPalette, p.colorSize)),
          depth,
          Wrap16(p.width),
          Wrap16(p.height),
          p.gsTex0, p.gsTex1, p.gsRegs, p.gsTexClut))
  }

  /** The header bytes followed by the user data. */
  function EncodeHeader(p: Tim2Parameters, imageLength: nat, paletteLength: nat): (r: Result<seq<byte>>)
    ensures r.Failure? <==> p.colorSize == 0 || !IsBpp(p.bpp)
    ensures r.Success? ==> |r.value| == 0x20 + |p.gsTex0| + |p.gsTex1| + |p.userData|
    ensures r.Success? && |p.gsTex0| == 8 && |p.gsTex1| == 8 ==>
      && ParseHeader(r.value) == HeaderFor(p, imageLength, paletteLength).value
      && r.value[FixedHeaderLength..] == p.userData
  {
    var h :- HeaderFor(p, imageLength, paletteLength);
    var s := HeaderBytes(h) + p.userData;
    assert |p.gsTex0| == 8 && |p.gsTex1| == 8 ==> ParseHeader(s) == h by {
      if |p.gsTex0| == 8 && |p.gsTex1| == 8 {
        LemmaParseHeaderBytes(h, p.userData);
      }
    }
    Success(s)
  }

  /** Encoding a whole segment: header, user data, image, palette. It fails exactly for
      a zero entry size or an unknown bit depth, the former taking precedence. */
  function EncodeSegment(p: Tim2Parameters, imageData: seq<byte>, paletteData: seq<byte>): (r: Result<seq<byte>>)
    ensures r.Failure? <==> p.colorSize == 0 || !IsBpp(p.bpp)
    ensures p.colorSize == 0 ==> r == Failure(DivisionByZero)
    ensures p.colorSize != 0 && !IsBpp(p.bpp) ==> r == Failure(UnexpectedBpp)
  {
    var header :- EncodeHeader(p, |imageData|, |paletteData|);
    Success(header + imageData + paletteData)
  }

  /** What an encoded segment declares about itself: its own length as total size, the
      image and palette lengths, 0x30 plus the user data length as header size, and the
      palette length over the entry size as entry count, each truncated to its field;
      after the header come the user data, the image and the palette verbatim. */
  lemma {:induction false} LemmaEncodedSizes(p: Tim2Parameters, imageData: seq<byte>, paletteData: seq<byte>)
    requires |p.gsTex0| == 8 && |p.gsTex1| == 8
    requires EncodeSegment(p, imageData, paletteData).Success?
    ensures var s := EncodeSegment(p, imageData, paletteData).value;
      var h := ParseHeader(s);
      && |s| == FixedHeaderLength + |p.userData| + |imageData| + |paletteData|
      && h.totalSize == Wrap32(|s|)
      && h.dataSize == Wrap32(|imageData|)
      && h.paletteSize == Wrap32(|paletteData|)
      && h.headerSize == Wrap16(FixedHeaderLength + |p.userData|)
      && h.colorEntries == Wrap16(TruncDiv(|paletteData|, p.colorSize))
      && s[FixedHeaderLength..] == p.userData + imageData + paletteData
  {
    var h := HeaderFor(p, |imageData|, |paletteData|).value;
    var tail := p.userData + imageData + paletteData;
    assert EncodeSegment(p, imageData, paletteData).value == HeaderBytes(h) + tail;
    LemmaParseHeaderBytes(h, tail);
  }

  /** Parameters, image and palette that encoding writes and decoding reads back unchanged. */
  predicate Encodable(p: Tim2Parameters, imageLength: nat, paletteLength: nat) {
    && 0 <= p.width < 0x1_0000 && 0 <= p.height < 0x1_0000
    && IsBpp(p.bpp) && p.mipmapCount <= 1
    && (if p.bpp > 8 then p.colorSize == p.bpp / 8 else 1 <= p.colorSize <= 0x80)
    && |p.gsTex0| == 8 && |p.gsTex1| == 8
    && FixedHeaderLength + |p.userData| < 0x1_0000
    && imageLength < 0x1_0000_0000 && paletteLength < 0x1_0000_0000
  }

  /** The header written for encodable parameters is accepted on decoding and carries
      every parameter back. */
  lemma {:induction false} LemmaHeaderForEncodable(p: Tim2Parameters, imageLength: nat, paletteLength: nat)
    requires Encodable(p, imageLength, paletteLength)
    ensures HeaderFor(p, imageLength, paletteLength).Success?
    ensures var h := HeaderFor(p, imageLength, paletteLength).value;
      && Accepted(h)
      && BppOfDepth(h.depth) == Some(p.bpp)
      && UnpackClut(h.clutFormat, p.bpp) == ClutFormat(p.linearPalette, p.colorSize)
      && UserDataLength(h) == |p.userData|
      && h.dataSize == imageLength && h.paletteSize == paletteLength
      && h.colorEntries == Wrap16(paletteLength / p.colorSize)
      && h.width == p.width && h.height == p.height
  {
    var depth := DepthOfBpp(p.bpp).value;
    var clut := PackClut(p.bpp, ClutFormat(p.linearPalette, p.colorSize));
    assert TruncDiv(paletteLength, p.colorSize) == paletteLength / p.colorSize;
    var h := RawHeader(
      Wrap32(FixedHeaderLength + |p.userData| + imageLength + paletteLength),
      paletteLength, imageLength, FixedHeaderLength + |p.userData|,
      Wrap16(paletteLength / p.colorSize), p.format, p.mipmapCount, clut, depth,
      p.width, p.height, p.gsTex0, p.gsTex1, p.gsRegs, p.gsTexClut);
    assert p.colorSize != 0 && DepthOfBpp(p.bpp) == Some(depth);
    assert HeaderFor(p, imageLength, paletteLength) == Success(h);
    if p.bpp <= 8 {
      LemmaClutRoundTrip(p.bpp, ClutFormat(p.linearPalette, p.colorSize));
    }
    assert BppOfDepth(depth) == Some(p.bpp);
  }

  /** Decoding unfolded: the parameters and the three byte ranges a successful decode takes. */
  lemma {:induction false} LemmaDecodeSegmentFields(s: seq<byte>, swizzled: bool)
    requires HoldsSegment(s) && Accepted(ParseHeader(s))
    ensures var h := ParseHeader(s);
      var bpp := BppOfDepth(h.depth).value;
      var clut := UnpackClut(h.clutFormat, bpp);
      var at := FixedHeaderLength + UserDataLength(h);
      DecodeSegment(s, swizzled) == Success(Tim2SegmentData(
        s[at..at + h.dataSize],
        s[at + h.dataSize..SegmentLength(h)],
        h.colorEntries,
        Tim2Parameters(h.width, h.height, bpp, clut.colorSize, h.mipmapCount, h.format,
          clut.linearPalette, swizzled, h.gsTex0, h.gsTex1, h.gsRegs, h.gsTexClut,
          s[FixedHeaderLength..at])))
  {
  }

  /** Decoding a header followed by user data, image and palette of the lengths it
      declares takes exactly those three parts. */
  lemma {:induction false} LemmaDecodeParts(h: RawHeader, userData: seq<byte>, imageData: seq<byte>,
                                            paletteData: seq<byte>, rest: seq<byte>, swizzled: bool)
    requires |h.gsTex0| == 8 && |h.gsTex1| == 8 && Accepted(h)
    requires UserDataLength(h) == |userData|
    requires h.dataSize == |imageData| && h.paletteSize == |paletteData|
    ensures var s := HeaderBytes(h) + userData + imageData + paletteData + rest;
      var bpp := BppOfDepth(h.depth).value;
      var clut := UnpackClut(h.clutFormat, bpp);
      && HoldsSegment(s)
      && DecodeSegment(s, swizzled) == Success(Tim2SegmentData(imageData, paletteData, h.colorEntries,
           Tim2Parameters(h.width, h.height, bpp, clut.colorSize, h.mipmapCount, h.format,
             clut.linearPalette, swizzled, h.gsTex0, h.gsTex1, h.gsRegs, h.gsTexClut, userData)))
  {
    var tail := userData + imageData + paletteData + rest;
    var s := HeaderBytes(h) + userData + imageData + paletteData + rest;
    LemmaAppendParts(HeaderBytes(h), userData, imageData, paletteData, rest);
    LemmaParseHeaderBytes(h, tail);
    LemmaDecodeSegmentFields(s, swizzled);
  }

  /** The parts of a concatenation of five are found at their running offsets. */
  lemma LemmaAppendParts<T>(a: seq<T>, b: seq<T>, c: seq<T>, d: seq<T>, e: seq<T>)
    ensures var s := a + b + c + d + e;
      && s == a + (b + c + d + e)
      && s[|a|..|a| + |b|] == b
      && s[|a| + |b|..|a| + |b| + |c|] == c
      && s[|a| + |b| + |c|..|a| + |b| + |c| + |d|] == d
  {
    var s := a + b + c + d + e;
    assert s == a + (b + c + d + e);
  }

  /** Decoding an encoded segment gives back the parameters, except that `swizzled`
      comes from the decoder, and the same image, palette and user data; the entry count
      it reports is the palette length over the entry size, truncated to 16 bits. */
  lemma {:induction false} LemmaDecodeEncode(p: Tim2Parameters, imageData: seq<byte>, paletteData: seq<byte>,
                                             swizzled: bool, rest: seq<byte>)
    requires Encodable(p, |imageData|, |paletteData|)
    ensures EncodeSegment(p, imageData, paletteData).Success?
    ensures var s := EncodeSegment(p, imageData, paletteData).value + rest;
      && HoldsSegment(s)
      && DecodeSegment(s, swizzled) == Success(Tim2SegmentData(imageData, paletteData,
           Wrap16(|paletteData| / p.colorSize), p.(swizzled := swizzled)))
  {
    LemmaHeaderForEncodable(p, |imageData|, |paletteData|);
    var h := HeaderFor(p, |imageData|, |paletteData|).value;
    assert EncodeSegment(p, imageData, paletteData).value == HeaderBytes(h) + p.userData + imageData + paletteData;
    LemmaDecodeParts(h, p.userData, imageData, paletteData, rest, swizzled);
  }

  /** The header that re-encoding a decoded segment writes: the stored one with the
      total size, header size and entry count recomputed and the clut byte re-packed.
      It equals the stored header exactly when the stored sizes are the recomputed
      ones, the header size is at least 0x30 and, for direct colour, the low seven
      bits of the clut byte are clear. */
  function Normalized(h: RawHeader): (n: RawHeader)
    requires Accepted(h)
    ensures n == h <==>
      && h.totalSize == Wrap32(SegmentLength(h))
      && h.headerSize >= FixedHeaderLength
      && h.colorEntries == Wrap16(h.paletteSize / UnpackClut(h.clutFormat, BppOfDepth(h.depth).value).colorSize)
      && (BppOfDepth(h.depth).value > 8 ==> h.clutFormat % 0x80 == 0)
  {
    var bpp := BppOfDepth(h.depth).value;
    var clut := UnpackClut(h.clutFormat, bpp);
    h.(totalSize := Wrap32(SegmentLength(h)),
       headerSize := FixedHeaderLength + UserDataLength(h),
       colorEntries := Wrap16(h.paletteSize / clut.colorSize),
       clutFormat := PackClut(bpp, clut))
  }

  /** The parameters decoding takes from an accepted header. */
  function DecodedParameters(h: RawHeader, userData: seq<byte>, swizzled: bool): Tim2Parameters
    requires Accepted(h)
  {
    var bpp := BppOfDepth(h.depth).value;
    var clut := UnpackClut(h.clutFormat, bpp);
    Tim2Parameters(h.width, h.height, bpp, clut.colorSize, h.mipmapCount, h.format,
      clut.linearPalette, swizzled, h.gsTex0, h.gsTex1, h.gsRegs, h.gsTexClut, userData)
  }

  /** The header written for decoded parameters is the normalized stored header. */
  lemma {:induction false} LemmaHeaderForDecoded(h: RawHeader, userData: seq<byte>, swizzled: bool)
    requires Accepted(h) && |userData| == UserDataLength(h)
    ensures HeaderFor(DecodedParameters(h, userData, swizzled), h.dataSize, h.paletteSize) == Success(Normalized(h))
  {
    var p := DecodedParameters(h, userData, swizzled);
    var clut := UnpackClut(h.clutFormat, p.bpp);
    assert DepthOfBpp(p.bpp) == Some(h.depth);
    assert p.colorSize == clut.colorSize > 0;
    assert TruncDiv(h.paletteSize, p.colorSize) == h.paletteSize / clut.colorSize;
    assert Wrap16(FixedHeaderLength + |p.userData|) == FixedHeaderLength + UserDataLength(h);
    assert Wrap16(p.width) == h.width && Wrap16(p.height) == h.height;
    assert Wrap32(h.paletteSize) == h.paletteSize && Wrap32(h.dataSize) == h.dataSize;
    var n := RawHeader(Wrap32(SegmentLength(h)), h.paletteSize, h.dataSize,
      FixedHeaderLength + UserDataLength(h), Wrap16(h.paletteSize / clut.colorSize),
      h.format, h.mipmapCount, PackClut(p.bpp, clut), h.depth, h.width, h.height,
      h.gsTex0, h.gsTex1, h.gsRegs, h.gsTexClut);
    assert Normalized(h) == n;
    assert HeaderFor(p, h.dataSize, h.paletteSize) == Success(n);
  }

  /** Re-encoding a decoded segment writes the normalized header followed by the stored
      user data, image and palette bytes. */
  lemma {:induction false} LemmaEncodeDecode(s: seq<byte>, swizzled: bool)
    requires HoldsSegment(s) && DecodeSegment(s, swizzled).Success?
    ensures Accepted(ParseHeader(s))
    ensures var d := DecodeSegment(s, swizzled).value;
      EncodeSegment(d.parameters, d.imageData, d.paletteData)
        == Success(HeaderBytes(Normalized(ParseHeader(s))) + s[FixedHeaderLength..SegmentLength(ParseHeader(s))])
  {
    var h := ParseHeader(s);
    LemmaDecodeSegmentFields(s, swizzled);
    var d := DecodeSegment(s, swizzled).value;
    var at := FixedHeaderLength + UserDataLength(h);
    assert d.parameters == DecodedParameters(h, s[FixedHeaderLength..at], swizzled);
    LemmaHeaderForDecoded(h, s[FixedHeaderLength..at], swizzled);
    var header := HeaderBytes(Normalized(h));
    assert |d.imageData| == h.dataSize && |d.paletteData| == h.paletteSize;
    assert EncodeHeader(d.parameters, |d.imageData|, |d.paletteData|) == Success(header + d.parameters.userData);
    var body := s[FixedHeaderLength..SegmentLength(h)];
    assert body == d.parameters.userData + d.imageData + d.paletteData;
    assert header + d.parameters.userData + d.imageData + d.paletteData == header + body;
  }

  /** A segment whose header is already normalized is re-encoded byte for byte. */
  lemma {:induction false} LemmaCanonicalRoundTrip(s: seq<byte>, swizzled: bool)
    requires HoldsSegment(s) && DecodeSegment(s, swizzled).Success?
    requires Normalized(ParseHeader(s)) == ParseHeader(s)
    ensures var d := DecodeSegment(s, swizzled).value;
      EncodeSegment(d.parameters, d.imageData, d.paletteData) == Success(s[..SegmentLength(ParseHeader(s))])
  {
    var h := ParseHeader(s);
    LemmaEncodeDecode(s, swizzled);
    LemmaHeaderBytesOfParse(s);
    assert s[..SegmentLength(h)] == s[..FixedHeaderLength] + s[FixedHeaderLength..SegmentLength(h)];
  }

  /** Conversely, a segment that is re-encoded byte for byte has a normalized header:
      together with the lemma above, exactly the segments with normalized headers
      survive decoding and encoding unchanged. */
  lemma {:induction false} LemmaRoundTripOnlyIfNormalized(s: seq<byte>, swizzled: bool)
    requires HoldsSegment(s) && DecodeSegment(s, swizzled).Success?
    requires var d := DecodeSegment(s, swizzled).value;
      EncodeSegment(d.parameters, d.imageData, d.paletteData) == Success(s[..SegmentLength(ParseHeader(s))])
    ensures Accepted(ParseHeader(s)) && Normalized(ParseHeader(s)) == ParseHeader(s)
  {
    var h := ParseHeader(s);
    LemmaEncodeDecode(s, swizzled);
    var n := Normalized(h);
    var header := HeaderBytes(n);
    LemmaParseHeaderBytes(n, []);
    assert header + s[FixedHeaderLength..SegmentLength(h)] == s[..SegmentLength(h)];
    assert header == s[..FixedHeaderLength];
    LemmaParseHeaderSlice(s, 0, s[..FixedHeaderLength]);
    assert header + [] == header;
  }
}
