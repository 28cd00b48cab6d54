/** The TIM2 segment serializer: reading a segment from a stream field by field, writing
    one back, exporting its metadata and one image per palette bank, and reading the
    metadata back. Every stream operation is proved to do what the pure functions of
    `Tim2Header` describe. */
module Tim2SegmentSerializer {
  import opened ByteCodec
  import opened Results
  import opened Textures
  import opened Metadata
  import opened Tim2Header

  /** What reading the metadata of a segment yields. */
  datatype MetadataInfo = MetadataInfo(parameters: Tim2Parameters, basename: string, palettesCount: int)

  /** A C# conversion of an unsigned 32-bit value to a signed one. */
  function ToInt32(x: u32): int
  {
    if x < 0x8000_0000 then x else x - 0x1_0000_0000
  }

  /** The entries that exporting a segment's metadata appends: one section holding the
      basename, the number of palette banks and the linear-palette flag as attributes,
      then the parameters as fields. */
  function Tim2MetadataEntries(p: Tim2Parameters, palettesCount: int, basename: string): (es: seq<Entry>)
    ensures |es| == 16 && SectionAt(es, 0, "TIM2Texture").Pass? && SectionEndAt(es, 15).Pass?
    ensures AsText(AttributeAt(es, 1, "Basename")) == Success(basename)
    ensures AsNumber(AttributeAt(es, 2, "Cluts")) == Success(palettesCount)
    ensures AsRaw(FieldAt(es, 14, "UserData")) == Success(p.userData)
  {
    [ Begin("TIM2Texture"),
      Attribute("Basename", Text(basename)),
      Attribute("Cluts", Number(palettesCount)),
      Attribute("LinearClut", Flag(p.linearPalette)),
      Field("Width", Number(p.width)),
      Field("Height", Number(p.height)),
      Field("Bpp", Number(p.bpp)),
      Field("ColorSize", Number(p.colorSize)),
      Field("MipmapCount", Number(p.mipmapCount)),
      Field("Format", Number(p.format)),
      Field("GsTEX0", Raw(p.gsTex0)),
      Field("GsTEX1", Raw(p.gsTex1)),
      Field("GsRegs", Number(ToInt32(p.gsRegs))),
      Field("GsTexClut", Number(ToInt32(p.gsTexClut))),
      Field("UserData", Raw(p.userData)),
      End ]
  }

  /** Reading the metadata section at `at`, in the order it is written: the section,
      its three attributes, the parameter fields, the end of the section. */
  function ParseTim2Metadata(es: seq<Entry>, at: nat, swizzled: bool): (r: Result<MetadataInfo>)
    ensures r.Failure? ==> r.error == UnexpectedMetadata
    ensures r.Success? ==>
      var p := r.value.parameters;
      && at + 16 <= |es| && es[at] == Begin("TIM2Texture") && es[at + 15] == End
      && es[at + 1] == Attribute("Basename", Text(r.value.basename))
      && es[at + 2] == Attribute("Cluts", Number(r.value.palettesCount))
      && es[at + 3] == Attribute("LinearClut", Flag(p.linearPalette))
      && es[at + 4] == Field("Width", Number(p.width))
      && es[at + 5] == Field("Height", Number(p.height))
      && es[at + 7] == Field("ColorSize", Number(p.colorSize))
      && es[at + 10] == Field("GsTEX0", Raw(p.gsTex0))
      && es[at + 11] == Field("GsTEX1", Raw(p.gsTex1))
      && es[at + 14] == Field("UserData", Raw(p.userData))
      && p.swizzled == swizzled
  {
    if SectionAt(es, at, "TIM2Texture").Fail? then Failure(UnexpectedMetadata) else
    var basename :- AsText(AttributeAt(es, at + 1, "Basename"));
    var palCount :- AsNumber(AttributeAt(es, at + 2, "Cluts"));
    var linear :- AsFlag(AttributeAt(es, at + 3, "LinearClut"));
    var parameters :- ParseTim2Fields(es, at + 4, linear, swizzled);
    if SectionEndAt(es, at + 15).Fail? then Failure(UnexpectedMetadata) else
    Success(MetadataInfo(parameters, basename, palCount))
  }

  /** Reading the eleven parameter fields from `at` on. Numbers read into byte and
      unsigned fields are truncated to their width; the linear-palette flag comes from
      the section's attribute and `swizzled` from the serializer. */
  function ParseTim2Fields(es: seq<Entry>, at: nat, linear: bool, swizzled: bool): (r: Result<Tim2Parameters>)
    ensures r.Failure? ==> r.error == UnexpectedMetadata
    ensures r.Success? ==>
      && at + 11 <= |es|
      && es[at] == Field("Width", Number(r.value.width))
      && es[at + 1] == Field("Height", Number(r.value.height))
      && es[at + 3] == Field("ColorSize", Number(r.value.colorSize))
      && es[at + 6] == Field("GsTEX0", Raw(r.value.gsTex0))
      && es[at + 7] == Field("GsTEX1", Raw(r.value.gsTex1))
      && es[at + 10] == Field("UserData", Raw(r.value.userData))
      && r.value.linearPalette == linear && r.value.swizzled == swizzled
  {
    var width :- AsNumber(FieldAt(es, at, "Width"));
    var height :- AsNumber(FieldAt(es, at + 1, "Height"));
    var bpp :- AsNumber(FieldAt(es, at + 2, "Bpp"));
    var colorSize :- AsNumber(FieldAt(es, at + 3, "ColorSize"));
    var mipmapCount :- AsNumber(FieldAt(es, at + 4, "MipmapCount"));
    var format :- AsNumber(FieldAt(es, at + 5, "Format"));
    var gsTex0 :- AsRaw(FieldAt(es, at + 6, "GsTEX0"));
    var gsTex1 :- AsRaw(FieldAt(es, at + 7, "GsTEX1"));
    var gsRegs :- AsNumber(FieldAt(es, at + 8, "GsRegs"));
    var gsTexClut :- AsNumber(FieldAt(es, at + 9, "GsTexClut"));
    var userData :- AsRaw(FieldAt(es, at + 10, "UserData"));
    Success(Tim2Parameters(width, height, Wrap8(bpp), colorSize, Wrap8(mipmapCount), Wrap8(format),
      linear, swizzled, gsTex0, gsTex1, Wrap32(gsRegs), Wrap32(gsTexClut), userData))
  }

  /** Every field written to the metadata is read back under the same key: reading
      what exporting wrote gives back the parameters (with the reader's `swizzled`),
      the basename and the number of palette banks. */
  lemma {:induction false} LemmaMetadataRoundTrip(p: Tim2Parameters, palettesCount: int, basename: string,
                                                  before: seq<Entry>, after: seq<Entry>, swizzled: bool)
    ensures ParseTim2Metadata(before + Tim2MetadataEntries(p, palettesCount, basename) + after, |before|, swizzled)
      == Success(MetadataInfo(p.(swizzled := swizzled), basename, palettesCount))
  {
    var es := before + Tim2MetadataEntries(p, palettesCount, basename) + after;
    var at := |before|;
    LemmaEntriesAt(es, at, Tim2MetadataEntries(p, palettesCount, basename), before, after);
    LemmaFieldsRoundTrip(es, at + 4, p, swizzled);
  }

  /** The parameter fields as exporting writes them are read back as the parameters. */
  lemma {:induction false} LemmaFieldsRoundTrip(es: seq<Entry>, at: nat, p: Tim2Parameters, swizzled: bool)
    requires at + 11 <= |es|
    requires es[at] == Field("Width", Number(p.width)) && es[at + 1] == Field("Height", Number(p.height))
    requires es[at + 2] == Field("Bpp", Number(p.bpp)) && es[at + 3] == Field("ColorSize", Number(p.colorSize))
    requires es[at + 4] == Field("MipmapCount", Number(p.mipmapCount)) && es[at + 5] == Field("Format", Number(p.format))
    requires es[at + 6] == Field("GsTEX0", Raw(p.gsTex0)) && es[at + 7] == Field("GsTEX1", Raw(p.gsTex1))
    requires es[at + 8] == Field("GsRegs", Number(ToInt32(p.gsRegs)))
    requires es[at + 9] == Field("GsTexClut", Number(ToInt32(p.gsTexClut)))
    requires es[at + 10] == Field("UserData", Raw(p.userData))
    ensures ParseTim2Fields(es, at, p.linearPalette, swizzled) == Success(p.(swizzled := swizzled))
  {
    assert Wrap32(ToInt32(p.gsRegs)) == p.gsRegs;
    assert Wrap32(ToInt32(p.gsTexClut)) == p.gsTexClut;
  }

  /** The entries of a section placed among others sit at the section's offset. */
  lemma LemmaEntriesAt(es: seq<Entry>, at: nat, section: seq<Entry>, before: seq<Entry>, after: seq<Entry>)
    requires es == before + section + after && at == |before| && |section| == 16
    ensures es[at] == section[0] && es[at + 1] == section[1] && es[at + 2] == section[2]
    ensures es[at + 3] == section[3] && es[at + 4] == section[4] && es[at + 5] == section[5]
    ensures es[at + 6] == section[6] && es[at + 7] == section[7] && es[at + 8] == section[8]
    ensures es[at + 9] == section[9] && es[at + 10] == section[10] && es[at + 11] == section[11]
    ensures es[at + 12] == section[12] && es[at + 13] == section[13] && es[at + 14] == section[14]
    ensures es[at + 15] == section[15]
  {
  }

  /** The entries appended one by one, in the order the export puts them, are the
      metadata section of the segment. */
  lemma LemmaWrittenEntries(e0: seq<Entry>, e: seq<Entry>, p: Tim2Parameters, palettesCount: int, basename: string)
    requires e == e0
      + [Begin("TIM2Texture")]
      + [Attribute("Basename", Text(basename))]
      + [Attribute("Cluts", Number(palettesCount))]
      + [Attribute("LinearClut", Flag(p.linearPalette))]
      + [Field("Width", Number(p.width))]
      + [Field("Height", Number(p.height))]
      + [Field("Bpp", Number(p.bpp))]
      + [Field("ColorSize", Number(p.colorSize))]
      + [Field("MipmapCount", Number(p.mipmapCount))]
      + [Field("Format", Number(p.format))]
      + [Field("GsTEX0", Raw(p.gsTex0))]
      + [Field("GsTEX1", Raw(p.gsTex1))]
      + [Field("GsRegs", Number(ToInt32(p.gsRegs)))]
      + [Field("GsTexClut", Number(ToInt32(p.gsTexClut)))]
      + [Field("UserData", Raw(p.userData))]
      + [End]
    ensures e == e0 + Tim2MetadataEntries(p, palettesCount, basename)
  {
  }

  /** Appending sixteen pieces one after another appends their concatenation. Stated
      generically over the pieces, the regrouping stays cheap for the solver; proved
      in place on the header's fields it is not. */
  lemma LemmaAppendPieces<T>(w0: seq<T>, p1: seq<T>, p2: seq<T>, p3: seq<T>, p4: seq<T>, p5: seq<T>, p6: seq<T>, p7: seq<T>, p8: seq<T>, p9: seq<T>, p10: seq<T>, p11: seq<T>, p12: seq<T>, p13: seq<T>, p14: seq<T>, p15: seq<T>, p16: seq<T>)
    ensures w0 + p1 + p2 + p3 + p4 + p5 + p6 + p7 + p8 + p9 + p10 + p11 + p12 + p13 + p14 + p15 + p16
      == w0 + (p1 + p2 + p3 + p4 + p5 + p6 + p7 + p8 + p9 + p10 + p11 + p12 + p13 + p14 + p15 + p16)
  {
  }

  /** Bytes appended one field after another are the encoded header: the header
      fields followed by the user data. */
  lemma LemmaWrittenHeader(w0: seq<byte>, w: seq<byte>, p: Tim2Parameters, imageLength: nat, paletteLength: nat,
                           h: RawHeader)
    requires HeaderFor(p, imageLength, paletteLength) == Success(h)
    requires w == w0 + U32Le(h.totalSize) + U32Le(h.paletteSize) + U32Le(h.dataSize)
      + U16Le(h.headerSize) + U16Le(h.colorEntries)
      + [h.format] + [h.mipmapCount] + [h.clutFormat] + [h.depth]
      + U16Le(h.width) + U16Le(h.height) + h.gsTex0 + h.gsTex1
      + U32Le(h.gsRegs) + U32Le(h.gsTexClut) + p.userData
    ensures EncodeHeader(p, imageLength, paletteLength).Success?
    ensures w == w0 + EncodeHeader(p, imageLength, paletteLength).value
  {
    var sizes := U32Le(h.totalSize) + U32Le(h.paletteSize) + U32Le(h.dataSize)
      + U16Le(h.headerSize) + U16Le(h.colorEntries);
    LemmaAppendPieces(w0, U32Le(h.totalSize), U32Le(h.paletteSize), U32Le(h.dataSize),
      U16Le(h.headerSize), U16Le(h.colorEntries),
      [h.format], [h.mipmapCount], [h.clutFormat], [h.depth],
      U16Le(h.width), U16Le(h.height), h.gsTex0, h.gsTex1,
      U32Le(h.gsRegs), U32Le(h.gsTexClut), p.userData);
    assert sizes + [h.format] + [h.mipmapCount] + [h.clutFormat] + [h.depth]
      == sizes + [h.format, h.mipmapCount, h.clutFormat, h.depth];
  }

  /** The objects an operation on a texture may change. */
  function Objects(texture: TextureFormat): set<object>
  {
    if texture.Tim2? then {texture.segment} else {}
  }

  /** Reads and writes TIM2 segments. Whether pixel data is swizzled is not stored in
      the file; the serializer is built knowing it. */
  class Tim2Serializer {
    const swizzled: bool

    constructor (swizzled: bool)
      ensures this.swizzled == swizzled
    {
      this.swizzled := swizzled;
    }

    /** The fields after the depth byte: dimensions and the GS register values. */
    method ReadLayoutFields(reader: Reader) returns (width: u16, height: u16, gsTex0: seq<byte>, gsTex1: seq<byte>, gsRegs: u32, gsTexClut: u32)
      requires reader.pos == 0x14 && |reader.data| == FixedHeaderLength
      modifies reader
      ensures var h := ParseHeader(reader.data);
        && width == h.width && height == h.height && gsTex0 == h.gsTex0 && gsTex1 == h.gsTex1
        && gsRegs == h.gsRegs && gsTexClut == h.gsTexClut
    {
      ghost var h := ParseHeader(reader.data);
      width := reader.ReadUInt16();
      assert reader.pos == 0x16;
      height := reader.ReadUInt16();
      assert reader.pos == 0x18 && h.gsTex0 == reader.data[reader.pos..reader.pos + 8];
      gsTex0 := reader.ReadBytes(8);
      assert reader.pos == 0x20 && h.gsTex1 == reader.data[reader.pos..reader.pos + 8];
      gsTex1 := reader.ReadBytes(8);
      assert reader.pos == 0x28;
      gsRegs := reader.ReadUInt32();
      assert reader.pos == 0x2C;
      gsTexClut := reader.ReadUInt32();
    }

    /** Reads the fields of the fixed header from a reader over its 0x30 bytes, in file
        order. More than one mipmap level is rejected as soon as the count is read, an
        unknown depth byte as soon as it is read; otherwise the result is the parsed
        header and the bit depth its depth byte stands for. */
    method ReadHeaderFields(reader: Reader) returns (r: Result<(RawHeader, byte)>)
      requires reader.pos == 0 && |reader.data| == FixedHeaderLength
      modifies reader
      ensures var h := ParseHeader(reader.data);
        && (h.mipmapCount > 1 ==> r == Failure(MipmapsNotSupported))
        && (h.mipmapCount <= 1 && BppOfDepth(h.depth).None? ==> r == Failure(IllegalBitDepth))
        && (Accepted(h) ==> r == Success((h, BppOfDepth(h.depth).value)))
    {
      ghost var h := ParseHeader(reader.data);
      var totalSize := reader.ReadUInt32();
      assert totalSize == h.totalSize;
      assert reader.pos == 0x04;
      var paletteSize := reader.ReadUInt32();
      assert paletteSize == h.paletteSize;
      assert reader.pos == 0x08;
      var dataSize := reader.ReadUInt32();
      assert dataSize == h.dataSize;
      assert reader.pos == 0x0C;
      var headerSize := reader.ReadUInt16();
      assert headerSize == h.headerSize;
      assert reader.pos == 0x0E;
      var colorEntries := reader.ReadUInt16();
      assert colorEntries == h.colorEntries;
      assert reader.pos == 0x10;
      var format := reader.ReadByte();
      assert format == h.format;
      var mipmapCount := reader.ReadByte();
      assert mipmapCount == h.mipmapCount;
      assert reader.pos == 0x12;
      if mipmapCount > 1 {
        return Failure(MipmapsNotSupported);
      }
      var clutFormat := reader.ReadByte();
      assert clutFormat == h.clutFormat;
      var depth := reader.ReadByte();
      assert depth == h.depth;
      assert reader.pos == 0x14;
      var bpp: byte;
      match depth {
        case 1 => bpp := 16;
        case 2 => bpp := 24;
        case 3 => bpp := 32;
        case 4 => bpp := 4;
        case 5 => bpp := 8;
        case _ => return Failure(IllegalBitDepth);
      }
      var width, height, gsTex0, gsTex1, gsRegs, gsTexClut := ReadLayoutFields(reader);
      r := Success((RawHeader(totalSize, paletteSize, dataSize, headerSize, colorEntries, format, mipmapCount,
        clutFormat, depth, width, height, gsTex0, gsTex1, gsRegs, gsTexClut), bpp));
    }

    /** Reads the fixed header and the user data after it. All 0x30 header bytes are
        consumed before either check, so a failure leaves the stream just past them. */
    method AcquireInfoFromHeader(formatData: Reader) returns (r: Result<SegmentInfo>)
      requires formatData.pos <= |formatData.data|
      requires HoldsHeader(formatData.data[formatData.pos..])
      modifies formatData
      ensures r == DecodeHeader(formatData.data[old(formatData.pos)..], swizzled)
      ensures r.Success? ==>
        formatData.pos == old(formatData.pos) + FixedHeaderLength + |r.value.parameters.userData|
      ensures r.Failure? ==> formatData.pos == old(formatData.pos) + FixedHeaderLength
    {
      ghost var start := formatData.pos;
      var fullHeader := formatData.ReadBytes(FixedHeaderLength);
      LemmaParseHeaderSlice(formatData.data, start, fullHeader);
      var reader := new Reader(fullHeader);
      var fields :- ReadHeaderFields(reader);
      var (header, bpp) := fields;
      var userDataSize: int := header.headerSize - FixedHeaderLength;

      var linearPalette := header.clutFormat >= 0x80;
      var clutFormat := header.clutFormat % 0x80;
      var colorSize := if bpp > 8 then bpp / 8 else clutFormat + 1;

      var userData: seq<byte> := [];
      if userDataSize > 0 {
        userData := formatData.ReadBytes(userDataSize);
        LemmaSliceOfSuffix(formatData.data, start, FixedHeaderLength, FixedHeaderLength + userDataSize);
      }
      LemmaDecodedHeader(formatData.data[start..], swizzled, header, bpp, ClutFormat(linearPalette, colorSize), userData);
      r := Success(SegmentInfo(
        Tim2Parameters(header.width, header.height, bpp, colorSize, header.mipmapCount, header.format,
          linearPalette, swizzled, header.gsTex0, header.gsTex1, header.gsRegs, header.gsTexClut, userData),
        header.dataSize, header.paletteSize, header.colorEntries));
    }

    /** Reads a whole segment: the header, then exactly data-size image bytes and
        palette-size palette bytes. The result is what the segment is built from. */
    method Open(formatData: Reader) returns (r: Result<Tim2SegmentData>)
      requires formatData.pos <= |formatData.data|
      requires HoldsSegment(formatData.data[formatData.pos..])
      modifies formatData
      ensures r == DecodeSegment(formatData.data[old(formatData.pos)..], swizzled)
      ensures r.Success? ==>
        formatData.pos == old(formatData.pos) + SegmentLength(ParseHeader(formatData.data[old(formatData.pos)..]))
      ensures r.Failure? ==> formatData.pos == old(formatData.pos) + FixedHeaderLength
    {
      ghost var start := formatData.pos;
      ghost var input := formatData.data[start..];
      var info :- AcquireInfoFromHeader(formatData);
      var at := formatData.pos;
      var imageData := formatData.ReadBytes(info.dataSize);
      var paletteData := formatData.ReadBytes(info.paletteSize);
      LemmaSliceOfSuffix(formatData.data, start, at - start, at - start + info.dataSize);
      LemmaSliceOfSuffix(formatData.data, start, at - start + info.dataSize, at - start + info.dataSize + info.paletteSize);
      LemmaDecodedSegment(input, swizzled, info, imageData, paletteData);
      r := Success(Tim2SegmentData(imageData, paletteData, info.colorEntries, info.parameters));
    }

    /** Writes the header, field by field, and the user data. The sizes are recomputed
        from the buffers. On failure the fields written so far stay written: 0x0E bytes
        before the entry count is divided out, 0x13 before the depth byte is looked up. */
    method WriteHeader(parameters: Tim2Parameters, outFormatData: Writer, imageData: seq<byte>, paletteData: seq<byte>)
      returns (r: Outcome)
      modifies outFormatData
      ensures r.Pass? <==> EncodeHeader(parameters, |imageData|, |paletteData|).Success?
      ensures r.Pass? ==>
        outFormatData.written == old(outFormatData.written) + EncodeHeader(parameters, |imageData|, |paletteData|).value
      ensures r.Fail? ==>
        && EncodeHeader(parameters, |imageData|, |paletteData|) == Failure(r.error)
        && |old(outFormatData.written)| <= |outFormatData.written|
        && outFormatData.written[..|old(outFormatData.written)|] == old(outFormatData.written)
        && |outFormatData.written| == |old(outFormatData.written)| + (if r.error == DivisionByZero then 0x0E else 0x13)
    {
      ghost var w0 := outFormatData.written;
      var writer := outFormatData;
      var totalSize := Wrap32(FixedHeaderLength + |parameters.userData| + |imageData| + |paletteData|);
      writer.WriteUInt32(totalSize);
      writer.WriteUInt32(Wrap32(|paletteData|));
      writer.WriteUInt32(Wrap32(|imageData|));
      writer.WriteUInt16(Wrap16(FixedHeaderLength + |parameters.userData|));

      if parameters.colorSize == 0 {
        return Fail(DivisionByZero);
      }
      var colorEntries := Wrap16(TruncDiv(|paletteData|, parameters.colorSize));
      writer.WriteUInt16(colorEntries);

      writer.WriteByte(parameters.format);
      writer.WriteByte(parameters.mipmapCount);

      var clutFormat := if parameters.bpp > 8 then 0 else Wrap8(parameters.colorSize - 1);
      clutFormat := if parameters.linearPalette then SetBit7(clutFormat) else clutFormat;
      writer.WriteByte(clutFormat);
      assert clutFormat == PackClut(parameters.bpp, ClutFormat(parameters.linearPalette, parameters.colorSize));

      var depth: byte;
      match parameters.bpp {
        case 4 => depth := 4;
        case 8 => depth := 5;
        case 16 => depth := 1;
        case 24 => depth := 2;
        case 32 => depth := 3;
        case _ => return Fail(UnexpectedBpp);
      }
      ghost var h := RawHeader(totalSize, Wrap32(|paletteData|), Wrap32(|imageData|),
        Wrap16(FixedHeaderLength + |parameters.userData|), colorEntries,
        parameters.format, parameters.mipmapCount, clutFormat, depth,
        Wrap16(parameters.width), Wrap16(parameters.height),
        parameters.gsTex0, parameters.gsTex1, parameters.gsRegs, parameters.gsTexClut);
      assert DepthOfBpp(parameters.bpp) == Some(depth);
      assert HeaderFor(parameters, |imageData|, |paletteData|) == Success(h);
      WriteLayoutFields(writer, depth, parameters);
      LemmaWrittenHeader(w0, writer.written, parameters, |imageData|, |paletteData|, h);
      r := Pass;
    }

    /** The fields from the depth byte on: dimensions, the GS register values and the
        user data. */
    method WriteLayoutFields(writer: Writer, depth: byte, parameters: Tim2Parameters)
      modifies writer
      ensures writer.written == old(writer.written) + [depth]
        + U16Le(Wrap16(parameters.width)) + U16Le(Wrap16(parameters.height))
        + parameters.gsTex0 + parameters.gsTex1
        + U32Le(parameters.gsRegs) + U32Le(parameters.gsTexClut) + parameters.userData
    {
      writer.WriteByte(depth);
      writer.WriteUInt16(Wrap16(parameters.width));
      writer.WriteUInt16(Wrap16(parameters.height));
      writer.WriteBytes(parameters.gsTex0);
      writer.WriteBytes(parameters.gsTex1);
      writer.WriteUInt32(parameters.gsRegs);
      writer.WriteUInt32(parameters.gsTexClut);
      writer.WriteBytes(parameters.userData);
    }

    /** Writes a segment: header, user data, image, palette. Any other kind of texture
        is refused before anything is written. */
    method Save(texture: TextureFormat, outFormatData: Writer) returns (r: Outcome)
      modifies outFormatData
      ensures !texture.Tim2? ==> r == Fail(NotATim2Segment) && outFormatData.written == old(outFormatData.written)
      ensures texture.Tim2? ==>
        var s := texture.segment;
        var encoded := EncodeSegment(s.parameters, s.imageData, s.paletteData);
        && (r.Pass? <==> encoded.Success?)
        && (r.Pass? ==> outFormatData.written == old(outFormatData.written) + encoded.value)
        && (r.Fail? ==>
          && encoded == Failure(r.error)
          && |old(outFormatData.written)| <= |outFormatData.written|
          && outFormatData.written[..|old(outFormatData.written)|] == old(outFormatData.written)
          && |outFormatData.written| == |old(outFormatData.written)| + (if r.error == DivisionByZero then 0x0E else 0x13))
    {
      if !texture.Tim2? {
        return Fail(NotATim2Segment);
      }
      var segment := texture.segment;
      var imageData := segment.imageData;
      var paletteData := segment.paletteData;
      var parameters := segment.parameters;

      r := WriteHeader(parameters, outFormatData, imageData, paletteData);
      if r.Fail? {
        return;
      }
      outFormatData.WriteBytes(imageData);
      outFormatData.WriteBytes(paletteData);
    }

    /** One image per palette bank, bank 0 first; a segment without banks gives one
        image. The selected bank is the same afterwards as before. */
    method ConstructImages(segment: Tim2Segment) returns (images: seq<Image>)
      modifies segment
      ensures |images| == if segment.palettesCount == 0 then 1 else segment.palettesCount
      ensures forall i :: 0 <= i < |images| ==> images[i] == segment.ImageOf(i)
      ensures segment.selectedPalette == old(segment.selectedPalette)
    {
      var list: seq<Image> := [];
      var oldSelected := segment.selectedPalette;
      var count := if segment.palettesCount == 0 then 1 else segment.palettesCount;
      for i := 0 to count
        invariant |list| == i
        invariant forall k :: 0 <= k < i ==> list[k] == segment.ImageOf(k)
      {
        segment.selectedPalette := i;
        list := list + [segment.GetImage()];
      }
      segment.selectedPalette := oldSelected;
      images := list;
    }

    /** Appends the segment's metadata section. */
    method Writemetadata(segment: Tim2Segment, metadata: MetadataWriter, basename: string)
      modifies metadata
      ensures metadata.entries
        == old(metadata.entries) + Tim2MetadataEntries(segment.parameters, segment.palettesCount, basename)
    {
      ghost var e0 := metadata.entries;
      var p := segment.parameters;
      metadata.BeginSection("TIM2Texture");
      metadata.PutAttribute("Basename", Text(basename));
      metadata.PutAttribute("Cluts", Number(segment.palettesCount));
      metadata.PutAttribute("LinearClut", Flag(p.linearPalette));
      metadata.Put("Width", Number(p.width));
      metadata.Put("Height", Number(p.height));
      metadata.Put("Bpp", Number(p.bpp));
      metadata.Put("ColorSize", Number(p.colorSize));
      metadata.Put("MipmapCount", Number(p.mipmapCount));
      metadata.Put("Format", Number(p.format));
      metadata.Put("GsTEX0", Raw(p.gsTex0));
      metadata.Put("GsTEX1", Raw(p.gsTex1));
      metadata.Put("GsRegs", Number(ToInt32(p.gsRegs)));
      metadata.Put("GsTexClut", Number(ToInt32(p.gsTexClut)));
      metadata.Put("UserData", Raw(p.userData));
      metadata.EndSection();
      LemmaWrittenEntries(e0, metadata.entries, p, segment.palettesCount, basename);
    }

    /** Reads a metadata section back, field by field in the order it was written. */
    method Readmetadata(metadata: MetadataReader) returns (r: Result<MetadataInfo>)
      modifies metadata
      ensures r == ParseTim2Metadata(metadata.entries, old(metadata.pos), swizzled)
      ensures r.Success? ==> metadata.pos == old(metadata.pos) + 16
    {
      var at := metadata.pos;
      var entered := metadata.EnterSection("TIM2Texture");
      if entered.Fail? {
        return Failure(UnexpectedMetadata);
      }
      var basename :- metadata.GetAttributeString("Basename");
      var palCount :- metadata.GetAttributeInt("Cluts");
      var linear :- metadata.GetAttributeBool("LinearClut");
      var width :- metadata.GetInt("Width");
      var height :- metadata.GetInt("Height");
      var bpp :- metadata.GetInt("Bpp");
      var colorSize :- metadata.GetInt("ColorSize");
      var mipmapCount :- metadata.GetInt("MipmapCount");
      var format :- metadata.GetInt("Format");
      var gsTex0 :- metadata.GetRaw("GsTEX0");
      var gsTex1 :- metadata.GetRaw("GsTEX1");
      var gsRegs :- metadata.GetInt("GsRegs");
      var gsTexClut :- metadata.GetInt("GsTexClut");
      var userData :- metadata.GetRaw("UserData");
      var exited := metadata.ExitSection();
      if exited.Fail? {
        return Failure(UnexpectedMetadata);
      }
      r := Success(MetadataInfo(
        Tim2Parameters(width, height, Wrap8(bpp), colorSize, Wrap8(mipmapCount), Wrap8(format),
          linear, swizzled, gsTex0, gsTex1, Wrap32(gsRegs), Wrap32(gsTexClut), userData),
        basename, palCount));
    }

    /** Exports a segment: its metadata section, then one image per palette bank (image
        `i` is the one stored as `basename_i.png`). Any other kind of texture is
        refused before anything is written. */
    method Export(texture: TextureFormat, metadata: MetadataWriter, directory: string, basename: string)
      returns (r: Result<seq<Image>>)
      modifies metadata, Objects(texture)
      ensures !texture.Tim2? ==> r == Failure(NotATim2Segment) && metadata.entries == old(metadata.entries)
      ensures texture.Tim2? ==>
        var s := texture.segment;
        && metadata.entries == old(metadata.entries) + Tim2MetadataEntries(s.parameters, s.palettesCount, basename)
        && r.Success?
        && |r.value| == (if s.palettesCount == 0 then 1 else s.palettesCount)
        && (forall i :: 0 <= i < |r.value| ==> r.value[i] == s.ImageOf(i))
        && s.selectedPalette == old(s.selectedPalette)
    {
      if !texture.Tim2? {
        return Failure(NotATim2Segment);
      }
      var segment := texture.segment;
      Writemetadata(segment, metadata, basename);
      var images := ConstructImages(segment);
      r := Success(images);
    }
  }
}
