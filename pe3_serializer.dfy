/** The PE3 "simple DAT" serializer. A file is a 0x20-byte raw header, recognised by
    three little-endian fields, followed by image data that runs to the end of the
    stream. Reading splits the two parts, writing joins them back. */
module Pe3SimpleDatSerializer {
  import opened ByteCodec
  import opened Results
  import opened Textures
  import opened Metadata

  /** The length of the raw header kept verbatim. */
  const HeaderLength: nat := 0x20

  /** The format check: the 32-bit value at `at` (the stream's position when the check
      starts) is 0x200, and the 16-bit values at the absolute offsets 0x0E and 0x16 are
      0x21 and 0x10. */
  predicate HasPe3Magic(s: seq<byte>, at: nat)
    requires at + 4 <= |s| && 0x18 <= |s|
    ensures HasPe3Magic(s, at) <==>
      && s[at] == 0x00 && s[at + 1] == 0x02 && s[at + 2] == 0x00 && s[at + 3] == 0x00
      && s[0x0E] == 0x21 && s[0x0F] == 0x00
      && s[0x16] == 0x10 && s[0x17] == 0x00
  {
    U32At(s, at) == 0x200 && U16At(s, 0x0E) == 0x21 && U16At(s, 0x16) == 0x10
  }

  /** The check in terms of bytes: it accepts exactly the byte patterns 00 02 00 00 at
      `at`, 21 00 at 0x0E and 10 00 at 0x16. */
  lemma {:induction false} LemmaPe3MagicBytes(s: seq<byte>, at: nat)
    requires at + 4 <= |s| && 0x18 <= |s|
    ensures HasPe3Magic(s, at) <==>
      && s[at..at + 4] == [0x00, 0x02, 0x00, 0x00]
      && s[0x0E..0x10] == [0x21, 0x00]
      && s[0x16..0x18] == [0x10, 0x00]
  {
    LemmaU32LeOfAt(s, at);
    LemmaU16LeOfAt(s, 0x0E);
    LemmaU16LeOfAt(s, 0x16);
    assert U32Le(0x200) == [0x00, 0x02, 0x00, 0x00];
    assert U16Le(0x21) == [0x21, 0x00];
    assert U16Le(0x10) == [0x10, 0x00];
    if s[at..at + 4] == [0x00, 0x02, 0x00, 0x00] {
      assert s[at] == 0 && s[at + 1] == 2 && s[at + 2] == 0 && s[at + 3] == 0;
    }
  }

  /** When the check starts at the beginning of a file, it looks only at the raw header:
      a file and the texture it opens to agree on it. */
  lemma LemmaMagicInHeader(s: seq<byte>)
    requires |s| >= HeaderLength
    ensures HasPe3Magic(s, 0) <==> HasPe3Magic(Split(s).rawHeader, 0)
  {
    var h := Split(s).rawHeader;
    assert h == s[..HeaderLength];
    assert U32At(s, 0) == U32At(h, 0);
    assert U16At(s, 0x0E) == U16At(h, 0x0E);
    assert U16At(s, 0x16) == U16At(h, 0x16);
  }

  /** A file as a texture: the first 0x20 bytes are the raw header, the rest is the
      image data. */
  function Split(s: seq<byte>): (t: Pe3SimpleDatTexture)
    requires |s| >= HeaderLength
    ensures |t.rawHeader| == HeaderLength && t.rawHeader + t.imageData == s
  {
    Pe3SimpleDatTexture(s[..HeaderLength], s[HeaderLength..])
  }

  /** A texture as a file: its raw header followed by its image data. */
  function Join(t: Pe3SimpleDatTexture): (s: seq<byte>)
    ensures |s| == |t.rawHeader| + |t.imageData|
    ensures s[..|t.rawHeader|] == t.rawHeader && s[|t.rawHeader|..] == t.imageData
  {
    t.rawHeader + t.imageData
  }

  /** Saving what was opened gives back the file. */
  lemma LemmaJoinSplit(s: seq<byte>)
    requires |s| >= HeaderLength
    ensures Join(Split(s)) == s
  {
  }

  /** Opening what was saved gives back a texture whose header has the fixed length. */
  lemma LemmaSplitJoin(t: Pe3SimpleDatTexture)
    requires |t.rawHeader| == HeaderLength
    ensures Split(Join(t)) == t
  {
    assert Join(t)[..HeaderLength] == t.rawHeader;
    assert Join(t)[HeaderLength..] == t.imageData;
  }

  /** Checks the format at the stream's position and leaves the position where it was. */
  method IsValidFormat(inputFormat: Reader) returns (valid: bool)
    requires inputFormat.pos + 4 <= |inputFormat.data| && 0x18 <= |inputFormat.data|
    modifies inputFormat
    ensures valid == HasPe3Magic(inputFormat.data, old(inputFormat.pos))
    ensures inputFormat.pos == old(inputFormat.pos)
  {
    var oldPos := inputFormat.pos;
    var data := inputFormat.ReadUInt32();
    inputFormat.Seek(0x0E);
    var data2 := inputFormat.ReadUInt16();
    inputFormat.Seek(0x16);
    var data3 := inputFormat.ReadUInt16();
    inputFormat.Seek(oldPos);
    valid := data == 0x200 && data2 == 0x21 && data3 == 0x10;
  }

  /** Reads a texture from the stream's position: 0x20 header bytes, then everything up
      to the end of the stream. */
  method Open(formatData: Reader) returns (t: TextureFormat)
    requires formatData.pos + HeaderLength <= |formatData.data|
    modifies formatData
    ensures t == Pe3SimpleDat(Split(formatData.data[old(formatData.pos)..]))
    ensures formatData.pos == |formatData.data|
  {
    ghost var start := formatData.pos;
    var rawHeader := formatData.ReadBytes(HeaderLength);
    var oldPos := formatData.pos;
    formatData.Seek(|formatData.data|);
    var length := formatData.pos - oldPos;
    formatData.Seek(oldPos);
    var imageData := formatData.ReadBytes(length);
    assert formatData.data[start..][..HeaderLength] == rawHeader;
    assert formatData.data[start..][HeaderLength..] == imageData;
    t := Pe3SimpleDat(Pe3SimpleDatTexture(rawHeader, imageData));
  }

  /** Writes the raw header, then the image data. Any other kind of texture is refused
      before anything is written. */
  method Save(texture: TextureFormat, outFormatData: Writer) returns (r: Outcome)
    modifies outFormatData
    ensures !texture.Pe3SimpleDat? ==>
      r == Fail(NotAPe3Texture) && outFormatData.written == old(outFormatData.written)
    ensures texture.Pe3SimpleDat? ==>
      r == Pass && outFormatData.written == old(outFormatData.written) + Join(texture.texture)
  {
    if !texture.Pe3SimpleDat? {
      return Fail(NotAPe3Texture);
    }
    var header := texture.texture.rawHeader;
    var imageData := texture.texture.imageData;
    ghost var w0 := outFormatData.written;
    outFormatData.WriteBytes(header);
    outFormatData.WriteBytes(imageData);
    assert w0 + header + imageData == w0 + (header + imageData);
    r := Pass;
  }

  /** The entries that exporting a texture appends: a section holding the basename as
      an attribute and the raw header as a field. */
  function Pe3MetadataEntries(rawHeader: seq<byte>, basename: string): (es: seq<Entry>)
    ensures |es| == 4 && SectionAt(es, 0, "PE3SimpleDAT").Pass? && SectionEndAt(es, 3).Pass?
    ensures AsText(AttributeAt(es, 1, "Basename")) == Success(basename)
    ensures AsRaw(FieldAt(es, 2, "RawHeader")) == Success(rawHeader)
  {
    [Begin("PE3SimpleDAT"), Attribute("Basename", Text(basename)), Field("RawHeader", Raw(rawHeader)), End]
  }

  /** What importing reads from the metadata besides the image. */
  datatype Pe3MetadataInfo = Pe3MetadataInfo(basename: string, rawHeader: seq<byte>)

  /** Reading the metadata section at `at`, in the order it is written. */
  function ParsePe3Metadata(es: seq<Entry>, at: nat): (r: Result<Pe3MetadataInfo>)
    ensures r.Success? ==>
      at + 4 <= |es| && es[at..at + 4] == Pe3MetadataEntries(r.value.rawHeader, r.value.basename)
    ensures r.Failure? ==> r.error == UnexpectedMetadata
  {
    if SectionAt(es, at, "PE3SimpleDAT").Fail? then Failure(UnexpectedMetadata) else
    var basename :- AsText(AttributeAt(es, at + 1, "Basename"));
    var rawHeader :- AsRaw(FieldAt(es, at + 2, "RawHeader"));
    if SectionEndAt(es, at + 3).Fail? then Failure(UnexpectedMetadata) else
    Success(Pe3MetadataInfo(basename, rawHeader))
  }

  /** Reading back the section an export wrote, wherever it sits among other entries,
      yields the basename and the raw header that were written. */
  lemma LemmaPe3MetadataRoundTrip(before: seq<Entry>, after: seq<Entry>, rawHeader: seq<byte>, basename: string)
    ensures ParsePe3Metadata(before + Pe3MetadataEntries(rawHeader, basename) + after, |before|)
      == Success(Pe3MetadataInfo(basename, rawHeader))
  {
    var es := before + Pe3MetadataEntries(rawHeader, basename) + after;
    var at := |before|;
    assert es[at] == Begin("PE3SimpleDAT");
    assert es[at + 1] == Attribute("Basename", Text(basename));
    assert es[at + 2] == Field("RawHeader", Raw(rawHeader));
    assert es[at + 3] == End;
  }

  /** Exports a texture's metadata section. Any other kind of texture is refused before
      anything is written. */
  method Export(texture: TextureFormat, metadata: MetadataWriter, directory: string, basename: string)
    returns (r: Outcome)
    modifies metadata
    ensures !texture.Pe3SimpleDat? ==>
      r == Fail(NotAPe3Texture) && metadata.entries == old(metadata.entries)
    ensures texture.Pe3SimpleDat? ==>
      r == Pass && metadata.entries == old(metadata.entries) + Pe3MetadataEntries(texture.texture.rawHeader, basename)
  {
    if !texture.Pe3SimpleDat? {
      return Fail(NotAPe3Texture);
    }
    metadata.BeginSection("PE3SimpleDAT");
    metadata.PutAttribute("Basename", Text(basename));
    metadata.Put("RawHeader", Raw(texture.texture.rawHeader));
    metadata.EndSection();
    r := Pass;
  }

  /** Reads the metadata section of an export: the basename, then the raw header. */
  method Import(metadata: MetadataReader) returns (r: Result<Pe3MetadataInfo>)
    modifies metadata
    ensures r == ParsePe3Metadata(metadata.entries, old(metadata.pos))
    ensures r.Success? ==> metadata.pos == old(metadata.pos) + 4
  {
    var entered := metadata.EnterSection("PE3SimpleDAT");
    if entered.Fail? {
      return Failure(UnexpectedMetadata);
    }
    var basename :- metadata.GetAttributeString("Basename");
    var rawHeader :- metadata.GetRaw("RawHeader");
    var exited := metadata.ExitSection();
    if exited.Fail? {
      return Failure(UnexpectedMetadata);
    }
    r := Success(Pe3MetadataInfo(basename, rawHeader));
  }
}
