# TIM2 segment, PE3 simple DAT and RGB565 codecs in Dafny

This project models three parts of the Rainbow image library and proves properties of them:

- the **TIM2 segment serializer**. It reads and writes one TIM2 segment:
  - a 0x30-byte little-endian header;
  - user data (header size − 0x30 bytes);
  - image data (data-size bytes);
  - palette data (palette-size bytes).

  It also exports the segment's settings to a metadata section and reads them back.
- the **PE3 simple DAT serializer**. A PE3 file is a 0x20-byte raw header, recognised by three fixed fields, followed by image data up to the end of the stream.
- the **RGB565 colour codec**. It turns 16-bit 5-6-5 words, read in a configurable byte order, into opaque colours. It does not encode.

Modules:

- `ByteCodec` (`bytes.dfy`):
  - bytes as integer subtypes;
  - C#'s truncating casts (`Wrap8/16/32`);
  - little-endian field reads and writes;
  - `Reader`/`Writer` classes with a cursor, standing for the streams and binary readers and writers.
- `Results` (`results.dfy`): the failure conditions under which the code throws, as values.
- `Textures` (`textures.dfy`): TIM2 parameters, the TIM2 segment holder class, the PE3 texture.
- `Metadata` (`metadata.dfy`): the metadata writer and reader as an ordered list of entries.
- `Tim2Header` (`tim2_header.dfy`): the segment format as pure functions (`DecodeSegment`, `EncodeSegment`) and the round trips between them.
- `Tim2SegmentSerializer` (`tim2_serializer.dfy`): the serializer's stream methods, each proved to do what the `Tim2Header` functions say.
- `Pe3SimpleDatSerializer` (`pe3_serializer.dfy`): the PE3 serializer.
- `ColorCodecRgb565` (`color_codec_rgb565.dfy`): the colour codec.

What is proved, in short:

- Encoding then decoding gives back every parameter except `swizzled`, which is the decoder's, and gives back the image, the palette and the user data (`LemmaDecodeEncode`). This holds when (`Encodable`):
  - the bit depth is 4, 8, 16, 24 or 32;
  - there is at most one mipmap level;
  - width and height are below 0x10000;
  - the two GS register blocks are 8 bytes each;
  - 0x30 plus the user data length is below 0x10000;
  - the image and palette lengths are below 2^32;
  - the entry size agrees with the bit depth: bpp/8 for direct colour, 1 to 0x80 for indexed colour.
- Decoding then re-encoding gives the stored bytes with the header *normalized* (`LemmaEncodeDecode`). Normalization does four things:
  - it recomputes the total size;
  - it recomputes the header size;
  - it recomputes the entry count;
  - it re-packs the clut byte.
- `Normalized` says exactly when the normalized header equals the stored one. A decoded segment is re-encoded byte for byte if its header is normalized (`LemmaCanonicalRoundTrip`) and only then (`LemmaRoundTripOnlyIfNormalized`).
- The depth table is inverted exactly (`LemmaDepthBijection`). The clut byte is inverted for indexed colour with entry sizes 1 to 0x80 (`LemmaClutRoundTrip`).
- The metadata written by an export is read back field for field.
- PE3 split and join are inverse.
- 5-6-5 unpacking is injective, and its image is exactly the representable colours.

Points read off the code:

- Re-encoding a decoded segment recomputes four header fields from the buffers: the total size, the header size, the entry count and the clut byte. A header size below 0x30, a stale entry count, or low clut bits set for direct colour therefore do not survive a round trip. `Normalized` and `LemmaEncodeDecode` state exactly this.
- For indexed colour the clut byte stores the entry size less one in its low seven bits, so it can hold entry sizes 1 to 0x80.
- On writing, an entry size above 0x80 spills into bit 7 of the clut byte (`PackClut`). The round trip is therefore stated for 1 to 0x80 only.
- The PE3 format check reads its first 32-bit field at the stream's current position. It reads the two 16-bit fields at the absolute offsets 0x0E and 0x16. `HasPe3Magic` takes that position as a parameter. It agrees with a check at offset 0 only when the stream starts at 0 (`LemmaMagicInHeader` is stated for that case).
- When writing a TIM2 header fails, the fields already written stay in the stream:
  - 0x0E bytes for a zero entry size (C#'s division by zero);
  - 0x13 bytes for a bit depth with no depth byte.
- The entry count is C#'s integer division, truncated toward zero, of the palette length by the entry size. It is then truncated to 16 bits.

## Model

| member | source | states |
|---|---|---|
| ByteCodec.U16Ordered | Rainbow.ImgLib/ImgLib/Encoding/Implementation/ColorCodecRGB565.cs:27 | the low byte of the word comes first in little-endian order and the high byte first in big-endian order |
| ColorCodecRgb565.Unpack | Rainbow.ImgLib/ImgLib/Encoding/Implementation/ColorCodecRGB565.cs:30-35 | a word's colour is opaque; red and blue are multiples of 8 up to 248 and green a multiple of 4 up to 252 |
| ColorCodecRgb565.LemmaPackUnpack | Rainbow.ImgLib/ImgLib/Encoding/Implementation/ColorCodecRGB565.cs:31-33 | the word can be recovered from its colour, so no two words give the same colour |
| ColorCodecRgb565.LemmaUnpackPack | Rainbow.ImgLib/ImgLib/Encoding/Implementation/ColorCodecRGB565.cs:31-35 | every opaque colour whose channels are multiples of 8, 4, 8 is the colour of the word `Pack` gives it; with `LemmaPackUnpack`, of that word only |
| ColorCodecRgb565.LemmaPrimaries | Rainbow.ImgLib/ImgLib/Encoding/Implementation/ColorCodecRGB565.cs:31-35 | the all-red, all-green and all-blue words give (255,248,0,0), (255,0,252,0) and (255,0,0,248) |
| ColorCodecRgb565.Rgb565Codec.constructor | Rainbow.ImgLib/ImgLib/Encoding/Implementation/ColorCodecRGB565.cs:15-16 | the codec keeps the byte order it is given |
| ColorCodecRgb565.Rgb565Codec.DecodeColors | Rainbow.ImgLib/ImgLib/Encoding/Implementation/ColorCodecRGB565.cs:18-39 | length/2 colours (an odd trailing byte is ignored); colour i is the unpacked word at start+2i in the codec's byte order |
| ColorCodecRgb565.Rgb565Codec.BitDepth | Rainbow.ImgLib/ImgLib/Encoding/Implementation/ColorCodecRGB565.cs:41-44 | a colour is 16 bits, the 5 + 6 + 5 bits of its fields, two whole bytes |
| ColorCodecRgb565.Rgb565Codec.EncodeColors | Rainbow.ImgLib/ImgLib/Encoding/Implementation/ColorCodecRGB565.cs:46-49 | encoding always fails as not implemented |
| Tim2Header.BppOfDepth | Rainbow.ImgLib/ImgLib/Formats/Serialization/TIM2SegmentSerializer.cs:293-315 | a depth byte has a bit depth exactly when it is 1 to 5, and that bit depth is 4, 8, 16, 24 or 32 |
| Tim2Header.DepthOfBpp | Rainbow.ImgLib/ImgLib/Formats/Serialization/TIM2SegmentSerializer.cs:234-254 | a bit depth has a depth byte exactly when it is 4, 8, 16, 24 or 32, and reading that byte gives the bit depth back |
| Tim2Header.LemmaDepthBijection | Rainbow.ImgLib/ImgLib/Formats/Serialization/TIM2SegmentSerializer.cs:234-254 | the read and write depth tables are inverse: one maps d to b exactly when the other maps b to d |
| Tim2Header.UnpackClut | Rainbow.ImgLib/ImgLib/Formats/Serialization/TIM2SegmentSerializer.cs:326-329 | the linear flag is bit 7; the entry size is bpp/8 for direct colour, and 1 to 0x80 for indexed colour, where re-packing gives the byte back |
| Tim2Header.PackClut | Rainbow.ImgLib/ImgLib/Formats/Serialization/TIM2SegmentSerializer.cs:229-231 | a linear palette sets bit 7; direct colour writes 0x80 or 0; indexed colour stores the entry size less one in the low seven bits |
| Tim2Header.LemmaClutRoundTrip | Rainbow.ImgLib/ImgLib/Formats/Serialization/TIM2SegmentSerializer.cs:229-231 | for indexed colour and entry sizes 1 to 0x80, unpacking the written clut byte gives the flag and the entry size back |
| Tim2Header.ParseHeader | Rainbow.ImgLib/ImgLib/Formats/Serialization/TIM2SegmentSerializer.cs:272-321 | the two GS register blocks read from a header are 8 bytes each |
| Tim2Header.HeaderBytes | Rainbow.ImgLib/ImgLib/Formats/Serialization/TIM2SegmentSerializer.cs:217-261 | the written header is 0x20 bytes plus the two register blocks |
| Tim2Header.LemmaParseHeaderBytes | Rainbow.ImgLib/ImgLib/Formats/Serialization/TIM2SegmentSerializer.cs:272-321 | a header written with 8-byte register blocks is 0x30 bytes, and reading it back gives every field back whatever follows |
| Tim2Header.LemmaHeaderBytesOfParse | Rainbow.ImgLib/ImgLib/Formats/Serialization/TIM2SegmentSerializer.cs:272-321 | writing back the fields read from 0x30 bytes reproduces those bytes |
| Tim2Header.LemmaParseHeaderSlice | Rainbow.ImgLib/ImgLib/Formats/Serialization/TIM2SegmentSerializer.cs:267-270 | reading the 0x30 header bytes out of the stream first and parsing them there gives the header of the stream's remaining input |
| Tim2Header.DecodeHeader | Rainbow.ImgLib/ImgLib/Formats/Serialization/TIM2SegmentSerializer.cs:265-339 | reading the header succeeds exactly when it has at most one mipmap and a known depth byte; the user data has header-size − 0x30 bytes (none when that is not positive) |
| Tim2Header.DecodeSegment | Rainbow.ImgLib/ImgLib/Formats/Serialization/TIM2SegmentSerializer.cs:62-77 | decoding succeeds exactly for an accepted header; more than one mipmap fails first, an unknown depth second; on success the user data, image and palette are the bytes after the header in that order, of the declared lengths, and the entry size agrees with the bit depth |
| Tim2Header.HeaderFor | Rainbow.ImgLib/ImgLib/Formats/Serialization/TIM2SegmentSerializer.cs:217-254 | the header fails exactly for a zero entry size (first) or an unknown bit depth; otherwise its depth byte reads back as the bit depth, a linear palette sets bit 7 of the clut byte, the register blocks are kept, and sizes that fit their fields are the buffer lengths, the user data length and the whole segment length |
| Tim2Header.EncodeHeader | Rainbow.ImgLib/ImgLib/Formats/Serialization/TIM2SegmentSerializer.cs:217-262 | encoding the header fails exactly as `HeaderFor` does; the bytes are 0x20 plus the register blocks plus the user data, and with 8-byte register blocks they parse back to the header and end with the user data |
| Tim2Header.EncodeSegment | Rainbow.ImgLib/ImgLib/Formats/Serialization/TIM2SegmentSerializer.cs:79-93 | encoding fails exactly for a zero entry size (division by zero, checked first) or a bit depth with no depth byte |
| Tim2Header.LemmaEncodedSizes | Rainbow.ImgLib/ImgLib/Formats/Serialization/TIM2SegmentSerializer.cs:217-224 | the encoded segment's total size is its own length and its sizes are the buffer lengths, each truncated to its field; the entry count is the palette length over the entry size; user data, image and palette follow the header verbatim |
| Tim2Header.LemmaHeaderForEncodable | Rainbow.ImgLib/ImgLib/Formats/Serialization/TIM2SegmentSerializer.cs:214-263 | for parameters that fit their fields, the written header is accepted on reading and carries the bit depth, clut format, user data length, sizes and dimensions back |
| Tim2Header.LemmaDecodeParts | Rainbow.ImgLib/ImgLib/Formats/Serialization/TIM2SegmentSerializer.cs:62-77 | a header followed by user data, image and palette of the lengths it declares decodes to exactly those parts, whatever follows |
| Tim2Header.LemmaDecodeEncode | Rainbow.ImgLib/ImgLib/Formats/Serialization/TIM2SegmentSerializer.cs:62-93 | decoding an encoded segment gives back the parameters (with the decoder's swizzle flag), the image and the palette, and an entry count of palette length over entry size |
| Tim2Header.Normalized | Rainbow.ImgLib/ImgLib/Formats/Serialization/TIM2SegmentSerializer.cs:217-231 | the re-encoded header equals the stored one exactly when the stored total size, header size (at least 0x30), entry count and direct-colour clut bits are the recomputed ones |
| Tim2Header.LemmaHeaderForDecoded | Rainbow.ImgLib/ImgLib/Formats/Serialization/TIM2SegmentSerializer.cs:214-263 | the header written for decoded parameters is the stored header normalized |
| Tim2Header.LemmaEncodeDecode | Rainbow.ImgLib/ImgLib/Formats/Serialization/TIM2SegmentSerializer.cs:62-93 | re-encoding a decoded segment writes the normalized header followed by the stored user data, image and palette bytes |
| Tim2Header.LemmaCanonicalRoundTrip | Rainbow.ImgLib/ImgLib/Formats/Serialization/TIM2SegmentSerializer.cs:62-93 | a segment whose header is already normalized is re-encoded byte for byte |
| Tim2Header.LemmaRoundTripOnlyIfNormalized | Rainbow.ImgLib/ImgLib/Formats/Serialization/TIM2SegmentSerializer.cs:62-93 | a segment that is re-encoded byte for byte has an accepted, normalized header |
| Tim2SegmentSerializer.Tim2MetadataEntries | Rainbow.ImgLib/ImgLib/Formats/Serialization/TIM2SegmentSerializer.cs:187-212 | the section is 16 entries that open a "TIM2Texture" section and close it, with the basename, bank count and user data under their keys |
| Tim2SegmentSerializer.ParseTim2Metadata | Rainbow.ImgLib/ImgLib/Formats/Serialization/TIM2SegmentSerializer.cs:152-185 | reading fails only with unexpected metadata; on success the 16 entries at the cursor are the section with the basename, bank count, linear flag and the untruncated fields read, and the swizzle flag is the serializer's |
| Tim2SegmentSerializer.ParseTim2Fields | Rainbow.ImgLib/ImgLib/Formats/Serialization/TIM2SegmentSerializer.cs:166-181 | reading the eleven fields fails only with unexpected metadata; on success the width, height, entry size, register blocks and user data are the values stored under their keys |
| Tim2SegmentSerializer.LemmaFieldsRoundTrip | Rainbow.ImgLib/ImgLib/Formats/Serialization/TIM2SegmentSerializer.cs:166-181 | the fields as an export writes them read back as the parameters, the register values through the signed cast and back |
| Tim2SegmentSerializer.LemmaMetadataRoundTrip | Rainbow.ImgLib/ImgLib/Formats/Serialization/TIM2SegmentSerializer.cs:152-212 | reading back the section an export wrote, wherever it sits, gives the parameters (the reader's swizzle flag; GS registers through the signed cast and back), basename and bank count |
| Tim2SegmentSerializer.Tim2Serializer.constructor | Rainbow.ImgLib/ImgLib/Formats/Serialization/TIM2SegmentSerializer.cs:40-43 | the serializer keeps the swizzle flag it is given |
| Tim2SegmentSerializer.Tim2Serializer.ReadLayoutFields | Rainbow.ImgLib/ImgLib/Formats/Serialization/TIM2SegmentSerializer.cs:316-321 | the width, height, register blocks and register values read are the header's fields |
| Tim2SegmentSerializer.Tim2Serializer.ReadHeaderFields | Rainbow.ImgLib/ImgLib/Formats/Serialization/TIM2SegmentSerializer.cs:272-321 | reading the 0x30 bytes fails on more than one mipmap, then on an unknown depth byte, and otherwise yields the parsed header and its bit depth |
| Tim2SegmentSerializer.Tim2Serializer.AcquireInfoFromHeader | Rainbow.ImgLib/ImgLib/Formats/Serialization/TIM2SegmentSerializer.cs:265-339 | the result is the decoded header of the stream's remaining input, and on success the stream has moved past the header and user data; on failure it has moved past the 0x30 header bytes |
| Tim2SegmentSerializer.Tim2Serializer.Open | Rainbow.ImgLib/ImgLib/Formats/Serialization/TIM2SegmentSerializer.cs:62-77 | the result is the decoded segment of the stream's remaining input, and on success the stream has moved past exactly the segment; on failure it has moved past the 0x30 header bytes |
| Tim2SegmentSerializer.Tim2Serializer.WriteHeader | Rainbow.ImgLib/ImgLib/Formats/Serialization/TIM2SegmentSerializer.cs:214-263 | it succeeds exactly when the header can be encoded and then appends the encoded header and user data; on failure it reports the same error and leaves 0x0E or 0x13 bytes appended |
| Tim2SegmentSerializer.Tim2Serializer.WriteLayoutFields | Rainbow.ImgLib/ImgLib/Formats/Serialization/TIM2SegmentSerializer.cs:255-262 | appends the depth byte, dimensions, register blocks, register values and user data in that order |
| Tim2SegmentSerializer.Tim2Serializer.Save | Rainbow.ImgLib/ImgLib/Formats/Serialization/TIM2SegmentSerializer.cs:79-93 | a non-TIM2 texture is refused with nothing written; otherwise it succeeds exactly when the segment encodes and appends the encoded segment; on failure it reports the encoding error, keeps earlier output and has appended 0x0E or 0x13 header bytes |
| Tim2SegmentSerializer.Tim2Serializer.ConstructImages | Rainbow.ImgLib/ImgLib/Formats/Serialization/TIM2SegmentSerializer.cs:125-137 | one image per palette bank (one when there are none), image i being bank i's; the selected bank is restored |
| Tim2SegmentSerializer.Tim2Serializer.Writemetadata | Rainbow.ImgLib/ImgLib/Formats/Serialization/TIM2SegmentSerializer.cs:187-212 | appends exactly the segment's metadata section: basename, bank count and linear flag as attributes, then the eleven fields in order |
| Tim2SegmentSerializer.Tim2Serializer.Readmetadata | Rainbow.ImgLib/ImgLib/Formats/Serialization/TIM2SegmentSerializer.cs:152-185 | the result is the metadata section at the cursor read in written order, with byte and unsigned fields truncated to their width; on success the cursor has moved past the 16 entries |
| Tim2SegmentSerializer.Tim2Serializer.Export | Rainbow.ImgLib/ImgLib/Formats/Serialization/TIM2SegmentSerializer.cs:95-107 | a non-TIM2 texture is refused with nothing written; otherwise the metadata section is appended and one image per bank is produced, bank i's at index i |
| Pe3SimpleDatSerializer.HasPe3Magic | Rainbow.ImgLib/ImgLib/Formats/Serialization/PE3SimpleDATSerializer.cs:26-33 | the check holds exactly when the bytes at the position are 00 02 00 00, at 0x0E are 21 00 and at 0x16 are 10 00 |
| Pe3SimpleDatSerializer.LemmaPe3MagicBytes | Rainbow.ImgLib/ImgLib/Formats/Serialization/PE3SimpleDATSerializer.cs:26-33 | the check accepts exactly the bytes 00 02 00 00 at the position, 21 00 at 0x0E and 10 00 at 0x16 |
| Pe3SimpleDatSerializer.LemmaMagicInHeader | Rainbow.ImgLib/ImgLib/Formats/Serialization/PE3SimpleDATSerializer.cs:26-33 | from offset 0 the check looks only at the raw header, so a file and the texture opened from it agree on it |
| Pe3SimpleDatSerializer.Split | Rainbow.ImgLib/ImgLib/Formats/Serialization/PE3SimpleDATSerializer.cs:56-66 | the raw header is 0x20 bytes and header followed by image data is the whole input |
| Pe3SimpleDatSerializer.Join | Rainbow.ImgLib/ImgLib/Formats/Serialization/PE3SimpleDATSerializer.cs:77-81 | the saved bytes are the raw header followed by the image data, each recoverable from its place |
| Pe3SimpleDatSerializer.LemmaJoinSplit | Rainbow.ImgLib/ImgLib/Formats/Serialization/PE3SimpleDATSerializer.cs:77-81 | saving what was opened gives back the input |
| Pe3SimpleDatSerializer.LemmaSplitJoin | Rainbow.ImgLib/ImgLib/Formats/Serialization/PE3SimpleDATSerializer.cs:56-66 | opening what was saved gives back a texture with a 0x20-byte header |
| Pe3SimpleDatSerializer.IsValidFormat | Rainbow.ImgLib/ImgLib/Formats/Serialization/PE3SimpleDATSerializer.cs:22-34 | the answer is the three-field check at the stream's position, and the position is restored |
| Pe3SimpleDatSerializer.Open | Rainbow.ImgLib/ImgLib/Formats/Serialization/PE3SimpleDATSerializer.cs:54-69 | the texture is the remaining input split after 0x20 bytes, and the stream is left at its end |
| Pe3SimpleDatSerializer.Save | Rainbow.ImgLib/ImgLib/Formats/Serialization/PE3SimpleDATSerializer.cs:71-82 | a non-PE3 texture is refused with nothing written; otherwise header and image data are appended |
| Pe3SimpleDatSerializer.Export | Rainbow.ImgLib/ImgLib/Formats/Serialization/PE3SimpleDATSerializer.cs:84-97 | a non-PE3 texture is refused with nothing written; otherwise a section holding the basename and the raw header is appended |
| Pe3SimpleDatSerializer.Pe3MetadataEntries | Rainbow.ImgLib/ImgLib/Formats/Serialization/PE3SimpleDATSerializer.cs:90-96 | the section is four entries that open a "PE3SimpleDAT" section and close it, with the basename and raw header under their keys |
| Pe3SimpleDatSerializer.ParsePe3Metadata | Rainbow.ImgLib/ImgLib/Formats/Serialization/PE3SimpleDATSerializer.cs:101-107 | reading fails only with unexpected metadata; on success the four entries at the cursor are exactly the section an export of the result would write |
| Pe3SimpleDatSerializer.Import | Rainbow.ImgLib/ImgLib/Formats/Serialization/PE3SimpleDATSerializer.cs:99-110 | the result is the section at the cursor read in written order: basename, then raw header; on success the cursor has moved past the four entries |
| Pe3SimpleDatSerializer.LemmaPe3MetadataRoundTrip | Rainbow.ImgLib/ImgLib/Formats/Serialization/PE3SimpleDATSerializer.cs:90-103 | reading back the section an export wrote, wherever it sits, gives the basename and raw header written |

## Left out

- PNG file input and output are not modelled. This covers saving exported images, loading imported ones, `ReadImageData`, and the PE3 export's image save. An exported image is represented by the inputs of its reconstruction (`Textures.Image`).
- The pixel reconstruction of a TIM2 segment is not part of this model. This covers palette banks, linear-palette reordering and swizzling. The bank count is a stored field of the segment holder.
- Building a TIM2 segment from imported images is not part of this model (its constructor is not available). TIM2 `Import` is modelled by its metadata part, `Readmetadata`.
- PE3 `Import` is modelled by its metadata part: it returns the basename and raw header read (`Pe3MetadataInfo`). Loading the PNG image and building the texture from it are not modelled.
- The TIM2 stubs `IsValidFormat` and `IsValidMetadataFormat` only throw "not implemented". They are not modelled.
- The PE3 `IsValidMetadataFormat` is not modelled. It is a probe that catches the metadata reader's exceptions and rewinds it, and that reader's section semantics are not available.
- The metadata reader and writer are modelled as an ordered list of entries. Their text format, rewinding and exceptions are not modelled; a get at the wrong key fails with `UnexpectedMetadata`.
- Exceptions are modelled as failure values. Their types and messages are not.
- Stream short reads are not modelled. The read operations require that the input holds the bytes they read.
- Tim2SegmentSerializer.Tim2Serializer.Open: a data or palette size of 2^31 or more turns the C# read count negative, and the read throws. The model reads those bytes instead.
- Tim2SegmentSerializer.Tim2Serializer.Open: returns the data a segment is built from (`Tim2SegmentData`) rather than a segment object.
- Tim2SegmentSerializer.Tim2Serializer.WriteHeader: on failure it states the error, that earlier output is kept, and how many bytes were appended. It does not state what those bytes are.
- Tim2SegmentSerializer.Tim2Serializer.AcquireInfoFromHeader: the user data of a header whose size is at most 0x30 is taken to be empty. The parameters' default value is not available.
- ColorCodecRgb565.Rgb565Codec.DecodeColors: requires that `start + length` lies within the buffer. The memory stream throws otherwise.
- `System.Drawing.Color` is modelled as four bytes (alpha, red, green, blue).
- The byte order of a 16-bit colour read is a parameter of the codec (`ByteOrder`). The endianness-dependent base class is not available.
- The `Name` and `PreferredFormatExtension` properties are constants and are not modelled.
