/** The in-memory textures the serializers produce and consume. The TIM2 segment is only
    a holder here: how it rebuilds pixels from its image and palette bytes is not part of
    this model, so an image is represented by the inputs of that reconstruction. */
module Textures {
  import opened ByteCodec

  /** The header-derived settings of a TIM2 segment. `swizzled` never comes from the
      file: the serializer that builds the parameters supplies it. */
  datatype Tim2Parameters = Tim2Parameters(
    width: int,
    height: int,
    bpp: byte,
    colorSize: int,
    mipmapCount: byte,
    format: byte,
    linearPalette: bool,
    swizzled: bool,
    gsTex0: seq<byte>,
    gsTex1: seq<byte>,
    gsRegs: u32,
    gsTexClut: u32,
    userData: seq<byte>)

  /** What decoding a TIM2 segment hands to the segment it creates. */
  datatype Tim2SegmentData = Tim2SegmentData(
    imageData: seq<byte>,
    paletteData: seq<byte>,
    colorEntries: u16,
    parameters: Tim2Parameters)

  /** An image reconstructed from a segment, identified by what the reconstruction
      reads: the segment's bytes and parameters and the palette bank selected. */
  datatype Image = Image(
    imageData: seq<byte>,
    paletteData: seq<byte>,
    parameters: Tim2Parameters,
    palette: int)

  /** A TIM2 segment: raw image and palette bytes, parameters, the number of palette
      banks and the bank currently selected. */
  class Tim2Segment {
    const imageData: seq<byte>
    const paletteData: seq<byte>
    const parameters: Tim2Parameters
    const palettesCount: nat
    var selectedPalette: int

    constructor (imageData: seq<byte>, paletteData: seq<byte>, parameters: Tim2Parameters, palettesCount: nat)
      ensures this.imageData == imageData && this.paletteData == paletteData
      ensures this.parameters == parameters && this.palettesCount == palettesCount
      ensures selectedPalette == 0
    {
      this.imageData := imageData;
      this.paletteData := paletteData;
      this.parameters := parameters;
      this.palettesCount := palettesCount;
      selectedPalette := 0;
    }

    /** The image of the given palette bank. */
    function ImageOf(palette: int): Image
    {
      Image(imageData, paletteData, parameters, palette)
    }

    /** The image of the bank currently selected. */
    function GetImage(): Image
      reads this
    {
      ImageOf(selectedPalette)
    }
  }

  /** A PE3 "simple DAT" texture: a raw header kept verbatim and the bytes after it. */
  datatype Pe3SimpleDatTexture = Pe3SimpleDatTexture(rawHeader: seq<byte>, imageData: seq<byte>)

  /** A texture of any format, as the format-independent serializer operations take it. */
  datatype TextureFormat =
    | Tim2(segment: Tim2Segment)
    | Pe3SimpleDat(texture: Pe3SimpleDatTexture)
    | OtherFormat
}
