/** The 16-bit 5-6-5 colour codec: every pair of bytes, read in the codec's byte order,
    is a word holding five bits of red (bits 15..11), six of green (10..5) and five of
    blue (4..0); each field is scaled up to a byte by a left shift, and alpha is opaque.
    The codec decodes only. */
module ColorCodecRgb565 {
  import opened ByteCodec
  import opened Results

  /** A colour with one byte per channel: alpha, red, green, blue. */
  datatype Color = Color(a: byte, r: byte, g: byte, b: byte)

  /** The colour of one 5-6-5 word: every channel is a multiple of its step (8 for the
      five-bit channels, 4 for green) and fully opaque. */
  function Unpack(w: u16): (c: Color)
    ensures c.a == 0xFF
    ensures c.r % 8 == 0 && c.r <= 248
    ensures c.g % 4 == 0 && c.g <= 252
    ensures c.b % 8 == 0 && c.b <= 248
  {
    Color(0xFF, (w / 0x800) % 0x20 * 8, (w / 0x20) % 0x40 * 4, w % 0x20 * 8)
  }

  /** The colours a 5-6-5 word can stand for. */
  predicate Representable(c: Color) {
    c.a == 0xFF && c.r % 8 == 0 && c.g % 4 == 0 && c.b % 8 == 0
  }

  /** The word that a representable colour comes from: the reference against which the
      unpacking is shown to lose nothing. */
  function Pack(c: Color): (w: u16)
  {
    c.r / 8 * 0x800 + c.g / 4 * 0x20 + c.b / 8
  }

  /** Quotient and remainder by one of the field boundaries are the unique ones. */
  lemma LemmaDivModUnique(x: int, d: int, q: int, m: int)
    requires d == 0x20 || d == 0x40 || d == 0x800
    requires 0 <= m < d && x == d * q + m
    ensures x / d == q && x % d == m
  {
  }

  /** A word is its red, green and blue fields put back in place. */
  lemma {:induction false} LemmaFields(w: u16)
    ensures (w / 0x800) % 0x20 == w / 0x800
    ensures w == (w / 0x800) * 0x800 + ((w / 0x20) % 0x40) * 0x20 + w % 0x20
  {
    var q, b := w / 0x20, w % 0x20;
    var r, g := q / 0x40, q % 0x40;
    LemmaDivModUnique(w, 0x800, r, 0x20 * g + b);
    LemmaDivModUnique(r, 0x20, 0, r);
  }

  /** Unpacking is injective on words: the word can be recovered from its colour. */
  lemma {:induction false} LemmaPackUnpack(w: u16)
    ensures Pack(Unpack(w)) == w
  {
    LemmaFields(w);
    var r, g, b := w / 0x800, (w / 0x20) % 0x40, w % 0x20;
    var c := Unpack(w);
    assert c.r == r * 8 && c.g == g * 4 && c.b == b * 8;
  }

  /** Every representable colour is the colour of exactly the word `Pack` gives. */
  lemma {:induction false} LemmaUnpackPack(c: Color)
    requires Representable(c)
    ensures Unpack(Pack(c)) == c
  {
    var r, g, b := c.r / 8, c.g / 4, c.b / 8;
    var w := Pack(c);
    assert w == 0x20 * (0x40 * r + g) + b;
    LemmaDivModUnique(w, 0x20, 0x40 * r + g, b);
    LemmaDivModUnique(0x40 * r + g, 0x40, r, g);
    LemmaDivModUnique(w, 0x800, r, 0x20 * g + b);
    LemmaDivModUnique(r, 0x20, 0, r);
  }

  /** The three pure primaries. */
  lemma LemmaPrimaries()
    ensures Unpack(0xF800) == Color(255, 248, 0, 0)
    ensures Unpack(0x07E0) == Color(255, 0, 252, 0)
    ensures Unpack(0x001F) == Color(255, 0, 0, 248)
  {
  }

  /** A 5-6-5 codec for one byte order. */
  class Rgb565Codec {
    const byteOrder: ByteOrder

    constructor (order: ByteOrder)
      ensures byteOrder == order
    {
      byteOrder := order;
    }

    /** Bits per encoded colour: the red, green and blue fields together fill a word of
        two whole bytes. */
    function BitDepth(): (bits: nat)
      ensures bits == 5 + 6 + 5 && bits % 8 == 0 && bits / 8 == 2
    {
      16
    }

    /** The colours of the `length` bytes at `start`: one colour per whole word (a
        trailing odd byte is ignored), word `i` read from bytes `start + 2i` and
        `start + 2i + 1` in the codec's byte order. */
    method DecodeColors(colors: seq<byte>, start: nat, length: nat) returns (decoded: seq<Color>)
      requires start + length <= |colors|
      ensures |decoded| == length / (BitDepth() / 8)
      ensures forall i :: 0 <= i < |decoded| ==>
        decoded[i] == Unpack(U16Ordered(byteOrder, colors, start + 2 * i))
    {
      var reader := new Reader(colors[start..start + length]);
      var encoded := new Color[length / 2];
      for i := 0 to encoded.Length
        invariant reader.data == colors[start..start + length]
        invariant reader.pos == 2 * i
        invariant forall k :: 0 <= k < i ==>
          encoded[k] == Unpack(U16Ordered(byteOrder, colors, start + 2 * k))
      {
        var color := reader.ReadUInt16Ordered(byteOrder);
        encoded[i] := Unpack(color);
      }
      decoded := encoded[..];
    }

    /** Encoding is not provided: every call fails and no bytes are produced. */
    method EncodeColors(colors: seq<Color>, start: nat, length: nat) returns (r: Result<seq<byte>>)
      ensures r == Failure(NotImplemented)
    {
      r := Failure(NotImplemented);
    }
  }
}
