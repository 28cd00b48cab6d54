/** Bytes, fixed-width integers in little- and big-endian order, and the two cursors
    the serializers work with: a reader over a finite stream and an append-only writer. */
module ByteCodec {

  type byte = b: int | 0 <= b < 0x100
  type u16 = v: int | 0 <= v < 0x1_0000
  type u32 = v: int | 0 <= v < 0x1_0000_0000

  /** Order of the two bytes of a 16-bit word, as configured on a colour codec. */
  datatype ByteOrder = LittleEndian | BigEndian

  /** Truncation of an integer to its low 8, 16 or 32 bits, as a C# unchecked cast does. */
  function Wrap8(x: int): (r: byte)
    ensures 0 <= x < 0x100 ==> r == x
  {
    x % 0x100
  }
  function Wrap16(x: int): (r: u16)
    ensures 0 <= x < 0x1_0000 ==> r == x
  {
    x % 0x1_0000
  }
  function Wrap32(x: int): (r: u32)
    ensures 0 <= x < 0x1_0000_0000 ==> r == x
  {
    x % 0x1_0000_0000
  }

  /** The 16-bit little-endian value stored at `at`. */
  function U16At(s: seq<byte>, at: nat): u16
    requires at + 2 <= |s|
  {
    s[at] as int + 0x100 * (s[at + 1] as int)
  }

  /** The 32-bit little-endian value stored at `at`. */
  function U32At(s: seq<byte>, at: nat): u32
    requires at + 4 <= |s|
  {
    U16At(s, at) + 0x1_0000 * U16At(s, at + 2)
  }

  /** The 16-bit value stored at `at` in the given byte order: its low byte comes
      first in little-endian order, its high byte first in big-endian order. */
  function U16Ordered(order: ByteOrder, s: seq<byte>, at: nat): (r: u16)
    requires at + 2 <= |s|
    ensures r % 0x100 == (if order == LittleEndian then s[at] else s[at + 1])
    ensures r / 0x100 == (if order == LittleEndian then s[at + 1] else s[at])
  {
    match order
    case LittleEndian => U16At(s, at)
    case BigEndian => 0x100 * (s[at] as int) + s[at + 1] as int
  }

  /** The little-endian bytes of `v`: low byte first. */
  function U16Le(v: u16): (r: seq<byte>)
    ensures |r| == 2
  {
    [v % 0x100, v / 0x100]
  }

  /** The little-endian bytes of `v`: low half first. */
  function U32Le(v: u32): (r: seq<byte>)
    ensures |r| == 4
  {
    U16Le(v % 0x1_0000) + U16Le(v / 0x1_0000)
  }

  /** Two written bytes read back as the value written. */
  lemma LemmaU16AtOfLe(v: u16)
    ensures U16At(U16Le(v), 0) == v
  {
  }

  /** Four written bytes read back as the value written. */
  lemma {:induction false} LemmaU32AtOfLe(v: u32)
    ensures U32At(U32Le(v), 0) == v
  {
    LemmaU16AtOfLe(v % 0x1_0000);
    LemmaU16AtOfLe(v / 0x1_0000);
    LemmaU16AtConcat([], U16Le(v % 0x1_0000), U16Le(v / 0x1_0000));
    LemmaU16AtConcat(U16Le(v % 0x1_0000), U16Le(v / 0x1_0000), []);
  }

  /** Reading two stored bytes and writing the value back gives the same bytes. */
  lemma LemmaU16LeOfAt(s: seq<byte>, at: nat)
    requires at + 2 <= |s|
    ensures U16Le(U16At(s, at)) == s[at..at + 2]
  {
  }

  /** Reading four stored bytes and writing the value back gives the same bytes. */
  lemma LemmaU32LeOfAt(s: seq<byte>, at: nat)
    requires at + 4 <= |s|
    ensures U32Le(U32At(s, at)) == s[at..at + 4]
  {
    var lo, hi := U16At(s, at), U16At(s, at + 2);
    assert U32At(s, at) % 0x1_0000 == lo;
    assert U32At(s, at) / 0x1_0000 == hi;
    LemmaU16LeOfAt(s, at);
    LemmaU16LeOfAt(s, at + 2);
  }

  /** A slice of a suffix is a slice of the whole, shifted by where the suffix starts. */
  lemma LemmaSliceOfSuffix(s: seq<byte>, start: nat, i: nat, j: nat)
    requires start <= |s| && i <= j <= |s| - start
    ensures s[start..][i..j] == s[start + i..start + j]
  {
  }

  /** A slice cut at two inner points is the concatenation of its three pieces. */
  lemma LemmaSliceSplit<T>(s: seq<T>, a: nat, b: nat, c: nat, d: nat)
    requires a <= b <= c <= d <= |s|
    ensures s[a..d] == s[a..b] + s[b..c] + s[c..d]
  {
  }

  /** A value read at an offset inside a concatenation comes from the part that holds it. */
  lemma LemmaU32AtConcat(a: seq<byte>, b: seq<byte>, c: seq<byte>)
    requires |b| == 4
    ensures U32At(a + b + c, |a|) == U32At(b, 0)
  {
  }

  lemma LemmaU16AtConcat(a: seq<byte>, b: seq<byte>, c: seq<byte>)
    requires |b| == 2
    ensures U16At(a + b + c, |a|) == U16At(b, 0)
  {
  }

  /** A read cursor over a finite stream: `data` is everything the stream holds and
      `pos` is its current position. */
  class Reader {
    const data: seq<byte>
    var pos: nat

    constructor (data: seq<byte>)
      ensures this.data == data && pos == 0
    {
      this.data := data;
      pos := 0;
    }

    method ReadByte() returns (b: byte)
      requires pos + 1 <= |data|
      modifies this
      ensures pos == old(pos) + 1 && b == data[old(pos)]
    {
      b := data[pos];
      pos := pos + 1;
    }

    method ReadUInt16() returns (v: u16)
      requires pos + 2 <= |data|
      modifies this
      ensures pos == old(pos) + 2 && v == U16At(data, old(pos))
    {
      v := U16At(data, pos);
      pos := pos + 2;
    }

    method ReadUInt16Ordered(order: ByteOrder) returns (v: u16)
      requires pos + 2 <= |data|
      modifies this
      ensures pos == old(pos) + 2 && v == U16Ordered(order, data, old(pos))
    {
      v := U16Ordered(order, data, pos);
      pos := pos + 2;
    }

    method ReadUInt32() returns (v: u32)
      requires pos + 4 <= |data|
      modifies this
      ensures pos == old(pos) + 4 && v == U32At(data, old(pos))
    {
      v := U32At(data, pos);
      pos := pos + 4;
    }

    method ReadBytes(n: nat) returns (bs: seq<byte>)
      requires pos + n <= |data|
      modifies this
      ensures pos == old(pos) + n && bs == data[old(pos)..old(pos) + n]
    {
      bs := data[pos..pos + n];
      pos := pos + n;
    }

    /** Moves the cursor, as an assignment to a stream's position does. */
    method Seek(p: nat)
      requires p <= |data|
      modifies this
      ensures pos == p
    {
      pos := p;
    }
  }

  /** An output stream: `written` is everything written to it so far. */
  class Writer {
    var written: seq<byte>

    constructor ()
      ensures written == []
    {
      written := [];
    }

    method WriteByte(b: byte)
      modifies this
      ensures written == old(written) + [b]
    {
      written := written + [b];
    }

    method WriteUInt16(v: u16)
      modifies this
      ensures written == old(written) + U16Le(v)
    {
      written := written + U16Le(v);
    }

    method WriteUInt32(v: u32)
      modifies this
      ensures written == old(written) + U32Le(v)
    {
      written := written + U32Le(v);
    }

    method WriteBytes(bs: seq<byte>)
      modifies this
      ensures written == old(written) + bs
    {
      written := written + bs;
    }
  }
}
