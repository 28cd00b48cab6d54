/** Metadata as a flat ordered list of entries: a section opens, attributes and named
    fields follow in the order they were put, and the section closes. The writer
    appends entries; the reader walks them in order and every get names the key it
    expects at the cursor. The textual format behind these lists is not part of this
    model. */
module Metadata {
  import opened ByteCodec
  import opened Results

  datatype Value = Text(text: string) | Number(number: int) | Flag(flag: bool) | Raw(bytes: seq<byte>)

  datatype Entry =
    | Begin(name: string)
    | Attribute(key: string, value: Value)
    | Field(key: string, value: Value)
    | End

  /** The section opened at `i`, if it is the one named. */
  function SectionAt(es: seq<Entry>, i: nat, name: string): Outcome
  {
    if i < |es| && es[i] == Begin(name) then Pass else Fail(UnexpectedMetadata)
  }

  /** The end of a section at `i`. */
  function SectionEndAt(es: seq<Entry>, i: nat): Outcome
  {
    if i < |es| && es[i] == End then Pass else Fail(UnexpectedMetadata)
  }

  /** The value of the attribute at `i`, if it has the given key. */
  function AttributeAt(es: seq<Entry>, i: nat, key: string): Result<Value>
  {
    if i < |es| && es[i].Attribute? && es[i].key == key then Success(es[i].value)
    else Failure(UnexpectedMetadata)
  }

  /** The value of the field at `i`, if it has the given key. */
  function FieldAt(es: seq<Entry>, i: nat, key: string): Result<Value>
  {
    if i < |es| && es[i].Field? && es[i].key == key then Success(es[i].value)
    else Failure(UnexpectedMetadata)
  }

  function AsText(r: Result<Value>): Result<string>
  {
    if r.Success? && r.value.Text? then Success(r.value.text) else Failure(UnexpectedMetadata)
  }

  function AsNumber(r: Result<Value>): Result<int>
  {
    if r.Success? && r.value.Number? then Success(r.value.number) else Failure(UnexpectedMetadata)
  }

  function AsFlag(r: Result<Value>): Result<bool>
  {
    if r.Success? && r.value.Flag? then Success(r.value.flag) else Failure(UnexpectedMetadata)
  }

  function AsRaw(r: Result<Value>): Result<seq<byte>>
  {
    if r.Success? && r.value.Raw? then Success(r.value.bytes) else Failure(UnexpectedMetadata)
  }

  /** Appends entries to a metadata document. */
  class MetadataWriter {
    var entries: seq<Entry>

    constructor ()
      ensures entries == []
    {
      entries := [];
    }

    method BeginSection(name: string)
      modifies this
      ensures entries == old(entries) + [Begin(name)]
    {
      entries := entries + [Begin(name)];
    }

    method PutAttribute(key: string, value: Value)
      modifies this
      ensures entries == old(entries) + [Attribute(key, value)]
    {
      entries := entries + [Attribute(key, value)];
    }

    method Put(key: string, value: Value)
      modifies this
      ensures entries == old(entries) + [Field(key, value)]
    {
      entries := entries + [Field(key, value)];
    }

    method EndSection()
      modifies this
      ensures entries == old(entries) + [End]
    {
      entries := entries + [End];
    }
  }

  /** Reads the entries of a metadata document in order. A get whose key or kind does
      not match the entry at the cursor fails. */
  class MetadataReader {
    const entries: seq<Entry>
    var pos: nat

    constructor (entries: seq<Entry>)
      ensures this.entries == entries && pos == 0
    {
      this.entries := entries;
      pos := 0;
    }

    method EnterSection(name: string) returns (r: Outcome)
      modifies this
      ensures r == SectionAt(entries, old(pos), name)
      ensures pos == old(pos) + 1
    {
      r := SectionAt(entries, pos, name);
      pos := pos + 1;
    }

    method ExitSection() returns (r: Outcome)
      modifies this
      ensures r == SectionEndAt(entries, old(pos))
      ensures pos == old(pos) + 1
    {
      r := SectionEndAt(entries, pos);
      pos := pos + 1;
    }

    method GetAttributeString(key: string) returns (r: Result<string>)
      modifies this
      ensures r == AsText(AttributeAt(entries, old(pos), key))
      ensures pos == old(pos) + 1
    {
      r := AsText(AttributeAt(entries, pos, key));
      pos := pos + 1;
    }

    method GetAttributeInt(key: string) returns (r: Result<int>)
      modifies this
      ensures r == AsNumber(AttributeAt(entries, old(pos), key))
      ensures pos == old(pos) + 1
    {
      r := AsNumber(AttributeAt(entries, pos, key));
      pos := pos + 1;
    }

    method GetAttributeBool(key: string) returns (r: Result<bool>)
      modifies this
      ensures r == AsFlag(AttributeAt(entries, old(pos), key))
      ensures pos == old(pos) + 1
    {
      r := AsFlag(AttributeAt(entries, pos, key));
      pos := pos + 1;
    }

    method GetInt(key: string) returns (r: Result<int>)
      modifies this
      ensures r == AsNumber(FieldAt(entries, old(pos), key))
      ensures pos == old(pos) + 1
    {
      r := AsNumber(FieldAt(entries, pos, key));
      pos := pos + 1;
    }

    method GetRaw(key: string) returns (r: Result<seq<byte>>)
      modifies this
      ensures r == AsRaw(FieldAt(entries, old(pos), key))
      ensures pos == old(pos) + 1
    {
      r := AsRaw(FieldAt(entries, pos, key));
      pos := pos + 1;
    }
  }
}
