/** The engine's data model: decoded values, the errors that abort an
    extraction, field descriptors (the catalog entries) and the
    name-to-value result. */
module Metadata {
  import opened Wrappers
  import opened Bytes

  /** A decoded value. The floating-point results are kept symbolic: they
      record the raw input of the conversion the source performs. */
  datatype Value =
    | Int(i: int)
      // text: decoded strings, labels, timecodes, BCD dates, UUIDs
    | Text(s: string)
      // `str(round(2 ** (((raw / 1000) - 1) / 2), 2))`
    | TStopFormula(raw: int)
      // the float handler's `raw / 1000`, formatted with the optional
      // decimals and unit
    | Scaled(milli: nat, decimals: Option<int>, unit: Option<string>)
      // a `struct` floating-point code ('e', 'f' or 'd') and its bytes
    | FloatBits(code: char, bits: seq<Byte>)

  /** The exceptions that abort an extraction, and the two that opening
      the source file raises. */
  datatype Error =
    | StructError          // `struct.error`: bad format or too few bytes
    | KeyError(key: string)
    | ValueError           // UUID of the wrong size, negative shift, `min([])`
    | TypeError            // a bit position of the wrong shape
    | OverflowError        // a float power beyond the largest double
    | FileNotFound
    | OsError

  /** The `bit_position` entry: one index or a list of indices. */
  datatype BitPosition = Index(i: int) | Indices(indices: seq<int>)

  /** One catalog entry. `tag` is the entry's `'datatype'`; the optional
      entries are `None` when the dictionary lacks the key (or, for the
      `.get(...)` lookups, holds `None`). `prefix` is read with a plain
      lookup whose value may itself be `None`, so it keeps both layers. */
  datatype FieldDescriptor = FieldDescriptor(
    name: string,
    offset: nat,
    tag: string,
    length: Option<nat>,
    endianness: Option<ByteOrder>,
    number: Option<string>,
    bitPosition: Option<BitPosition>,
    prefix: Option<Option<string>>,
    mapping: Option<map<Value, string>>,
    decimals: Option<int>,
    unit: Option<string>)

  type Catalog = seq<FieldDescriptor>

  type MetadataMap = map<string, Value>

  /** `[field['name'] for field in fields]`. */
  function Names(fields: Catalog): (names: seq<string>)
    ensures |names| == |fields|
    ensures forall i :: 0 <= i < |fields| ==> names[i] == fields[i].name
  {
    seq(|fields|, i requires 0 <= i < |fields| => fields[i].name)
  }

  /** The allow-list test of the extraction loop: no list selects every
      field; a list selects the fields whose catalog name it holds. */
  predicate Selected(f: FieldDescriptor, allow: Option<seq<string>>)
  {
    allow.None? || f.name in allow.value
  }

  /** The byte order a field is decoded with: its own, else the detected
      one. */
  function EffectiveOrder(f: FieldDescriptor, detected: ByteOrder): (o: ByteOrder)
    ensures f.endianness.Some? ==> o == f.endianness.value
    ensures f.endianness.None? ==> o == detected
  {
    if f.endianness.Some? then f.endianness.value else detected
  }

}
