/** The packaged `BinaryFileDTO`: a reader over one in-memory stream that
    decodes the fields of its catalog. Every method is proved against the
    function of the buffer and the cursor that specifies it in DtoSpec. */
module Dto {
  import opened Wrappers
  import opened Bytes
  import opened Streams
  import opened Metadata
  import opened Codec
  import opened DtoSpec

  /** A method's result `r`, with the cursor at `pos` afterwards, is what
      the specification `spec` decodes: the same value and cursor, or the
      same exception. */
  predicate Agrees<T(==)>(r: Result<T, Error>, spec: Result<(T, nat), Error>, pos: nat)
  {
    match spec
    case Success(v) => r == Success(v.0) && pos == v.1
    case Failure(e) => r == Failure(e)
  }

  class BinaryFileDTO {
    const file: ByteStream
    const fieldsToExtract: Option<seq<string>>
    const endianness: ByteOrder
    var fields: Catalog
    var data: MetadataMap

    /** The attributes `__init__` sets, once the byte order is known. */
    constructor (file: ByteStream, fieldsToExtract: Option<seq<string>>, endianness: ByteOrder)
      ensures this.file == file && this.fieldsToExtract == fieldsToExtract && this.endianness == endianness
      ensures fields == [] && data == map[]
    {
      this.file := file;
      this.fieldsToExtract := fieldsToExtract;
      this.endianness := endianness;
      fields := [];
      data := map[];
    }

    /** A metadata block over `source`: `__init__` (open the stream,
        detect the byte order), then the block's own constructor (set the
        catalog, extract). Either step's exception is the result. */
    static method Load(source: seq<Byte>, fieldsToExtract: Option<seq<string>>, catalog: Catalog)
      returns (r: Result<BinaryFileDTO, Error>)
      ensures DetectOrder(source).Failure? ==> r == Failure(DetectOrder(source).error)
      ensures DetectOrder(source).Success? ==>
        var x := Extract(source, DetectOrder(source).value.0, catalog, fieldsToExtract);
        (r.Success? <==> x.Success?) &&
        (x.Failure? ==> r == Failure(x.error)) &&
        (r.Success? ==>
          fresh(r.value) && r.value.file.buf == source && r.value.fieldsToExtract == fieldsToExtract &&
          r.value.endianness == DetectOrder(source).value.0 &&
          r.value.fields == catalog && r.value.data == x.value)
    {
      var stream := new ByteStream(source);
      var order := DetermineEndianness(stream);
      if order.Failure? {
        return Failure(order.error);
      }
      var dto := new BinaryFileDTO(stream, fieldsToExtract, order.value);
      dto.fields := catalog;
      var extracted := dto.ExtractMetadata();
      if extracted.Failure? {
        return Failure(extracted.error);
      }
      dto.data := extracted.value;
      return Success(dto);
    }

    /** `list_fields`: every catalog name, in catalog order, selected or
        not. */
    function ListFields(): (names: seq<string>)
      reads this
      ensures |names| == |fields|
      ensures forall i :: 0 <= i < |fields| ==> names[i] == fields[i].name
    {
      Names(fields)
    }

    /** `list_data_names`, as the set of the stored keys. */
    function DataNames(): (names: set<string>)
      reads this
      ensures forall k :: k in names <==> k in data
    {
      data.Keys
    }

    /** `get_data`: the dictionary the last extraction stored. */
    function GetData(): (d: MetadataMap)
      reads this
      ensures d.Keys == DataNames()
      ensures forall k :: k in d ==> d[k] == data[k]
    {
      data
    }

    /** `_read_and_unpack`: a bad code fails before the read; a short read
        fails the unpack. */
    static method ReadAndUnpack(input: ByteStream, order: ByteOrder, tag: string) returns (r: Result<Value, Error>)
      modifies input
      ensures Agrees(r, UnpackAt(input.buf, old(input.pos), order, tag), input.pos)
    {
      if |tag| != 1 || CodeSize(tag[0]).None? {
        return Failure(StructError);
      }
      var n := CodeSize(tag[0]).value;
      var bs := input.Read(n);
      if |bs| != n {
        return Failure(StructError);
      }
      return Success(UnpackBytes(bs, order, tag[0]));
    }

    /** `_determine_endianness`: the order word after the four magic
        bytes. */
    static method DetermineEndianness(input: ByteStream) returns (r: Result<ByteOrder, Error>)
      modifies input
      ensures Agrees(r, DetectOrder(input.buf), input.pos)
    {
      input.Seek(0);
      var magic := input.Read(4);
      var word := ReadAndUnpack(input, Little, "I");
      if word.Failure? {
        return Failure(word.error);
      }
      return Success(OrderOfWord(word.value.i));
    }

    /** `_read_string`. */
    static method ReadString(input: ByteStream, length: nat, order: ByteOrder) returns (s: string)
      modifies input
      ensures (s, input.pos) == ReadStringAt(input.buf, old(input.pos), length, order)
    {
      var bs := input.Read(length);
      s := DecodeString(bs, order);
    }

    /** `_read_frameline`. */
    static method ReadFrameline(input: ByteStream, number: string, order: ByteOrder)
      returns (r: Result<MetadataMap, Error>)
      modifies input
      ensures Agrees(r, FrameLineAt(input.buf, old(input.pos), number, order), input.pos)
    {
      var typeWord := ReadAndUnpack(input, Little, "I");
      if typeWord.Failure? {
        return Failure(typeWord.error);
      }
      var typeName := FrameLineTypeName(typeWord.value.i);
      if typeName == "Inactive" {
        var none := Text("--");
        return Success(FrameLineRecord(number, Text(typeName), none, none, none, none, none));
      }
      var name := ReadString(input, 32, order);
      var left := ReadAndUnpack(input, Little, "H");
      if left.Failure? {
        return Failure(left.error);
      }
      var top := ReadAndUnpack(input, Little, "H");
      if top.Failure? {
        return Failure(top.error);
      }
      var width := ReadAndUnpack(input, Little, "H");
      if width.Failure? {
        return Failure(width.error);
      }
      var height := ReadAndUnpack(input, Little, "H");
      if height.Failure? {
        return Failure(height.error);
      }
      r := Success(FrameLineRecord(number, Text(typeName), Text(name), left.value, top.value,
                                   width.value, height.value));
    }

    /** `_read_tstop`. */
    static method ReadTStop(input: ByteStream, order: ByteOrder) returns (r: Result<Value, Error>)
      modifies input
      ensures Agrees(r, TStopAt(input.buf, old(input.pos), order), input.pos)
    {
      var bs := input.Read(4);
      r := ConvertDataToTStop(FromBytes(bs, order));
    }

    /** `_read_bit`: the word is read before the shift can fail. */
    static method ReadBit(input: ByteStream, position: BitPosition, order: ByteOrder) returns (r: Result<Value, Error>)
      modifies input
      ensures Agrees(r, BitAt(input.buf, old(input.pos), position, order), input.pos)
    {
      var bs := input.Read(4);
      var value := FromBytes(bs, order);
      match position
      case Index(i) =>
        if i < 0 {
          return Failure(ValueError);
        }
        return Success(Int(BitAnd(ShiftRight(value, i), 1)));
      case Indices(_) =>
        return Failure(TypeError);
    }

    /** `handle_field`: the handler for the tag, or the default one. */
    method HandleField(field: FieldDescriptor, order: ByteOrder) returns (r: Result<MetadataMap, Error>)
      modifies file
      ensures Agrees(r, HandleAt(file.buf, old(file.pos), field, order), file.pos)
    {
      match field.tag
      case "string" =>
        r := HandleStringField(field, order);
      case "UserString" =>
        r := HandleUserStringField(field, order);
      case "timecode" =>
        var bs := file.Read(4);
        r := Success(map[field.name := Text(TimeCode(bs))]);
      case "TStop" =>
        var v := ReadTStop(file, order);
        if v.Failure? {
          return Failure(v.error);
        }
        r := Success(map[field.name := v.value]);
      case "frameline" =>
        if field.number.None? {
          return Failure(KeyError("number"));
        }
        r := ReadFrameline(file, field.number.value, order);
      case "uuid" =>
        r := HandleUuidField(field);
      case "bits" =>
        r := HandleBitsField(field, order);
      case "date" =>
        r := HandleBcdField(field, order, "/");
      case "time" =>
        r := HandleBcdField(field, order, ":");
      case "offset" =>
        r := HandleOffsetField(field, order);
      case "float" =>
        r := HandleFloatField(field, order);
      case _ =>
        var v := ReadAndUnpack(file, order, field.tag);
        if v.Failure? {
          return Failure(v.error);
        }
        r := Success(map[field.name := v.value]);
    }

    /** `_handle_string_field`: `length` is looked up before the read. */
    method HandleStringField(field: FieldDescriptor, order: ByteOrder) returns (r: Result<MetadataMap, Error>)
      modifies file
      ensures Agrees(r, HandleString(file.buf, old(file.pos), field, order), file.pos)
    {
      if field.length.None? {
        return Failure(KeyError("length"));
      }
      var s := ReadString(file, field.length.value, order);
      r := Success(map[field.name := Text(s)]);
    }

    /** `_handle_user_string_field`. */
    method HandleUserStringField(field: FieldDescriptor, order: ByteOrder) returns (r: Result<MetadataMap, Error>)
      modifies file
      ensures Agrees(r, HandleUserString(file.buf, old(file.pos), field, order), file.pos)
    {
      if field.length.None? {
        return Failure(KeyError("length"));
      }
      var s := ReadString(file, field.length.value, order);
      r := Success(TextValues(SplitUserString(s)));
    }

    /** `_handle_uuid_field`. */
    method HandleUuidField(field: FieldDescriptor) returns (r: Result<MetadataMap, Error>)
      modifies file
      ensures Agrees(r, HandleUuid(file.buf, old(file.pos), field), file.pos)
    {
      var bs := file.Read(16);
      if |bs| != 16 {
        return Failure(ValueError);
      }
      r := Success(map[field.name := Text(UuidText(bs))]);
    }

    /** `_handle_bits_field`: `bit_position` is looked up before the
        read. */
    method HandleBitsField(field: FieldDescriptor, order: ByteOrder) returns (r: Result<MetadataMap, Error>)
      modifies file
      ensures Agrees(r, HandleBits(file.buf, old(file.pos), field, order), file.pos)
    {
      if field.bitPosition.None? {
        return Failure(KeyError("bit_position"));
      }
      var b := ReadBit(file, field.bitPosition.value, order);
      if b.Failure? {
        return Failure(b.error);
      }
      r := Success(map[field.name := b.value]);
    }

    /** `_handle_date_field` and `_handle_time_field`. */
    method HandleBcdField(field: FieldDescriptor, order: ByteOrder, spacer: string) returns (r: Result<MetadataMap, Error>)
      modifies file
      ensures Agrees(r, HandleBcd(file.buf, old(file.pos), field, order, spacer), file.pos)
    {
      var bcd := file.Read(4);
      r := Success(map[field.name := Text(BcdToStr(bcd, field.tag, spacer, order, None))]);
    }

    /** `_handle_offset_field`: `prefix` is looked up after the read. */
    method HandleOffsetField(field: FieldDescriptor, order: ByteOrder) returns (r: Result<MetadataMap, Error>)
      modifies file
      ensures Agrees(r, HandleOffset(file.buf, old(file.pos), field, order), file.pos)
    {
      var bcd := file.Read(4);
      if field.prefix.None? {
        return Failure(KeyError("prefix"));
      }
      r := Success(map[field.name := Text(BcdToStr(bcd, field.tag, ":", order, field.prefix.value))]);
    }

    /** `_handle_float_field`. */
    method HandleFloatField(field: FieldDescriptor, order: ByteOrder) returns (r: Result<MetadataMap, Error>)
      modifies file
      ensures Agrees(r, HandleFloat(file.buf, old(file.pos), field, order), file.pos)
    {
      var w := ReadAndUnpack(file, order, "I");
      if w.Failure? {
        return Failure(w.error);
      }
      if field.decimals.Some? && field.decimals.value < 0 {
        return Failure(ValueError);
      }
      r := Success(map[field.name := Scaled(w.value.i, field.decimals, field.unit)]);
    }

    /** `extract_metadata`: for each selected field, seek to its offset,
        decode it with its effective order, merge, then remap; the first
        exception aborts. The result does not depend on where the cursor
        was. */
    method ExtractMetadata() returns (r: Result<MetadataMap, Error>)
      modifies file
      ensures r == Extract(file.buf, endianness, fields, fieldsToExtract)
    {
      var metadata: MetadataMap := map[];
      var i := 0;
      while i < |fields|
        invariant 0 <= i <= |fields|
        invariant ExtractFrom(file.buf, endianness, fields[i..], fieldsToExtract, metadata) ==
                  Extract(file.buf, endianness, fields, fieldsToExtract)
      {
        var field := fields[i];
        assert fields[i..][0] == field && fields[i..][1..] == fields[i + 1..];
        if Selected(field, fieldsToExtract) {
          file.Seek(field.offset);
          var out := HandleField(field, EffectiveOrder(field, endianness));
          if out.Failure? {
            return Failure(out.error);
          }
          metadata := metadata + out.value;
          if field.mapping.Some? {
            if field.name !in metadata {
              return Failure(KeyError(field.name));
            }
            metadata := metadata[field.name := Text(Lookup(field.mapping.value, metadata[field.name]))];
          }
        }
        i := i + 1;
      }
      return Success(metadata);
    }
  }
}
