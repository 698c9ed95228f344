/** The earlier, unpackaged `BinaryFileDTO`. Its string, frame-line and
    unpack readers and its byte-order detection are the packaged class's
    static methods, which have the same code; its TStop and bit readers,
    its dispatch and its extraction loop are its own. */
module LegacyDto {
  import opened Wrappers
  import opened Bytes
  import opened Streams
  import opened Metadata
  import opened Codec
  import opened DtoSpec
  import opened LegacySpec
  import opened Dto

  class LegacyBinaryFileDTO {
    const file: ByteStream
    const fieldsToExtract: Option<seq<string>>
    const endianness: ByteOrder
    var fields: Catalog
    var data: MetadataMap

    /** The attributes `__init__` sets, once the byte order is known; the
        catalog and the data are set by the block's own constructor. */
    constructor (file: ByteStream, fieldsToExtract: Option<seq<string>>, endianness: ByteOrder)
      ensures this.file == file && this.fieldsToExtract == fieldsToExtract && this.endianness == endianness
    {
      this.file := file;
      this.fieldsToExtract := fieldsToExtract;
      this.endianness := endianness;
    }

    /** A metadata block over `source`: `__init__` (open the stream,
        `determine_endianness`), then the block's constructor (set the
        catalog, extract without remap). */
    static method Load(source: seq<Byte>, fieldsToExtract: Option<seq<string>>, catalog: Catalog)
      returns (r: Result<LegacyBinaryFileDTO, Error>)
      ensures DetectOrder(source).Failure? ==> r == Failure(DetectOrder(source).error)
      ensures DetectOrder(source).Success? ==>
        var x := LegacyExtract(source, DetectOrder(source).value.0, catalog, fieldsToExtract);
        (r.Success? <==> x.Success?) &&
        (x.Failure? ==> r == Failure(x.error)) &&
        (r.Success? ==>
          fresh(r.value) && r.value.file.buf == source && r.value.fieldsToExtract == fieldsToExtract &&
          r.value.endianness == DetectOrder(source).value.0 &&
          r.value.fields == catalog && r.value.data == x.value)
    {
      var stream := new ByteStream(source);
      var order := BinaryFileDTO.DetermineEndianness(stream);
      if order.Failure? {
        return Failure(order.error);
      }
      var dto := new LegacyBinaryFileDTO(stream, fieldsToExtract, order.value);
      dto.fields := catalog;
      var extracted := dto.ExtractMetadata();
      if extracted.Failure? {
        return Failure(extracted.error);
      }
      dto.data := extracted.value;
      return Success(dto);
    }

    /** `list_fields`. */
    function ListFields(): (names: seq<string>)
      reads this
      ensures |names| == |fields|
      ensures forall i :: 0 <= i < |fields| ==> names[i] == fields[i].name
    {
      Names(fields)
    }

    /** `get_data`. */
    function GetData(): (d: MetadataMap)
      reads this
      ensures d.Keys == data.Keys
      ensures forall k :: k in d ==> d[k] == data[k]
    {
      data
    }

    /** `read_tstop`. */
    static method ReadTStop(input: ByteStream, order: ByteOrder) returns (r: Result<Value, Error>)
      modifies input
      ensures Agrees(r, LegacyTStopAt(input.buf, old(input.pos), order), input.pos)
    {
      var bs := input.Read(4);
      r := LegacyTStopValue(FromBytes(bs, order));
    }

    /** `read_bits`: the word is read before the mask can fail. */
    static method ReadBits(input: ByteStream, order: ByteOrder, position: BitPosition) returns (r: Result<nat, Error>)
      modifies input
      ensures Agrees(r, ReadBitsAt(input.buf, old(input.pos), position, order), input.pos)
    {
      var bs := input.Read(4);
      var v := ReadBitsValue(FromBytes(bs, order), position);
      if v.Failure? {
        return Failure(v.error);
      }
      r := Success(v.value);
    }

    /** `handle_field`: seven handlers, the `struct` unpack for any other
        tag. */
    method HandleField(field: FieldDescriptor, order: ByteOrder) returns (r: Result<MetadataMap, Error>)
      modifies file
      ensures Agrees(r, LegacyHandleAt(file.buf, old(file.pos), field, order), file.pos)
    {
      match field.tag
      case "string" =>
        if field.length.None? {
          return Failure(KeyError("length"));
        }
        var s := BinaryFileDTO.ReadString(file, field.length.value, order);
        r := Success(map[field.name := Text(s)]);
      case "UserString" =>
        if field.length.None? {
          return Failure(KeyError("length"));
        }
        var s := BinaryFileDTO.ReadString(file, field.length.value, order);
        r := Success(TextValues(SplitUserString(s)));
      case "timecode" =>
        var bs := file.Read(4);
        r := Success(map[field.name := Text(TimeCode(bs))]);
      case "TStop" =>
        var v := ReadTStop(file, order);
        if v.Failure? {
          return Failure(v.error);
        }
        r := Success(map[field.name := v.value]);
      case "frameline" =>
        if field.number.None? {
          return Failure(KeyError("number"));
        }
        r := BinaryFileDTO.ReadFrameline(file, field.number.value, order);
      case "uuid" =>
        var bs := file.Read(16);
        if |bs| != 16 {
          return Failure(ValueError);
        }
        r := Success(map[field.name := Text(UuidText(bs))]);
      case "bits" =>
        if field.bitPosition.None? {
          return Failure(KeyError("bit_position"));
        }
        var b := ReadBits(file, order, field.bitPosition.value);
        if b.Failure? {
          return Failure(b.error);
        }
        r := Success(map[field.name := Int(b.value)]);
      case _ =>
        var v := BinaryFileDTO.ReadAndUnpack(file, order, field.tag);
        if v.Failure? {
          return Failure(v.error);
        }
        r := Success(map[field.name := v.value]);
    }

    /** `extract_metadata`: the packaged loop without the remap. */
    method ExtractMetadata() returns (r: Result<MetadataMap, Error>)
      modifies file
      ensures r == LegacyExtract(file.buf, endianness, fields, fieldsToExtract)
    {
      var metadata: MetadataMap := map[];
      var i := 0;
      while i < |fields|
        invariant 0 <= i <= |fields|
        invariant LegacyExtractFrom(file.buf, endianness, fields[i..], fieldsToExtract, metadata) ==
                  LegacyExtract(file.buf, endianness, fields, fieldsToExtract)
      {
        var field := fields[i];
        assert fields[i..][0] == field && fields[i..][1..] == fields[i + 1..];
        if Selected(field, fieldsToExtract) {
          file.Seek(field.offset);
          var out := HandleField(field, EffectiveOrder(field, endianness));
          if out.Failure? {
            return Failure(out.error);
          }
          metadata := metadata + out.value;
        }
        i := i + 1;
      }
      return Success(metadata);
    }
  }
}
