/** The extraction engine of the packaged `BinaryFileDTO`, as functions of
    the header buffer and the cursor position: every reader returns what
    it decodes together with the position it leaves the cursor at, or the
    exception that aborts the extraction. */
module DtoSpec {
  import opened Wrappers
  import opened Bytes
  import opened Text
  import opened Streams
  import opened Metadata
  import opened Codec

  // ---------------------------------------------------------------------
  // struct.unpack with a one-character code.

  /** `struct.calcsize` of a one-character code under `<` or `>` (standard
      sizes); `None` for codes the engine's catalogs do not use. */
  function CodeSize(c: char): Option<nat>
  {
    if c == 'b' || c == 'B' then Some(1)
    else if c == 'h' || c == 'H' || c == 'e' then Some(2)
    else if c == 'i' || c == 'I' || c == 'l' || c == 'L' || c == 'f' then Some(4)
    else if c == 'q' || c == 'Q' || c == 'd' then Some(8)
    else None
  }

  predicate UnsignedCode(c: char)
  {
    c == 'B' || c == 'H' || c == 'I' || c == 'L' || c == 'Q'
  }

  predicate FloatCode(c: char)
  {
    c == 'e' || c == 'f' || c == 'd'
  }

  /** `struct.unpack(order + c, bs)[0]` on exactly the right number of
      bytes: unsigned codes read the bytes as an unsigned integer, signed
      codes as two's complement, float codes keep their bytes (most
      significant first). */
  function UnpackBytes(bs: seq<Byte>, order: ByteOrder, c: char): (v: Value)
    requires CodeSize(c).Some? && |bs| == CodeSize(c).value
    ensures v.Int? <==> !FloatCode(c)
    ensures v.Int? && UnsignedCode(c) ==> 0 <= v.i < Pow(256, |bs|)
    ensures v.Int? && !UnsignedCode(c) ==> v.i + Pow(256, |bs|) / 2 >= 0 && v.i < Pow(256, |bs|) / 2
    ensures v.FloatBits? ==> |v.bits| == |bs|
  {
    var raw := FromBytes(bs, order);
    if FloatCode(c) then FloatBits(c, if order == Little then Reverse(bs) else bs)
    else if UnsignedCode(c) then Int(raw)
    else Int(Signed(raw, |bs|))
  }

  /** Packing an unsigned value big-endian and unpacking it gives it back. */
  lemma UnpackPackUnsigned(v: nat, c: char)
    requires UnsignedCode(c) && CodeSize(c).Some? && v < Pow(256, CodeSize(c).value)
    ensures UnpackBytes(ToBigEndian(v, CodeSize(c).value), Big, c) == Int(v)
  {
    BigEndianRoundTrip(v, CodeSize(c).value);
  }

  /** `_read_and_unpack(input, order + tag)`: `calcsize` rejects a tag that
      is not a known one-character code before anything is read; a read
      that comes back short makes `unpack` fail. */
  function UnpackAt(buf: seq<Byte>, pos: nat, order: ByteOrder, tag: string): (r: Result<(Value, nat), Error>)
    ensures r.Failure? ==> r.error == StructError
    ensures r.Success? <==> |tag| == 1 && CodeSize(tag[0]).Some? && pos + CodeSize(tag[0]).value <= |buf|
    ensures r.Success? ==>
      r.value.1 == pos + CodeSize(tag[0]).value &&
      r.value.0 == UnpackBytes(buf[pos..pos + CodeSize(tag[0]).value], order, tag[0])
  {
    if |tag| != 1 || CodeSize(tag[0]).None? then Failure(StructError)
    else
      var n := CodeSize(tag[0]).value;
      var bs := ReadAt(buf, pos, n);
      if |bs| != n then Failure(StructError)
      else Success((UnpackBytes(bs, order, tag[0]), PosAfter(buf, pos, n)))
  }

  // ---------------------------------------------------------------------
  // Byte order.

  /** `_determine_endianness`: seek to 0, skip the four magic bytes, read
      the order word as `<I`. */
  function DetectOrder(buf: seq<Byte>): Result<(ByteOrder, nat), Error>
  {
    var afterMagic := PosAfter(buf, 0, 4);
    var word :- UnpackAt(buf, afterMagic, Little, "I");
    Success((OrderOfWord(word.0.i), word.1))
  }

  /** The order is found iff the buffer holds eight bytes; it is `'<'`
      exactly when bytes 4..7 are `78 56 34 12`, and the cursor is left at
      8. Bytes 0..3 play no part. */
  lemma DetectOrderRule(buf: seq<Byte>)
    ensures DetectOrder(buf).Success? <==> |buf| >= 8
    ensures DetectOrder(buf).Failure? ==> DetectOrder(buf).error == StructError
    ensures DetectOrder(buf).Success? ==>
      DetectOrder(buf).value.1 == 8 &&
      (DetectOrder(buf).value.0 == Little <==> buf[4..8] == [0x78, 0x56, 0x34, 0x12])
  {
    if |buf| >= 8 {
      MarkerBytes(buf[4..8]);
    }
  }

  /** Two buffers that agree on bytes 4..7 get the same order. */
  lemma DetectOrderIgnoresMagic(a: seq<Byte>, b: seq<Byte>)
    requires |a| >= 8 && |b| >= 8 && a[4..8] == b[4..8]
    ensures DetectOrder(a) == DetectOrder(b)
  {
    DetectOrderRule(a);
    DetectOrderRule(b);
  }

  // ---------------------------------------------------------------------
  // Readers.

  /** `_read_string`: read `length` bytes (fewer at the end of the
      buffer) and decode them. */
  function ReadStringAt(buf: seq<Byte>, pos: nat, length: nat, order: ByteOrder): (r: (string, nat))
    ensures NUL !in r.0
    ensures r.1 == pos + |ReadAt(buf, pos, length)|
    ensures pos + length <= |buf| ==> r.1 == pos + length && r.0 == DecodeString(buf[pos..pos + length], order)
  {
    (DecodeString(ReadAt(buf, pos, length), order), PosAfter(buf, pos, length))
  }

  /** The six frame-line output keys. */
  function FrameLineKeys(number: string): set<string>
  {
    {FrameLineKey(number, "Type"), FrameLineKey(number, "Name"), FrameLineKey(number, "Left"),
     FrameLineKey(number, "Top"), FrameLineKey(number, "Width"), FrameLineKey(number, "Height")}
  }

  lemma FrameLineKeyInjective(number: string, a: string, b: string)
    requires a != b
    ensures FrameLineKey(number, a) != FrameLineKey(number, b)
  {
    var p := "FrameLine" + number;
    assert FrameLineKey(number, a)[|p|..] == a;
    assert FrameLineKey(number, b)[|p|..] == b;
  }

  lemma FrameLineKeysDistinct(number: string)
    ensures FrameLineKey(number, "Type") != FrameLineKey(number, "Name")
    ensures FrameLineKey(number, "Type") != FrameLineKey(number, "Left")
    ensures FrameLineKey(number, "Type") != FrameLineKey(number, "Top")
    ensures FrameLineKey(number, "Type") != FrameLineKey(number, "Width")
    ensures FrameLineKey(number, "Type") != FrameLineKey(number, "Height")
    ensures FrameLineKey(number, "Name") != FrameLineKey(number, "Left")
    ensures FrameLineKey(number, "Name") != FrameLineKey(number, "Top")
    ensures FrameLineKey(number, "Name") != FrameLineKey(number, "Width")
    ensures FrameLineKey(number, "Name") != FrameLineKey(number, "Height")
    ensures FrameLineKey(number, "Left") != FrameLineKey(number, "Top")
    ensures FrameLineKey(number, "Left") != FrameLineKey(number, "Width")
    ensures FrameLineKey(number, "Left") != FrameLineKey(number, "Height")
    ensures FrameLineKey(number, "Top") != FrameLineKey(number, "Width")
    ensures FrameLineKey(number, "Top") != FrameLineKey(number, "Height")
    ensures FrameLineKey(number, "Width") != FrameLineKey(number, "Height")
  {
    FrameLineKeyInjective(number, "Type", "Name");
    FrameLineKeyInjective(number, "Type", "Left");
    FrameLineKeyInjective(number, "Type", "Top");
    FrameLineKeyInjective(number, "Type", "Width");
    FrameLineKeyInjective(number, "Type", "Height");
    FrameLineKeyInjective(number, "Name", "Left");
    FrameLineKeyInjective(number, "Name", "Top");
    FrameLineKeyInjective(number, "Name", "Width");
    FrameLineKeyInjective(number, "Name", "Height");
    FrameLineKeyInjective(number, "Left", "Top");
    FrameLineKeyInjective(number, "Left", "Width");
    FrameLineKeyInjective(number, "Left", "Height");
    FrameLineKeyInjective(number, "Top", "Width");
    FrameLineKeyInjective(number, "Top", "Height");
    FrameLineKeyInjective(number, "Width", "Height");
  }

  /** The six entries of one frame line. */
  function FrameLineRecord(number: string, kind: Value, name: Value, left: Value, top: Value,
                           width: Value, height: Value): (m: MetadataMap)
    ensures m.Keys == FrameLineKeys(number)
    ensures m[FrameLineKey(number, "Type")] == kind && m[FrameLineKey(number, "Name")] == name
    ensures m[FrameLineKey(number, "Left")] == left && m[FrameLineKey(number, "Top")] == top
    ensures m[FrameLineKey(number, "Width")] == width && m[FrameLineKey(number, "Height")] == height
  {
    FrameLineKeysDistinct(number);
    map[FrameLineKey(number, "Type") := kind,
        FrameLineKey(number, "Name") := name,
        FrameLineKey(number, "Left") := left,
        FrameLineKey(number, "Top") := top,
        FrameLineKey(number, "Width") := width,
        FrameLineKey(number, "Height") := height]
  }

  /** `_read_frameline`: the type word (`<I`), then for an active line the
      name (32 bytes, in the field's order) and four `<H` words. */
  function FrameLineAt(buf: seq<Byte>, pos: nat, number: string, order: ByteOrder): (r: Result<(MetadataMap, nat), Error>)
    ensures r.Success? ==> r.value.0.Keys == FrameLineKeys(number)
  {
    var typeWord :- UnpackAt(buf, pos, Little, "I");
    var typeName := FrameLineTypeName(typeWord.0.i);
    var afterType := typeWord.1;
    if typeName == "Inactive" then
      var none := Text("--");
      Success((FrameLineRecord(number, Text(typeName), none, none, none, none, none), afterType))
    else
      ActiveFrameLine(buf, afterType, number, order, typeName)
  }

  /** The rest of an active frame line, after its type word: the name
      (32 bytes, in the field's order) and four `<H` geometry words. */
  function ActiveFrameLine(buf: seq<Byte>, pos: nat, number: string, order: ByteOrder, typeName: string)
    : (r: Result<(MetadataMap, nat), Error>)
    ensures r.Success? ==> r.value.0.Keys == FrameLineKeys(number)
  {
    var name := ReadStringAt(buf, pos, 32, order);
    var left :- UnpackAt(buf, name.1, Little, "H");
    var top :- UnpackAt(buf, left.1, Little, "H");
    var width :- UnpackAt(buf, top.1, Little, "H");
    var height :- UnpackAt(buf, width.1, Little, "H");
    Success((FrameLineRecord(number, Text(typeName), Text(name.0), left.0, top.0, width.0, height.0),
             height.1))
  }

  /** The frame-line type code at `pos`, when the buffer holds it. */
  function TypeCodeAt(buf: seq<Byte>, pos: nat): nat
    requires pos + 4 <= |buf|
  {
    FromBytes(buf[pos..pos + 4], Little)
  }

  /** A frame line is read iff its type word is there and, for an active
      line, the 40 bytes after it are too; anything else is a
      `struct.error`. */
  lemma FrameLineFailure(buf: seq<Byte>, pos: nat, number: string, order: ByteOrder)
    ensures FrameLineAt(buf, pos, number, order).Success? <==>
      pos + 4 <= |buf| &&
      (TypeCodeAt(buf, pos) == 1 || TypeCodeAt(buf, pos) == 2 ==> pos + 44 <= |buf|)
    ensures FrameLineAt(buf, pos, number, order).Failure? ==>
      FrameLineAt(buf, pos, number, order).error == StructError
  {
    if pos + 4 <= |buf| {
      UnpackTypeWord(buf, pos);
      var code := TypeCodeAt(buf, pos);
      if code == 1 || code == 2 {
        ActiveFrameLineFailure(buf, pos + 4, number, order, FrameLineTypeName(code));
        assert FrameLineAt(buf, pos, number, order) ==
               ActiveFrameLine(buf, pos + 4, number, order, FrameLineTypeName(code));
      }
    } else {
      UnpackShort(buf, pos, "I");
    }
  }

  /** The `<I` type word, when the buffer holds it. */
  lemma UnpackTypeWord(buf: seq<Byte>, pos: nat)
    requires pos + 4 <= |buf|
    ensures UnpackAt(buf, pos, Little, "I") == Success((Int(TypeCodeAt(buf, pos)), pos + 4))
  {
    UnpackWord(buf, pos, "I");
  }

  /** The rest of an active line is read iff its 40 bytes are there. */
  /** Fewer than 40 bytes after the name: one of the four `'<H'` words is
      short. */
  lemma ActiveFrameLineShort(buf: seq<Byte>, pos: nat, number: string, order: ByteOrder, typeName: string)
    requires pos + 40 > |buf|
    ensures ActiveFrameLine(buf, pos, number, order, typeName) == Failure(StructError)
  {
    var q := ReadStringAt(buf, pos, 32, order).1;
    assert q + 8 > |buf|;
    if q + 2 > |buf| {
      UnpackShort(buf, q, "H");
    } else {
      UnpackWord(buf, q, "H");
      if q + 4 > |buf| {
        UnpackShort(buf, q + 2, "H");
      } else {
        UnpackWord(buf, q + 2, "H");
        if q + 6 > |buf| {
          UnpackShort(buf, q + 4, "H");
        } else {
          UnpackWord(buf, q + 4, "H");
          UnpackShort(buf, q + 6, "H");
        }
      }
    }
  }

  lemma ActiveFrameLineFailure(buf: seq<Byte>, pos: nat, number: string, order: ByteOrder, typeName: string)
    ensures ActiveFrameLine(buf, pos, number, order, typeName).Success? <==> pos + 40 <= |buf|
    ensures ActiveFrameLine(buf, pos, number, order, typeName).Failure? ==>
      ActiveFrameLine(buf, pos, number, order, typeName).error == StructError
  {
    if pos + 40 <= |buf| {
      ActiveFrameLineWhole(buf, pos, number, order, typeName);
    } else {
      ActiveFrameLineShort(buf, pos, number, order, typeName);
    }
  }

  /** An inactive line: the six keys, `'Inactive'` and five `'--'`, and
      only the type word consumed. */
  lemma FrameLineInactive(buf: seq<Byte>, pos: nat, number: string, order: ByteOrder)
    requires pos + 4 <= |buf| && TypeCodeAt(buf, pos) != 1 && TypeCodeAt(buf, pos) != 2
    ensures var none := Text("--");
      FrameLineAt(buf, pos, number, order) ==
        Success((FrameLineRecord(number, Text("Inactive"), none, none, none, none, none), pos + 4))
  {
    UnpackTypeWord(buf, pos);
    assert FrameLineTypeName(TypeCodeAt(buf, pos)) == "Inactive";
  }

  /** An active line: the six keys, `'Master'` or `'Aux'`, the name
      decoded from bytes 4..35 in the field's order, the four geometry
      words little-endian from bytes 36..43 whatever that order, and 44
      bytes consumed. */
  lemma FrameLineActive(buf: seq<Byte>, pos: nat, number: string, order: ByteOrder)
    requires pos + 44 <= |buf| && (TypeCodeAt(buf, pos) == 1 || TypeCodeAt(buf, pos) == 2)
    ensures FrameLineAt(buf, pos, number, order) ==
      Success((FrameLineRecord(number,
                 Text(if TypeCodeAt(buf, pos) == 1 then "Master" else "Aux"),
                 Text(DecodeString(buf[pos + 4..pos + 36], order)),
                 Int(FromBytes(buf[pos + 36..pos + 38], Little)),
                 Int(FromBytes(buf[pos + 38..pos + 40], Little)),
                 Int(FromBytes(buf[pos + 40..pos + 42], Little)),
                 Int(FromBytes(buf[pos + 42..pos + 44], Little))), pos + 44))
  {
    UnpackTypeWord(buf, pos);
    ActiveFrameLineWhole(buf, pos + 4, number, order, if TypeCodeAt(buf, pos) == 1 then "Master" else "Aux");
  }

  lemma ActiveFrameLineWhole(buf: seq<Byte>, pos: nat, number: string, order: ByteOrder, typeName: string)
    requires pos + 40 <= |buf|
    ensures ActiveFrameLine(buf, pos, number, order, typeName) ==
      Success((FrameLineRecord(number, Text(typeName),
                 Text(DecodeString(buf[pos..pos + 32], order)),
                 Int(FromBytes(buf[pos + 32..pos + 34], Little)),
                 Int(FromBytes(buf[pos + 34..pos + 36], Little)),
                 Int(FromBytes(buf[pos + 36..pos + 38], Little)),
                 Int(FromBytes(buf[pos + 38..pos + 40], Little))), pos + 40))
  {
    var name := ReadStringAt(buf, pos, 32, order);
    assert name == (DecodeString(buf[pos..pos + 32], order), pos + 32);
    UnpackLittleShort(buf, pos + 32);
    UnpackLittleShort(buf, pos + 34);
    UnpackLittleShort(buf, pos + 36);
    UnpackLittleShort(buf, pos + 38);
    var left := Int(FromBytes(buf[pos + 32..pos + 34], Little));
    var top := Int(FromBytes(buf[pos + 34..pos + 36], Little));
    var width := Int(FromBytes(buf[pos + 36..pos + 38], Little));
    var height := Int(FromBytes(buf[pos + 38..pos + 40], Little));
    assert UnpackAt(buf, name.1, Little, "H") == Success((left, pos + 34));
    assert UnpackAt(buf, pos + 34, Little, "H") == Success((top, pos + 36));
    assert UnpackAt(buf, pos + 36, Little, "H") == Success((width, pos + 38));
    assert UnpackAt(buf, pos + 38, Little, "H") == Success((height, pos + 40));
    assert ActiveFrameLine(buf, pos, number, order, typeName) ==
      Success((FrameLineRecord(number, Text(typeName), Text(name.0), left, top, width, height), pos + 40));
  }

  /** An unsigned little-endian word that the buffer holds. */
  lemma UnpackWord(buf: seq<Byte>, pos: nat, tag: string)
    requires tag == "H" || tag == "I"
    requires pos + CodeSize(tag[0]).value <= |buf|
    ensures var n := CodeSize(tag[0]).value;
      UnpackAt(buf, pos, Little, tag) == Success((Int(FromBytes(buf[pos..pos + n], Little)), pos + n))
  {
  }

  /** A `<H` word that the buffer holds. */
  lemma UnpackLittleShort(buf: seq<Byte>, pos: nat)
    requires pos + 2 <= |buf|
    ensures UnpackAt(buf, pos, Little, "H") == Success((Int(FromBytes(buf[pos..pos + 2], Little)), pos + 2))
  {
    UnpackWord(buf, pos, "H");
  }

  /** A word the buffer does not hold is a `struct.error`. */
  lemma UnpackShort(buf: seq<Byte>, pos: nat, tag: string)
    requires tag == "H" || tag == "I"
    requires pos + CodeSize(tag[0]).value > |buf|
    ensures UnpackAt(buf, pos, Little, tag) == Failure(StructError)
  {
  }

  /** `_read_tstop`: four bytes (fewer at the end) as an unsigned integer
      in the given order, then the sentinel table. */
  function TStopAt(buf: seq<Byte>, pos: nat, order: ByteOrder): (r: Result<(Value, nat), Error>)
    ensures r.Failure? <==> FromBytes(ReadAt(buf, pos, 4), order) >= TStopOverflowAt
    ensures r.Failure? ==> r.error == OverflowError
    ensures r.Success? ==> r.value.1 == pos + |ReadAt(buf, pos, 4)|
    ensures r.Success? ==> r.value.0 == TStopFormula(FromBytes(ReadAt(buf, pos, 4), order))
  {
    var data := FromBytes(ReadAt(buf, pos, 4), order);
    var v :- ConvertDataToTStop(data);
    Success((v, PosAfter(buf, pos, 4)))
  }

  /** `_read_bit`: four bytes (fewer at the end) as an unsigned integer,
      shifted right by the position and masked with 1. A negative
      position fails the shift; a list fails the `>>`. */
  function BitAt(buf: seq<Byte>, pos: nat, position: BitPosition, order: ByteOrder): (r: Result<(Value, nat), Error>)
    ensures r.Success? <==> position.Index? && position.i >= 0
    ensures r.Failure? ==> r.error == (if position.Index? then ValueError else TypeError)
    ensures r.Success? ==> r.value.1 == pos + |ReadAt(buf, pos, 4)|
    ensures r.Success? ==>
      r.value.0 == Int(Bit(FromBytes(ReadAt(buf, pos, 4), order), position.i)) && r.value.0.i < 2
  {
    var value := FromBytes(ReadAt(buf, pos, 4), order);
    match position
    case Index(i) =>
      if i < 0 then Failure(ValueError)
      else Success((Int(BitOfWord(value, i)), PosAfter(buf, pos, 4)))
    case Indices(_) => Failure(TypeError)
  }

  /** Bit 31 of `00 00 00 80` read little-endian is set. */
  lemma BitAtExample(buf: seq<Byte>)
    requires buf == [0, 0, 0, 0x80]
    ensures BitAt(buf, 0, Index(31), Little) == Success((Int(1), 4))
  {
    var w: seq<Byte> := [0x80, 0, 0, 0];
    assert Reverse(buf) == w;
    assert BigEndianValue(w[..1]) == 0x80;
    assert BigEndianValue(w[..2]) == 0x8000 by { assert w[..2][..1] == w[..1]; }
    assert BigEndianValue(w[..3]) == 0x800000 by { assert w[..3][..2] == w[..2]; }
    assert BigEndianValue(w) == 0x80000000 by { assert w[..4][..3] == w[..3]; }
    assert ReadAt(buf, 0, 4) == buf;
    assert FromBytes(ReadAt(buf, 0, 4), Little) == 0x80000000;
    assert Pow(2, 8) == 256;
    PowAdd(2, 8, 8);
    PowAdd(2, 16, 8);
    PowAdd(2, 24, 7);
    assert Pow(2, 7) == 128;
    assert Pow(2, 31) * 1 == 0x80000000;
    ShiftRightPow2Mul(1, 31);
  }

  // ---------------------------------------------------------------------
  // Field handlers: each returns the entries it contributes and the
  // cursor after it.

  type Outcome = Result<(MetadataMap, nat), Error>

  /** `_handle_string_field`. */
  function HandleString(buf: seq<Byte>, pos: nat, f: FieldDescriptor, order: ByteOrder): Outcome
  {
    if f.length.None? then Failure(KeyError("length"))
    else
      var s := ReadStringAt(buf, pos, f.length.value, order);
      Success((map[f.name := Text(s.0)], s.1))
  }

  /** Text values of a string dictionary. */
  function TextValues(m: map<string, string>): (r: MetadataMap)
    ensures r.Keys == m.Keys
    ensures forall k :: k in m ==> r[k] == Text(m[k])
  {
    map k | k in m :: Text(m[k])
  }

  /** `_handle_user_string_field`: the user string's own keys, merged
      flat; the field's name is not a key. */
  function HandleUserString(buf: seq<Byte>, pos: nat, f: FieldDescriptor, order: ByteOrder): Outcome
  {
    if f.length.None? then Failure(KeyError("length"))
    else
      var s := ReadStringAt(buf, pos, f.length.value, order);
      Success((TextValues(SplitUserString(s.0)), s.1))
  }

  /** `_handle_timecode_field`: four bytes, whatever the order. */
  function HandleTimecode(buf: seq<Byte>, pos: nat, f: FieldDescriptor): Outcome
  {
    Success((map[f.name := Text(TimeCode(ReadAt(buf, pos, 4)))], PosAfter(buf, pos, 4)))
  }

  /** `_handle_tstop_field`. */
  function HandleTStop(buf: seq<Byte>, pos: nat, f: FieldDescriptor, order: ByteOrder): Outcome
  {
    var t :- TStopAt(buf, pos, order);
    Success((map[f.name := t.0], t.1))
  }

  /** `_handle_frameline_field`: the `number` entry names the keys. */
  function HandleFrameline(buf: seq<Byte>, pos: nat, f: FieldDescriptor, order: ByteOrder): Outcome
  {
    if f.number.None? then Failure(KeyError("number"))
    else FrameLineAt(buf, pos, f.number.value, order)
  }

  /** `_handle_uuid_field`: sixteen bytes, else `uuid.UUID` raises. */
  function HandleUuid(buf: seq<Byte>, pos: nat, f: FieldDescriptor): Outcome
  {
    var bs := ReadAt(buf, pos, 16);
    if |bs| != 16 then Failure(ValueError)
    else Success((map[f.name := Text(UuidText(bs))], PosAfter(buf, pos, 16)))
  }

  /** `_handle_bits_field`: the `bit_position` entry is looked up before
      anything is read. */
  function HandleBits(buf: seq<Byte>, pos: nat, f: FieldDescriptor, order: ByteOrder): Outcome
  {
    if f.bitPosition.None? then Failure(KeyError("bit_position"))
    else
      var b :- BitAt(buf, pos, f.bitPosition.value, order);
      Success((map[f.name := b.0], b.1))
  }

  /** `_handle_date_field`, `_handle_time_field`: four BCD bytes with the
      tag as the format. */
  function HandleBcd(buf: seq<Byte>, pos: nat, f: FieldDescriptor, order: ByteOrder, spacer: string): Outcome
  {
    var bcd := ReadAt(buf, pos, 4);
    Success((map[f.name := Text(BcdToStr(bcd, f.tag, spacer, order, None))], PosAfter(buf, pos, 4)))
  }

  /** `_handle_offset_field`: the `prefix` entry is looked up after the
      read. */
  function HandleOffset(buf: seq<Byte>, pos: nat, f: FieldDescriptor, order: ByteOrder): Outcome
  {
    var bcd := ReadAt(buf, pos, 4);
    if f.prefix.None? then Failure(KeyError("prefix"))
    else Success((map[f.name := Text(BcdToStr(bcd, f.tag, ":", order, f.prefix.value))], PosAfter(buf, pos, 4)))
  }

  /** `_handle_float_field`: an unsigned word in the field's order, kept
      as thousandths with the optional decimals and unit. A negative
      precision is a malformed format specifier (`ValueError`). */
  function HandleFloat(buf: seq<Byte>, pos: nat, f: FieldDescriptor, order: ByteOrder): Outcome
  {
    var w :- UnpackAt(buf, pos, order, "I");
    if f.decimals.Some? && f.decimals.value < 0 then Failure(ValueError)
    else Success((map[f.name := Scaled(w.0.i, f.decimals, f.unit)], w.1))
  }

  /** `_handle_default_field`: the tag is the `struct` code. */
  function HandleDefault(buf: seq<Byte>, pos: nat, f: FieldDescriptor, order: ByteOrder): Outcome
  {
    var v :- UnpackAt(buf, pos, order, f.tag);
    Success((map[f.name := v.0], v.1))
  }

  /** The tags whose handler emits exactly one entry, under the field's
      name. */
  predicate SingleKeyTag(tag: string)
  {
    tag != "UserString" && tag != "frameline"
  }

  /** `handle_field`: dispatch on the tag, the fixed-width unpack for any
      tag not in the table. */
  function HandleAt(buf: seq<Byte>, pos: nat, f: FieldDescriptor, order: ByteOrder): (r: Outcome)
    ensures r.Success? && SingleKeyTag(f.tag) ==> r.value.0.Keys == {f.name}
    ensures r.Success? && f.tag == "frameline" ==> f.number.Some? && r.value.0.Keys == FrameLineKeys(f.number.value)
  {
    match f.tag
    case "string" => HandleString(buf, pos, f, order)
    case "UserString" => HandleUserString(buf, pos, f, order)
    case "timecode" => HandleTimecode(buf, pos, f)
    case "TStop" => HandleTStop(buf, pos, f, order)
    case "frameline" => HandleFrameline(buf, pos, f, order)
    case "uuid" => HandleUuid(buf, pos, f)
    case "bits" => HandleBits(buf, pos, f, order)
    case "date" => HandleBcd(buf, pos, f, order, "/")
    case "time" => HandleBcd(buf, pos, f, order, ":")
    case "offset" => HandleOffset(buf, pos, f, order)
    case "float" => HandleFloat(buf, pos, f, order)
    case _ => HandleDefault(buf, pos, f, order)
  }

  // ---------------------------------------------------------------------
  // The extraction loop.

  /** The value the enum remap stores: the table's entry, `'Unknown'` for
      a value not in the table. */
  function Lookup(mapping: map<Value, string>, v: Value): (s: string)
    ensures v in mapping ==> s == mapping[v]
    ensures v !in mapping ==> s == "Unknown"
  {
    if v in mapping then mapping[v] else "Unknown"
  }

  /** The remap after a field is merged: `metadata[name]` must exist. */
  function Remap(m: MetadataMap, f: FieldDescriptor): (r: Result<MetadataMap, Error>)
    ensures f.mapping.None? ==> r == Success(m)
    ensures f.mapping.Some? ==> (r.Failure? <==> f.name !in m)
    ensures r.Failure? ==> r.error == KeyError(f.name)
    ensures r.Success? ==> r.value.Keys == m.Keys
    ensures r.Success? && f.mapping.Some? ==>
      r.value == m[f.name := Text(Lookup(f.mapping.value, m[f.name]))]
  {
    if f.mapping.None? then Success(m)
    else if f.name !in m then Failure(KeyError(f.name))
    else Success(m[f.name := Text(Lookup(f.mapping.value, m[f.name]))])
  }

  /** One selected field: seek to its offset, decode with its effective
      order, merge, remap. */
  function ExtractStep(buf: seq<Byte>, detected: ByteOrder, f: FieldDescriptor, acc: MetadataMap): Result<MetadataMap, Error>
  {
    var out :- HandleAt(buf, f.offset, f, EffectiveOrder(f, detected));
    Remap(acc + out.0, f)
  }

  /** `extract_metadata` from the given field on, with `acc` gathered so
      far: unselected fields are skipped, the first exception aborts. */
  function ExtractFrom(buf: seq<Byte>, detected: ByteOrder, fields: Catalog, allow: Option<seq<string>>,
                       acc: MetadataMap): Result<MetadataMap, Error>
    decreases |fields|
  {
    if fields == [] then Success(acc)
    else if Selected(fields[0], allow) then
      var next :- ExtractStep(buf, detected, fields[0], acc);
      ExtractFrom(buf, detected, fields[1..], allow, next)
    else ExtractFrom(buf, detected, fields[1..], allow, acc)
  }

  /** `extract_metadata`. */
  function Extract(buf: seq<Byte>, detected: ByteOrder, fields: Catalog, allow: Option<seq<string>>): Result<MetadataMap, Error>
  {
    ExtractFrom(buf, detected, fields, allow, map[])
  }

  /** The fields an allow-list selects, in catalog order. */
  function Filter(fields: Catalog, allow: seq<string>): (r: Catalog)
    ensures forall f :: f in r <==> f in fields && f.name in allow
  {
    if fields == [] then []
    else (if fields[0].name in allow then [fields[0]] else []) + Filter(fields[1..], allow)
  }

  /** An allow-list decodes exactly the listed fields: extracting with it
      is extracting the filtered catalog with no list. */
  lemma {:induction false} ExtractFilter(buf: seq<Byte>, detected: ByteOrder, fields: Catalog,
                                         allow: seq<string>, acc: MetadataMap)
    ensures ExtractFrom(buf, detected, fields, Some(allow), acc) ==
            ExtractFrom(buf, detected, Filter(fields, allow), None, acc)
  {
    if fields != [] {
      var rest := Filter(fields[1..], allow);
      if fields[0].name in allow {
        var filtered := Filter(fields, allow);
        assert filtered == [fields[0]] + rest;
        assert filtered[0] == fields[0] && filtered[1..] == rest;
        var step := ExtractStep(buf, detected, fields[0], acc);
        if step.Success? {
          ExtractFilter(buf, detected, fields[1..], allow, step.value);
        }
      } else {
        assert Filter(fields, allow) == rest;
        ExtractFilter(buf, detected, fields[1..], allow, acc);
      }
    }
  }

  /** Extraction over two catalogs in a row is extraction over the first,
      then over the second from its result; an exception in the first
      aborts the whole. */
  lemma {:induction false} ExtractAppend(buf: seq<Byte>, detected: ByteOrder, fs: Catalog, gs: Catalog,
                                         allow: Option<seq<string>>, acc: MetadataMap)
    ensures ExtractFrom(buf, detected, fs + gs, allow, acc) ==
      match ExtractFrom(buf, detected, fs, allow, acc)
      case Success(m) => ExtractFrom(buf, detected, gs, allow, m)
      case Failure(e) => Failure(e)
  {
    if fs == [] {
      assert fs + gs == gs;
    } else {
      assert (fs + gs)[0] == fs[0] && (fs + gs)[1..] == fs[1..] + gs;
      if Selected(fs[0], allow) {
        var step := ExtractStep(buf, detected, fs[0], acc);
        if step.Success? {
          ExtractAppend(buf, detected, fs[1..], gs, allow, step.value);
        }
      } else {
        ExtractAppend(buf, detected, fs[1..], gs, allow, acc);
      }
    }
  }

  /** A field with its own byte order decodes the same whatever order was
      detected. */
  lemma OverrideWins(buf: seq<Byte>, d1: ByteOrder, d2: ByteOrder, f: FieldDescriptor, acc: MetadataMap)
    requires f.endianness.Some?
    ensures ExtractStep(buf, d1, f, acc) == ExtractStep(buf, d2, f, acc)
  {
  }

  /** Every field of the catalog has a single-key tag. */
  predicate AllSingleKey(fields: Catalog)
  {
    forall i :: 0 <= i < |fields| ==> SingleKeyTag(fields[i].tag)
  }

  /** The names of the selected fields. */
  function SelectedNames(fields: Catalog, allow: Option<seq<string>>): set<string>
  {
    set i | 0 <= i < |fields| && Selected(fields[i], allow) :: fields[i].name
  }

  /** The selected names of a catalog: its first field's, if selected,
      and the rest's. */
  lemma SelectedNamesCons(fields: Catalog, allow: Option<seq<string>>)
    requires fields != []
    ensures SelectedNames(fields, allow) ==
      (if Selected(fields[0], allow) then {fields[0].name} else {}) + SelectedNames(fields[1..], allow)
  {
    var f, tail := fields[0], fields[1..];
    forall n | n in SelectedNames(fields, allow)
      ensures n in (if Selected(f, allow) then {f.name} else {}) + SelectedNames(tail, allow)
    {
      var i :| 0 <= i < |fields| && Selected(fields[i], allow) && fields[i].name == n;
      if i > 0 {
        assert tail[i - 1] == fields[i];
      }
    }
    forall n | n in SelectedNames(tail, allow) ensures n in SelectedNames(fields, allow) {
      var i :| 0 <= i < |tail| && Selected(tail[i], allow) && tail[i].name == n;
      assert fields[i + 1] == tail[i];
    }
  }

  /** Merging a one-entry output, then remapping, stores the table's entry
      under the field's name. */
  lemma MergeThenRemap(acc: MetadataMap, out: MetadataMap, f: FieldDescriptor)
    requires out.Keys == {f.name} && f.mapping.Some?
    ensures Remap(acc + out, f) == Success(acc[f.name := Text(Lookup(f.mapping.value, out[f.name]))])
  {
    var m := acc + out;
    assert m[f.name] == out[f.name];
    assert m[f.name := Text(Lookup(f.mapping.value, out[f.name]))] ==
           acc[f.name := Text(Lookup(f.mapping.value, out[f.name]))];
  }

  /** A one-entry step adds the field's name to the keys. */
  lemma StepKeys(buf: seq<Byte>, detected: ByteOrder, f: FieldDescriptor, acc: MetadataMap)
    requires SingleKeyTag(f.tag)
    requires ExtractStep(buf, detected, f, acc).Success?
    ensures ExtractStep(buf, detected, f, acc).value.Keys == acc.Keys + {f.name}
  {
    var h := HandleAt(buf, f.offset, f, EffectiveOrder(f, detected));
    assert (acc + h.value.0).Keys == acc.Keys + {f.name};
  }

  /** With one-entry tags only, a successful extraction has exactly the
      names of the selected fields as new keys, mapped or not. */
  lemma {:induction false} ExtractKeys(buf: seq<Byte>, detected: ByteOrder, fields: Catalog,
                                       allow: Option<seq<string>>, acc: MetadataMap)
    requires AllSingleKey(fields)
    requires ExtractFrom(buf, detected, fields, allow, acc).Success?
    ensures ExtractFrom(buf, detected, fields, allow, acc).value.Keys == acc.Keys + SelectedNames(fields, allow)
  {
    if fields != [] {
      var f := fields[0];
      var tail := fields[1..];
      assert AllSingleKey(tail) by {
        forall i | 0 <= i < |tail| ensures SingleKeyTag(tail[i].tag) {
          assert tail[i] == fields[i + 1];
        }
      }
      SelectedNamesCons(fields, allow);
      if Selected(f, allow) {
        assert SingleKeyTag(fields[0].tag);
        var step := ExtractStep(buf, detected, f, acc);
        StepKeys(buf, detected, f, acc);
        ExtractKeys(buf, detected, tail, allow, step.value);
      } else {
        ExtractKeys(buf, detected, tail, allow, acc);
      }
    }
  }

  /** A remapped one-entry field: the step succeeds iff its handler does,
      and stores the table's entry for the decoded value, or
      `'Unknown'`. */
  lemma RemapStep(buf: seq<Byte>, detected: ByteOrder, f: FieldDescriptor, acc: MetadataMap)
    requires SingleKeyTag(f.tag) && f.mapping.Some?
    ensures var h := HandleAt(buf, f.offset, f, EffectiveOrder(f, detected));
      var r := ExtractStep(buf, detected, f, acc);
      (r.Success? <==> h.Success?) &&
      (r.Success? ==> r.value == acc[f.name := Text(Lookup(f.mapping.value, h.value.0[f.name]))])
  {
    var h := HandleAt(buf, f.offset, f, EffectiveOrder(f, detected));
    if h.Success? {
      MergeThenRemap(acc, h.value.0, f);
    }
  }

  /** A remap on a frame-line field whose name is none of its output keys
      looks up a key the handler never wrote and raises `KeyError`. */
  lemma RemapFramelineFails(buf: seq<Byte>, detected: ByteOrder, f: FieldDescriptor, acc: MetadataMap)
    requires f.tag == "frameline" && f.mapping.Some? && f.number.Some?
    requires f.name !in acc && f.name !in FrameLineKeys(f.number.value)
    requires HandleAt(buf, f.offset, f, EffectiveOrder(f, detected)).Success?
    ensures ExtractStep(buf, detected, f, acc) == Failure(KeyError(f.name))
  {
  }
}
