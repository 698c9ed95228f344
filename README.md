# ARRIRAW legacy metadata reader — field-extraction engine

A Dafny model of the core of `arriraw_legacy_metadata_reader`. The core is
the binary field-extraction engine `BinaryFileDTO` and the
`ArriRawLegacyMetadataReader` that combines its nine metadata blocks. Both
appear twice in the repository: once as the packaged version and once as
the earlier draft at the repository root. The model covers both.

The engine works like this:

- A reader keeps a byte stream over the file's first 4096 bytes.
- It reads the byte-order word at offset 4. The value `0x12345678` means
  little-endian; anything else means big-endian.
- It walks its catalog of field descriptors and decodes each selected
  field at its offset. The decoder is chosen by the field's `datatype`
  tag: NUL-stripped strings, `key:value;…` user strings, SMPTE timecodes,
  T-stops, frame lines, UUIDs, single bits, BCD dates and times, offsets,
  scaled floats, or a `struct` format code.
- An optional value mapping then replaces a decoded value by its label.
- The aggregator builds the nine block readers in a fixed order. It merges
  their dictionaries, later blocks winning, and concatenates their field
  names.

Every method that reads the stream is proved against a function of the
buffer and the cursor (`DtoSpec`, `LegacySpec`). The method's contract says
it returns the same value and leaves the cursor at the same place, or
raises the same exception. The properties of the decoders are then proved
as lemmas about those functions.

The modules are:

- `Wrappers`: `Option` and `Result`.
- `Bytes`: big- and little-endian integers, shifts and bit masks.
- `Text`: ASCII decoding, `strip`, `split`, `join` and hex digits.
- `Streams`: the `io.BytesIO` cursor.
- `Metadata`: values, errors and field descriptors.
- `Codec`: the stateless decoders.
- `DtoSpec` and `Dto`: the packaged engine.
- `LegacySpec` and `LegacyDto`: the draft engine.
- `Merge`, `Aggregator` and `LegacyAggregator`: the two aggregators.

Model decisions:

- The source's exceptions are the `Error` datatype: `struct.error`,
  `KeyError`, `ValueError`, `TypeError`, `OverflowError`, and the two that
  opening the file raises.
- Floating-point results stay symbolic. `TStopFormula`, `Scaled` and
  `FloatBits` record the raw input of the conversion the source performs.
  The one float failure that decides success is modelled exactly: the
  T-stop power `2 ** (((data / 1000) - 1) / 2)` raises `OverflowError` once
  its exponent reaches 1024, that is for every value from 2,049,000 on.
- Constructing a reader can raise, so `__init__` and the block constructor
  become static factory methods (`Load`, `Open`) that return a `Result`.
- The draft engine has no classes of its own for `read_and_unpack`,
  `determine_endianness`, `read_string` and `read_frameline`. Their code is
  the same as the packaged engine's, so `LegacyDto` calls the `Dto` static
  methods.
- Both `read_tstop` functions read the T-stop word with `int.from_bytes`,
  which is unsigned. The sentinel labels for -3, -2 and -1 can therefore
  never be produced from the file. The sentinel words 0xFFFFFFFD to
  0xFFFFFFFF read as large values instead, and those overflow the T-stop
  power, so a T-stop field holding one raises `OverflowError` and aborts
  the block. `DtoSpec.TStopAt` and `LegacySpec.LegacyTStopAt` state both
  facts outright, and the model follows the code.

## Model

| member | source | states |
|---|---|---|
| Dto.BinaryFileDTO.Load | arriraw_legacy_metadata_reader/binaryfiledto.py:26-37 | opening a block fails with `struct.error` iff the header is too short for the byte-order word; otherwise the reader has the detected order, its catalog and exactly the extracted data, or extraction's exception is raised |
| Dto.BinaryFileDTO.ListFields | arriraw_legacy_metadata_reader/binaryfiledto.py:39-45 | one name per catalog entry, in catalog order |
| Dto.BinaryFileDTO.DataNames | arriraw_legacy_metadata_reader/binaryfiledto.py:47-53 | a name is listed iff the extracted data has it |
| Dto.BinaryFileDTO.GetData | arriraw_legacy_metadata_reader/binaryfiledto.py:55-61 | the extracted data, with keys exactly the listed data names |
| Dto.BinaryFileDTO.ReadAndUnpack | arriraw_legacy_metadata_reader/binaryfiledto.py:63-73 | reads the format's size and decodes it, advancing the cursor; `struct.error` on a bad format or a short read |
| DtoSpec.UnpackAt | arriraw_legacy_metadata_reader/binaryfiledto.py:63-73 | succeeds iff the format is one known code and its bytes are all there; the value comes from exactly those bytes and the cursor moves past them; every failure is `struct.error` |
| DtoSpec.UnpackBytes | arriraw_legacy_metadata_reader/binaryfiledto.py:73 | integer codes give integers within the code's unsigned or signed range; float codes keep their bytes |
| DtoSpec.UnpackPackUnsigned | arriraw_legacy_metadata_reader/binaryfiledto.py:73 | unpacking an unsigned code gives back the value whose bytes were packed |
| Dto.BinaryFileDTO.DetermineEndianness | arriraw_legacy_metadata_reader/binaryfiledto.py:75-85 | the stream's byte order as the specification detects it, or `struct.error` |
| DtoSpec.DetectOrderRule | arriraw_legacy_metadata_reader/binaryfiledto.py:75-85 | detection succeeds iff the header has 8 bytes; it yields little-endian iff bytes 4..8 are `78 56 34 12`, and it leaves the cursor at 8 |
| DtoSpec.DetectOrder | arriraw_legacy_metadata_reader/binaryfiledto.py:75-85 | `_determine_endianness` as a function: the 4-byte magic is skipped, the next word is read `'<I'`, and the order is `'<'` iff it is `0x12345678`; its failure and order cases are stated by `DtoSpec.DetectOrderRule` |
| DtoSpec.DetectOrderIgnoresMagic | arriraw_legacy_metadata_reader/binaryfiledto.py:80-82 | the magic bytes 0..4 play no part in the detected order |
| Codec.MarkerBytes | arriraw_legacy_metadata_reader/binaryfiledto.py:82-85 | the little-endian word equals `0x12345678` iff its bytes are `78 56 34 12` |
| Codec.OrderOfWord | arriraw_legacy_metadata_reader/binaryfiledto.py:84-85 | little-endian iff the word is `0x12345678` |
| Dto.BinaryFileDTO.ReadString | arriraw_legacy_metadata_reader/binaryfiledto.py:87-99 | the decoded string and the new cursor the specification gives |
| DtoSpec.ReadStringAt | arriraw_legacy_metadata_reader/binaryfiledto.py:87-99 | the result never holds a NUL; the cursor moves by the bytes read; with the bytes present it is the decoded field |
| Codec.DecodeString | arriraw_legacy_metadata_reader/binaryfiledto.py:96-99 | no NUL survives, and the text is never longer than the bytes |
| Codec.DecodeStringLittle | arriraw_legacy_metadata_reader/binaryfiledto.py:96-97 | read `'<'`, the bytes are decoded in reverse order |
| Codec.DecodeStringBigAscii | arriraw_legacy_metadata_reader/binaryfiledto.py:99 | ASCII bytes read `'>'` decode to their non-zero characters in order |
| Codec.NonZeroCharsAll | arriraw_legacy_metadata_reader/binaryfiledto.py:99 | a string without NULs is decoded character for character |
| Dto.BinaryFileDTO.ReadFrameline | arriraw_legacy_metadata_reader/binaryfiledto.py:101-140 | the frame-line record and cursor the specification gives, or the same exception |
| DtoSpec.FrameLineFailure | arriraw_legacy_metadata_reader/binaryfiledto.py:101-140 | a frame line fails, always with `struct.error`, iff its type word or, for an active line, its 40 further bytes are missing |
| DtoSpec.FrameLineInactive | arriraw_legacy_metadata_reader/binaryfiledto.py:118-127 | a type other than 1 or 2 gives `Inactive` and `--` for the five other keys, reading only the type word |
| DtoSpec.FrameLineActive | arriraw_legacy_metadata_reader/binaryfiledto.py:114-139 | type 1 or 2 gives `Master` or `Aux`, the 32-byte name, and four little-endian 16-bit words, reading 44 bytes |
| DtoSpec.FrameLineRecord | arriraw_legacy_metadata_reader/binaryfiledto.py:121-139 | the record has exactly the six `FrameLine{n}…` keys, each holding its own value |
| DtoSpec.FrameLineKeysDistinct | arriraw_legacy_metadata_reader/binaryfiledto.py:101-140 | the six keys of one frame line are pairwise distinct, so no part overwrites another |
| DtoSpec.FrameLineAt | arriraw_legacy_metadata_reader/binaryfiledto.py:101-140 | a frame line that is read has exactly the six `FrameLine{n}…` keys; its failure, inactive and active cases are stated by the three `DtoSpec.FrameLine…` lemmas |
| Codec.FrameLineTypeName | arriraw_legacy_metadata_reader/binaryfiledto.py:114-119 | `Master` iff the type is 1, `Aux` iff 2, `Inactive` otherwise |
| Codec.ConvertDataToTStop | arriraw_legacy_metadata_reader/binaryfiledto.py:142-161 | `OverflowError` iff the exponent `((data / 1000) - 1) / 2` reaches 1024, i.e. iff the value is at least 2,049,000; otherwise a label iff the value is -3, -2 or -1, and the T-stop formula of the value for any other value |
| Dto.BinaryFileDTO.ReadTStop | arriraw_legacy_metadata_reader/binaryfiledto.py:163-176 | the T-stop and cursor, or the `OverflowError`, that `DtoSpec.TStopAt` gives |
| DtoSpec.TStopAt | arriraw_legacy_metadata_reader/binaryfiledto.py:163-176 | reads up to four bytes as an unsigned word: `OverflowError` iff the word is at least 2,049,000 (the sentinel words included); otherwise the T-stop formula of the word, never a sentinel label, with the cursor after the read |
| Dto.BinaryFileDTO.ReadBit | arriraw_legacy_metadata_reader/binaryfiledto.py:178-182 | the bit and cursor the specification gives, or the same exception |
| DtoSpec.BitAt | arriraw_legacy_metadata_reader/binaryfiledto.py:178-182 | succeeds iff the position is one non-negative index; the result is that bit of the word, 0 or 1; a negative shift is `ValueError` and a list is `TypeError` |
| DtoSpec.BitAtExample | arriraw_legacy_metadata_reader/binaryfiledto.py:178-182 | bit 31 of the little-endian bytes `00 00 00 80` is 1 |
| Codec.BitOfWord | arriraw_legacy_metadata_reader/binaryfiledto.py:182 | `(value >> position) & 1` is bit `position` of the value, below 2 |
| Codec.TimeCode | arriraw_legacy_metadata_reader/binaryfiledto.py:184-198 | `_bytes_to_time_code` step by step: hexlify, cut into byte pairs, reverse the pairs, join, cut again, join with `':'`; `Codec.TimeCodeReversesBytes` states its result and `Codec.TimeCodeRoundTrip` inverts it |
| Codec.TimeCodeReversesBytes | arriraw_legacy_metadata_reader/binaryfiledto.py:184-198 | the timecode is the hex pairs of the bytes in reverse order, joined by `:` |
| Codec.TimeCodeOfFour | arriraw_legacy_metadata_reader/binaryfiledto.py:184-198 | four bytes give `hh:mm:ss:ff` from the last byte to the first, 11 characters long |
| Codec.TimeCodeRoundTrip | arriraw_legacy_metadata_reader/binaryfiledto.py:184-198 | the four bytes are recovered from their timecode |
| Codec.SplitUserString | arriraw_legacy_metadata_reader/binaryfiledto.py:200-211 | split on `';'`, keep the pieces holding `':'`, take the stripped first and second `':'`-pieces as key and value, a later key overwriting an earlier one; `Codec.SplitUserStringEntries` states its entries |
| Codec.SplitUserStringEntries | arriraw_legacy_metadata_reader/binaryfiledto.py:200-211 | a key is present iff some `;`-separated piece with a `:` has it as its stripped key, and it holds the value of the last such piece |
| Codec.SplitUserStringEmpty | arriraw_legacy_metadata_reader/binaryfiledto.py:200-211 | the empty string gives no entries |
| Codec.SplitUserStringTwo | arriraw_legacy_metadata_reader/binaryfiledto.py:200-211 | `k1:v1;k2:v2` gives exactly those two entries |
| Codec.BcdToStr | arriraw_legacy_metadata_reader/binaryfiledto.py:213-252 | the digits `f"{b >> 4}{b & 0x0F}"` per byte, the pairs reversed for `'>'`, then the date, time or offset slices, or the bare digits for another format; `Codec.BcdSlices`, `Codec.BcdDateLittle` and `Codec.BcdToStrBig` state its layouts |
| Codec.BcdDigitsValid | arriraw_legacy_metadata_reader/binaryfiledto.py:228-235 | valid BCD bytes read `'<'` give two digits each, in byte order |
| Codec.BcdDigitsBig | arriraw_legacy_metadata_reader/binaryfiledto.py:232-233 | read `'>'`, the bytes are taken in reverse order |
| Codec.BcdRoundTrip | arriraw_legacy_metadata_reader/binaryfiledto.py:228-235 | valid BCD bytes are recovered from their digit string |
| Codec.BcdDateLittle | arriraw_legacy_metadata_reader/binaryfiledto.py:237-252 | the date, time and offset layouts of four valid BCD bytes, with the spacer and the optional prefix |
| Codec.BcdExamplesLittle | arriraw_legacy_metadata_reader/binaryfiledto.py:240-248 | `12 34 56 78` read `'<'` gives `1234/56/78` and `12:34:56:78` |
| Codec.BcdExamplesBig | arriraw_legacy_metadata_reader/binaryfiledto.py:232-248 | the same bytes read `'>'` give `7856/34/12` and `78:56:34:12` |
| Codec.BcdWideNibble | arriraw_legacy_metadata_reader/binaryfiledto.py:228-241 | a nibble above 9 is written with two digits and shifts the date slices: `AB 00 00 00` gives `1011/00/00` |
| Codec.BcdSlices | arriraw_legacy_metadata_reader/binaryfiledto.py:237-252 | the date cuts the digit string at 0-4, 4-6 and 6-8 and the time at 0-2, 2-4, 4-6 and 6-8, whatever the bytes |
| Codec.BcdToStrBig | arriraw_legacy_metadata_reader/binaryfiledto.py:228-236 | every layout read `'>'` is the layout of the reversed bytes read `'<'` |
| Codec.UuidText | arriraw_legacy_metadata_reader/binaryfiledto.py:358-367 | 36 characters: lower-case hex digits with dashes at 8, 13, 18 and 23 |
| Codec.BytesLeOrderInvolution | arriraw_legacy_metadata_reader/binaryfiledto.py:367 | the `bytes_le` reordering is its own inverse |
| Codec.UuidRoundTrip | arriraw_legacy_metadata_reader/binaryfiledto.py:358-367 | the 16 bytes are recovered from the UUID text |
| Dto.BinaryFileDTO.ExtractMetadata | arriraw_legacy_metadata_reader/binaryfiledto.py:254-272 | the loop computes exactly the extraction function over the catalog, the allow-list and the detected order |
| DtoSpec.ExtractStep | arriraw_legacy_metadata_reader/binaryfiledto.py:263-270 | one selected field: decode at its offset in its effective order, merge the entries, then remap; the first exception is the step's |
| DtoSpec.ExtractFrom | arriraw_legacy_metadata_reader/binaryfiledto.py:258-272 | from a given field on, unselected fields are skipped and selected ones stepped in catalog order, the first exception aborting; `DtoSpec.ExtractFilter`, `DtoSpec.ExtractAppend` and `DtoSpec.ExtractKeys` state its properties |
| DtoSpec.Extract | arriraw_legacy_metadata_reader/binaryfiledto.py:254-272 | `extract_metadata`: `DtoSpec.ExtractFrom` from the empty dictionary |
| DtoSpec.ExtractFilter | arriraw_legacy_metadata_reader/binaryfiledto.py:261-262 | extraction with an allow-list is extraction of the catalog filtered to the listed names |
| DtoSpec.Filter | arriraw_legacy_metadata_reader/binaryfiledto.py:262 | a field is kept iff it is in the catalog and its name is listed |
| DtoSpec.ExtractAppend | arriraw_legacy_metadata_reader/binaryfiledto.py:261-272 | extracting two catalogs in turn is extracting the first, then the second from its result; the first exception stops it |
| DtoSpec.OverrideWins | arriraw_legacy_metadata_reader/binaryfiledto.py:264-265 | a field with its own byte order decodes the same whatever order was detected |
| DtoSpec.ExtractKeys | arriraw_legacy_metadata_reader/binaryfiledto.py:254-272 | for single-key fields, a successful extraction has exactly the names of the selected fields |
| DtoSpec.Remap | arriraw_legacy_metadata_reader/binaryfiledto.py:268-270 | without a mapping nothing changes; with one, it fails with `KeyError` iff the field's name is not in the data, and otherwise replaces only that value by its label |
| DtoSpec.Lookup | arriraw_legacy_metadata_reader/binaryfiledto.py:269-270 | the mapped label, or `Unknown` for an unmapped value |
| DtoSpec.RemapStep | arriraw_legacy_metadata_reader/binaryfiledto.py:267-270 | a mapped single-key field stores the label of its decoded value under its name |
| DtoSpec.RemapFramelineFails | arriraw_legacy_metadata_reader/binaryfiledto.py:267-270 | a mapping on a frame line whose name is none of its keys raises `KeyError` |
| Dto.BinaryFileDTO.HandleField | arriraw_legacy_metadata_reader/binaryfiledto.py:274-299 | the dispatch result and cursor the specification gives; the timecode, T-stop, frame-line and default handlers (323-356, 383-393) are done inline |
| DtoSpec.HandleAt | arriraw_legacy_metadata_reader/binaryfiledto.py:323-356 | a single-key handler's result has just the field's name; a frame line's has its six keys |
| DtoSpec.HandleString | arriraw_legacy_metadata_reader/binaryfiledto.py:301-310 | `KeyError('length')` when the field has no length; otherwise the field's name mapped to the decoded string, and the cursor after the read |
| DtoSpec.HandleUserString | arriraw_legacy_metadata_reader/binaryfiledto.py:312-321 | `KeyError('length')` when the field has no length; otherwise the user string's own entries, not under the field's name |
| DtoSpec.HandleTimecode | arriraw_legacy_metadata_reader/binaryfiledto.py:323-332 | four bytes, whatever the byte order, as the field's timecode |
| DtoSpec.HandleTStop | arriraw_legacy_metadata_reader/binaryfiledto.py:334-344 | the field's name mapped to the T-stop of the `TStopAt` read, or its `OverflowError` |
| DtoSpec.HandleFrameline | arriraw_legacy_metadata_reader/binaryfiledto.py:346-356 | `KeyError('number')` when the field has no number; otherwise the frame-line record of `DtoSpec.FrameLineAt` |
| DtoSpec.HandleUuid | arriraw_legacy_metadata_reader/binaryfiledto.py:358-367 | `ValueError` unless sixteen bytes are read; otherwise the UUID text of the `bytes_le` bytes |
| DtoSpec.HandleBits | arriraw_legacy_metadata_reader/binaryfiledto.py:369-381 | `KeyError('bit_position')` before any read when the position is missing; otherwise `BitAt`'s bit or exception |
| DtoSpec.HandleDefault | arriraw_legacy_metadata_reader/binaryfiledto.py:383-393 | the tag used as the `struct` code: `UnpackAt`'s value or its `struct.error` |
| DtoSpec.HandleBcd | arriraw_legacy_metadata_reader/binaryfiledto.py:395-425 | four BCD bytes with the tag as the format, spacer `'/'` for date and `':'` for time; it never raises |
| DtoSpec.HandleOffset | arriraw_legacy_metadata_reader/binaryfiledto.py:427-441 | `KeyError('prefix')` after the 4-byte read when the prefix is missing; otherwise the offset layout with spacer `':'` |
| DtoSpec.HandleFloat | arriraw_legacy_metadata_reader/binaryfiledto.py:443-461 | `struct.error` when the `'I'` word is short; `ValueError` for a negative `decimals`, whose format specifier is malformed; otherwise the scaled value, kept symbolic |
| Dto.BinaryFileDTO.HandleStringField | arriraw_legacy_metadata_reader/binaryfiledto.py:301-310 | the string handler's result and cursor, or `KeyError` for a missing `length` |
| Dto.BinaryFileDTO.HandleUserStringField | arriraw_legacy_metadata_reader/binaryfiledto.py:312-321 | the user-string handler's result and cursor, or `KeyError` for a missing `length` |
| Dto.BinaryFileDTO.HandleUuidField | arriraw_legacy_metadata_reader/binaryfiledto.py:358-367 | the UUID handler's result and cursor, or `ValueError` for a short read |
| Dto.BinaryFileDTO.HandleBitsField | arriraw_legacy_metadata_reader/binaryfiledto.py:369-381 | the bit handler's result and cursor, or `KeyError` for a missing `bit_position` and the bit reader's exceptions |
| Dto.BinaryFileDTO.HandleBcdField | arriraw_legacy_metadata_reader/binaryfiledto.py:395-425 | the date (`/`) or time (`:`) handler's result and cursor; it never raises, a short read giving a shorter digit string |
| Dto.BinaryFileDTO.HandleOffsetField | arriraw_legacy_metadata_reader/binaryfiledto.py:427-441 | the offset handler's result and cursor, or `KeyError` for a missing `prefix` |
| Dto.BinaryFileDTO.HandleFloatField | arriraw_legacy_metadata_reader/binaryfiledto.py:443-461 | the scaled-float handler's result and cursor, or the same exception |
| LegacyDto.LegacyBinaryFileDTO.Load | binaryfiledto.py:9-17 | the draft reader: `struct.error` for a short header; otherwise the detected order and the draft extraction's data, or its exception |
| LegacyDto.LegacyBinaryFileDTO.ListFields | binaryfiledto.py:19-20 | one name per catalog entry, in catalog order |
| LegacyDto.LegacyBinaryFileDTO.GetData | binaryfiledto.py:25-26 | the extracted data |
| LegacyDto.LegacyBinaryFileDTO.ReadTStop | binaryfiledto.py:79-93 | the draft T-stop and cursor, or the `OverflowError`, that `LegacySpec.LegacyTStopAt` gives |
| LegacySpec.LegacyTStopValue | binaryfiledto.py:83-92 | the draft's inline branches agree with the packaged conversion, overflow included: a label iff the value is -3 to -1 and it succeeds |
| LegacySpec.LegacyTStopAt | binaryfiledto.py:79-93 | the draft T-stop equals the packaged one, `OverflowError` included, and since the word is unsigned a T-stop it reads is always the formula |
| LegacyDto.LegacyBinaryFileDTO.ReadBits | binaryfiledto.py:95-103 | the masked bits and cursor the specification gives, or the same exception |
| LegacySpec.ReadBitsValue | binaryfiledto.py:96-103 | fails iff the position is a single integer or the list is empty or has a negative index (`TypeError`, `ValueError`); otherwise at most the shifted mask |
| LegacySpec.ReadBitsSingle | binaryfiledto.py:99-101 | a one-element list reads exactly that bit |
| LegacySpec.MaskSumRange | binaryfiledto.py:99 | the mask of `k` consecutive positions from `lo` is `2^lo * (2^k - 1)` |
| LegacySpec.ReadBitsRange | binaryfiledto.py:99-101 | `k` consecutive positions, listed in any order, read a value below `2^k` |
| LegacySpec.MaskSum | binaryfiledto.py:99 | `sum([2**i for i in bit_position])` on non-negative positions, a repeated position counted once per occurrence |
| LegacySpec.MaskSumPermutation | binaryfiledto.py:99 | the mask does not depend on the order in which positions are listed, only on how often each is |
| LegacySpec.MinOf | binaryfiledto.py:101 | `min(bit_position)`: an element of the list no greater than any other |
| LegacySpec.ReadBitsAt | binaryfiledto.py:96-103 | four bytes (fewer at the end) read as an unsigned integer in the given order, then `ReadBitsValue`; the cursor moves past what was read |
| LegacySpec.ReadBitsDuplicate | binaryfiledto.py:99-101 | a repeated position doubles the mask term and so reads the next bit up, times two |
| LegacyDto.LegacyBinaryFileDTO.HandleField | binaryfiledto.py:129-169 | the draft dispatch's result and cursor the specification gives |
| LegacySpec.LegacyHandleAt | binaryfiledto.py:129-142 | a single-key handler's result has just the field's name; a frame line's has its six keys |
| LegacySpec.LegacyHandleShared | binaryfiledto.py:144-162 | the string, user-string, timecode, T-stop, frame-line and UUID handlers decode as the packaged ones do |
| LegacySpec.LegacyBcdTagsFail | binaryfiledto.py:168-169 | `date`, `time`, `offset` and `float` fall to the default handler and raise `struct.error` |
| LegacySpec.LegacyBitsOne | binaryfiledto.py:164-166 | a one-element bit list reads what the packaged single-bit handler reads |
| LegacySpec.LegacyHandleTStop | binaryfiledto.py:153-155 | the field's name mapped to the draft T-stop, or its `OverflowError` |
| LegacySpec.LegacyHandleBits | binaryfiledto.py:164-166 | `KeyError('bit_position')` before any read when the position is missing; otherwise `ReadBitsAt`'s value or exception |
| LegacyDto.LegacyBinaryFileDTO.ExtractMetadata | binaryfiledto.py:119-127 | the loop computes exactly the draft extraction function |
| LegacySpec.LegacyExtractAgrees | binaryfiledto.py:119-127 | on catalogs of shared tags the draft extracts what the packaged engine does with the mappings dropped |
| LegacySpec.LegacyExtractFrom | binaryfiledto.py:119-127 | the draft loop from a given field on: selected fields decoded and merged in catalog order, no remap, the first exception aborting |
| LegacySpec.LegacyExtract | binaryfiledto.py:119-127 | the draft `extract_metadata`: `LegacySpec.LegacyExtractFrom` from the empty dictionary |
| Aggregator.ArriRawLegacyMetadataReader.Open | arriraw_legacy_metadata_reader/arriraw_legacy_metadata_reader.py:26-44 | an opening error is re-raised; otherwise the readers are the nine blocks' over the first 4096 bytes, in order, or the first block exception is raised |
| Aggregator.ArriRawLegacyMetadataReader.LoadAll | arriraw_legacy_metadata_reader/arriraw_legacy_metadata_reader.py:34-44 | the list of readers exists iff every block opens, then holds each block's data in order; otherwise the first block exception is raised |
| Aggregator.ArriRawLegacyMetadataReader.CollectMetadata | arriraw_legacy_metadata_reader/arriraw_legacy_metadata_reader.py:46-50 | the merge, in reader order, of the readers' data |
| Aggregator.ArriRawLegacyMetadataReader.GetDictionary | arriraw_legacy_metadata_reader/arriraw_legacy_metadata_reader.py:52-58 | the merged data |
| Aggregator.ArriRawLegacyMetadataReader.ListFields | arriraw_legacy_metadata_reader/arriraw_legacy_metadata_reader.py:77-86 | the readers' field names concatenated, which are the nine catalogs' names in block order |
| Aggregator.ReadMetadata | arriraw_legacy_metadata_reader/arriraw_legacy_metadata_reader.py:89-102 | the intended pipeline (the module's imports fail as written, see below): the merged data of the nine blocks over the file's header, or the first exception |
| Merge.Head | arriraw_legacy_metadata_reader/arriraw_legacy_metadata_reader.py:28-29 | `read(4096)`: the file's first 4096 bytes, or all of a shorter file |
| Merge.MergeAll | arriraw_legacy_metadata_reader/arriraw_legacy_metadata_reader.py:46-50 | `metadata.update(d)` for each block's data in turn, from `{}`; `Merge.MergeAllKeys` and `Merge.MergeAllLast` state its keys and values |
| Merge.Flatten | arriraw_legacy_metadata_reader/arriraw_legacy_metadata_reader.py:77-86 | `fields.extend(l)` for each block's name list in turn, from `[]`; `Merge.FlattenLayout` states where each name lands |
| Merge.AllBlocks | arriraw_legacy_metadata_reader/arriraw_legacy_metadata_reader.py:34-44 | the nine block readers built in order, stopping at the first exception; on success there is one dictionary per catalog |
| Merge.ReadMetadataSpec | arriraw_legacy_metadata_reader/arriraw_legacy_metadata_reader.py:89-102 | `read_metadata` as a function: the opening error, or the first block exception over the header, or the merged data of all blocks |
| Streams.ByteStream.Seek | arriraw_legacy_metadata_reader/binaryfiledto.py:263 | `seek(offset)`: the cursor is the offset, even past the end |
| Streams.ByteStream.Read | arriraw_legacy_metadata_reader/binaryfiledto.py:73 | `read(n)`: the bytes from the cursor, clamped to the end, and the cursor after them; at or past the end nothing is read and the cursor stays |
| Merge.MergeAllKeys | arriraw_legacy_metadata_reader/arriraw_legacy_metadata_reader.py:46-50 | a key is merged iff some block has it |
| Merge.MergeAllLast | arriraw_legacy_metadata_reader/arriraw_legacy_metadata_reader.py:46-50 | a merged key holds the value of the last block that has it |
| Merge.FlattenLayout | arriraw_legacy_metadata_reader/arriraw_legacy_metadata_reader.py:77-86 | no name is dropped or reordered: list `i`'s name `j` sits after all earlier lists |
| Merge.AllBlocksEach | arriraw_legacy_metadata_reader/arriraw_legacy_metadata_reader.py:34-44 | the blocks all open iff each one does, and block `i`'s data is its own catalog's extraction |
| Merge.AllBlocksPrefixFails | arriraw_legacy_metadata_reader/arriraw_legacy_metadata_reader.py:34-44 | once an earlier block raises, the later blocks are never reached |
| Merge.AllBlocksFirstFailure | arriraw_legacy_metadata_reader/arriraw_legacy_metadata_reader.py:34-44 | when the blocks before `k` open and block `k` raises, the whole raises block `k`'s exception |
| Merge.AllBlocksAllRead | arriraw_legacy_metadata_reader/arriraw_legacy_metadata_reader.py:34-44 | when every block opens, the whole is their data in block order |
| Merge.ShortHeaderFails | arriraw_legacy_metadata_reader/arriraw_legacy_metadata_reader.py:34-44 | a file shorter than 8 bytes raises `struct.error` |
| Merge.ReadMetadataHeaderOnly | arriraw_legacy_metadata_reader/arriraw_legacy_metadata_reader.py:28-29 | bytes past the first 4096 play no part in the result |
| LegacyAggregator.ArriRawLegacyMetadataReader.Open | arriraw_legacy_metadata_reader.py:15-33 | the draft readers are appended one by one: the nine blocks' over the first 4096 bytes, or the first exception |
| LegacyAggregator.ArriRawLegacyMetadataReader.AppendBlocks | arriraw_legacy_metadata_reader.py:23-33 | the appends finish iff every block opens, leaving the nine blocks' readers in order; otherwise the first block exception is raised |
| LegacyAggregator.ArriRawLegacyMetadataReader.GetDictionary | arriraw_legacy_metadata_reader.py:35-41 | the merge, in reader order, of the readers' data |
| LegacyAggregator.ArriRawLegacyMetadataReader.ListFields | arriraw_legacy_metadata_reader.py:54-60 | the readers' field names concatenated, which are the nine catalogs' names in block order |

## Left out

- Aggregator: `arriraw_legacy_metadata_reader/arriraw_legacy_metadata_reader.py:11-15` imports `Ici`, `Ldi`, `Vfx` and `Cid`, but the catalog modules define `ICI`, `LDI`, `VFX` and `CID`, so the packaged module raises `ImportError` as written. The model takes the catalogs as a parameter and describes the pipeline the module evidently intends.
- Opening the file: the aggregators take its content, or the exception opening raised, as a parameter.
- The `io.BufferedReader` input of `__init__`, and the `TypeError` for other inputs: every reader works on the in-memory bytes.
- `get_dataframe` and `get_json`: they depend on pandas and `json`.
- `cli.py`.
- The catalogs of the nine blocks (`IDI.py` … `NRI.py`): they are a parameter, one catalog per block kind. The root draft's block files are not part of this model.
- Floating-point arithmetic: the T-stop formula, the scaled floats and the `struct` float codes stay symbolic and record their raw input. Rounding and the text formatting are not modelled. The T-stop power's `OverflowError` is modelled, at its exact threshold; the float handler's `raw / 1000` of an unsigned 32-bit word cannot overflow.
- UTF-8 decoding with `'ignore'` is modelled on ASCII: a byte of 0x80 or above is dropped.
- `struct` formats are the single-character codes for integers and floats. Multi-character formats and the codes `c ? s p x n N P` are treated as `struct.error`. So is the empty format, where Python's `struct.unpack('<', b'')[0]` raises `IndexError`; no catalog uses an empty `datatype`.
- Dictionary insertion order: data is a map, and `list_data_names` is modelled as a set of names (`Dto.BinaryFileDTO.DataNames`).
- The cursor position after an exception: the model states only the exception.
- The debug output of `_read_bit`.
- Dto.BinaryFileDTO.Load: the source's constructor cannot return an error value. It is modelled as a factory that returns the exception instead, as are `LegacyDto.LegacyBinaryFileDTO.Load` and both aggregators' `Open`.
- LegacyDto.LegacyBinaryFileDTO.Load: the draft's `__init__` never sets `fields` or `data`. The model gives them the catalog and the extracted data, as the block constructors do.
