# xjs-compat serialization core, in Dafny

This project models the serialization core of ExJson/xjs-compat and proves what it promises.

The binary codec (Universal Binary JSON, Draft 12) has these parts:

- **Markers and modes.** `UBMarker` holds the eighteen marker bytes. `UBTyping` holds the four compression modes.
- **Writer** (`UbjsonWriter`).
  - It turns a value tree into bytes.
  - For each integer it picks the narrowest integer marker.
  - For each container it picks a compression type: one element type shared by all elements, or none.
  - It then picks one of three container framings: optimized (`$` type `#` count), sized (`#` count) or generic (closed by `]`/`}`).
- **Reader** (`UbjsonParser`). A recursive-descent decoder over an input stream that mirrors the three framings.

The relaxed-text (Hjson) side has these parts:
- the `StringContext` stack machine, which tells the compat lexer whether a bare word is a key, a value or the ambiguous first token;
- the context fields and scanners of the earlier lexer, `xjs.serialization.token.HjsonTokenizer`;
- the compat `HjsonTokenizer`'s character rules and its scanners `key`, `ambiguous` and `unquoted`;
- the compat `HjsonParser`, over a token sequence;
- the compat `HjsonWriter`'s quoting rules and its condensing predicate.

Each stateful Java class is a Dafny class. Its methods are proved against functions of the inputs and the old state.

- **`UbjsonWriting.UbjsonWriter`** appends exactly `EncodeValue(v, typing)` to its `output`.
- **`UbjsonReading.UbjsonParser`** reads a stream through a cursor. Each method returns what `DecodeValue` (or its sibling) computes from the bytes not yet consumed, and moves the cursor by exactly what that function consumed.
- **`StringContexts.StringContext`**, **`LegacyHjsonTokenizer.LegacyTokenizer`**, **`CompatHjsonTokenizer.HjsonTokenizer`** and **`HjsonParsing.HjsonParser`** are likewise proved against the functions `Prepared`/`Updated`, `ContextAfter`, `SingleStep` and `CompatHjsonParser.Parse`.

The lemmas state the properties of those functions:
- the round trip `decode(encode(v, mode)) == v`;
- truncated input never yielding a value;
- the framing chosen by each mode;
- the key, value and delimiter rules of the parser;
- the context machines' invariants;
- the writer and reader fixtures of the repository's tests.

Modules, one per file:

| module | file |
|---|---|
| `UBMarker` | `ub_marker.dfy` |
| `UBTyping` | `ub_typing.dfy` |
| `JsonValue` | `json_value.dfy` |
| `BigEndian` | `big_endian.dfy` |
| `UbjsonWriting` | `ubjson_writer.dfy` |
| `UbjsonReading` | `ubjson_parser.dfy` |
| `UbjsonRoundTrip` | `ubjson_round_trip.dfy` |
| `UbjsonDecodingRules` | `ubjson_decoding.dfy` |
| `UbjsonTruncation` | `ubjson_truncation.dfy` |
| `UbjsonFraming` | `ubjson_framing.dfy` |
| `UbjsonFindings` | `ubjson_findings.dfy` |
| `HjsonText` | `hjson_text.dfy` |
| `LineReading` | `line_reader.dfy` |
| `StringContexts` | `string_context.dfy` |
| `CompatHjsonTokenizer` | `hjson_tokenizer.dfy` |
| `LegacyHjsonTokenizer` | `legacy_tokenizer.dfy` |
| `CompatHjsonParser` | `hjson_parser.dfy` |
| `HjsonParsing` | `hjson_parser_class.dfy` |
| `HjsonParserProperties` | `hjson_parser_properties.dfy` |
| `HjsonParserExamples` | `hjson_parser_examples.dfy` |
| `CompatHjsonWriter` | `hjson_writer.dfy` |
| `Sequences` | `sequences.dfy` |

`Sequences` is a helper.

## Model

| member | source | states |
|---|---|---|
| UBMarker.MarkersDistinct | src/main/java/xjs/serialization/util/UBMarker.java:9-60 | the eighteen markers are pairwise distinct, so the reader can dispatch on a single byte |
| UBMarker.ValueMarkersAreNotFraming | src/main/java/xjs/compat/serialization/parser/UbjsonParser.java:196-212 | no byte that starts a value is a closer, '$' or '#' |
| UBTyping.ExactlyFourModes | src/main/java/xjs/compat/serialization/util/UBTyping.java:9-32 | every mode is one of WEAK, STRONG, BALANCED and COMPRESSED, and these four are distinct |
| JsonValue.Values | src/main/java/xjs/serialization/writer/UbjsonWriter.java:306-321 | an object's values are listed in member order, one per member |
| BigEndian.UnsignedBytes | src/main/java/xjs/serialization/writer/UbjsonWriter.java:75-106 | writing the low `n` bytes of `v`, most significant first, and reading them back unsigned gives `v` modulo 256^n |
| BigEndian.SignedBytes | src/main/java/xjs/compat/serialization/parser/UbjsonParser.java:61-81 | every value in the signed range of `n` bytes survives a big-endian write and a two's-complement read |
| BigEndian.UnsignedRoundTrip | src/main/java/xjs/compat/serialization/parser/UbjsonParser.java:57-59 | every value in 0..256^n-1 survives a write and an unsigned read |
| BigEndian.Bytes | src/main/java/xjs/serialization/writer/UbjsonWriter.java:85-90 | the raw writers emit exactly `n` bytes for an `n`-byte payload |
| BigEndian.Unsigned | src/main/java/xjs/compat/serialization/parser/UbjsonParser.java:57-59 | an unsigned reading of `k` bytes is below 256^k |
| BigEndian.Signed | src/main/java/xjs/compat/serialization/parser/UbjsonParser.java:61-81 | a two's-complement reading of `k` bytes lies in -256^k/2 .. 256^k/2-1 |
| UbjsonWriting.NumberType | src/main/java/xjs/serialization/writer/UbjsonWriter.java:270-282 | (definition) the integral branch of `getNumberType(min, max)`: U_INT8, INT8, INT16, INT32 in that order of preference, the first whose range holds both bounds, else INT64 |
| UbjsonWriting.EncodeInt | src/main/java/xjs/serialization/writer/UbjsonWriter.java:108-120 | (definition, corrected) `writeInt`: the narrowest of U_INT8, INT8, INT16, INT32 whose range holds the value, then that many big-endian bytes; beyond 32 bits the INT64 marker 'L' and eight bytes, where the source writes 'l' (see Findings) |
| UbjsonWriting.EncodeIntAsWritten | src/main/java/xjs/serialization/writer/UbjsonWriter.java:92-120 | (definition, as written) `writeInt` with `writeInt64` emitting the INT32 marker 'l' before its eight bytes |
| UbjsonWriting.IsMarkerOnly | src/main/java/xjs/serialization/writer/UbjsonWriter.java:293-295 | (definition) `isMarkerOnly`: true, false and null carry no payload |
| UbjsonWriting.IsSingleByte | src/main/java/xjs/serialization/writer/UbjsonWriter.java:297-299 | (definition) `isSingleByte`: INT8 and U_INT8 |
| UbjsonWriting.ContainerNumberType | src/main/java/xjs/serialization/writer/UbjsonWriter.java:257-268 | (definition) `getNumberType(container)`: 0 when an element is not a number, else the number type of the smallest and largest element |
| UbjsonWriting.ContainerType | src/main/java/xjs/serialization/writer/UbjsonWriter.java:240-255 | (definition) `getContainerType`: a numeric first element gives the container's number type; a marker-only first type gives 0; otherwise the first type when every later element has it, else 0 |
| UbjsonWriting.MinCompressionSize | src/main/java/xjs/serialization/writer/UbjsonWriter.java:216 | (definition) the smallest container compressed: one element under STRONG, two otherwise |
| UbjsonWriting.CompressionType | src/main/java/xjs/serialization/writer/UbjsonWriter.java:215-227 | (definition) `getCompressionType`: 0 below the minimum size; outside STRONG also 0 for a single-byte type with fewer than five elements; else the container type |
| UbjsonWriting.EncodeValue | src/main/java/xjs/serialization/writer/UbjsonWriter.java:351-371 | (definition, corrected integers) `writeValue`: the value's marker, then its payload; integers through the corrected `EncodeInt` (see Findings) |
| UbjsonWriting.EncodeRaw | src/main/java/xjs/serialization/writer/UbjsonWriter.java:373-412 | (definition) `writeRawValue`: the payload alone for the given type, nothing for null, true and false |
| UbjsonWriting.EncodeRawArray | src/main/java/xjs/serialization/writer/UbjsonWriter.java:173-188 | (definition) `writeRawArray`: ']' when empty; generic under WEAK; optimized when a compression type exists; else generic under COMPRESSED and sized otherwise |
| UbjsonWriting.EncodeSizedArray | src/main/java/xjs/serialization/writer/UbjsonWriter.java:190-196 | (definition) `writeSizedArray`: '#', the count, the marked elements |
| UbjsonWriting.EncodeGenericArray | src/main/java/xjs/serialization/writer/UbjsonWriter.java:198-203 | (definition) `writeGenericArray`: the marked elements, then ']' |
| UbjsonWriting.EncodeOptimizedArray | src/main/java/xjs/serialization/writer/UbjsonWriter.java:205-213 | (definition) `writeOptimizedArray`: '$', the type, '#', the count, the bare payloads |
| UbjsonWriting.EncodeRawObject | src/main/java/xjs/serialization/writer/UbjsonWriter.java:306-321 | (definition) `writeRawObject`: '}' when empty; generic under WEAK; optimized when the values have a compression type; else generic under COMPRESSED and sized otherwise |
| UbjsonWriting.EncodeSizedObject | src/main/java/xjs/serialization/writer/UbjsonWriter.java:323-330 | (definition) `writeSizedObject`: '#', the count, each length-prefixed key with its marked value |
| UbjsonWriting.EncodeGenericObject | src/main/java/xjs/serialization/writer/UbjsonWriter.java:332-338 | (definition) `writeGenericObject`: each length-prefixed key with its marked value, then '}' |
| UbjsonWriting.EncodeOptimizedObject | src/main/java/xjs/serialization/writer/UbjsonWriter.java:340-349 | (definition) `writeOptimizedObject`: '$', the type, '#', the count, each length-prefixed key with its bare payload |
| UbjsonWriting.NumberTypeCovers | src/main/java/xjs/serialization/writer/UbjsonWriter.java:270-287 | the integer type chosen for a range holds every integer in that range |
| UbjsonWriting.TypeOfFits | src/main/java/xjs/serialization/writer/UbjsonWriter.java:229-238 | every value can be written as a raw payload of the type it is written with |
| UbjsonWriting.CompressionTypeFits | src/main/java/xjs/serialization/writer/UbjsonWriter.java:215-227 | a shared container type is never marker-only, and every element can be written as a payload of it |
| UbjsonWriting.EncodeIntShape | src/main/java/xjs/serialization/writer/UbjsonWriter.java:108-120 | (corrected, see Findings row 1) a scalar integer is the narrowest marker whose range holds it, then that marker's width of big-endian bytes |
| UbjsonWriting.EncodeValueHead | src/main/java/xjs/serialization/writer/UbjsonWriter.java:351-371 | every encoding starts with its value's marker, which is never a closer, '$' or '#' |
| UbjsonWriting.ClampedBoundsSameType | src/main/java/xjs/serialization/writer/UbjsonWriter.java:257-268 | seeding the running minimum at INT_32_MAX and the running maximum at INT_32_MIN selects the same type as the true bounds |
| UbjsonWriting.UbjsonWriter.constructor | src/main/java/xjs/serialization/writer/UbjsonWriter.java:26-37 | a new writer has the given mode and nothing written |
| UbjsonWriting.UbjsonWriter.WriteNull | src/main/java/xjs/serialization/writer/UbjsonWriter.java:44-46 | appends 'Z' |
| UbjsonWriting.UbjsonWriter.WriteBool | src/main/java/xjs/serialization/writer/UbjsonWriter.java:48-50 | appends 'T' or 'F' |
| UbjsonWriting.UbjsonWriter.WriteRawInt | src/main/java/xjs/serialization/writer/UbjsonWriter.java:57-106 | appends the low `width` bytes of the value, most significant first |
| UbjsonWriting.UbjsonWriter.WriteInt | src/main/java/xjs/serialization/writer/UbjsonWriter.java:108-120 | (corrected, see Findings row 1) appends exactly the integer's encoding, 'L' before a 64-bit payload |
| UbjsonWriting.UbjsonWriter.WriteRawString | src/main/java/xjs/serialization/writer/UbjsonWriter.java:162-166 | appends the byte length as an integer, then the bytes |
| UbjsonWriting.UbjsonWriter.WriteString | src/main/java/xjs/serialization/writer/UbjsonWriter.java:157-160 | appends 'S' and then the raw string |
| UbjsonWriting.UbjsonWriter.WriteValue | src/main/java/xjs/serialization/writer/UbjsonWriter.java:351-371 | (corrected, see Findings row 1) appends exactly `EncodeValue(v, typing)`, whose round trip `UbjsonRoundTrip.ValueRoundTrip` proves |
| UbjsonWriting.UbjsonWriter.WriteRawValue | src/main/java/xjs/serialization/writer/UbjsonWriter.java:373-412 | appends the payload of a value of the given type, with no marker |
| UbjsonWriting.UbjsonWriter.WriteArray | src/main/java/xjs/serialization/writer/UbjsonWriter.java:168-171 | appends '[' and then the array's framing |
| UbjsonWriting.UbjsonWriter.WriteRawArray | src/main/java/xjs/serialization/writer/UbjsonWriter.java:173-188 | appends the framing that the mode and compression type select |
| UbjsonWriting.UbjsonWriter.WriteElements | src/main/java/xjs/serialization/writer/UbjsonWriter.java:198-203 | appends the elements in order, each with its marker |
| UbjsonWriting.UbjsonWriter.WriteRawElements | src/main/java/xjs/serialization/writer/UbjsonWriter.java:205-213 | appends the elements in order as payloads of the shared type |
| UbjsonWriting.UbjsonWriter.WriteSizedArray | src/main/java/xjs/serialization/writer/UbjsonWriter.java:190-196 | appends '#', the count, then the marked elements |
| UbjsonWriting.UbjsonWriter.WriteGenericArray | src/main/java/xjs/serialization/writer/UbjsonWriter.java:198-203 | appends the marked elements, then ']' |
| UbjsonWriting.UbjsonWriter.WriteOptimizedArray | src/main/java/xjs/serialization/writer/UbjsonWriter.java:205-213 | appends '$', the type, '#', the count, then the bare payloads |
| UbjsonWriting.UbjsonWriter.WriteObject | src/main/java/xjs/serialization/writer/UbjsonWriter.java:301-304 | appends '{' and then the object's framing |
| UbjsonWriting.UbjsonWriter.WriteRawObject | src/main/java/xjs/serialization/writer/UbjsonWriter.java:306-321 | appends the framing that the mode and the values' compression type select |
| UbjsonWriting.UbjsonWriter.WriteMembers | src/main/java/xjs/serialization/writer/UbjsonWriter.java:332-338 | appends each length-prefixed key, then its marked value, in member order |
| UbjsonWriting.UbjsonWriter.WriteRawMembers | src/main/java/xjs/serialization/writer/UbjsonWriter.java:340-349 | appends each length-prefixed key, then its value as a payload of the shared type |
| UbjsonWriting.UbjsonWriter.WriteSizedObject | src/main/java/xjs/serialization/writer/UbjsonWriter.java:323-330 | appends '#', the count, then the members |
| UbjsonWriting.UbjsonWriter.WriteGenericObject | src/main/java/xjs/serialization/writer/UbjsonWriter.java:332-338 | appends the members, then '}' |
| UbjsonWriting.UbjsonWriter.WriteOptimizedObject | src/main/java/xjs/serialization/writer/UbjsonWriter.java:340-349 | appends '$', the type, '#', the count, then the keys and bare payloads |
| UbjsonWriting.UbjsonWriter.GetCompressionType | src/main/java/xjs/serialization/writer/UbjsonWriter.java:215-227 | returns the compression type, whose cases `UbjsonFraming.NoCompressionCases` states |
| UbjsonWriting.UbjsonWriter.GetContainerType | src/main/java/xjs/serialization/writer/UbjsonWriter.java:240-255 | the loop with its early return computes the shared type that `UbjsonFraming.SharedTypeRule` characterises |
| UbjsonWriting.UbjsonWriter.GetNumberType | src/main/java/xjs/serialization/writer/UbjsonWriter.java:257-268 | the running min/max loop computes the number type of the container, 0 when some element is not a number |
| UbjsonReading.DecodeStringOfAsWritten | src/main/java/xjs/compat/serialization/parser/UbjsonParser.java:95-110 | (definition, as written) `readString(sizeType)` on a stream of at most `chunk` bytes per bulk read, each read asking for `size` bytes at the current offset (see Findings) |
| UbjsonReading.DecodeByte | src/main/java/xjs/compat/serialization/parser/UbjsonParser.java:34-40 | succeeds exactly on non-empty input, splitting off its first byte; otherwise end of input |
| UbjsonReading.DecodeInt | src/main/java/xjs/compat/serialization/parser/UbjsonParser.java:46-55 | succeeds exactly for an integer marker with its payload width of bytes present, consuming exactly that width; any other marker is "Not an integer" |
| UbjsonReading.DecodeAnyInt | src/main/java/xjs/compat/serialization/parser/UbjsonParser.java:42-44 | a successful read consumes input |
| UbjsonReading.ToInt32 | src/main/java/xjs/compat/serialization/parser/UbjsonParser.java:96 | Java's `(int)` cast: the result is a 32-bit int, equal to the input when that fits, and congruent to it modulo 2^32 |
| UbjsonReading.DecodeString | src/main/java/xjs/compat/serialization/parser/UbjsonParser.java:91-93 | a successful read consumes input |
| UbjsonReading.DecodeValueOf | src/main/java/xjs/compat/serialization/parser/UbjsonParser.java:195-213 | a successful read never grows the remaining input |
| UbjsonReading.DecodeGenericElems | src/main/java/xjs/compat/serialization/parser/UbjsonParser.java:128-135 | a successful read never grows the remaining input |
| UbjsonReading.DecodeGenericMembers | src/main/java/xjs/compat/serialization/parser/UbjsonParser.java:168-175 | a successful read never grows the remaining input |
| UbjsonReading.OptimizedElemsStops | src/main/java/xjs/compat/serialization/parser/UbjsonParser.java:112-118 | a failing payload fails the optimized array with its error |
| UbjsonReading.SizedElemsStops | src/main/java/xjs/compat/serialization/parser/UbjsonParser.java:120-126 | a failing element fails the sized array with its error |
| UbjsonReading.OptimizedMembersStops | src/main/java/xjs/compat/serialization/parser/UbjsonParser.java:151-158 | a failing key or payload fails the optimized object with its error |
| UbjsonReading.SizedMembersStops | src/main/java/xjs/compat/serialization/parser/UbjsonParser.java:160-166 | a failing key or value fails the sized object with its error |
| UbjsonReading.DecodeStringOf | src/main/java/xjs/compat/serialization/parser/UbjsonParser.java:95-110 | (corrected, see Findings row 2) a string read consumes input: what is left is shorter than what was given |
| UbjsonReading.DecodeValue | src/main/java/xjs/compat/serialization/parser/UbjsonParser.java:191-193 | a value read consumes at least its marker |
| UbjsonReading.DecodeArray | src/main/java/xjs/compat/serialization/parser/UbjsonParser.java:137-149 | a successful array read yields an array and consumes input |
| UbjsonReading.DecodeObject | src/main/java/xjs/compat/serialization/parser/UbjsonParser.java:177-189 | a successful object read yields an object and consumes input |
| UbjsonReading.DecodeOptimizedElems | src/main/java/xjs/compat/serialization/parser/UbjsonParser.java:112-118 | a successful read yields exactly `size` elements |
| UbjsonReading.DecodeSizedElems | src/main/java/xjs/compat/serialization/parser/UbjsonParser.java:120-126 | a successful read yields exactly `size` elements |
| UbjsonReading.DecodeOptimizedMembers | src/main/java/xjs/compat/serialization/parser/UbjsonParser.java:151-158 | a successful read yields exactly `size` members |
| UbjsonReading.DecodeSizedMembers | src/main/java/xjs/compat/serialization/parser/UbjsonParser.java:160-166 | a successful read yields exactly `size` members |
| UbjsonReading.GenericElemsStops | src/main/java/xjs/compat/serialization/parser/UbjsonParser.java:128-135 | a failing element fails the generic array with its error; input that ends after an element is end of input |
| UbjsonReading.GenericMembersStops | src/main/java/xjs/compat/serialization/parser/UbjsonParser.java:168-175 | a failing key or value fails the generic object with its error; input that ends after a member is end of input |
| UbjsonReading.UbjsonParser.constructor | src/main/java/xjs/compat/serialization/parser/UbjsonParser.java:21-27 | a new parser has the whole input remaining |
| UbjsonReading.UbjsonParser.Read | src/main/java/xjs/compat/serialization/parser/UbjsonParser.java:34-40 | returns the next byte and moves past it, or fails with end of input and does not move |
| UbjsonReading.UbjsonParser.ReadBigEndian | src/main/java/xjs/compat/serialization/parser/UbjsonParser.java:57-81 | `width` bytes read as an unsigned big-endian number, or end of input when fewer remain |
| UbjsonReading.UbjsonParser.ReadInt | src/main/java/xjs/compat/serialization/parser/UbjsonParser.java:46-55 | the payload of an integer marker, signed except for 'U'; any other marker is "Not an integer" |
| UbjsonReading.UbjsonParser.ReadAnyInt | src/main/java/xjs/compat/serialization/parser/UbjsonParser.java:42-44 | a marker, then its integer payload |
| UbjsonReading.UbjsonParser.ReadInto | src/main/java/xjs/compat/serialization/parser/UbjsonParser.java:102 | models the stream's bulk read: an overrun of the buffer is refused; otherwise it copies at most `chunk` bytes to the offset, or reports end of input |
| UbjsonReading.UbjsonParser.ReadStringOf | src/main/java/xjs/compat/serialization/parser/UbjsonParser.java:95-110 | the bulk-read loop, asking for the bytes still missing, returns exactly the `size` bytes after the length, whatever the chunk size |
| UbjsonReading.UbjsonParser.ReadString | src/main/java/xjs/compat/serialization/parser/UbjsonParser.java:91-93 | a length marker, then the string |
| UbjsonReading.UbjsonParser.ReadValue | src/main/java/xjs/compat/serialization/parser/UbjsonParser.java:191-193 | returns `DecodeValue` of the remaining bytes and consumes exactly what it consumed |
| UbjsonReading.UbjsonParser.ReadValueOf | src/main/java/xjs/compat/serialization/parser/UbjsonParser.java:195-213 | the marker dispatch, as `DecodeValueOf` |
| UbjsonReading.UbjsonParser.ReadArray | src/main/java/xjs/compat/serialization/parser/UbjsonParser.java:137-149 | the framing dispatch after '[', as `DecodeArray` |
| UbjsonReading.UbjsonParser.ReadOptimizedArray | src/main/java/xjs/compat/serialization/parser/UbjsonParser.java:112-118 | the counted loop of typed payloads |
| UbjsonReading.UbjsonParser.ReadSizedArray | src/main/java/xjs/compat/serialization/parser/UbjsonParser.java:120-126 | the counted loop of marked values |
| UbjsonReading.UbjsonParser.ReadGenericArray | src/main/java/xjs/compat/serialization/parser/UbjsonParser.java:128-135 | the loop up to ']', starting from the marker already read |
| UbjsonReading.UbjsonParser.ReadObject | src/main/java/xjs/compat/serialization/parser/UbjsonParser.java:177-189 | the framing dispatch after '{', as `DecodeObject` |
| UbjsonReading.UbjsonParser.ReadOptimizedObject | src/main/java/xjs/compat/serialization/parser/UbjsonParser.java:151-158 | the counted loop of keys and typed payloads |
| UbjsonReading.UbjsonParser.ReadSizedObject | src/main/java/xjs/compat/serialization/parser/UbjsonParser.java:160-166 | the counted loop of keys and marked values |
| UbjsonReading.UbjsonParser.ReadGenericObject | src/main/java/xjs/compat/serialization/parser/UbjsonParser.java:168-175 | the loop up to '}', the byte already read being the first key's length marker |
| UbjsonRoundTrip.PayloadRoundTrip | src/main/java/xjs/compat/serialization/parser/UbjsonParser.java:46-81 | an integer's payload at a marker whose range holds it reads back as the integer |
| UbjsonRoundTrip.RawIntRoundTrip | src/main/java/xjs/compat/serialization/parser/UbjsonParser.java:46-55 | `readInt(type)` of a raw payload gives the integer back and leaves what follows |
| UbjsonRoundTrip.RawIntValueRoundTrip | src/main/java/xjs/compat/serialization/parser/UbjsonParser.java:200-205 | `readValue(type)` of a raw integer payload gives the integer back |
| UbjsonRoundTrip.IntRoundTrip | src/main/java/xjs/serialization/writer/UbjsonWriter.java:108-120 | `writeInt` followed by `readInt()` or `readValue()` gives back every 64-bit integer and leaves what follows |
| UbjsonRoundTrip.StringRoundTrip | src/main/java/xjs/serialization/writer/UbjsonWriter.java:162-166 | `writeRawString` followed by `readString()` gives back the bytes |
| UbjsonRoundTrip.ValueRoundTrip | src/main/java/xjs/serialization/writer/UbjsonWriter.java:351-371 | decoding an encoded tree, in any mode and whatever follows, gives back the tree and consumes exactly its encoding |
| UbjsonRoundTrip.StrValueRoundTrip | src/main/java/xjs/serialization/writer/UbjsonWriter.java:157-160 | a string value round-trips |
| UbjsonRoundTrip.ArrayValueRoundTrip | src/main/java/xjs/serialization/writer/UbjsonWriter.java:168-171 | an array round-trips in every mode |
| UbjsonRoundTrip.ObjectValueRoundTrip | src/main/java/xjs/serialization/writer/UbjsonWriter.java:301-304 | an object round-trips in every mode, members in order |
| UbjsonRoundTrip.DecodeEncode | src/test/java/xjs/compat/serialization/parser/UbjsonParserTest.java:77-173 | a complete encoding decodes to its tree with no input left, so every writer fixture decodes back to the tree written |
| UbjsonRoundTrip.RawRoundTrip | src/main/java/xjs/serialization/writer/UbjsonWriter.java:373-412 | a payload written for a shared type reads back with that type as its marker |
| UbjsonRoundTrip.RawArrayRoundTrip | src/main/java/xjs/serialization/writer/UbjsonWriter.java:173-188 | each of the three array framings reads back as the array |
| UbjsonRoundTrip.GenericElemsRoundTrip | src/main/java/xjs/serialization/writer/UbjsonWriter.java:198-203 | marked elements then ']' read back as the elements |
| UbjsonRoundTrip.SizedElemsRoundTrip | src/main/java/xjs/serialization/writer/UbjsonWriter.java:190-196 | `n` marked elements read back under a count of `n` |
| UbjsonRoundTrip.OptimizedElemsRoundTrip | src/main/java/xjs/serialization/writer/UbjsonWriter.java:205-213 | `n` bare payloads read back under a type and a count of `n` |
| UbjsonRoundTrip.RawObjectRoundTrip | src/main/java/xjs/serialization/writer/UbjsonWriter.java:306-321 | each of the three object framings reads back as the object |
| UbjsonRoundTrip.GenericMembersRoundTrip | src/main/java/xjs/serialization/writer/UbjsonWriter.java:332-338 | members then '}' read back as the members |
| UbjsonRoundTrip.SizedMembersRoundTrip | src/main/java/xjs/serialization/writer/UbjsonWriter.java:323-330 | `n` members read back under a count of `n` |
| UbjsonRoundTrip.OptimizedMembersRoundTrip | src/main/java/xjs/serialization/writer/UbjsonWriter.java:340-349 | keys with bare payloads read back under a type and a count |
| UbjsonRoundTrip.MarkedValue | src/main/java/xjs/compat/serialization/parser/UbjsonParser.java:191-193 | `readValue()` is `readValue(read())` |
| UbjsonDecodingRules.LiteralsReadNoPayload | src/main/java/xjs/compat/serialization/parser/UbjsonParser.java:197-199 | 'Z', 'T' and 'F' give null, true and false and consume nothing more |
| UbjsonDecodingRules.IntegerPayloads | src/main/java/xjs/compat/serialization/parser/UbjsonParser.java:200-205 | 'C' and 'i' read one signed byte; 'U' reads one unsigned byte; 'I', 'l' and 'L' read 2, 4 and 8 big-endian two's-complement bytes; fewer bytes are end of input |
| UbjsonDecodingRules.IntegerRanges | src/main/java/xjs/compat/serialization/parser/UbjsonParser.java:46-81 | the range each integer marker can produce |
| UbjsonDecodingRules.UnknownMarkerRefused | src/main/java/xjs/compat/serialization/parser/UbjsonParser.java:212 | any byte that starts no value is refused as an unrecognized marker, naming that byte |
| UbjsonDecodingRules.LengthNeedsIntMarker | src/main/java/xjs/compat/serialization/parser/UbjsonParser.java:53 | a string length, a key length or a container count with a non-integer marker is "Not an integer" |
| UbjsonDecodingRules.ArrayTypeNeedsSize | src/main/java/xjs/compat/serialization/parser/UbjsonParser.java:139-143 | '[' '$' type followed by anything but '#' is "Missing size marker" |
| UbjsonDecodingRules.ArrayOptimizedFraming | src/main/java/xjs/compat/serialization/parser/UbjsonParser.java:139-144 | '[' '$' T '#' n reads n payloads of type T; a failing count passes its error on; a negative count is refused |
| UbjsonDecodingRules.ArraySizedFraming | src/main/java/xjs/compat/serialization/parser/UbjsonParser.java:145-146 | '[' '#' n reads n marked values |
| UbjsonDecodingRules.ArrayGenericFraming | src/main/java/xjs/compat/serialization/parser/UbjsonParser.java:148 | any other byte after '[' is reused as the first element's marker |
| UbjsonDecodingRules.ObjectTypeNeedsSize | src/main/java/xjs/compat/serialization/parser/UbjsonParser.java:179-183 | '{' '$' type followed by anything but '#' is "Missing size marker" |
| UbjsonDecodingRules.ObjectOptimizedFraming | src/main/java/xjs/compat/serialization/parser/UbjsonParser.java:179-184 | '{' '$' T '#' n reads n keys with payloads of type T; a negative count reads no member |
| UbjsonDecodingRules.ObjectSizedFraming | src/main/java/xjs/compat/serialization/parser/UbjsonParser.java:185-186 | '{' '#' n reads n keys with marked values; a negative count reads no member |
| UbjsonDecodingRules.ObjectGenericFraming | src/main/java/xjs/compat/serialization/parser/UbjsonParser.java:188 | any other byte after '{' is reused as the first key's length marker |
| UbjsonDecodingRules.GenericKeyNeedsIntMarker | src/main/java/xjs/compat/serialization/parser/UbjsonParser.java:168-175 | in a generic object, a first byte that is not an integer marker (and not '}') is "Not an integer" |
| UbjsonDecodingRules.ClosersEndGeneric | src/main/java/xjs/compat/serialization/parser/UbjsonParser.java:128-135 | '[' ']' and '{' '}' read as empty containers |
| UbjsonTruncation.ValueExtends | src/main/java/xjs/compat/serialization/parser/UbjsonParser.java:34-40 | (corrected, see Findings row 2) appending bytes to the input keeps every value read and every error other than end of input |
| UbjsonTruncation.ArrayExtends | src/main/java/xjs/compat/serialization/parser/UbjsonParser.java:137-149 | the same for an array's framing |
| UbjsonTruncation.ObjectExtends | src/main/java/xjs/compat/serialization/parser/UbjsonParser.java:177-189 | the same for an object's framing |
| UbjsonTruncation.StringOfExtends | src/main/java/xjs/compat/serialization/parser/UbjsonParser.java:95-110 | (corrected, see Findings row 2) the same for a string |
| UbjsonTruncation.TruncatedEncodingFails | src/main/java/xjs/compat/serialization/parser/UbjsonParser.java:101-105 | (corrected, see Findings row 2) every strict prefix of an encoding fails with end of input, never with a partial value |
| UbjsonFraming.EmptyContainers | src/main/java/xjs/serialization/writer/UbjsonWriter.java:173-175 | an empty array or object is its opener and closer, in every mode |
| UbjsonFraming.ArrayFramingByMode | src/main/java/xjs/serialization/writer/UbjsonWriter.java:176-186 | for a non-empty array: '$' exactly when a mode other than WEAK finds a shared type; '#' exactly under STRONG or BALANCED without one; generic framing exactly under WEAK, or COMPRESSED without one |
| UbjsonFraming.ObjectFramingByMode | src/main/java/xjs/serialization/writer/UbjsonWriter.java:306-321 | the same rule for a non-empty object, whose generic framing starts with the first key's length marker |
| UbjsonFraming.SharedTypeRule | src/main/java/xjs/serialization/writer/UbjsonWriter.java:240-255 | a shared type exists exactly when all elements are integers, or all share one marker that carries a payload; for integers it is the narrowest type covering min and max |
| UbjsonFraming.SharedTypeOfInts | src/main/java/xjs/serialization/writer/UbjsonWriter.java:240-268 | with an integer first, the shared type exists exactly when all elements are integers |
| UbjsonFraming.SharedTypeOfOthers | src/main/java/xjs/serialization/writer/UbjsonWriter.java:240-255 | with anything else first, the shared type exists exactly when every element has the first one's payload-carrying marker |
| UbjsonFraming.NumberTypeNarrowest | src/main/java/xjs/serialization/writer/UbjsonWriter.java:270-287 | no integer type covering both bounds is narrower than the one chosen |
| UbjsonFraming.NoCompressionCases | src/main/java/xjs/serialization/writer/UbjsonWriter.java:215-227 | no compression exactly when: there are fewer elements than the mode's minimum; or there is no shared type; or, outside STRONG, the type is one byte and there are fewer than five elements |
| UbjsonFraming.StrongAlwaysHints | src/main/java/xjs/serialization/writer/UbjsonWriter.java:216-225 | STRONG shares 'U' for the single byte [1]; the other modes share no type for [1] or [1,1] |
| UbjsonFraming.SeqMinMaxAttained | src/main/java/xjs/serialization/writer/UbjsonWriter.java:257-268 | the minimum and maximum of an integer container are elements of it |
| UbjsonFraming.BytesShareType | src/main/java/xjs/serialization/writer/UbjsonWriter.java:215-227 | five bytes or more, or one or more under STRONG, share the type 'U' |
| UbjsonFraming.ByteArrayOptimized | src/test/java/xjs/compat/serialization/writer/UbjsonWriterTest.java:78-87 | outside WEAK, a run of bytes is '[' '$' 'U' '#', the count, then the bytes themselves |
| UbjsonFraming.ByteArrayGeneric | src/test/java/xjs/compat/serialization/writer/UbjsonWriterTest.java:98-108 | under WEAK it is '[', each byte after 'U', then ']' |
| UbjsonFraming.OptimizedObjectShape | src/main/java/xjs/serialization/writer/UbjsonWriter.java:340-349 | an object with a shared type is '{' '$' type '#', the count, then each length-prefixed key and bare payload |
| UbjsonFraming.ByteObjectOptimized | src/test/java/xjs/compat/serialization/writer/UbjsonWriterTest.java:151-166 | outside WEAK, byte members are '{' '$' 'U' '#', the count, then each key with its bare byte |
| UbjsonFraming.ByteObjectGeneric | src/test/java/xjs/compat/serialization/writer/UbjsonWriterTest.java:184-200 | under WEAK, byte members are '{', each key with its marked byte, then '}' |
| UbjsonFraming.CompressedArrayFixture | src/test/java/xjs/compat/serialization/writer/UbjsonWriterTest.java:78-87 | [1,2,3,4,5] under BALANCED gives the fixture's bytes |
| UbjsonFraming.GenericArrayFixture | src/test/java/xjs/compat/serialization/writer/UbjsonWriterTest.java:98-108 | [1,2,3,4,5] under WEAK gives the fixture's bytes |
| UbjsonFraming.NonUniformArrayFixture | src/test/java/xjs/compat/serialization/writer/UbjsonWriterTest.java:89-96 | [-1,1,128] under BALANCED shares 'I' and gives the fixture's bytes |
| UbjsonFraming.NestedBalancedFixture | src/test/java/xjs/compat/serialization/writer/UbjsonWriterTest.java:110-122 | [[1,2,3,4,5]] under BALANCED: a sized outer array around an optimized inner one |
| UbjsonFraming.NestedCompressedFixture | src/test/java/xjs/compat/serialization/writer/UbjsonWriterTest.java:124-137 | [[1,2,3,4,5]] under COMPRESSED: a generic outer array around an optimized inner one |
| UbjsonFraming.MultiTypeArrayFixture | src/test/java/xjs/compat/serialization/writer/UbjsonWriterTest.java:139-144 | [1,true,3] under BALANCED: sized framing with marked values |
| UbjsonFraming.SingleMemberSized | src/main/java/xjs/serialization/writer/UbjsonWriter.java:306-330 | a one-member object under BALANCED is too small to compress: '{', '#', the count 1, the key, then the marked value |
| UbjsonFraming.NestedObjectFixture | src/test/java/xjs/compat/serialization/writer/UbjsonWriterTest.java:168-182 | {"x": five byte members} under BALANCED: a sized outer object `{ # U 1` around an optimized inner one `{ $ U # U 5` and its bare payloads |
| UbjsonFindings.WrittenInt64Misread | src/main/java/xjs/serialization/writer/UbjsonWriter.java:92-95 | the writer as written turns 2^32 into 'l' and eight bytes, which read back as 1 with four bytes left over |
| UbjsonFindings.WrittenInt64NeverRoundTrips | src/main/java/xjs/serialization/writer/UbjsonWriter.java:92-95 | no integer outside the 32-bit range survives the writer as written |
| UbjsonFindings.ChunkedStringMisread | src/main/java/xjs/compat/serialization/parser/UbjsonParser.java:101-108 | with one byte per bulk read, a two-byte string that is fully present is refused as written, and read by the corrected loop |
| UbjsonFindings.StringReadsAgree | src/main/java/xjs/compat/serialization/parser/UbjsonParser.java:95-110 | the string read as written agrees with the corrected one wherever it succeeds, and whenever the string fits one bulk read |
| UbjsonFindings.CutStringAsWritten | src/main/java/xjs/compat/serialization/parser/UbjsonParser.java:95-110 | a string cut after the first of its two payload bytes is an out-of-bounds read as written, whatever the chunk size, while the corrected read, and so `DecodeValue` of 'S' 'U' 2 'a', reports end of input |
| UbjsonFindings.WrittenIntsAgree | src/main/java/xjs/serialization/writer/UbjsonWriter.java:92-120 | the writer as written and the corrected one give the same bytes exactly for the integers in the 32-bit range, and everywhere the same bytes after the marker |
| HjsonText.IsWhitespace | src/main/java/xjs/compat/serialization/token/HjsonTokenizer.java:238-240 | (definition) the lexers' `isWhitespace`: space, tab, carriage return, line feed |
| HjsonText.IsPunctuation | src/main/java/xjs/compat/serialization/token/HjsonTokenizer.java:242-244 | (definition) the lexers' `isPunctuation`: ',', braces and brackets |
| HjsonText.IsLegalKeyCharacter | src/main/java/xjs/compat/serialization/token/HjsonTokenizer.java:234-236 | (definition) `isLegalKeyCharacter`: not whitespace, not ':', not punctuation |
| HjsonText.IsPunctuationChar | src/main/java/xjs/compat/serialization/parser/HjsonParser.java:256-258 | (definition) the parser's `isPunctuationChar`: braces, brackets, ',' and ':' |
| HjsonText.IsValidFirstChar | src/main/java/xjs/compat/serialization/writer/HjsonWriter.java:132-134 | (definition) the writer's `isValidFirstChar`: not a brace, bracket, ',' or ':' |
| HjsonText.IsJavaWhitespace | src/main/java/xjs/compat/serialization/writer/HjsonWriter.java:77 | (definition) `Character.isWhitespace` as `getKeyType` uses it: the ASCII controls tab to carriage return, the four separators, the space, and the Unicode spaces other than the non-breaking ones |
| HjsonText.LegalKeyCharacters | src/main/java/xjs/compat/serialization/token/HjsonTokenizer.java:234-244 | a key character is exactly one that is neither whitespace nor a punctuation character (':' among them); a valid first character of a bare string is any non-punctuation character |
| LineReading.SkipLineWhitespace | src/main/java/xjs/serialization/token/HjsonTokenizer.java:147-154 | the first position, at or after the start, that is not line whitespace |
| LineReading.NextLineBreak | src/main/java/xjs/serialization/token/HjsonTokenizer.java:156-165 | the next line feed, or the end of the text |
| LineReading.LineContentEnd | src/main/java/xjs/serialization/token/HjsonTokenizer.java:156-165 | the end of the line's content: at most the line feed, only line whitespace after it, and a non-whitespace character before it unless nothing was captured |
| LineReading.LastLine | src/main/java/xjs/compat/serialization/token/HjsonTokenizer.java:203-207 | on a line with no line feed after it the reader runs to the end of the text, and captures all of it when the text does not end in line whitespace |
| StringContexts.Pushed | src/main/java/xjs/compat/serialization/util/StringContext.java:36-39 | (definition) `push(isArray)`: one level deeper, recording the kind; a key expected exactly in an object |
| StringContexts.Popped | src/main/java/xjs/compat/serialization/util/StringContext.java:43-50 | (definition) `pop()`: at depth 0 a key is expected; else one level up, a key expected exactly when the parent is an object |
| StringContexts.Prepared | src/main/java/xjs/compat/serialization/util/StringContext.java:15-22 | (definition) `prepare(c)`: '{' and '[' push, '}' and ']' pop, ':' clears the key flag |
| StringContexts.Updated | src/main/java/xjs/compat/serialization/util/StringContext.java:24-34 | (definition) `update(t)`: a significant token ends the top; a non-symbol one inside an object makes a key expected; no token and metadata change nothing |
| StringContexts.InitialIsAmbiguous | src/main/java/xjs/compat/serialization/util/StringContext.java:10-13 | a fresh context is at the top, expects no key and is at depth 0, so the first token is ambiguous |
| StringContexts.PrepareEffects | src/main/java/xjs/compat/serialization/util/StringContext.java:15-22 | '{' pushes an object and expects a key; '[' pushes an array and expects none; a closer pops; ':' clears key expectation; any other character changes nothing |
| StringContexts.LevelSteps | src/main/java/xjs/compat/serialization/util/StringContext.java:36-50 | the depth moves by exactly one on a bracket, except a closer at depth 0, and never otherwise |
| StringContexts.PopUndoesPush | src/main/java/xjs/compat/serialization/util/StringContext.java:36-50 | a pop after a push restores the depth and the recorded kinds, and expects a key exactly when the parent is not an array |
| StringContexts.UpdateEffects | src/main/java/xjs/compat/serialization/util/StringContext.java:24-34 | no token or a metadata token changes nothing; any other token ends the top; a non-symbol outside an array makes a key expected |
| StringContexts.LevelTracksNesting | src/main/java/xjs/compat/serialization/util/StringContext.java:36-50 | unless a closer comes at depth 0, the depth is the starting depth plus openers minus closers |
| StringContexts.StringContext.constructor | src/main/java/xjs/compat/serialization/util/StringContext.java:10-13 | a new context is `Initial` |
| StringContexts.StringContext.Prepare | src/main/java/xjs/compat/serialization/util/StringContext.java:15-22 | `prepare(c)` updates the fields as `Prepared` |
| StringContexts.StringContext.Update | src/main/java/xjs/compat/serialization/util/StringContext.java:24-34 | `update(parsed)` updates the fields as `Updated` |
| StringContexts.StringContext.Push | src/main/java/xjs/compat/serialization/util/StringContext.java:36-39 | `push` updates the fields as `Pushed` |
| StringContexts.StringContext.Pop | src/main/java/xjs/compat/serialization/util/StringContext.java:43-50 | `pop` updates the fields as `Popped` |
| StringContexts.StringContext.IsExpectingKey | src/main/java/xjs/compat/serialization/util/StringContext.java:52-54 | reports whether a key is expected |
| StringContexts.StringContext.IsAmbiguous | src/main/java/xjs/compat/serialization/util/StringContext.java:56-58 | reports whether the lexer is still at the top |
| CompatHjsonTokenizer.IsOctalFormat | src/main/java/xjs/compat/serialization/token/HjsonTokenizer.java:230-232 | (definition) `isOctalFormat`: longer than one character, a leading '0' and a digit after it |
| CompatHjsonTokenizer.IsNumberLiteral | src/main/java/xjs/compat/serialization/token/HjsonTokenizer.java:220-224 | (definition) what `Double.parseDouble` accepts after trimming the characters at or below ' ' from both ends: a sign, then `NaN`, `Infinity` or a decimal with an optional suffix |
| CompatHjsonTokenizer.AsKwOrNum | src/main/java/xjs/compat/serialization/token/HjsonTokenizer.java:210-228 | (definition) `asKwOrNum`: a word for `true`, `false` and `null`; nothing for the octal form; a number for a literal `Double.parseDouble` accepts; else nothing |
| CompatHjsonTokenizer.CanBeEndOfKwOrNum | src/main/java/xjs/compat/serialization/token/HjsonTokenizer.java:246-255 | (definition) `canBeEndOfKwOrNum`: a line feed, ',', '}', ']', '#', or a '/' before '/' or '*' |
| CompatHjsonTokenizer.KeyScan | src/main/java/xjs/compat/serialization/token/HjsonTokenizer.java:120-131 | (definition) `key()`: a word over the run of legal key characters |
| CompatHjsonTokenizer.KwOrRestOfLine | src/main/java/xjs/compat/serialization/token/HjsonTokenizer.java:159-171 | (definition) the shared tail of both scanners: a keyword or number alone at a boundary, else the prefix and the rest of the line as one implicit string |
| CompatHjsonTokenizer.AmbiguousFrom | src/main/java/xjs/compat/serialization/token/HjsonTokenizer.java:139-175 | (definition) the loop of `ambiguous()`: at the end of the text a keyword, number or implicit string; at ':' an implicit string; after whitespace a ':' or line feed keeps the word a key; at a boundary a keyword or number, else the rest of the line |
| CompatHjsonTokenizer.UnquotedFrom | src/main/java/xjs/compat/serialization/token/HjsonTokenizer.java:177-208 | (definition) the loop of `unquoted()`: the same cases without the key checks |
| CompatHjsonTokenizer.WordScan | src/main/java/xjs/compat/serialization/token/HjsonTokenizer.java:110-118 | (definition) `word()`: a key when one is expected, the ambiguous scanner at the top, else an unquoted value |
| CompatHjsonTokenizer.SingleStep | src/main/java/xjs/compat/serialization/token/HjsonTokenizer.java:67-93 | (definition) `single()`: skip line whitespace, prepare the context, dispatch on comments, quotes, line feeds, punctuation and ':', and words, then update the context; at `External` the token and its update are left to the base readers |
| CompatHjsonTokenizer.DigitsEnd | src/main/java/xjs/compat/serialization/token/HjsonTokenizer.java:230-232 | the end of a maximal run of digits |
| CompatHjsonTokenizer.KeyEnd | src/main/java/xjs/compat/serialization/token/HjsonTokenizer.java:120-131 | `key` stops at the first character that is not a legal key character |
| CompatHjsonTokenizer.AsKwOrNumExact | src/main/java/xjs/compat/serialization/token/HjsonTokenizer.java:210-232 | a word exactly for "true", "false" and "null"; a number exactly for a non-octal numeric literal; nothing otherwise; the token spans the text |
| CompatHjsonTokenizer.LeadingZeroIsString | src/test/java/xjs/compat/serialization/token/HjsonTokenizerTest.java:131-137 | "01234" is not a number |
| CompatHjsonTokenizer.ZeroesAreNumbers | src/test/java/xjs/compat/serialization/token/HjsonTokenizerTest.java:139-161 | "0.1234", "0" and "0." are numbers |
| CompatHjsonTokenizer.DanglingExponentIsString | src/test/java/xjs/compat/serialization/token/HjsonTokenizerTest.java:123-129 | "1234e+" is not a number |
| CompatHjsonTokenizer.ExponentIsNumber | src/test/java/xjs/compat/serialization/token/HjsonTokenizerTest.java:115-121 | "1.5e+6", of the form of the test's "1234.5e+6", is one number token spanning all of it |
| CompatHjsonTokenizer.ScannedShape | src/main/java/xjs/compat/serialization/token/HjsonTokenizer.java:139-208 | both scanners return a keyword, a non-octal number or an implicit string whose text is what it spans |
| CompatHjsonTokenizer.KwOrRestOfLineShape | src/main/java/xjs/compat/serialization/token/HjsonTokenizer.java:159-171 | the end-of-value decision returns the same token kinds |
| CompatHjsonTokenizer.ScannersSkipPlain | src/main/java/xjs/compat/serialization/token/HjsonTokenizer.java:139-208 | over characters that stop nothing, both scanners only read on |
| CompatHjsonTokenizer.AmbiguousKey | src/main/java/xjs/compat/serialization/token/HjsonTokenizer.java:149-157 | in ambiguous mode, a ':' (directly, or after line whitespace) or a line feed after line whitespace ends an implicit string holding just the word |
| CompatHjsonTokenizer.AtBoundary | src/main/java/xjs/compat/serialization/token/HjsonTokenizer.java:159-171 | at a boundary, a keyword or number stands alone; any other word takes the rest of the line; both scanners agree |
| CompatHjsonTokenizer.AfterWhitespace | src/main/java/xjs/compat/serialization/token/HjsonTokenizer.java:186-199 | after line whitespace, the decision is taken at the next significant character |
| CompatHjsonTokenizer.AtEnd | src/main/java/xjs/compat/serialization/token/HjsonTokenizer.java:143-148 | a word that reaches the end of the text is a keyword or number if it is one, else an implicit string of the whole span |
| CompatHjsonTokenizer.SingleDispatch | src/main/java/xjs/compat/serialization/token/HjsonTokenizer.java:68-93 | `single` dispatches after line whitespace: nothing at the end; punctuation and ':' give one-character symbols; a '/' opening no comment is a word; a word is read as a key when one is expected, else as ambiguous at the top, else as unquoted |
| CompatHjsonTokenizer.SingleAdvances | src/main/java/xjs/compat/serialization/token/HjsonTokenizer.java:68-93 | every token moves the reader past its start, so lexing ends |
| CompatHjsonTokenizer.WordAdvances | src/main/java/xjs/compat/serialization/token/HjsonTokenizer.java:111-118 | a word scan at a word character reads at least that character |
| CompatHjsonTokenizer.KeepsAtLeastOne | src/main/java/xjs/compat/serialization/token/HjsonTokenizer.java:139-208 | from a plain first character both scanners end past it |
| CompatHjsonTokenizer.PastStart | src/main/java/xjs/compat/serialization/token/HjsonTokenizer.java:139-208 | once a character is read, the scan ends at or after it |
| CompatHjsonTokenizer.KeywordBeforeComma | src/test/java/xjs/compat/serialization/token/HjsonTokenizerTest.java:187-193 | "true, hjson is sometimes bad" starts with the word "true" at 0..4 |
| CompatHjsonTokenizer.NumberBeforeColon | src/test/java/xjs/compat/serialization/token/HjsonTokenizerTest.java:203-209 | "1: true" starts with the implicit string "1" at 0..1 |
| CompatHjsonTokenizer.NumberBeforeComment | src/test/java/xjs/compat/serialization/token/HjsonTokenizerTest.java:233-240 | "12.34 // comment" starts with the number 12.34 |
| CompatHjsonTokenizer.NumberWithMoreText | src/test/java/xjs/compat/serialization/token/HjsonTokenizerTest.java:242-248 | "12 ab", a number with more words on its line like the test's "123e4 more text", folds into one implicit string of the whole line |
| CompatHjsonTokenizer.KeyValueExample | src/test/java/xjs/compat/serialization/token/HjsonTokenizerTest.java:250-261 | "key: true" lexes as the implicit string "key", ':' and the word "true" |
| CompatHjsonTokenizer.HjsonTokenizer.constructor | src/main/java/xjs/compat/serialization/token/HjsonTokenizer.java:32-54 | a new lexer is at position 0 with a fresh context |
| CompatHjsonTokenizer.HjsonTokenizer.Key | src/main/java/xjs/compat/serialization/token/HjsonTokenizer.java:120-131 | the loop reads a word over the run of key characters, as `KeyScan` |
| CompatHjsonTokenizer.HjsonTokenizer.KwOrRest | src/main/java/xjs/compat/serialization/token/HjsonTokenizer.java:159-171 | a keyword or number alone, or the rest of the line, as `KwOrRestOfLine` |
| CompatHjsonTokenizer.HjsonTokenizer.Ambiguous | src/main/java/xjs/compat/serialization/token/HjsonTokenizer.java:139-175 | the `ambiguous` loop, as `AmbiguousFrom` |
| CompatHjsonTokenizer.HjsonTokenizer.Unquoted | src/main/java/xjs/compat/serialization/token/HjsonTokenizer.java:177-208 | the `unquoted` loop, as `UnquotedFrom` |
| CompatHjsonTokenizer.HjsonTokenizer.Word | src/main/java/xjs/compat/serialization/token/HjsonTokenizer.java:111-118 | key, ambiguous or unquoted, chosen by the context |
| CompatHjsonTokenizer.HjsonTokenizer.Single | src/main/java/xjs/compat/serialization/token/HjsonTokenizer.java:68-93 | the next token, the new position and the updated context, as `SingleStep` |
| CompatHjsonTokenizer.TrimStart | src/main/java/xjs/compat/serialization/token/HjsonTokenizer.java:221 | the front half of the `String.trim` inside `Double.parseDouble`: a suffix of the text that is empty or starts above ' ', with only characters at or below ' ' dropped |
| CompatHjsonTokenizer.TrimEnd | src/main/java/xjs/compat/serialization/token/HjsonTokenizer.java:221 | the back half of that trim: a prefix of the text that is empty or ends above ' ', with only characters at or below ' ' dropped |
| CompatHjsonTokenizer.Untrimmed | src/main/java/xjs/compat/serialization/token/HjsonTokenizer.java:221 | a text with no character at or below ' ' at either end is unchanged by the trim |
| CompatHjsonTokenizer.DecimalIsNumber | src/main/java/xjs/compat/serialization/token/HjsonTokenizer.java:216-224 | an unsigned decimal with no type suffix and nothing to trim is a number token spanning its text, unless it has the octal form |
| CompatHjsonTokenizer.ControlCharacterTrimmed | src/main/java/xjs/compat/serialization/token/HjsonTokenizer.java:203-224 | "1" and U+0001 at the end of the text: the scanners do not stop at U+0001, but `Double.parseDouble` trims it, so both scanners return a number spanning both characters |
| LegacyHjsonTokenizer.PushState | src/main/java/xjs/serialization/token/HjsonTokenizer.java:78-82 | (definition) `push(array)`: one level deeper, recording the kind, both flags set to it |
| LegacyHjsonTokenizer.PopState | src/main/java/xjs/serialization/token/HjsonTokenizer.java:84-92 | (definition) `pop()`: at depth 0 only `expectingValue` cleared; else one level up, both flags the parent's kind |
| LegacyHjsonTokenizer.ContextAfter | src/main/java/xjs/serialization/token/HjsonTokenizer.java:60-76 | (definition) `updateContext(t)`: '{' and '[' push, '}' and ']' pop, ':' sets `colonRead`, a non-symbol clears it; the top ends |
| LegacyHjsonTokenizer.ReadsKey | src/main/java/xjs/serialization/token/HjsonTokenizer.java:107-109 | (definition) `isReadingKey()`: no value expected and no colon just read |
| LegacyHjsonTokenizer.UnquotedAt | src/main/java/xjs/serialization/token/HjsonTokenizer.java:156-165 | (definition) `unquoted(i)`: punctuation as a one-character symbol, else a word to the end of the line's content |
| LegacyHjsonTokenizer.FirstOpenKey | src/main/java/xjs/serialization/token/HjsonTokenizer.java:147-154 | (definition) `checkFirstOpenKey(i)`: a ':' or line feed after line whitespace keeps the key, else the line is re-read as unquoted |
| LegacyHjsonTokenizer.KeyAt | src/main/java/xjs/serialization/token/HjsonTokenizer.java:111-133 | (definition) `key(i)`: a first character other than '_', a letter or a digit is a symbol; else the run of key characters, checked as an open-root key at the top |
| LegacyHjsonTokenizer.WordAt | src/main/java/xjs/serialization/token/HjsonTokenizer.java:95-105 | (definition) `word(i)`: a key when reading one, else punctuation as a symbol, else an unquoted value |
| LegacyHjsonTokenizer.LegacyStep | src/main/java/xjs/serialization/token/HjsonTokenizer.java:53-58 | (definition) `single()`: the base lexer's token, then `updateContext` with it |
| LegacyHjsonTokenizer.OpenerEffects | src/main/java/xjs/serialization/token/HjsonTokenizer.java:60-82 | '{' records an object one level deeper and clears both flags; '[' records an array and sets both |
| LegacyHjsonTokenizer.CloserAtZero | src/main/java/xjs/serialization/token/HjsonTokenizer.java:84-88 | a closer at depth 0 only clears `expectingValue` |
| LegacyHjsonTokenizer.CloserAbove | src/main/java/xjs/serialization/token/HjsonTokenizer.java:89-91 | a closer above depth 0 goes up one level and sets both flags to the parent's kind |
| LegacyHjsonTokenizer.FlagEffects | src/main/java/xjs/serialization/token/HjsonTokenizer.java:68-75 | ':' sets `colonRead`; a non-symbol clears it; every token ends the top |
| LegacyHjsonTokenizer.PopAfterPush | src/main/java/xjs/serialization/token/HjsonTokenizer.java:78-92 | a pop after a push returns to the depth, with both flags that depth's kind |
| LegacyHjsonTokenizer.KeysOnlyInObjects | src/main/java/xjs/serialization/token/HjsonTokenizer.java:60-109 | whatever tokens come: inside an array no key is read; inside an object a key is read exactly when no ':' came since the last value |
| LegacyHjsonTokenizer.WordShape | src/main/java/xjs/serialization/token/HjsonTokenizer.java:95-105 | a word scan yields a symbol or a word that starts at the scan and lies in the text |
| LegacyHjsonTokenizer.KeyShape | src/main/java/xjs/serialization/token/HjsonTokenizer.java:111-133 | the same for `key` |
| LegacyHjsonTokenizer.UnquotedShape | src/main/java/xjs/serialization/token/HjsonTokenizer.java:156-165 | the same for `unquoted` |
| LegacyHjsonTokenizer.StepAdvances | src/main/java/xjs/serialization/token/HjsonTokenizer.java:54-58 | every token lies in the text and moves the reader on |
| LegacyHjsonTokenizer.KeyColonValue | src/main/java/xjs/serialization/token/HjsonTokenizer.java:147-154 | "a: b" lexes as the word "a", ':' and the word "b" |
| LegacyHjsonTokenizer.OpenWordTakesLine | src/main/java/xjs/serialization/token/HjsonTokenizer.java:147-165 | at the top, "ab cd" (a key with no ':' after it) is re-read as one word over the whole line |
| LegacyHjsonTokenizer.PunctuationAfterOpenWord | src/main/java/xjs/serialization/token/HjsonTokenizer.java:156-165 | at the top, "ab," yields the symbol ',' placed at 0..1 |
| LegacyHjsonTokenizer.LegacyTokenizer.constructor | src/main/java/xjs/serialization/token/HjsonTokenizer.java:31-51 | a new lexer is at position 0 in `LegacyInitial` |
| LegacyHjsonTokenizer.LegacyTokenizer.UpdateContext | src/main/java/xjs/serialization/token/HjsonTokenizer.java:60-76 | `updateContext` updates the fields as `ContextAfter` |
| LegacyHjsonTokenizer.LegacyTokenizer.Push | src/main/java/xjs/serialization/token/HjsonTokenizer.java:78-82 | `push` updates the fields as `PushState` |
| LegacyHjsonTokenizer.LegacyTokenizer.Pop | src/main/java/xjs/serialization/token/HjsonTokenizer.java:84-92 | `pop` updates the fields as `PopState` |
| LegacyHjsonTokenizer.LegacyTokenizer.IsReadingKey | src/main/java/xjs/serialization/token/HjsonTokenizer.java:107-109 | true exactly when neither flag is set |
| LegacyHjsonTokenizer.LegacyTokenizer.Unquoted | src/main/java/xjs/serialization/token/HjsonTokenizer.java:156-165 | punctuation as a symbol, else a word to the end of the line's content |
| LegacyHjsonTokenizer.LegacyTokenizer.CheckFirstOpenKey | src/main/java/xjs/serialization/token/HjsonTokenizer.java:147-154 | a key followed by ':' or a line feed keeps its span; anything else re-reads the line as unquoted |
| LegacyHjsonTokenizer.LegacyTokenizer.Key | src/main/java/xjs/serialization/token/HjsonTokenizer.java:111-133 | the do-while loop, as `KeyAt` |
| LegacyHjsonTokenizer.LegacyTokenizer.Word | src/main/java/xjs/serialization/token/HjsonTokenizer.java:95-105 | key, symbol or unquoted, chosen by the context |
| LegacyHjsonTokenizer.LegacyTokenizer.Single | src/main/java/xjs/serialization/token/HjsonTokenizer.java:54-58 | the next token and the updated context, as `LegacyStep` |
| CompatHjsonParser.PeekWhitespace | src/main/java/xjs/compat/serialization/parser/HjsonParser.java:71-85 | (definition) `peekWhitespace()`: the first token after the current one that is neither a line break nor a comment, or nothing |
| CompatHjsonParser.IsOpenRoot | src/main/java/xjs/compat/serialization/parser/HjsonParser.java:57-69 | (definition) `isOpenRoot()`: the token is no symbol, the next significant token is ':', and its text matches `\S+` |
| CompatHjsonParser.Literal | src/main/java/xjs/compat/serialization/parser/HjsonParser.java:228-234 | (definition) a bare word's value: `true`, `false`, `null`, or a string of its text |
| CompatHjsonParser.Bottom | src/main/java/xjs/compat/serialization/parser/HjsonParser.java:87-106 | (definition) `readBottom()` after either root: success only when nothing but whitespace follows |
| CompatHjsonParser.Parse | src/main/java/xjs/compat/serialization/parser/HjsonParser.java:44-55 | (definition) `parse()`: no significant token gives an empty object; an open root is read as members without braces; any other root as one value; then the bottom |
| CompatHjsonParser.SkipWhitespace | src/main/java/xjs/compat/serialization/parser/HjsonParser.java:91 | skips exactly the line breaks and comments |
| CompatHjsonParser.SkipComments | src/main/java/xjs/compat/serialization/parser/HjsonParser.java:196 | skips exactly the comments |
| CompatHjsonParser.ReadKey | src/main/java/xjs/compat/serialization/parser/HjsonParser.java:147-168 | a key read consumes exactly one token |
| CompatHjsonParser.ReadBetween | src/main/java/xjs/compat/serialization/parser/HjsonParser.java:137 | a successful read moves past at least the symbol |
| CompatHjsonParser.Close | src/main/java/xjs/compat/serialization/parser/HjsonParser.java:130 | a closer, when the container has one, is exactly one token |
| CompatHjsonParser.ReadObject | src/main/java/xjs/compat/serialization/parser/HjsonParser.java:119-131 | a successful object read consumes at least its '{' |
| CompatHjsonParser.ReadNextMember | src/main/java/xjs/compat/serialization/parser/HjsonParser.java:133-145 | a successful member read consumes at least its key |
| CompatHjsonParser.ReadArray | src/main/java/xjs/compat/serialization/parser/HjsonParser.java:170-182 | a successful array read consumes at least its '[' |
| CompatHjsonParser.ReadNextElement | src/main/java/xjs/compat/serialization/parser/HjsonParser.java:184-193 | a successful element read consumes at least a token |
| CompatHjsonParser.ReadUnquoted | src/main/java/xjs/compat/serialization/parser/HjsonParser.java:213-235 | an unquoted value ends on a token at or after its first |
| CompatHjsonParser.ReadDelimiter | src/main/java/xjs/compat/serialization/parser/HjsonParser.java:195-211 | the reader never moves back |
| CompatHjsonParser.RunEnd | src/main/java/xjs/compat/serialization/parser/HjsonParser.java:249 | the first token that ends a run: a line break, a comment, ',', '}' or ']' |
| CompatHjsonParser.CheckAfterUnquoted | src/main/java/xjs/compat/serialization/parser/HjsonParser.java:237-254 | a re-read run ends past the number |
| CompatHjsonParser.ReadValue | src/main/java/xjs/compat/serialization/parser/HjsonParser.java:108-117 | a value read consumes at least one token |
| CompatHjsonParser.ReadMembers | src/main/java/xjs/compat/serialization/parser/HjsonParser.java:119-131 | the member loop never moves back |
| CompatHjsonParser.ReadElements | src/main/java/xjs/compat/serialization/parser/HjsonParser.java:170-182 | the element loop consumes at least the closer |
| HjsonParsing.HjsonParser.constructor | src/main/java/xjs/compat/serialization/parser/HjsonParser.java:44-55 | a new parser is on the first token |
| HjsonParsing.HjsonParser.ReadWhitespace | src/main/java/xjs/compat/serialization/parser/HjsonParser.java:91 | moves past line breaks and comments |
| HjsonParsing.HjsonParser.ReadLineWhitespace | src/main/java/xjs/compat/serialization/parser/HjsonParser.java:196 | moves past comments |
| HjsonParsing.HjsonParser.PeekWhitespace | src/main/java/xjs/compat/serialization/parser/HjsonParser.java:71-85 | the `peekAmount` loop finds the next significant token without moving |
| HjsonParsing.HjsonParser.IsOpenRoot | src/main/java/xjs/compat/serialization/parser/HjsonParser.java:57-69 | true exactly when the token is not a symbol, the next significant token is ':' and the token's text holds no whitespace |
| HjsonParsing.HjsonParser.ReadKey | src/main/java/xjs/compat/serialization/parser/HjsonParser.java:147-168 | the key, or the key error, as `ReadKey` |
| HjsonParsing.HjsonParser.ReadBetween | src/main/java/xjs/compat/serialization/parser/HjsonParser.java:137 | whitespace, the symbol, whitespace |
| HjsonParsing.HjsonParser.ReadDelimiter | src/main/java/xjs/compat/serialization/parser/HjsonParser.java:195-211 | whether a delimiter was read, and where reading stopped |
| HjsonParsing.HjsonParser.CheckAfterUnquoted | src/main/java/xjs/compat/serialization/parser/HjsonParser.java:237-254 | the string of a number's run, or nothing without moving |
| HjsonParsing.HjsonParser.ReadUnquoted | src/main/java/xjs/compat/serialization/parser/HjsonParser.java:213-235 | the unquoted value, as `ReadUnquoted` |
| HjsonParsing.HjsonParser.Close | src/main/java/xjs/compat/serialization/parser/HjsonParser.java:130 | reads the closer, if the container has one |
| HjsonParsing.HjsonParser.ReadValue | src/main/java/xjs/compat/serialization/parser/HjsonParser.java:108-117 | an object, an array or an unquoted value |
| HjsonParsing.HjsonParser.ReadObject | src/main/java/xjs/compat/serialization/parser/HjsonParser.java:119-131 | '{', its members, then '}' |
| HjsonParsing.HjsonParser.ReadMembers | src/main/java/xjs/compat/serialization/parser/HjsonParser.java:124-130 | the do-while loop adds members while each is delimited and the container has not ended |
| HjsonParsing.HjsonParser.ReadNextMember | src/main/java/xjs/compat/serialization/parser/HjsonParser.java:133-145 | key, ':', value, and whether a delimiter follows |
| HjsonParsing.HjsonParser.ReadArray | src/main/java/xjs/compat/serialization/parser/HjsonParser.java:170-182 | '[', its elements, then ']' |
| HjsonParsing.HjsonParser.ReadElements | src/main/java/xjs/compat/serialization/parser/HjsonParser.java:175-181 | the do-while loop adds elements while each is delimited |
| HjsonParsing.HjsonParser.ReadNextElement | src/main/java/xjs/compat/serialization/parser/HjsonParser.java:184-193 | a value, and whether a delimiter follows |
| HjsonParsing.HjsonParser.ReadBottom | src/main/java/xjs/compat/serialization/parser/HjsonParser.java:96 | only line breaks and comments may follow the root |
| HjsonParsing.HjsonParser.ReadOpenRoot | src/main/java/xjs/compat/serialization/parser/HjsonParser.java:87-98 | members with no braces, then the end of the text |
| HjsonParsing.HjsonParser.ReadClosedRoot | src/main/java/xjs/compat/serialization/parser/HjsonParser.java:100-106 | one value, comments, then the end of the text |
| HjsonParsing.HjsonParser.Parse | src/main/java/xjs/compat/serialization/parser/HjsonParser.java:44-55 | the whole text, as `CompatHjsonParser.Parse` |
| HjsonParserProperties.AllMetadataSkipped | src/main/java/xjs/compat/serialization/parser/HjsonParser.java:91 | a run of line breaks and comments to the end is skipped whole |
| HjsonParserProperties.EmptyInputIsObject | src/main/java/xjs/compat/serialization/parser/HjsonParser.java:48-50 | a text of only line breaks and comments is an empty object |
| HjsonParserProperties.KeyRules | src/main/java/xjs/compat/serialization/parser/HjsonParser.java:147-168 | ':' is an empty key; other punctuation is refused by name; otherwise the key fails exactly when the next significant token is not a symbol; a string key is its parsed text |
| HjsonParserProperties.KeyBeforeWordFails | src/main/java/xjs/compat/serialization/parser/HjsonParser.java:162-165 | a key followed, past line breaks, by a bare token is whitespace in the key |
| HjsonParserProperties.DelimiterRule | src/main/java/xjs/compat/serialization/parser/HjsonParser.java:195-211 | a delimiter is read exactly when, past comments, a ',' or a line break comes next |
| HjsonParserProperties.UndelimitedElementFails | src/main/java/xjs/compat/serialization/parser/HjsonParser.java:175-181 | an undelimited element must be followed by ']' |
| HjsonParserProperties.SymbolIsNoValue | src/main/java/xjs/compat/serialization/parser/HjsonParser.java:222-226 | a symbol other than an opener, where a value belongs, is punctuation in the value |
| HjsonParserProperties.NumberThenText | src/main/java/xjs/compat/serialization/parser/HjsonParser.java:237-254 | a number directly followed by a token that is not a break, comment or symbol is read, with its run, as one string of the text spanned |
| HjsonParserProperties.NumberAlone | src/main/java/xjs/compat/serialization/parser/HjsonParser.java:214-219 | a number followed by a stop keeps its literal |
| HjsonParserProperties.WordLiterals | src/main/java/xjs/compat/serialization/parser/HjsonParser.java:228-234 | "true", "false" and "null" are exactly the literals; any other word is a string of its text |
| HjsonParserProperties.MembersInOrder | src/main/java/xjs/compat/serialization/parser/HjsonParser.java:133-145 | the member loop only appends, so members keep source order |
| HjsonParserProperties.ElementsInOrder | src/main/java/xjs/compat/serialization/parser/HjsonParser.java:184-193 | the element loop only appends |
| HjsonParserExamples.OpenRootParsed | src/main/java/xjs/compat/serialization/parser/HjsonParser.java:51-52 | an open root whose members reach the end parses as their object |
| HjsonParserExamples.TwoMembers | src/main/java/xjs/compat/serialization/parser/HjsonParser.java:90-95 | a delimited member followed by an undelimited one gives both, in order |
| HjsonParserExamples.EmptyText | src/test/java/xjs/compat/serialization/parser/HjsonParserTest.java:84-87 | "" parses as an empty object |
| HjsonParserExamples.OpenRoot | src/test/java/xjs/compat/serialization/parser/HjsonParserTest.java:45-49 | "a:1,b:2" parses as {a:1, b:2} |
| HjsonParserExamples.BreaksAroundColon | src/test/java/xjs/compat/serialization/parser/HjsonParserTest.java:63-67 | "k\n:\nv" parses as {k: v} |
| HjsonParserExamples.MembersOnLines | src/test/java/xjs/compat/serialization/parser/HjsonParserTest.java:89-93 | "k:v\nr:t" parses as {k: v, r: t} |
| HjsonParserExamples.CommaAsValue | src/test/java/xjs/compat/serialization/parser/HjsonParserTest.java:74-77 | "k:," fails with punctuation in the value |
| HjsonParserExamples.MissingValue | src/test/java/xjs/compat/serialization/parser/HjsonParserTest.java:57-61 | "k:" fails: the value is missing at the end |
| HjsonParserExamples.UndelimitedArrays | src/test/java/xjs/compat/serialization/parser/HjsonParserTest.java:51-55 | "[[][]]" fails, expecting ']' |
| HjsonParserExamples.CommasInArray | src/test/java/xjs/compat/serialization/parser/HjsonParserTest.java:69-72 | "[,,]" fails with punctuation in the value |
| HjsonParserExamples.KeyAcrossLines | src/test/java/xjs/compat/serialization/parser/HjsonParserTest.java:95-98 | "{k\nk:1}" fails with whitespace in the key |
| CompatHjsonWriter.OpenRootCondensed | src/main/java/xjs/compat/serialization/writer/HjsonWriter.java:154-165 | (definition) `isOpenRootCondensed`: at least two values, and one after the first on the same line as the value before it (no line break above it) |
| CompatHjsonWriter.Condensed | src/main/java/xjs/compat/serialization/writer/HjsonWriter.java:136-152 | (definition) `isCondensed`: always when not formatting; never for no container or without condensing; at the root the open-root rule; below it any value on the same line as the value before it |
| CompatHjsonWriter.CanBeImplicit | src/main/java/xjs/compat/serialization/writer/HjsonWriter.java:110-112 | (definition) `canBeImplicit`: non-empty, a valid first character, no line feed |
| CompatHjsonWriter.CheckImplicitString | src/main/java/xjs/compat/serialization/writer/HjsonWriter.java:114-121 | (definition) `checkImplicitString`: multi-line across lines; quoted before an end-of-line comment; else bare |
| CompatHjsonWriter.SelectStringType | src/main/java/xjs/compat/serialization/writer/HjsonWriter.java:123-130 | (definition) `selectStringType`: empty is single-quoted, across lines multi-line, else bare |
| CompatHjsonWriter.FirstQuote | src/main/java/xjs/compat/serialization/writer/HjsonWriter.java:69-75 | the index of the first quote character, with none before it, or none at all |
| CompatHjsonWriter.KeyType | src/main/java/xjs/compat/serialization/writer/HjsonWriter.java:65-80 | bare exactly for a non-empty key with no quote and no whitespace; double quotes exactly when a ' comes before any " |
| CompatHjsonWriter.GetKeyType | src/main/java/xjs/compat/serialization/writer/HjsonWriter.java:65-80 | the single pass with its `whitespaceFound` flag returns `KeyType` |
| CompatHjsonWriter.IsOpenRootCondensed | src/main/java/xjs/compat/serialization/writer/HjsonWriter.java:154-165 | two values or more, one after the first on the same line as the value before it (no line break above it) |
| CompatHjsonWriter.IsCondensed | src/main/java/xjs/compat/serialization/writer/HjsonWriter.java:137-152 | always when unformatted; never without a container or with condensing off; at the root by the open-root rule; below it when any value is on the same line as the value before it |
| CompatHjsonWriter.OpenRootIgnoresFirst | src/main/java/xjs/compat/serialization/writer/HjsonWriter.java:154-165 | the first value never decides whether an open root is condensed |
| CompatHjsonWriter.NestedCondensed | src/main/java/xjs/compat/serialization/writer/HjsonWriter.java:145-150 | below the root, one value on its predecessor's line condenses the container |
| CompatHjsonWriter.QuotesFor | src/main/java/xjs/compat/serialization/writer/HjsonWriter.java:96-97 | single quotes only for a string without ' |
| CompatHjsonWriter.StringTypeOf | src/main/java/xjs/compat/serialization/writer/HjsonWriter.java:92-108 | never NONE; MULTI preserved; bare never across lines; in a condensed container a bare or untyped string is quoted; a quoted string becomes bare exactly when quotes may be omitted and it can be bare |
| CompatHjsonWriter.ImplicitRule | src/main/java/xjs/compat/serialization/writer/HjsonWriter.java:114-121 | outside a condensed container, a bare string across lines becomes multi-line, before an end-of-line comment it is quoted, otherwise it stays bare |
| CompatHjsonWriter.UntypedRule | src/main/java/xjs/compat/serialization/writer/HjsonWriter.java:123-130 | an untyped string is quoted exactly when empty, multi-line exactly across lines, and bare otherwise |
| CompatHjsonWriter.UntypedBrace | src/main/java/xjs/compat/serialization/writer/HjsonWriter.java:102-107 | an untyped "{a" is written bare, though it could not be bare if it were quoted |
| CompatHjsonWriter.CondensedEmptyStrings | src/test/java/xjs/compat/serialization/writer/HjsonWriterTest.java:113-120 | empty bare strings in a condensed array are written in single quotes |

## Left out

- Floating point. `writeFloat`, the float branches of `getNumberType`, and `readFloat32`/`readFloat64` are not modelled. The reader fails with `FloatNotModelled` on 'd' and 'D', and the value tree has integers only.
- UTF-8. Strings are their encoded bytes, so `getBytes(UTF_8)` and `new String(bytes, UTF_8)` are identities here.
- Streams. `OutputStream` is the writer's `output` sequence. `InputStream` is the parser's `input` and `pos`. The `chunk` parameter bounds one bulk read. File constructors and `close()` are not modelled.
- `UbjsonReading.DecodeStringOf`, and with it `DecodeString`, `DecodeValue`, `UbjsonParser.ReadString`, `UbjsonParser.ReadValue` and the `UbjsonTruncation` lemmas, follow the corrected string read of Findings row 2, which asks for the bytes still missing. As written, a string cut inside its payload makes the second bulk read overrun its buffer, so `readString` raises `IndexOutOfBoundsException` rather than the end-of-input error. A later byte would have completed the string. `UbjsonFindings.CutStringAsWritten` states this case.
- Java's `(int)` cast of a count or length is modelled (`ToInt32`). The limits of `new byte[size]` and `new ArrayList<>(size)` other than negative sizes (memory) are not modelled.
- `UbjsonWriting` and `UbjsonRoundTrip.ValueRoundTrip`: lengths and counts must fit a Java `int` (`Encodable`). The writer does not check this; Java's sizes are `int`s anyway.
- `UbjsonWriting.UbjsonWriter.WriteInt` follows the corrected encoder of Findings row 1. For an integer outside the 32-bit range it writes the INT64 marker 'L' where the source's `writeInt64` writes 'l'; the eight payload bytes are the same. `UbjsonFindings.WrittenIntsAgree` states where the two agree.
- `UbjsonWriting.UbjsonWriter.WriteValue` and `UbjsonWriting.EncodeValue` follow the corrected encoder of Findings row 1. Each marked integer outside the 32-bit range in the tree differs from the source's output in its marker byte. Payloads inside optimized containers are unmarked, so they are the same.
- `UbjsonWriting.EncodeIntShape` states the corrected encoder of Findings row 1. Its INT64 case has the marker 'L', where the source writes 'l'.
- The writer's `writeInt8`/`writeUInt8`/`writeInt16`/`writeInt32`/`writeInt64` are folded into `WriteInt` and `WriteRawInt`. Their separate marker writes are the first byte of `EncodeInt`.
- `JsonValue.Values` and the object writers: an object is an ordered list of members. The reference wrappers and `visitAll()` of xjs-core are not part of this model.
- Comment, quoted-string and multi-line-string lexing are left out. So are `Tokenizer`, `PositionTrackingReader` and `CommentedTokenParser`, which are not part of this model. `single` returns `External(start)` where those readers take over. `CompatHjsonTokenizer.HjsonTokenizer.Single` stops at `External` with the context prepared but not updated: Java's `single()` calls `stringContext.update(t)` on the token those readers return, so a caller must apply `StringContexts.Updated` to that token.
- These primitives belong to base classes: the reader's `skipLineWhitespace`, `skipToNL` and `isWhitespace()`, and the parser's `readWhitespace`, `readLineWhitespace`, `readNl`, `readIf`, `open`, `close`, `readBetween`, `skipTo`, `readBottom`, `isEndOfContainer`, `read` and `peek`. Those base classes are not part of this model. The primitives get the semantics stated in `LineReading` and `CompatHjsonParser`. In particular `LineReading.LineContentEnd` assumes that `skipToNL` returns the index of the last character of the line's content and that `endCapture(int)` includes the character at that index. The compat `endCapture(skipToNL())` and the legacy `Math.min(last + 1, len)` both rest on that assumption.
- The earlier lexer's base `Tokenizer.single()` is not part of this model. `LegacyHjsonTokenizer.LegacyStep` assumes this dispatch:
  - skip line whitespace;
  - the end of the text gives nothing;
  - '#', quotes, `//` and `/*` go to the base readers;
  - a line feed is a break;
  - anything else is `word()`.
- `CompatHjsonTokenizer.AsKwOrNum` recognises numbers by what `Double.parseDouble` accepts. That is the text with the characters at or below ' ' trimmed from both ends, then a sign, digits, a fraction, an exponent, `NaN`, `Infinity` and a type suffix. Hexadecimal floating literals are left out. The numeric value itself is not computed: a number keeps its literal text.
- `HjsonText.IsDigit` and `HjsonText.IsLetterOrDigit` take the ASCII range of `Character.isDigit` and `Character.isLetterOrDigit`. Other Unicode letters and digits are not modelled.
- The Hjson parser works on the token sequence the lexer produced, with the text for `textOf`. `TokenStream` laziness and the root container token are left out.
- Formatting attachment is left out: `setAbove`, `setComment`, `takeFormatting`, `splitOpenHeader` and `readAfter`'s comment capture. `readAfter` is modelled as skipping comments.
- `HjsonWriter`'s text emission (`delimit`, `shouldSeparateOpener`, `shouldSeparateCloser`, and `writeString`'s calls to `writeQuoted`/`writeMulti`) is left out. It depends on `XjsWriter` state that is not part of this model. Containers are given to the rules as the number of line breaks above each value (`getLinesAbove()`), where 0 means on the same line as the value before it.
- `CompatHjsonWriter.StringTypeOf`: `getStringType` reads the end-of-line comment from the value's formatting. It is given as a flag on the string.
- `UbjsonFraming.ByteObjectOptimized`, `UbjsonFraming.ByteObjectGeneric` and `UbjsonFraming.NestedObjectFixture` state the object fixtures in general form (members with one-byte keys and byte values), not as the literal bytes of those tests.
- The reader fixtures of the parser's tests (src/test/java/xjs/compat/serialization/parser/UbjsonParserTest.java) follow from `UbjsonRoundTrip.DecodeEncode` applied to the writer fixtures. They are not restated byte by byte.
- Registry and wrapper classes, the Txt codec, the thin `xjs.serialization` wrappers and the performance tests are outside this model.
- `HjsonParserExamples.MissingValue`: "k:" is an error because `readValue` finds no token left. The model states this error, not the message text of the exception.

## Findings

| source | as written | input that shows it | evidently intended | confidence | as-written member | corrected member |
|---|---|---|---|---|---|---|
| src/main/java/xjs/serialization/writer/UbjsonWriter.java:92-95 | `writeInt64` writes the INT32 marker 'l' before an eight-byte payload | 2^32 (0x1_0000_0000) is written as 'l' 0 0 0 1 0 0 0 0, which reads back as the integer 1 with four bytes left over | the INT64 marker 'L' before the eight bytes, so every 64-bit integer round-trips | not executed | UbjsonFindings.WrittenInt64NeverRoundTrips | UbjsonRoundTrip.IntRoundTrip |
| src/main/java/xjs/compat/serialization/parser/UbjsonParser.java:101-108 | each bulk read in `readString` asks for `size` bytes at the current offset, not `bytesLeft` | the bytes 2 'a' 'b' after 'U', on a stream that delivers one byte per bulk read: the second read's offset plus length overruns the buffer, so the fully present string is refused; likewise on any in-memory stream, 'S' 'U' 2 'a' (a string cut after its first payload byte) raises `IndexOutOfBoundsException` instead of the end-of-input error | ask for the `bytesLeft` bytes still missing, so a string is read whatever the stream's chunk size | not executed | UbjsonFindings.ChunkedStringMisread | UbjsonReading.UbjsonParser.ReadStringOf |

The writer as written is `UbjsonWriting.EncodeIntAsWritten`, and `UbjsonFindings.WrittenInt64Misread` exhibits the input above. The corrected `UbjsonWriting.EncodeInt` is what the rest of the model uses.

The string read as written is `UbjsonReading.DecodeStringOfAsWritten`. The corrected `UbjsonReading.DecodeStringOf` specifies `ReadStringOf`, and `UbjsonFindings.StringReadsAgree` shows the two agree wherever the version as written succeeds. `UbjsonFindings.CutStringAsWritten` shows the cut string of the second input above.

`CompatHjsonWriter.UntypedBrace` records behaviour that is not claimed as a fault. An untyped string that starts with '{' is chosen bare, while a quoted one is kept quoted, because `selectStringType` does not check the first character.
