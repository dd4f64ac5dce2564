# libnbt++ value wrapper and stream reader, modelled in Dafny

libnbt++ reads and writes Minecraft's Named Binary Tag (NBT) format. This
project models two of its parts.

- **`nbt::value`**: a holder of at most one tag whose kind is fixed once
  held. It converts the held tag to the primitive C++ types `int8_t`,
  `int16_t`, `int32_t`, `int64_t`, `float`, `double` and `std::string`, and
  assigns from them. Both directions are allowed only under a widening
  conversion and otherwise throw `std::bad_cast`. The wrapper also gives
  checked (`at`) and creating (`operator[]`) access to a held compound,
  reports the held kind, and compares values for equality.
- **`nbt::io::stream_reader`**: the decoding primitives the tree decoder is
  built on. They read a tag kind (`read_type`), a fixed-width number in the
  reader's byte order (`read_num<T>`), and a length-prefixed string
  (`read_string`). Failures throw `input_error`.

Files (one module each):

- `wrappers.dfy` (`Wrappers`): `Option` and `Result`. An empty `value` is
  `None`. A thrown exception is `Failure(error)`.
- `fixed_width.dfy` (`FixedWidth`): the fixed-width C++ integer types as
  bounded newtypes, and `Bytes`, a `std::string` as a run of bytes.
- `tag_type.dfy` (`TagTypes`): the 13 tag kinds and their wire codes 0..12.
  It also defines the widening relation `Widens`: the numeric chain
  Byte < Short < Int < Long < Float < Double, and String to String.
- `tags.dfy` (`Tags`): the tag hierarchy as a closed sum type. Integers use
  exact-width newtypes, so a widening between integral types keeps the
  integer. Three accepted conversions round in C++: `int32_t` and `int64_t`
  to `float`, and `int64_t` to `double`. `TagTypes.IsExact` names the
  widenings that do not round.
- `value.dfy` (`ValueWrapper`): the `value` operations.
- `byte_order.dfy` (`ByteOrder`): reading bytes as a big- or little-endian
  unsigned number, and the inverse encodings.
- `stream_reader.dfy` (`StreamReader`): the reader. Its input is an immutable
  byte sequence with a cursor. Each read returns the value together with the
  advanced reader.

Modelling decisions:

- An empty value reports kind End.
- Every conversion, assignment or compound access on an empty value fails
  with `bad_cast`.
- Two values are equal only if both hold a tag and the tags are equal. The
  comparison recurses through compounds and lists. As a result, an empty value
  is not equal to itself, and neither is a compound holding an empty entry.
  `EqualIffIdenticalAndComplete` states this exactly.
- The header does not document how the operations behave on an empty
  value. The three decisions above are this model's choices for that case.
- The wire codes are End = 0 through LongArray = 12. Byte `0x0C` is
  therefore a valid code (LongArray), and `0x0D` is the first invalid one.

## Model

| member | source | states |
|---|---|---|
| ValueWrapper.GetType | include/value.h:105-106 | an empty value reports End and no other value does; a holding value reports its tag's kind |
| ValueWrapper.Empty | include/value.h:43 | the default-constructed value holds nothing and reports End |
| ValueWrapper.Hold | include/value.h:45-54 | constructing from a tag, or assigning a tag (by `tag&&`), makes the value hold exactly that tag, so `get_type` then reports the new tag's kind |
| ValueWrapper.FromPointer | include/value.h:44-53 | construction from, or assignment of, a `std::unique_ptr<tag>` makes the value hold the pointee; a null pointer makes the value empty, so it reports End |
| ValueWrapper.AsTag | include/value.h:70-72 | the conversion to `tag&` yields the held tag, whose kind is the reported kind; it requires a non-empty value |
| ValueWrapper.Widen | include/value.h:56-86 | the implicit C++ conversion from a primitive to a type it widens to: the result has the target type, converting to the primitive's own type changes nothing, and an integral target receives the integer unchanged |
| ValueWrapper.Convert | include/value.h:74-86 | a conversion succeeds exactly when the value holds a tag whose kind widens to the requested type; otherwise it throws bad_cast; a result has the requested type, an integral result carries the held integer unchanged, and converting to the held kind (including `std::string` from a String tag) returns the held payload itself |
| ValueWrapper.Assign | include/value.h:56-68 | an assignment succeeds exactly when the value holds a tag and the assigned type widens to the tag's kind; otherwise it throws bad_cast; on success the kind is unchanged |
| ValueWrapper.AssignThenConvert | include/value.h:56-86 | after an assignment, converting to the held kind gives back the assigned primitive widened to that kind; with equal kinds it gives the primitive itself, and an assigned integer reads back unchanged |
| ValueWrapper.AssignOwnPayload | include/value.h:56-86 | assigning a number or string value its own payload, converted to its own type, succeeds and leaves the value unchanged |
| ValueWrapper.AssignIgnoresOldPayload | include/value.h:34-38 | a value "of fixed type": the outcome of an assignment depends only on the held kind, never on the payload held before |
| ValueWrapper.WidenIsInjective | include/value.h:56-86 | every accepted conversion except `int32_t`/`int64_t` to `float` and `int64_t` to `double`, which round in C++, is lossless: distinct primitives of one type stay distinct |
| ValueWrapper.At | include/value.h:88-95 | `at` throws bad_cast unless a compound is held, and throws out_of_range when the compound lacks the key; otherwise it returns the key's entry |
| ValueWrapper.Index | include/value.h:97-103 | `operator[]` throws bad_cast unless a compound is held and otherwise always succeeds; an absent key gets a new empty entry, and all other entries stay as they were |
| ValueWrapper.AtAndIndexAgree | include/value.h:88-103 | on a present key the two access forms return the same entry and indexing changes nothing; on an absent key `at` fails while indexing succeeds, and `at` then finds the created entry |
| ValueWrapper.IndexIdempotent | include/value.h:97-103 | indexing twice with one key has the same effect as indexing once |
| ValueWrapper.Equal | include/value.h:108 | `operator==` holds only when both values hold a tag and the tags are of the same kind |
| ValueWrapper.EqualIffIdenticalAndComplete | include/value.h:108 | `operator==` holds exactly when both values are identical and hold a tag that contains no empty entry anywhere |
| ValueWrapper.EqualProperties | include/value.h:108 | equality is symmetric, is reflexive exactly on complete values, never holds for an empty value, and equal values report the same kind |
| ValueWrapper.NotEqual | include/value.h:109 | `operator!=` is the negation of `operator==`: two values differ unless they are identical and complete |
| TagTypes.WidensMatchesAcceptedSources | include/value.h:74-86 | the widening relation accepts, for each target type, exactly the listed source kinds (int8_t from Byte; int16_t from Byte or Short; … double from every numeric kind; string only from String) |
| TagTypes.WidensIsPartialOrder | include/value.h:56-86 | widening relates only primitive kinds and is reflexive, antisymmetric and transitive on them |
| TagTypes.WideningSeparatesFamilies | include/value.h:56-86 | strings and numbers never convert into each other, floating kinds never convert to integral ones, and double never converts to float |
| TagTypes.FromCode | include/io/stream_reader.h:59-64 | exactly the bytes 0..12 denote a tag kind, and a decoded kind's code is the byte read |
| TagTypes.CodeRoundTrip | include/io/stream_reader.h:59-64 | the mapping between kinds and wire codes is a bijection |
| StreamReader.NewReader | include/io/stream_reader.h:47-57 | a reader starts at the beginning of its input, and `get_endian` reports the byte order given at construction |
| StreamReader.DefaultReader | include/io/stream_reader.h:52 | a reader constructed without a byte order reads big endian |
| StreamReader.ReadType | include/io/stream_reader.h:59-64 | `read_type` succeeds exactly when a byte remains, the byte is a valid code, and the byte is not End unless End is allowed (End is refused by default); on success it returns the byte's kind and consumes one byte; otherwise it throws input_error |
| StreamReader.ReadTypeRoundTrip | include/io/stream_reader.h:59-64 | reading a kind's code gives back the kind; End is refused when it is not allowed |
| StreamReader.ReadTypeExamples | include/io/stream_reader.h:59-64 | code 12 reads as LongArray, 13 is refused, 0 is refused or read as End depending on `allow_end`, and refused when `allow_end` is omitted, and empty input is refused |
| StreamReader.ReadNum | include/io/stream_reader.h:66-72 | `read_num<T>` requires sizeof(T) remaining bytes, consumes exactly sizeof(T) bytes, and returns a number of type T whose object representation is those bytes in the reader's byte order |
| StreamReader.ReadNumRoundTrip | include/io/stream_reader.h:66-72 | reading the bytes the writer produces for a number gives the number back and consumes exactly its bytes |
| StreamReader.ReadNumByteOrder | include/io/stream_reader.h:47-52 | read little endian, a run of bytes denotes the same number as its reversal read big endian |
| StreamReader.ReadIntExample | include/io/stream_reader.h:47-52 | the bytes 00 00 00 01 read as a 32-bit integer give 1 big endian and 16777216 little endian |
| StreamReader.ReinterpretOfRepresentation | include/io/stream_reader.h:66-72 | reading back an object representation gives the number back (two's complement for the signed types) |
| StreamReader.RepresentationOfReinterpret | include/io/stream_reader.h:66-72 | every unsigned pattern of sizeof(T) bytes is the representation of the number read from it |
| StreamReader.ReadString | include/io/stream_reader.h:74-81 | `read_string` fails when fewer than 2 bytes remain or when fewer bytes remain than the length prefix says; otherwise it returns exactly the next L bytes after the prefix, where L is the prefix in the reader's byte order, and consumes 2 + L bytes |
| StreamReader.ReadStringRoundTrip | include/io/stream_reader.h:74-81 | reading the bytes the writer produces for a string gives the string back and consumes exactly its bytes |
| ByteOrder.LittleIsReversedBig | include/io/stream_reader.h:47-52 | a run of bytes read little endian denotes the same number as its reversal read big endian |
| ByteOrder.RoundTrip | include/io/stream_reader.h:47-52 | in either byte order, decoding the encoding of a number gives the number back |
| ByteOrder.BigRoundTripBytes | include/io/stream_reader.h:47-52 | a big-endian run of bytes is determined by the number it denotes |
| ByteOrder.BytesRoundTrip | include/io/stream_reader.h:47-52 | in either byte order, encoding the number a run of bytes denotes gives the run back, so decoding is a bijection onto the numbers below 256 to the power of the width |

## Left out

- Streams. The `std::istream`, its status flags and `get_istr` are replaced by an immutable byte sequence with a cursor. After a failed read the model returns only the error, not the reader. In the library the bytes read before the failure are consumed, but decoding stops at the throw anyway.
- `input_error` messages. The message text is not modelled. Errors carry a reason instead: end of input, or the invalid byte.
- Floating point. Float and double payloads are opaque bit patterns. The value produced by an integral-to-floating or float-to-double conversion is kept symbolic (`Float32Near`, `Float64Near`, `Float64Of`), and rounding is not modelled. A single C++ float can therefore have several model terms: `Float32Near(1)` and `Float32Bits(0x3F800000)` are both 1.0f, and `Float32Near(16777216)` and `Float32Near(16777217)` are both 2^24.
- ValueWrapper.Convert: for a float or double target converted from another kind, the contract states only the result's type, not its numeric value, because rounding is not modelled.
- ValueWrapper.Widen: the rounding conversions (`int32_t`/`int64_t` to `float`, `int64_t` to `double`) give distinct model terms for integers that C++ rounds to the same number.
- ValueWrapper.EqualIffIdenticalAndComplete: float and double payloads compare by model term, not by IEEE 754 equality. Two values holding the same C++ number under different terms compare unequal in the model, NaN compares equal to itself, and +0.0 and -0.0 compare unequal.
- ValueWrapper.EqualProperties: reflexivity on complete values relies on the same term equality; under IEEE 754 a value holding a NaN is not equal to itself.
- ValueWrapper.NotEqual: inherits the same limit: it is the negation of the model's term equality on float and double payloads, not of IEEE 754 equality.
- Modified UTF-8. String payloads and compound keys are raw bytes. No validation or decoding is done.
- Ownership. Move-only semantics and deleted copies (include/value.h:47-51) are not modelled, because Dafny datatypes are values. The `std::unique_ptr<tag>` overloads (include/value.h:44 and 53) are modelled by `FromPointer` without the transfer of ownership: the pointer is an optional tag, and a null pointer gives the `Empty()` state.
- The const overload of `operator[]` (include/value.h:103). The header does not say what it does on a missing key, and it cannot create an entry. Only the non-const overload is modelled. The const `at` behaves like the non-const one and shares `At`.
- References. `at` and `operator[]` return references that callers can assign through. The model returns the entry itself, plus the updated value for `operator[]`. Assignment through those references is not modelled.
- The tree decoder, the writer, `tag.h` and `endian_str.h` are not part of this model. Only the tag-kind enumeration and the part of the tag hierarchy the wrapper relies on are reconstructed. The writer appears only as the encodings `EncodeNum` and `EncodeString`, which the round-trip lemmas use.
- List homogeneity, list insertion and the compound class's own operations belong to the tag hierarchy, and are not modelled.
