# ZSerializer in Dafny

ZSerializer is a type-directed binary codec for C++. `Write(out, value)` picks
one wire shape from the static type of `value` and appends its bytes to a sink;
`Read<T>(in)` reads the same shape back and returns either a `T` or `Error`,
failing fast through the `ZS_READ` early return. The repository holds two
iterations of the design: `ZSerializer.hpp` (generic over a sink with
`Write(ptr, n)` and a source with `Read(ptr, n) -> bool`, shipping
`StringWriter` and `StringReader`, with user composites in both directions) and
the older `ZSerializer.h` (bound to `std::ostream`/`std::istream`, with
composite write only).

The wire shapes:

| shape | wire form |
|---|---|
| `Pod(w)` | the object image, `sizeof(T)` raw bytes |
| `Bool` | one byte, 1 or 0 when written, any nonzero byte read as true |
| `Text` | `std::string`, `std::string_view`, `const char*`: a `size_t` count, then the characters |
| `PodVector(w)` | `std::vector<POD>`: a `size_t` count, then one raw block of count × w bytes |
| `Vector(e)` | `std::vector<non-POD>`: a `size_t` count, then each element's encoding |
| `Optional(e)` | a bool flag, then the payload only when the flag is true |
| `Array(n, e)` | `std::array<non-POD, N>`: the N element encodings, no prefix |
| `Members(fs)` | a `Trait<T>` composite built with `WriteMembers`/`ReadMembers`: the member encodings in tuple order |

The project has these modules:

- `Bytes` (bytes.dfy): bytes, the 8-byte little-endian `size_t` count, `strlen`, and a POD vector's contiguous storage.
- `Shapes` (shapes.dfy): the `Shape` and `Value` datatypes and `WellTyped`.
- `Format` (format.dfy): the wire format as pure functions. `Encode` gives the bytes of a value. `Decode` gives the value and the bytes left unread, or `None` for `Error`.
- `Laws` (laws.dfy): what the format promises. Every shape round-trips. A decoder never reads past what it consumes. A truncated encoding never decodes. A decoded value is well-typed and consumed exactly its own encoding's length. Encoded lengths follow the count-prefix and fixed-size rules.
- `Streams` (streams.dfy): `StringWriter` as an append-only buffer and `StringReader` as a cursor over a string. They also stand for the `std::ostream`/`std::istream` of the older header, whose raw `Write(os, p, n)` and `Read(is, p, n)` behave the same way.
- `Engine` (engine.dfy): one method per `Write` and `Read` overload, including the element and member loops. Each write method is proved to append exactly `Encode(shape, value)`. Each read method is proved to return exactly what `Decode` says of the unread bytes, and to leave the cursor after what it consumed.
- `Classify` (classify.dfy): overload resolution made explicit. It maps a C++ type to the shape its `Write` and its `Read` use in each header, or to `None` when the call does not build: only the undefined primary template matches (a link-time failure), the call is ambiguous, or the overload is deleted.
- `Client` (client.dfy): the usage pattern of the repository's tests. Several values are written into one `StringWriter` and read back in order from a `StringReader` over the result.

The format rests on a few facts of the 64-bit host: a `size_t` is 8 bytes in
little-endian order, and a `const char*` is 8 bytes. POD values are opaque byte
images of their `sizeof`.

A type that has a `Trait<T>` and is also POD matches both the
`DefinedWriteTrait` overload and the `POD` overload (ZSerializer.hpp:117-127).
Neither constraint subsumes the other, so the call is ambiguous and does not
compile: a `Trait` does not take precedence over POD. The same holds for
`DefinedTrait` in ZSerializer.h:89-99. `Classify.RegisteredPodIsAmbiguous`
states this.

A `std::array<T, 0>` has no elements but, like every C++ object, a nonzero
`sizeof`. The model follows libstdc++, which stores an empty struct in place of
the elements: the array is POD for every `T` and 1 byte wide
(`Classify.EmptyArrayWidth`). An empty array of POD elements is written as that
one byte. An empty array of non-POD elements takes the more specialised array
write overload and is written as nothing, its read is ambiguous (the POD and
the array read constraints both hold and neither subsumes the other), and a
vector of such arrays is a vector of POD written as one raw block
(`Classify.EmptyArrayOfNonPod`).

## Model

| member | source | states |
|---|---|---|
| Bytes.CountBytes | ZSerializer.hpp:155 | a `size_t` count is written as 8 bytes that read back as the count modulo 2^64, so every count a `size_t` holds reads back unchanged |
| Bytes.StrLen | ZSerializer.hpp:146 | `strlen` is the index of the first NUL: that byte is zero and none before it is |
| Bytes.Split | ZSerializer.hpp:278-280 | a block of n × w bytes read into a `vector<POD>` becomes n elements of w bytes whose storage is exactly the block |
| Bytes.FromLittleEndian | ZSerializer.hpp:276 | the `size_t` an 8-byte image denotes in host order is below 2^64 (in general, k bytes denote a number below 256^k) |
| Bytes.FromLittleEndianOfLittleEndian | ZSerializer.hpp:276 | the k-byte image of a count keeps exactly its low 8k bits: it reads back as the count modulo 256^k |
| Bytes.LittleEndianOfFromLittleEndian | ZSerializer.hpp:276 | every 8-byte image is the image of the count it denotes |
| Bytes.FlattenLength | ZSerializer.hpp:156 | the storage of n elements of w bytes is n × w bytes long |
| Bytes.SplitFlatten | ZSerializer.hpp:272-283 | reading back the block a `vector<POD>` was written as gives the same elements |
| Format.BoolBytes | ZSerializer.hpp:134 | a `bool` is one byte, nonzero exactly when the flag is true (the optional flag of lines 134 and 139) |
| Format.Encode | ZSerializer.hpp:117-172 | the bytes the `Write` overload set appends: a POD value is exactly `sizeof` bytes, an optional starts with its presence flag, and a string or vector starts with the 8-byte count of its elements |
| Format.EncodeAll | ZSerializer.hpp:163-171 | the element loops of the vector and array writes: the element encodings one after another |
| Format.EncodeFields | ZSerializer.hpp:103 | the member fold of `WriteMembers`: the member encodings in tuple order |
| Format.Decode | ZSerializer.hpp:247-309 | what the `Read` overload set returns for the unread bytes: it never consumes more than it has, and an empty input fails every shape that starts with a flag or a count |
| Format.DecodeAll | ZSerializer.hpp:291-307 | the element loops of the vector and array reads: on success exactly k elements, never consuming more than the input |
| Format.DecodeFields | ZSerializer.hpp:205-231 | the member fold of `ReadMembers`: on success one value per member, never consuming more than the input |
| Format.DecodePod | ZSerializer.hpp:253-260 | a raw read of w bytes succeeds exactly when w bytes remain, and it returns exactly those bytes |
| Format.DecodeBool | ZSerializer.hpp:265 | the flag read succeeds exactly when a byte remains; nonzero means true |
| Format.DecodeCount | ZSerializer.hpp:276 | the count read succeeds exactly when 8 bytes remain; the count is the number those 8 bytes denote, it fits a `size_t`, and the cursor moves by 8 |
| Format.DecodeBlock | ZSerializer.hpp:272-283 | a string or `vector<POD>` read succeeds exactly when 8 count bytes and then count × w block bytes remain; it returns the count those 8 bytes denote and the block that directly follows it, and leaves exactly what follows the block |
| Laws.DecodePodPrefix | ZSerializer.hpp:253-260 | a raw read of w bytes returns the first w bytes and leaves the rest |
| Laws.DecodeCountPrefix | ZSerializer.hpp:276 | reading a written count returns it and leaves what followed |
| Laws.DecodeBoolPrefix | ZSerializer.hpp:265 | reading a written flag returns it and leaves what followed |
| Laws.DecodeEncode | ZSerializer.hpp:247-309 | for every shape and every well-typed value, reading what was written returns the value and leaves the bytes after it untouched |
| Laws.DecodeEncodeText | ZSerializer.hpp:272-283 | a written string reads back as the same characters |
| Laws.DecodeEncodePodVector | ZSerializer.hpp:272-283 | a written `vector<POD>` reads back as the same elements |
| Laws.DecodeEncodeAll | ZSerializer.hpp:285-297 | N written elements read back, in order, by N element reads |
| Laws.DecodeEncodeFields | ZSerializer.hpp:222-231 | written members read back, in tuple order, by the member reads |
| Laws.SuffixTransitive | ZSerializer.hpp:180 | what a later read leaves is also left by the earlier read |
| Laws.DecodeSound | ZSerializer.hpp:247-309 | a successful read returns a value of its shape, leaves a suffix of its input, and consumes exactly as many bytes as writing that value produces |
| Laws.DecodePodVectorSound | ZSerializer.hpp:272-283 | the same for a `vector<POD>`: the elements have the element width and their storage is exactly the bytes between the count and what is left |
| Laws.DecodeAllSound | ZSerializer.hpp:285-297 | a successful read of N elements returns N well-typed elements and consumes exactly their encodings |
| Laws.DecodeFieldsSound | ZSerializer.hpp:192-232 | a successful member-wise read returns one well-typed value per member and consumes exactly their encodings |
| Laws.DecodePodExtend | ZSerializer.hpp:178-182 | a raw read that succeeds is unaffected by bytes appended after the input |
| Laws.DecodeExtend | ZSerializer.hpp:247-309 | a read that succeeds returns the same value when more bytes follow, and leaves those bytes unread |
| Laws.DecodeAllExtend | ZSerializer.hpp:285-297 | the same for a run of N elements |
| Laws.DecodeFieldsExtend | ZSerializer.hpp:192-232 | the same for a member-wise read |
| Laws.TruncatedFails | ZSerializer.hpp:241-242 | every proper prefix of an encoding fails to decode, so a short input yields `Error` |
| Laws.EncodeFixedWidth | ZSerializer.hpp:123-127 | a shape built only of POD images, flags, arrays and members encodes every value in the same number of bytes |
| Laws.EncodeAllFixedWidth | ZSerializer.hpp:167-172 | N elements of a fixed-width shape w take N × w bytes |
| Laws.EncodeFieldsFixedWidth | ZSerializer.hpp:96-105 | members of fixed-width shapes take the sum of their widths |
| Laws.TextLayout | ZSerializer.hpp:151-157 | a string is its 8-byte count followed by exactly its characters |
| Laws.PodVectorLength | ZSerializer.hpp:151-157 | a `vector<POD>` takes 8 + count × sizeof(element) bytes |
| Laws.VectorLength | ZSerializer.hpp:159-165 | a `vector<non-POD>` of fixed-width elements takes 8 + count × width bytes |
| Laws.ArrayLength | ZSerializer.hpp:167-172 | a `std::array<non-POD, N>` carries no count: N × width bytes |
| Laws.OptionalLayout | ZSerializer.hpp:129-141 | an absent optional is the single byte 0; a present one is the byte 1 and then the payload's encoding |
| Laws.OptionalAbsentReadsNothingMore | ZSerializer.hpp:265-267 | a false flag gives `nullopt` and consumes only the flag, whatever follows |
| Laws.EncodeAllAppend | ZSerializer.hpp:163-164 | one more element written extends the output by exactly its encoding |
| Laws.EncodeFieldsAppend | ZSerializer.hpp:103 | one more member written extends the output by exactly its encoding |
| Streams.StringWriter.constructor | ZSerializer.hpp:78-91 | a new writer holds no bytes |
| Streams.StringWriter.Write | ZSerializer.hpp:80-83 | the sink appends exactly the given bytes, as does the raw stream write of the older header (ZSerializer.h:68-71) |
| Streams.StringReader.constructor | ZSerializer.hpp:176 | a new reader has the whole string unread |
| Streams.StringReader.Read | ZSerializer.hpp:178-182 | a read reports success exactly when n bytes remain (gcount equals n); it then returns them and moves past them, and otherwise it takes what was left; the raw stream read of the older header behaves the same (ZSerializer.h:138-142) |
| Engine.WritePod | ZSerializer.hpp:123-127 | the POD overload appends the object image and nothing else; so do `WriteBitwise` (ZSerializer.hpp:107-115) and the POD overload of the older header (ZSerializer.h:95-99) |
| Engine.WriteBlock | ZSerializer.hpp:151-157 | the string / string view / `vector<POD>` overload appends the count and then the storage; the older header's overload does the same (ZSerializer.h:115-121) |
| Engine.WriteCString | ZSerializer.hpp:143-149 | a `const char*` appends the same bytes as the `std::string` holding the characters before the NUL |
| Engine.Write | ZSerializer.hpp:117-172 | the overload set as a whole appends exactly `Encode(shape, value)` |
| Engine.WriteOptional | ZSerializer.hpp:129-141 | an optional appends its flag and, when present, the payload; the older header's overload does the same (ZSerializer.h:101-113) |
| Engine.WriteVector | ZSerializer.hpp:159-165 | a `vector<non-POD>` appends its count and then every element in order; the older header's overload does the same (ZSerializer.h:123-129) |
| Engine.WriteArray | ZSerializer.hpp:167-172 | a `std::array<non-POD, N>` appends its N elements in index order; the older header's overload does the same (ZSerializer.h:131-136) |
| Engine.WriteMembers | ZSerializer.hpp:96-105 | `WriteMembers` appends each member in `Trait<T>::members` order; a `Trait<T>::Write` built with the older `WriteMembers` does the same (ZSerializer.h:79-93) |
| Engine.ReadElementStep | ZSerializer.hpp:291-295 | one element read either fails the whole sequence or joins the elements read so far |
| Engine.ReadMemberStep | ZSerializer.hpp:205-219 | one member read either fails the whole composite or joins the members read so far |
| Engine.ReadPod | ZSerializer.hpp:253-260 | the POD read returns the next `sizeof(T)` bytes, or `Error` exactly when fewer remain; so do `ReadBitwise` (ZSerializer.hpp:234-245) and the POD read of the older header (ZSerializer.h:149-156) |
| Engine.ReadBool | ZSerializer.hpp:265 | `ZS_READ(bool, ...)` returns the flag byte as nonzero-is-true, or `Error` at the end of input |
| Engine.ReadCount | ZSerializer.hpp:276 | `ZS_READ(size_t, ...)` returns the 8-byte count, or `Error` |
| Engine.ReadBlock | ZSerializer.hpp:272-283 | the string / `vector<POD>` read returns the count and the block, or `Error` when either is short; the older header's read does the same (ZSerializer.h:168-179) |
| Engine.Read | ZSerializer.hpp:247-309 | the read overload set as a whole returns exactly what `Decode` gives for the unread bytes and leaves the cursor where `Decode` leaves it |
| Engine.ReadOptional | ZSerializer.hpp:262-270 | an optional read fails when the flag fails (the `ZS_READ` early return of ZSerializer.hpp:13-18), returns `nullopt` on false, and otherwise returns the payload or `Error`; the older header's read does the same (ZSerializer.h:158-166) |
| Engine.ReadVector | ZSerializer.hpp:285-297 | a `vector<non-POD>` read returns all `count` elements in order, or `Error` at the first failing element, never a partial vector; the older header's read does the same (ZSerializer.h:181-193) |
| Engine.ReadArray | ZSerializer.hpp:299-309 | a `std::array<non-POD, N>` read fills the slots in index order, or returns `Error` at the first failing element; the older header's read does the same (ZSerializer.h:195-205) |
| Engine.ReadMembers | ZSerializer.hpp:192-232 | `ReadMembers` reads the members in tuple order; once one fails the rest are skipped and the result is `Error` |
| Classify.IsPod | ZSerializer.hpp:28-29 | `std::is_pod_v<T>` over the modelled types, with libstdc++'s empty `std::array` POD for every element type |
| Classify.Width | ZSerializer.hpp:126 | `sizeof(T)` of a POD type: members and padding as declared for a struct, N × the element's for a non-empty array, 1 for an empty one |
| Classify.ClassifyWrite | ZSerializer.hpp:117-172 | overload resolution of `Write`: the shape a type is written as, or `None` when the call does not build; the older header's resolution with `Legacy` (ZSerializer.h:89-136) |
| Classify.ClassifyRead | ZSerializer.hpp:247-309 | overload resolution of `Read<T>`: the shape a type is read as, or `None` when the call does not build; the older header's resolution with `Legacy` (ZSerializer.h:149-205) |
| Classify.CurrentReadsAsWritten | ZSerializer.hpp:247-309 | in the newer header, every type without a `const char*` or a string view outside a POD part and without an empty `std::array` of non-POD elements read member by member is read with exactly the shape it is written with, and one builds exactly when the other does |
| Classify.CurrentReadsAllAsWritten | ZSerializer.hpp:192-232 | the same for the member list of a composite |
| Classify.LegacyWritesAsCurrent | ZSerializer.h:89-136 | every type the older header can write is written the same way by the newer one |
| Classify.LegacyWritesAllAsCurrent | ZSerializer.h:79-87 | the same for the member list of a composite |
| Classify.ReadersAgree | ZSerializer.h:149-205 | where both headers can read a type, they read it with the same shape |
| Classify.RegisteredPodIsAmbiguous | ZSerializer.hpp:117-127 | a `Trait`-registered POD struct has no writer in either header and no reader in the newer one; the older one reads it bitwise |
| Classify.LegacyCannotReadTraits | ZSerializer.h:146-205 | the older header has no read for a member-wise composite that is not POD |
| Classify.CStringIsWrittenAsString | ZSerializer.hpp:143-149 | a `const char*` is written as a `std::string` in the newer header, is rejected by the deleted pointer overload of the older one (ZSerializer.h:76-77), and is read as its 8 pointer bytes |
| Classify.StringViewIsWrittenAsString | ZSerializer.hpp:151-157 | a string view is written as a `std::string` and has no read overload |
| Classify.VectorOfBoolRejected | ZSerializer.hpp:151-157 | `std::vector<bool>` has no `data()`, so neither header writes or reads it |
| Classify.PodWritesSizeofBytes | ZSerializer.hpp:123-127 | every POD type other than `const char*` is written as exactly `sizeof(T)` bytes, an empty `std::array` of POD elements as 1 byte; the one exception, an empty `std::array` of non-POD elements, takes the array overload (ZSerializer.hpp:167-172) and is written as no bytes |
| Classify.EmptyArrayOfNonPod | ZSerializer.hpp:167-172 | `std::array<T, 0>` with `T` not POD is POD of size 1, is written by the array overload as its (zero) elements, has an ambiguous read (lines 253 and 299), and a vector of it is a `vector<POD>` of 1-byte elements (lines 151-157, 272-283) |
| Client.WriteThenReadBack | test/test.cpp:109-118 | values written one after another by top-level `Write` calls into one writer read back by one top-level `Read` per value in the same order, each equal to what was written, and the reader ends at the end of the string; this is also the pattern of the standalone test (test.cpp:29-68) |

## Left out

- Stream plumbing: `std::ostringstream`/`std::istringstream` and their error state are modelled as a byte buffer and a cursor. A short read takes what is left and fails, as `istream::read` does.
- Engine.Read: after a failed read the contract says nothing about where the cursor stands. The method does move it, as the stream does.
- Host memory layout: `sizeof`, padding, byte order, `std::addressof` and `reinterpret_cast`. A POD value is an opaque byte image of its width. The `size_t` count is fixed at 8 little-endian bytes.
- Bytes.CountBytes: keeps only the low 64 bits of a count, as a `size_t` does. No container or `strlen` result reaches 2^64, so no contract relies on that case.
- Float semantics: floats are opaque 4- or 8-byte images, and no arithmetic is modelled.
- Format.DecodeBool: any nonzero flag byte reads as true. The C++ `bool` has undefined behaviour for bytes other than 0 and 1, and that is not modelled.
- Allocation: `value.resize(size)` before the block read can ask for a huge buffer when the count is hostile. That is resource exhaustion, not codec behaviour, and is not modelled.
- Engine.ReadArray: a `std::array<non-POD, N>` is default-constructed before its slots are assigned. The model fills the placeholder slots with `NoneV`. Default construction of user types is not modelled.
- Engine.ReadMembers: the composite is default-constructed and then assigned member by member. The model appends the member values in order instead.
- Classify: only the routines the library provides for a `Trait<T>` are modelled (`WriteMembers`/`ReadMembers` and `WriteBitwise`/`ReadBitwise`). A hand-written `Trait<T>::Write`/`Read` runs arbitrary user code and is not modelled.
- Classify: a `Trait` that defines only one of `Write` and `Read` is not modelled.
- Classify: of the pointer types, only `const char*` is distinguished. Other pointers are `Scalar` POD images, as in the newer header. The older header's deleted `const T*` overload is modelled for `const char*` only.
- Classify.CurrentReadsAsWritten: its precondition leaves out an empty `std::array` of non-POD elements that is read member by member, because that read is ambiguous while the write builds; `Classify.EmptyArrayOfNonPod` states what happens there. It also leaves out types whose read and write happen to agree in other ways (both failing, say).
- Classify.CurrentReadsAllAsWritten: the same precondition, member by member.
- Classify.PodWritesSizeofBytes: an empty `std::array` of non-POD elements is POD but is written as no bytes, not its `sizeof` of 1; the lemma states this case separately.
- Classify: the empty `std::array` is modelled with libstdc++'s layout; another standard library may make `std::array<T, 0>` non-POD when `T` is not.
- Classify: strings of character types wider than `char` are not modelled.
- Compile-time machinery: `std::apply`/`ForEach` fold expressions become loops, and concept checks become `Classify` functions over a `CType` descriptor.
- Client.WriteThenReadBack: test/test.cpp includes `ZSerializer.h` but calls `StringWriter` and `Str()`, which neither header declares as written. The method uses the newer header's `StringWriter`/`StringReader` pair.
