# NBT decoder model

A Dafny model of the decoder of hematite_nbt (`src/de.rs`). The decoder reads
Named Binary Tag (NBT) data: a root header (a tag byte and a name), then a
compound made of entries. Each entry is a tag byte, a string key and a value
that the tag announces. An End byte (0x00) closes the compound.

The model has three layers.

- **Pure semantics.**
  - Module `Wire` holds the tag table, the error kinds and the `Value` tree.
    This tree takes the place of serde's visitor.
  - Module `Raw` holds the primitive big-endian reads that the decoder asks
    of its reader.
  - Module `Spec` has one function per decoder operation. Each takes an input
    and a position, and gives the value and the next position, or the error.
- **Imperative decoder.** Module `De` follows the objects of the source:
  - `Decoder` owns a byte array and the reader position;
  - `MapDecoder` remembers the tag of the last key it read;
  - `SeqDecoder` counts the elements it has yielded in `current`, up to an
    i32 `length`;
  - `InnerDecoder` decodes one value announced by a tag.

  Every method is proved to compute its `Spec` function. Its result and the
  position it leaves behind both agree with that function. The
  `MapDecoder.Collect` and `SeqDecoder.Collect` loops do what the visitor
  does when it calls `next_key_seed`/`next_value_seed` or
  `next_element_seed` until the decoder reports the end.
- **Properties.**
  - Module `Encoding` is a reference encoder.
  - Module `RoundTrip` proves that decoding an encoding gives back the value.
    The decode stops right after the encoding, at any position of any input.
  - Module `Canonical` proves the converse: whatever decodes is the encoding
    of what it decodes to.
  - Module `Properties` draws the consequences:
    - an exact characterisation of what decodes;
    - independence from the trailing bytes;
    - the empty list and the empty compound;
    - the round trip through `from_slice`, and the remainder it returns.

## Model

| member | source | states |
|---|---|---|
| Raw.ReadSigned | src/de.rs:293-296 | `read_bare_byte/short/int/long`: a big-endian two's-complement number of 1, 2, 4 or 8 bytes, within that width's range; `UnexpectedEof` exactly when fewer bytes remain |
| Raw.ReadUnsigned | src/de.rs:297-298 | `read_bare_float/double` as raw bit patterns: the big-endian unsigned number of 4 or 8 bytes, below 2^(8·width); `UnexpectedEof` when the input is short |
| Raw.ReadBareString | src/de.rs:300 | `read_bare_string`: succeeds exactly when a 2-byte length `n` and then `n` more bytes are present; the result is those `n` bytes; otherwise `UnexpectedEof` |
| Raw.ReadHeader | src/de.rs:128 | `emit_next_header`: succeeds exactly when a tag byte is present and it is End or a readable name string follows it; the result is the tag and that name; an End tag has an empty name and consumes one byte; otherwise `UnexpectedEof` |
| De.Decoder.constructor | src/de.rs:76-81 | `Decoder::new`: a decoder over `src` at position 0 |
| De.Decoder.ReadExact | src/de.rs:293-300 | the next `n` bytes; position advances by `n`, or `UnexpectedEof` when fewer remain |
| De.Decoder.ReadBareSigned | src/de.rs:293-296 | result and new position are those of `Raw.ReadSigned` at the old position |
| De.Decoder.ReadBareUnsigned | src/de.rs:297-298 | result and new position are those of `Raw.ReadUnsigned` at the old position |
| De.Decoder.ReadBareString | src/de.rs:300 | result and new position are those of `Raw.ReadBareString` at the old position |
| De.Decoder.EmitNextHeader | src/de.rs:128 | result and new position are those of `Raw.ReadHeader` at the old position |
| De.Decoder.DeserializeAny | src/de.rs:87-94 | the root decoder refuses every generic request with `NoRootCompound` |
| Spec.DecodeRoot | src/de.rs:87-134 | a generic request fails with `NoRootCompound`; a header whose tag is not 0x0a fails with `NoRootCompound`, and `NoRootCompound` arises in no other case; a header that cannot be read passes on the reader's error; success means a map request, a 0x0a header tag and a compound value that ends inside the input |
| De.Decoder.DeserializeMap | src/de.rs:123-134 | `deserialize_map`: reads the header, ignores the name, goes on only for tag 0x0a; result and new position are `Spec.DecodeRoot`'s |
| Spec.FromSlice | src/de.rs:16-24 | of the two root requests modelled (map/struct, and the generic one every forwarded request reaches), a generic request gives `NoRootCompound`; so does a header tag other than 0x0a, and nothing else does; a header that cannot be read gives the reader's error; `Ok` only for a map request on input starting 0x0a with a compound value; the remainder is a proper suffix of the input |
| De.FromSlice | src/de.rs:16-24 | `from_slice` over an array gives exactly `Spec.FromSlice` of its contents; the remainder is the reader's unread bytes (`get_inner`) |
| Properties.FromSliceRoundTrip | src/de.rs:16-24 | a document written by the reference encoder, followed by any bytes, decodes to its root compound and hands back exactly those bytes |
| Properties.EmptyRoot | src/de.rs:16-24 | a root compound holding only End decodes to no entries; the remainder starts right after that End byte |
| Properties.RootNotCompound | src/de.rs:128-133 | a readable root header whose tag is a value tag other than 0x0a makes `from_slice` fail with `NoRootCompound`, whatever follows |
| Properties.RootEnd | src/de.rs:128-133 | a root header that is the End byte alone makes `from_slice` fail with `NoRootCompound` |
| Properties.TruncatedRoot | src/de.rs:16-24 | an empty input, a compound header whose name length is cut off, and a compound header with nothing after it all fail with `UnexpectedEof`, not `NoRootCompound` |
| Properties.FromSliceCanonical | src/de.rs:16-24 | whatever `from_slice` accepts is exactly the reference encoding of its header name and root entries, followed by the returned remainder |
| Properties.RemainderAfterEnd | src/de.rs:16-24 | the remainder `from_slice` returns is shorter than the input and starts right after an End byte |
| De.MapDecoder.constructor | src/de.rs:148-152 | `MapDecoder::new`: over the given decoder, no tag remembered |
| Spec.KeyFrom | src/de.rs:157-178 | succeeds exactly when an entry tag is present and it is End or a readable string follows it; End (0x00) means no more entries and consumes that byte only; any other tag is returned with a key decoded as a string (2-byte length, then its bytes) whatever the tag; otherwise `UnexpectedEof` |
| De.MapDecoder.NextKey | src/de.rs:157-178 | `next_key_seed`: on End, `Ok(None)` and the remembered tag unchanged; otherwise the key, with the entry tag remembered; position and errors as `Spec.KeyFrom` |
| De.MapDecoder.NextValue | src/de.rs:180-192 | `next_value_seed`: the value decoded with the remembered tag; result and position are `Spec.DecodeAny`'s |
| Spec.EntriesFrom | src/de.rs:157-192 | the compound's entries in wire order, up to and including the End byte; every key fits a 2-byte length and every value is well formed; a failure is `UnexpectedEof` or `InvalidTypeId` |
| De.MapDecoder.NextEntry | src/de.rs:157-192 | a key, then its value: an error is the error of the remaining entries, `None` means the remaining entries are empty and end here, and an entry is the first of the remaining entries, after which the rest follow |
| De.MapDecoder.Collect | src/de.rs:157-192 | entries until the end; result and position are `Spec.EntriesFrom`'s |
| Properties.EmptyCompound | src/de.rs:161-166 | a compound whose first byte is End has no entries and consumes exactly that byte |
| Spec.OpenList | src/de.rs:207-216 | `list`: succeeds exactly when 5 bytes remain; the element tag is the first of them, the length the i32 read from the next four; `UnexpectedEof` otherwise |
| Spec.OpenArray | src/de.rs:218-246 | `byte_array`/`int_array`/`long_array`: succeeds exactly when 4 bytes remain; the length is their i32; the element tag is the fixed one given |
| De.SeqDecoder.List | src/de.rs:207-216 | a fresh sequence decoder with the tag and length of `Spec.OpenList`, `current` 0, position after the 5 header bytes; or that function's error |
| De.SeqDecoder.Array | src/de.rs:218-246 | a fresh sequence decoder with the fixed element tag and the length of `Spec.OpenArray`, `current` 0, position after the 4 length bytes; or its error |
| Spec.ElementsFrom | src/de.rs:252-269 | a successful run yields exactly `length - current` elements, all carrying the sequence's tag and well formed; a counter past `length` never succeeds; a failure is `UnexpectedEof` or `InvalidTypeId` |
| De.SeqDecoder.NextElement | src/de.rs:252-269 | `next_element_seed`: `Ok(None)` and nothing read when `current == length`; otherwise one value decoded with `tag`, and `current` goes up by one on success only |
| De.SeqDecoder.Collect | src/de.rs:252-269 | elements until the end; result and position are `Spec.ElementsFrom`'s from the current counter |
| De.SeqDecoder.SizeHint | src/de.rs:271-274 | `size_hint`: `length` for a non-negative length; a negative length becomes `length + 2^64` (the `usize` cast) |
| De.SeqDecoder.SizeHintCounts | src/de.rs:252-274 | when a fresh decoder's run succeeds, `size_hint` equals the number of elements it yields |
| Spec.DecodeScalar | src/de.rs:293-300 | tags 0x01-0x04 give integers of 1, 2, 4 and 8 bytes; 0x05/0x06 give 4- and 8-byte bit patterns; 0x08 gives a string; each value carries the requested tag and is well formed; the only failure is `UnexpectedEof` |
| Spec.DecodeSequence | src/de.rs:299-308 | tags 0x07, 0x09, 0x0b and 0x0c give a sequence value of that tag, each element well formed and carrying the element tag; a failure is `UnexpectedEof` or `InvalidTypeId` |
| Spec.DecodeAny | src/de.rs:286-311 | any tag outside 0x01-0x0c (0x00 included) fails with `InvalidTypeId(tag)`; a success consumes at least one byte and returns a well-formed value announced by `tag`; every failure is `UnexpectedEof` or `InvalidTypeId` |
| De.InnerDecoder.DeserializeAny | src/de.rs:286-311 | `deserialize_any`: result and position are `Spec.DecodeAny`'s; an unknown tag reads nothing |
| De.InnerDecoder.DeserializeSequence | src/de.rs:299-308 | the sequence rows of the tag table; result and position are `Spec.DecodeSequence`'s |
| RoundTrip.DecodeEncode | src/de.rs:286-311 | bytes that encode a well-formed value, at any position, decode with the value's tag to that value and end right after its encoding |
| RoundTrip.DecodeEncodeElements | src/de.rs:252-269 | encoded elements decode back, counting up from `current` to `length` |
| RoundTrip.DecodeEncodeEntries | src/de.rs:157-192 | encoded entries followed by End decode back to the same entries in the same order |
| Canonical.EncodeOfDecode | src/de.rs:286-311 | whatever decodes was the reference encoding of the decoded value |
| Canonical.EncodeOfElements | src/de.rs:252-269 | the bytes consumed by a successful element run are the encodings of the elements |
| Canonical.EncodeOfEntries | src/de.rs:157-192 | the bytes consumed by a successful compound are the encodings of its entries, then End |
| Canonical.KeyEncoding | src/de.rs:161-177 | the bytes of an entry header that decode are its tag byte and the encoding of its key |
| Properties.DecodeIffEncoded | src/de.rs:286-311 | `deserialize_any` gives `v` ending at `q` exactly when the bytes up to `q` encode the well-formed `v`, and the tag is `v`'s |
| Properties.DecodeIgnoresRest | src/de.rs:286-311 | the decoder reads nothing past the value: inputs agreeing on the consumed bytes decode the same |
| Properties.EmptyList | src/de.rs:252-258 | a list header with length 0 decodes to an empty list and consumes only its 5 header bytes |
| Spec.DecodeBool | src/de.rs:314-330 | success exactly for tag 0x01 and byte 0 or 1 (1 is true); any other tag fails with `TagMismatch(tag, 0x01)`; another byte `b` gives `NonBooleanByte(b as i8)` |
| De.InnerDecoder.DeserializeBool | src/de.rs:314-330 | `deserialize_bool`: result and position are `Spec.DecodeBool`'s; a wrong tag reads nothing |
| Spec.DecodeOption | src/de.rs:333-338 | the result is always `Some` of the generic decode; errors and positions are the generic decode's |
| De.InnerDecoder.DeserializeOption | src/de.rs:333-338 | `deserialize_option`: result and position are `Spec.DecodeOption`'s |
| Spec.DecodeOwnedString | src/de.rs:363-375 | any tag other than 0x08 fails with `TagMismatch(tag, 0x08)`; for 0x08 it succeeds exactly when the 2-byte length and that many bytes are present, the result is exactly that payload, and otherwise `UnexpectedEof` |
| De.InnerDecoder.DeserializeString | src/de.rs:363-375 | `deserialize_string`: result and position are `Spec.DecodeOwnedString`'s; a wrong tag reads nothing |

## Left out

- `from_reader`, `from_gzip_reader`, `from_zlib_reader` (src/de.rs:30-63): I/O streams and gzip/zlib decompression are foreign code. Only the slice reader is modelled.
- `src/raw.rs` is not part of this model. Module `Raw` states the reads the decoder relies on:
  - big-endian integers;
  - a 2-byte string length;
  - a header that has a name unless its tag is End.
  Every read fails with `UnexpectedEof` on short input. That error stands for the reader's I/O error.
- Floating point (tags 0x05/0x06): values are carried as raw 32- and 64-bit patterns, with no float semantics.
- Strings: the UTF-8 / modified-UTF-8 check inside `read_bare_string` is not modelled. A string is its length-prefixed payload.
- The Borrowed/Copied/Owned distinction of `Reference` and the `scratch` buffer: these concern allocation only.
- serde's `Visitor`/`DeserializeSeed` and the `forward_to_deserialize_any!` lists (src/de.rs:136-139, src/de.rs:377-380): the visitor is replaced by a concrete `Value` tree.
  - `deserialize_struct` is the map request of `Spec.RootRequest`.
  - Every root request in the forwarding list of src/de.rs:136-139 is the generic one.
  - `MapDecoder.NextEntry` stands for serde's own `next_entry`, which calls `next_key_seed` and then `next_value_seed`.
- The root `deserialize_unit_struct` (src/de.rs:108-113) is not modelled. It calls `visit_unit` without reading anything, so `from_slice` of a unit struct succeeds on any input, even an empty one, and returns the whole input. The doc comment of `from_slice` (src/de.rs:14-15) says that such requests return `NoRootCompound`; the code does not do that. The model leaves this request out; what the code does is recorded here. The `Spec.FromSlice` clauses hold for the map and generic requests only.
- The root `deserialize_newtype_struct` (src/de.rs:116-121) is not modelled. It passes the same decoder to the wrapped type, so it behaves as the request of that type.
- The inner `deserialize_unit`, `deserialize_unit_struct` and `deserialize_newtype_struct` (src/de.rs:340-360) are not modelled. The first two read nothing, and the third passes the same decoder on.
- De.MapDecoder.NextValue: the `unimplemented!()` panic for a value requested before any key (src/de.rs:189) is the precondition `tag.Some?`.
- De.SeqDecoder.NextElement: `current` is an unbounded integer. The i32 overflow of `current += 1` would take more than 2^31 elements, so it is not modelled.
- De.SeqDecoder.SizeHint: the `usize` of the cast is taken to be 64 bits wide, so a negative length becomes `length + 2^64`. On a 32-bit target it would be `length + 2^32`; that target is not modelled.
- Negative lengths: the decoder stops only when `current == length`. A negative length therefore reads elements until an error. The model keeps this behaviour and proves the element count only for successful runs, which have `length >= 0`.
- Nesting depth: the source has no depth limit, and neither does the model. The recursion terminates because every value consumes input. The stack overflow that deep nesting may cause in the source is not modelled.
- Entry order: a compound's entries keep their wire order, and duplicate keys are kept. Building a map from them is left to the caller's type.
- The reader position after an error is not specified. The source abandons the decode at that point.
