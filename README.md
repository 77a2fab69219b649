# bintype core in Dafny

A model of the decoding core of **bintype**, a TypeScript library for
declarative binary decoding. A *codec* describes a binary layout, and
decoding runs that codec against a byte reader. The core has four codecs:

- `uint8`: one byte, read unsigned.
- `int8`: one byte, read as two's complement.
- `array(size, codec)`: `size` elements of one codec, back to back.
- `schema(definition)`: named fields, decoded in declaration order into a record.

`codec.decode(source)` wraps the source in a reader with its cursor at 0.
Every nested codec is meant to read from that same reader (see below).
Nothing checks that the source was used up.

The project has five modules:

- `Streams` (streams.dfy)
  - the `byte` type;
  - the `OutOfBounds` error and the `Result` type;
  - `AsInt8`, the two's-complement reading;
  - the `Reader` class: a cursor over one immutable byte source whose `offset` the read methods advance.
- `Codecs` (codecs.dfy)
  - the `Codec`, `Field`, `Value` and `Entry` datatypes;
  - `Width`, the number of bytes a codec consumes;
  - `Conforms`, which says that a value has a codec's shape;
  - the pure decoder: `DecodeAt`, `DecodeElems`, `DecodeFields` and `DecodeSource`. It threads the cursor explicitly and fails on the first read past the end.
- `Layout` (layout.dfy)
  - `Encode`, a ghost reference layout that the library never builds;
  - the two round trips proving that decoding is exactly its inverse.
- `Properties` (properties.dfy)
  - how arrays and records are laid out;
  - fail-fast: no partial arrays or records;
  - the window of bytes each element occupies;
  - trailing bytes are ignored;
  - worked examples.
- `Runtime` (runtime.dfy)
  - the imperative decoder, with loops over a shared `Reader`;
  - the public `Decode`, proved to compute exactly `DecodeSource`.

The array and schema combinators (src/index.ts:41 and :50) decode each
element or field through the public `decode` entry point of the nested codec.
As written, that wraps the shared reader in a new reader with its own cursor.
The evident intent, and what every combinator here models, is that all
nested codecs share one cursor.

## Model

| member | source | states |
|---|---|---|
| Streams.AsInt8 | src/index.ts:32-36 | The int8 reading of a byte lies in -128..127 and is congruent to the byte modulo 256, so it is the two's-complement value. |
| Streams.Reader.constructor | src/index.ts:10-12 | A new reader holds the whole source with its cursor at 0. |
| Streams.Reader.ReadUint8 | src/index.ts:26-30 | With a byte left, returns it unsigned and advances the cursor by one. At the end, fails with OutOfBounds and leaves the cursor in place. |
| Streams.Reader.ReadInt8 | src/index.ts:32-36 | With a byte left, returns its two's-complement value and advances the cursor by one. At the end, fails with OutOfBounds and leaves the cursor in place. |
| Codecs.DecodeAt | src/index.ts:18-55 | Succeeds iff at least Width(c) bytes remain after the cursor. On success, advances the cursor by exactly Width(c) and yields a value of the codec's shape. |
| Codecs.DecodeElems | src/index.ts:38-44 | k elements succeed iff k·Width(e) bytes remain. They consume exactly that many bytes and yield k values, each of the element's shape. |
| Codecs.DecodeFields | src/index.ts:46-55 | The fields succeed iff the sum of their widths remains. The record has one entry per field, keyed by the field's name in declaration order, and consumes exactly that sum. |
| Codecs.DecodeSource | src/index.ts:10-12 | The public decode succeeds iff the source holds at least Width(c) bytes, and then yields a value of the codec's shape. |
| Layout.Encode | src/index.ts:38-55 | The reference layout of a value of a codec's shape is exactly Width(c) bytes long. |
| Layout.EncodeThenDecode | src/index.ts:18-55 | Decoding a value's layout, at any cursor, yields that value and ends right after the layout. |
| Layout.ItemsEncodeThenDecode | src/index.ts:38-44 | The same for a run of array elements: their layouts back to back decode to the same elements. |
| Layout.EntriesEncodeThenDecode | src/index.ts:46-55 | The same for a record: its fields' layouts back to back decode to the same entries. |
| Layout.DecodeThenEncode | src/index.ts:18-55 | A successful decode has read exactly the layout of the value it returned, from the old cursor to the new one. |
| Layout.ItemsDecodeThenEncode | src/index.ts:38-44 | The same for a run of array elements. |
| Layout.EntriesDecodeThenEncode | src/index.ts:46-55 | The same for the fields of a record. |
| Properties.ElemsConcat | src/index.ts:41 | Decoding a+b elements means decoding a elements and then b more from where they stopped. The results are concatenated, and the first failure wins. |
| Properties.ElemsSnoc | src/index.ts:41 | k+1 elements are k elements followed by one element decoded at the cursor they leave. |
| Properties.FieldsWidthConcat | src/index.ts:49-52 | The width of concatenated field lists is the sum of their widths. |
| Properties.FieldsConcat | src/index.ts:49-52 | Decoding the fields of a+b means decoding a's fields and then b's from where they stopped. The entries are concatenated, and the first failure wins. |
| Properties.FieldsSnoc | src/index.ts:49-52 | The first i+1 fields are the first i fields followed by field i decoded at the cursor they leave. |
| Properties.Primitives | src/index.ts:26-36 | uint8 yields the byte at the cursor and int8 its two's-complement value, each advancing the cursor by one. At the end of the source both fail with OutOfBounds. |
| Properties.Int8Examples | src/index.ts:32-36 | As int8, 0xFF is -1, 0x80 is -128 and 0x7F is 127. As uint8, 0xFF is 255. |
| Properties.EmptyArray | src/index.ts:41 | array(0, c) succeeds at any cursor, even on an empty source. It yields an empty list and moves nothing. |
| Properties.ArrayElementAt | src/index.ts:41 | Element i of a decoded array is the element codec decoded at off + i·Width(e), ending at off + (i+1)·Width(e). |
| Properties.ArrayWindowAt | src/index.ts:38-44 | Element i of an array decoded from a source is the public decode of the element codec over the i-th Width(e)-byte window. |
| Properties.ArrayFailFast | src/index.ts:41 | If element k fails after k good elements, the whole array fails with OutOfBounds, whatever its size. There is no partial array. |
| Properties.SchemaFieldAt | src/index.ts:49-52 | Entry i of a decoded record has field i's name. Its value is field i's codec decoded right after the widths of the earlier fields. |
| Properties.SchemaFailFast | src/index.ts:49-52 | If field k fails after the earlier fields decode, every record that starts with those k+1 fields fails. There is no partial record. |
| Properties.SchemaKeys | src/index.ts:49-52 | A decoded record has exactly the declared field names as keys, in declaration order. |
| Properties.SchemaExample | src/index.ts:46-55 | {a: uint8, b: int8} over [0x05, 0xFF] decodes to {a: 5, b: -1}. |
| Properties.NestedArrayExample | src/index.ts:38-55 | {a: array(2, uint8)} over [0x01, 0x02] decodes to {a: [1, 2]}. |
| Properties.InWindow | src/index.ts:18-55 | Decoding at a cursor is the public decode of the Width(c) bytes after it. The cursor then stands at the end of that window. |
| Properties.SameWindowSameValue | src/index.ts:18-55 | Two cursors followed by the same Width(c) bytes decode the same value. |
| Properties.OnlyPrefixMatters | src/index.ts:10-12 | The public decode is OutOfBounds on a source shorter than Width(c). Otherwise it is the decode of the first Width(c) bytes. |
| Properties.TrailingBytesIgnored | src/index.ts:10-12 | Appending bytes to a long-enough source does not change the result. |
| Runtime.InternalDecode | src/index.ts:18-55 | Decoding with a shared reader succeeds exactly when DecodeAt does, returns its value and leaves the cursor where DecodeAt says. Array and schema are loops, each element or field reading from the same reader. |
| Runtime.Decode | src/index.ts:10-12 | The public decode builds a reader with its cursor at 0 and returns exactly DecodeSource of the source. |

## Left out

- Choosing a reader backend with `Buffer.isBuffer` (src/index.ts:11). The two stream backends, imported as './streams/arrayBuffer' and './streams/nodeBuffer' (src/index.ts:1-2), are not part of this model. One `Reader` stands for both, so they agree by construction.
- The optional `context` argument of `internalDecode`. Nothing in the core reads it.
- The class plumbing: the abstract `Codec` class, the anonymous subclass built by `codec(...)`, and TypeScript's generic types. Each codec is one constructor of the `Codec` datatype.
- The key order of `Object.keys`. A JavaScript engine lists integer-like keys first, in ascending order. Here a schema is the ordered sequence of its fields, and that order is the decode order.
- Array sizes that are negative, not integers, or 2^32 or more. `Array(size)` throws a RangeError for these as soon as the array codec decodes, before any byte is read. Here `size` has the type `ArraySize`, the naturals below 2^32, so such a codec cannot be written and the throw is not modelled.
- Running out of call stack on deeply nested codecs.
- Duplicate field names. A JavaScript object literal cannot hold them; the model does not exclude them.
- The exception thrown on a read past the end. Its exact type and message come from the stream backends, which are not part of this model. It is modelled as the single error `OutOfBounds`, which propagates out of every enclosing codec.
- Runtime.InternalDecode: after a failure, the contract only says that the cursor has not moved backwards. The library discards the reader once a decode throws, so its final position is never observed.
- The nested calls to the public `decode` at src/index.ts:41 and :50 are modelled as shared-cursor internal decodes (see above). What that wrapping does literally depends on the stream backends, which are not part of this model.
