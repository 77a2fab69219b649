/**
  The codec algebra: two primitive leaves (uint8, int8), the fixed-size
  array combinator and the record ("schema") combinator, with the decoder
  that runs a codec against a byte cursor.

  The decoder threads the cursor through explicitly: `DecodeAt(c, bytes, off)`
  is what a codec's internal decode does to a reader whose cursor stands at
  `off`, returning the value and the cursor afterwards. Every element and
  every field is decoded against the SAME cursor, left to right.

  In the library the nested calls of the array and schema combinators go
  through the public `decode` entry point rather than the internal one,
  which would hand the element codec a fresh reader built around the shared
  one; the evident intent, and what is modelled here, is one shared cursor.

  Every lemma with parameters is marked `{:induction false}`: each is proved
  directly or by its own explicit recursive calls. The induction hypothesis
  Dafny would otherwise add on its own also speaks about ill-typed values
  (it can take one sequence to hold both an `Entry` and a `Field`), and the
  solver has used that to derive false from satisfiable preconditions.
 */
module Codecs {
  import opened Streams

  /** The sizes `Array(size)` accepts: a JavaScript array length is an
      integer below 2^32; any other size throws before a byte is read. */
  type ArraySize = n: nat | n < 0x1_0000_0000

  datatype Codec =
    | UInt8
    | Int8
    | Array(size: ArraySize, elem: Codec)
    | Schema(fields: seq<Field>)

  /** One declared field of a schema; declaration order is byte order. */
  datatype Field = Field(name: string, codec: Codec)

  /** What decoding produces: a number, an array of values, or a record
      whose entries keep the order in which the fields were declared. */
  datatype Value =
    | Num(n: int)
    | List(items: seq<Value>)
    | Record(entries: seq<Entry>)

  datatype Entry = Entry(key: string, val: Value)

  /** The exact number of bytes a codec consumes. */
  function Width(c: Codec): nat
    decreases c
  {
    match c
    case UInt8 => 1
    case Int8 => 1
    case Array(n, e) => n * Width(e)
    case Schema(fs) => FieldsWidth(fs)
  }

  function FieldsWidth(fs: seq<Field>): nat
    decreases fs
  {
    if fs == [] then 0 else Width(fs[0].codec) + FieldsWidth(fs[1..])
  }

  /** `v` has the shape `c` promises: primitives in their numeric range,
      arrays of exactly `size` elements, records with exactly the declared
      keys in declaration order. */
  predicate Conforms(v: Value, c: Codec)
    decreases c, 0
  {
    match c
    case UInt8 => v.Num? && 0 <= v.n < 256
    case Int8 => v.Num? && -128 <= v.n < 128
    case Array(n, e) => v.List? && |v.items| == n && ItemsConform(v.items, e)
    case Schema(fs) => v.Record? && EntriesConform(v.entries, fs)
  }

  predicate ItemsConform(vs: seq<Value>, e: Codec)
    decreases e, 1
  {
    forall i :: 0 <= i < |vs| ==> Conforms(vs[i], e)
  }

  predicate EntriesConform(es: seq<Entry>, fs: seq<Field>)
    decreases fs, 1
  {
    |es| == |fs| &&
    forall i :: 0 <= i < |fs| ==> es[i].key == fs[i].name && Conforms(es[i].val, fs[i].codec)
  }

  /** The internal decode of `c` with the cursor at `off` (a reader's cursor
      never stands past the end of its source). It succeeds exactly
      when `Width(c)` bytes remain, and then it moves the cursor by exactly
      `Width(c)` and yields a value of the codec's shape. */
  function DecodeAt(c: Codec, bytes: seq<byte>, off: nat): (r: Result<(Value, nat)>)
    requires off <= |bytes|
    decreases c, 0
    ensures r.Ok? <==> off + Width(c) <= |bytes|
    ensures r.Ok? ==> r.value.1 == off + Width(c) && Conforms(r.value.0, c)
  {
    match c
    case UInt8 =>
      var p :- ReadByte(bytes, off);
      Ok((Num(p.0 as int), p.1))
    case Int8 =>
      var p :- ReadByte(bytes, off);
      Ok((Num(AsInt8(p.0)), p.1))
    case Array(n, e) =>
      var p :- DecodeElems(n, e, bytes, off);
      Ok((List(p.0), p.1))
    case Schema(fs) =>
      var p :- DecodeFields(fs, bytes, off);
      Ok((Record(p.0), p.1))
  }

  /** `k` elements of codec `e`, one after the other from `off`; the first
      failure stops the whole run. */
  function DecodeElems(k: nat, e: Codec, bytes: seq<byte>, off: nat): (r: Result<(seq<Value>, nat)>)
    requires off <= |bytes|
    decreases e, k
    ensures r.Ok? <==> off + k * Width(e) <= |bytes|
    ensures r.Ok? ==> r.value.1 == off + k * Width(e) && |r.value.0| == k && ItemsConform(r.value.0, e)
  {
    if k == 0 then Ok(([], off))
    else
      assert k * Width(e) == Width(e) + (k - 1) * Width(e);
      var p :- DecodeAt(e, bytes, off);
      var q :- DecodeElems(k - 1, e, bytes, p.1);
      Ok(([p.0] + q.0, q.1))
  }

  /** The fields in declaration order, each from the cursor the previous
      one left; the first failure stops the whole record. */
  function DecodeFields(fs: seq<Field>, bytes: seq<byte>, off: nat): (r: Result<(seq<Entry>, nat)>)
    requires off <= |bytes|
    decreases fs, 0
    ensures r.Ok? <==> off + FieldsWidth(fs) <= |bytes|
    ensures r.Ok? ==> r.value.1 == off + FieldsWidth(fs) && EntriesConform(r.value.0, fs)
  {
    if fs == [] then Ok(([], off))
    else
      var p :- DecodeAt(fs[0].codec, bytes, off);
      var q :- DecodeFields(fs[1..], bytes, p.1);
      Ok(([Entry(fs[0].name, p.0)] + q.0, q.1))
  }

  /** One successful step of DecodeElems: an element, then `k` more. */
  lemma {:induction false} ElemsCons(k: nat, e: Codec, bytes: seq<byte>, off: nat, v: Value, mid: nat, vs: seq<Value>, end: nat)
    requires off <= |bytes|
    requires DecodeAt(e, bytes, off) == Ok((v, mid))
    requires mid <= |bytes| && DecodeElems(k, e, bytes, mid) == Ok((vs, end))
    ensures DecodeElems(k + 1, e, bytes, off) == Ok(([v] + vs, end))
  {
  }

  /** One successful step of DecodeFields: the first field, then the rest. */
  lemma {:induction false} FieldsCons(fs: seq<Field>, bytes: seq<byte>, off: nat, v: Value, mid: nat, es: seq<Entry>, end: nat)
    requires off <= |bytes| && fs != []
    requires DecodeAt(fs[0].codec, bytes, off) == Ok((v, mid))
    requires mid <= |bytes| && DecodeFields(fs[1..], bytes, mid) == Ok((es, end))
    ensures DecodeFields(fs, bytes, off) == Ok(([Entry(fs[0].name, v)] + es, end))
  {
  }

  lemma {:induction false} ItemsConformCons(vs: seq<Value>, e: Codec)
    requires vs != [] && ItemsConform(vs, e)
    ensures Conforms(vs[0], e) && ItemsConform(vs[1..], e)
  {
    assert forall i :: 0 <= i < |vs| - 1 ==> vs[1..][i] == vs[i + 1];
  }

  lemma {:induction false} EntriesConformCons(es: seq<Entry>, fs: seq<Field>)
    requires fs != [] && EntriesConform(es, fs)
    ensures es[0].key == fs[0].name && Conforms(es[0].val, fs[0].codec) && EntriesConform(es[1..], fs[1..])
  {
    assert forall i :: 0 <= i < |fs| - 1 ==> es[1..][i] == es[i + 1] && fs[1..][i] == fs[i + 1];
  }

  /** The public decode: one reader over the whole source, cursor at 0.
      Trailing bytes after the codec's width are not an error. */
  function DecodeSource(c: Codec, bytes: seq<byte>): (r: Result<Value>)
    ensures r.Ok? <==> Width(c) <= |bytes|
    ensures r.Ok? ==> Conforms(r.value, c)
  {
    var p :- DecodeAt(c, bytes, 0);
    Ok(p.0)
  }
}
