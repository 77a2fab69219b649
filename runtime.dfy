/**
  The decode as the library runs it: one stateful reader per call, whose
  cursor the primitive reads advance, driven through the codec tree. Each
  operation here is proved to agree with the pure, cursor-threading decoder
  of module Codecs.
 */
module Runtime {
  import opened Streams
  import opened Codecs
  import opened Properties

  /** A codec's internal decode against a shared reader. On success the
      value is the pure decoder's and the cursor stands where the pure
      decoder leaves it; on failure the pure decoder fails too. The cursor
      never moves backwards and never passes the end of the source.

      The array and schema cases decode every element and field against
      this same reader. (In the library those nested calls go through the
      public entry point, which would build a fresh reader around the
      shared one; one shared cursor is what the combinators are meant to
      do, and it is what is modelled.) */
  method InternalDecode(c: Codec, reader: Reader) returns (r: Result<Value>)
    requires reader.Valid()
    modifies reader
    decreases c
    ensures reader.Valid() && old(reader.offset) <= reader.offset
    ensures r.Ok? == DecodeAt(c, reader.bytes, old(reader.offset)).Ok?
    ensures r.Ok? ==> DecodeAt(c, reader.bytes, old(reader.offset)).value == (r.value, reader.offset)
  {
    match c {
      case UInt8 =>
        var b :- reader.ReadUint8();
        r := Ok(Num(b));
      case Int8 =>
        var b :- reader.ReadInt8();
        r := Ok(Num(b));
      case Array(n, e) =>
        // Array(size).fill(null).map(...): n decodes, in index order.
        ghost var start := reader.offset;
        var items: seq<Value> := [];
        var i := 0;
        while i < n
          invariant i <= n
          invariant reader.Valid() && start <= reader.offset
          invariant DecodeElems(i, e, reader.bytes, start) == Ok((items, reader.offset))
        {
          ElemsSnoc(i, e, reader.bytes, start);
          ElemsConcat(i + 1, n - (i + 1), e, reader.bytes, start);
          var x :- InternalDecode(e, reader);
          items := items + [x];
          i := i + 1;
        }
        r := Ok(List(items));
      case Schema(fs) =>
        // Object.keys(definition).reduce(...): fields in declaration order,
        // each added to the accumulated record.
        ghost var start := reader.offset;
        var entries: seq<Entry> := [];
        var i := 0;
        while i < |fs|
          invariant i <= |fs|
          invariant reader.Valid() && start <= reader.offset
          invariant DecodeFields(fs[..i], reader.bytes, start) == Ok((entries, reader.offset))
        {
          FieldsSnoc(fs, i, reader.bytes, start);
          assert fs == fs[..i + 1] + fs[i + 1..];
          FieldsConcat(fs[..i + 1], fs[i + 1..], reader.bytes, start);
          assert fs[i] in fs;
          var x :- InternalDecode(fs[i].codec, reader);
          entries := entries + [Entry(fs[i].name, x)];
          i := i + 1;
        }
        assert fs[..i] == fs;
        r := Ok(Record(entries));
    }
  }

  /** The public entry point: one fresh reader over the source, cursor at 0,
      then the codec's internal decode. The result is exactly the pure
      DecodeSource, so it succeeds iff the source holds `Width(c)` bytes
      and ignores whatever follows them. */
  method Decode(c: Codec, source: seq<byte>) returns (r: Result<Value>)
    ensures r == DecodeSource(c, source)
  {
    var reader := new Reader(source);
    r := InternalDecode(c, reader);
  }
}
