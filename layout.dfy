/**
  The byte layout a decoded value occupies. The library only decodes; this
  module writes down, as a specification, which bytes a value of a codec's
  shape stands for: a primitive is one byte, an array is its elements'
  layouts back to back, a record is its fields' layouts back to back in
  declaration order, with no padding anywhere.

  The two round-trip lemmas show that decoding is exactly the inverse of
  this layout: every value of the codec's shape is decoded from its layout,
  and every successful decode reads back precisely the layout of what it
  returned. Everything about windows and trailing bytes follows from them.

  Every lemma with parameters is marked `{:induction false}`: each is proved
  directly or by its own explicit recursive calls. The induction hypothesis
  Dafny would otherwise add on its own also speaks about ill-typed values
  (it can take one sequence to hold both an `Entry` and a `Field`), and the
  solver has used that to derive false from satisfiable preconditions.
 */
module Layout {
  import opened Streams
  import opened Codecs

  /** The unique byte of an 8-bit value, unsigned or two's-complement. */
  function ByteOf(n: int): byte
    requires -128 <= n < 256
  {
    (if n < 0 then n + 256 else n) as byte
  }

  lemma {:induction false} ByteOfUnsigned(n: int)
    requires 0 <= n < 256
    ensures ByteOf(n) as int == n
  {
  }

  lemma {:induction false} ByteOfSigned(n: int)
    requires -128 <= n < 128
    ensures AsInt8(ByteOf(n)) == n
  {
    if n < 0 {
      ByteOfUnsigned(n + 256);
      assert ByteOf(n) == ByteOf(n + 256);
    } else {
      ByteOfUnsigned(n);
    }
  }

  lemma {:induction false} ByteOfRead(b: byte)
    ensures ByteOf(b as int) == b && ByteOf(AsInt8(b)) == b
  {
  }

  lemma {:induction false} MulSucc(k: nat, w: nat)
    requires k > 0
    ensures k * w == w + (k - 1) * w
  {
  }

  lemma {:induction false} LengthTimes(vs: seq<Value>, w: nat)
    requires vs != []
    ensures |vs| * w == w + |vs[1..]| * w
  {
    MulSucc(|vs|, w);
  }

  /** A window that holds two layouts back to back holds each in its part. */
  lemma {:induction false} SplitWindow(bytes: seq<byte>, off: nat, n: nat, w: nat, m: nat, a: seq<byte>, b: seq<byte>)
    requires n == w + m && off + n <= |bytes|
    requires |a| == w
    requires bytes[off..off + n] == a + b
    ensures bytes[off..off + w] == a
    ensures bytes[off + w..off + w + m] == b
  {
    assert bytes[off..off + w] == bytes[off..off + w + m][..w];
    assert bytes[off + w..off + w + m] == bytes[off..off + w + m][w..];
  }

  lemma {:induction false} JoinWindow(bytes: seq<byte>, off: nat, w: nat, m: nat)
    requires off + w + m <= |bytes|
    ensures bytes[off..off + w + m] == bytes[off..off + w] + bytes[off + w..off + w + m]
  {
  }

  ghost function Encode(c: Codec, v: Value): (s: seq<byte>)
    requires Conforms(v, c)
    decreases c, 0
    ensures |s| == Width(c)
  {
    match c
    case UInt8 => [ByteOf(v.n)]
    case Int8 => [ByteOf(v.n)]
    case Array(n, e) => EncodeItems(e, v.items)
    case Schema(fs) => EncodeEntries(fs, v.entries)
  }

  ghost function EncodeItems(e: Codec, vs: seq<Value>): (s: seq<byte>)
    requires ItemsConform(vs, e)
    decreases e, |vs|
    ensures |s| == |vs| * Width(e)
  {
    if vs == [] then []
    else
      assert |vs| * Width(e) == Width(e) + (|vs| - 1) * Width(e);
      Encode(e, vs[0]) + EncodeItems(e, vs[1..])
  }

  ghost function EncodeEntries(fs: seq<Field>, es: seq<Entry>): (s: seq<byte>)
    requires EntriesConform(es, fs)
    decreases fs, 0
    ensures |s| == FieldsWidth(fs)
  {
    if fs == [] then []
    else Encode(fs[0].codec, es[0].val) + EncodeEntries(fs[1..], es[1..])
  }

  /** Every value of the codec's shape is decoded from its own layout, and
      the cursor ends right after it. */
  lemma {:induction false} EncodeThenDecode(c: Codec, v: Value, bytes: seq<byte>, off: nat)
    requires Conforms(v, c)
    requires off + Width(c) <= |bytes|
    requires bytes[off..off + Width(c)] == Encode(c, v)
    decreases c, 0
    ensures DecodeAt(c, bytes, off) == Ok((v, off + Width(c)))
  {
    match c
    case UInt8 =>
      assert bytes[off] == ByteOf(v.n);
      ByteOfUnsigned(v.n);
    case Int8 =>
      assert bytes[off] == ByteOf(v.n);
      ByteOfSigned(v.n);
    case Array(n, e) =>
      ItemsEncodeThenDecode(e, v.items, bytes, off);
    case Schema(fs) =>
      EntriesEncodeThenDecode(fs, v.entries, bytes, off);
  }

  lemma {:induction false} ItemsEncodeThenDecode(e: Codec, vs: seq<Value>, bytes: seq<byte>, off: nat)
    requires ItemsConform(vs, e)
    requires off + |vs| * Width(e) <= |bytes|
    requires bytes[off..off + |vs| * Width(e)] == EncodeItems(e, vs)
    decreases e, |vs|
    ensures DecodeElems(|vs|, e, bytes, off) == Ok((vs, off + |vs| * Width(e)))
  {
    if vs != [] {
      var w, tail := Width(e), vs[1..];
      ItemsConformCons(vs, e);
      ItemsWindows(e, vs, bytes, off);
      LengthTimes(vs, w);
      EncodeThenDecode(e, vs[0], bytes, off);
      ItemsEncodeThenDecode(e, tail, bytes, off + w);
      ElemsCons(|tail|, e, bytes, off, vs[0], off + w, tail, off + w + |tail| * w);
      assert [vs[0]] + tail == vs;
    }
  }

  /** The window of an array layout splits into the first element's layout
      and the rest's. */
  lemma {:induction false} ItemsWindows(e: Codec, vs: seq<Value>, bytes: seq<byte>, off: nat)
    requires vs != [] && ItemsConform(vs, e)
    requires off + |vs| * Width(e) <= |bytes|
    requires bytes[off..off + |vs| * Width(e)] == EncodeItems(e, vs)
    ensures bytes[off..off + Width(e)] == Encode(e, vs[0])
    ensures bytes[off + Width(e)..off + Width(e) + |vs[1..]| * Width(e)] == EncodeItems(e, vs[1..])
  {
    LengthTimes(vs, Width(e));
    EncodeItemsCons(e, vs);
    SplitWindow(bytes, off, |vs| * Width(e), Width(e), |vs[1..]| * Width(e), Encode(e, vs[0]), EncodeItems(e, vs[1..]));
  }

  lemma {:induction false} EncodeItemsCons(e: Codec, vs: seq<Value>)
    requires vs != [] && ItemsConform(vs, e)
    ensures Conforms(vs[0], e) && ItemsConform(vs[1..], e)
    ensures EncodeItems(e, vs) == Encode(e, vs[0]) + EncodeItems(e, vs[1..])
  {
    ItemsConformCons(vs, e);
  }

  lemma {:induction false} EntriesEncodeThenDecode(fs: seq<Field>, es: seq<Entry>, bytes: seq<byte>, off: nat)
    requires EntriesConform(es, fs)
    requires off + FieldsWidth(fs) <= |bytes|
    requires bytes[off..off + FieldsWidth(fs)] == EncodeEntries(fs, es)
    decreases fs, 0
    ensures DecodeFields(fs, bytes, off) == Ok((es, off + FieldsWidth(fs)))
  {
    if fs != [] {
      var w, m := Width(fs[0].codec), FieldsWidth(fs[1..]);
      EntriesConformCons(es, fs);
      SplitWindow(bytes, off, FieldsWidth(fs), w, m, Encode(fs[0].codec, es[0].val), EncodeEntries(fs[1..], es[1..]));
      EncodeThenDecode(fs[0].codec, es[0].val, bytes, off);
      EntriesEncodeThenDecode(fs[1..], es[1..], bytes, off + w);
      FieldsCons(fs, bytes, off, es[0].val, off + w, es[1..], off + w + m);
      assert [Entry(fs[0].name, es[0].val)] + es[1..] == es;
    }
  }

  /** A successful decode reads back exactly the layout of the value it
      returns: the bytes from the old cursor to the new one. */
  lemma {:induction false} DecodeThenEncode(c: Codec, bytes: seq<byte>, off: nat)
    requires off <= |bytes|
    requires DecodeAt(c, bytes, off).Ok?
    decreases c, 0
    ensures Encode(c, DecodeAt(c, bytes, off).value.0) == bytes[off..off + Width(c)]
  {
    match c
    case UInt8 =>
      ByteOfRead(bytes[off]);
    case Int8 =>
      ByteOfRead(bytes[off]);
    case Array(n, e) =>
      ItemsDecodeThenEncode(n, e, bytes, off);
    case Schema(fs) =>
      EntriesDecodeThenEncode(fs, bytes, off);
  }

  lemma {:induction false} ItemsDecodeThenEncode(k: nat, e: Codec, bytes: seq<byte>, off: nat)
    requires off <= |bytes|
    requires DecodeElems(k, e, bytes, off).Ok?
    decreases e, k
    ensures EncodeItems(e, DecodeElems(k, e, bytes, off).value.0) == bytes[off..off + k * Width(e)]
  {
    if k > 0 {
      var w := Width(e);
      var m := (k - 1) * w;
      MulSucc(k, w);
      var p := DecodeAt(e, bytes, off).value;
      var q := DecodeElems(k - 1, e, bytes, off + w).value;
      assert DecodeElems(k, e, bytes, off).value.0 == [p.0] + q.0;
      DecodeThenEncode(e, bytes, off);
      ItemsDecodeThenEncode(k - 1, e, bytes, off + w);
      assert ([p.0] + q.0)[1..] == q.0;
      JoinWindow(bytes, off, w, m);
    }
  }


  /** The layouts of the first field and of the rest, found back to back,
      make the layout of the whole record. */
  lemma {:induction false} EntriesJoin(fs: seq<Field>, es: seq<Entry>, bytes: seq<byte>, off: nat)
    requires fs != [] && EntriesConform(es, fs)
    requires off + FieldsWidth(fs) <= |bytes|
    requires Encode(fs[0].codec, es[0].val) == bytes[off..off + Width(fs[0].codec)]
    requires EncodeEntries(fs[1..], es[1..]) ==
      bytes[off + Width(fs[0].codec)..off + Width(fs[0].codec) + FieldsWidth(fs[1..])]
    ensures EncodeEntries(fs, es) == bytes[off..off + FieldsWidth(fs)]
  {
    var w, m := Width(fs[0].codec), FieldsWidth(fs[1..]);
    assert EncodeEntries(fs, es) == Encode(fs[0].codec, es[0].val) + EncodeEntries(fs[1..], es[1..]);
    JoinWindow(bytes, off, w, m);
  }

  lemma {:induction false} EntriesDecodeThenEncode(fs: seq<Field>, bytes: seq<byte>, off: nat)
    requires off <= |bytes|
    requires DecodeFields(fs, bytes, off).Ok?
    decreases fs, 0
    ensures EncodeEntries(fs, DecodeFields(fs, bytes, off).value.0) == bytes[off..off + FieldsWidth(fs)]
  {
    if fs != [] {
      var c, w := fs[0].codec, Width(fs[0].codec);
      assert FieldsWidth(fs) == w + FieldsWidth(fs[1..]);
      var p := DecodeAt(c, bytes, off).value;
      var q := DecodeFields(fs[1..], bytes, off + w).value;
      FieldsCons(fs, bytes, off, p.0, p.1, q.0, q.1);
      var es := [Entry(fs[0].name, p.0)] + q.0;
      assert es[0].val == p.0 && es[1..] == q.0;
      DecodeThenEncode(c, bytes, off);
      EntriesDecodeThenEncode(fs[1..], bytes, off + w);
      EntriesJoin(fs, es, bytes, off);
    }
  }
}
