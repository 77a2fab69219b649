/**
  What the combinators promise about byte layout: arrays and records are
  their parts decoded back to back from one cursor, the first failure stops
  everything, and a decode looks only at the bytes its codec's width covers.

  Every lemma with parameters is marked `{:induction false}`: each is proved
  directly or by its own explicit recursive calls. The induction hypothesis
  Dafny would otherwise add on its own also speaks about ill-typed values
  (it can take one sequence to hold both an `Entry` and a `Field`), and the
  solver has used that to derive false from satisfiable preconditions.
 */
module Properties {
  import opened Streams
  import opened Codecs
  import opened Layout

  // ---------------------------------------------------------------------
  // Sequential composition
  // ---------------------------------------------------------------------

  /** Decoding `a + b` elements is decoding `a` elements and then `b` more
      from where the first run stopped; a failure in the first run is the
      result, and the second run is never started. */
  lemma {:induction false} ElemsConcat(a: nat, b: nat, e: Codec, bytes: seq<byte>, off: nat)
    requires off <= |bytes|
    ensures DecodeElems(a + b, e, bytes, off) ==
      match DecodeElems(a, e, bytes, off)
      case Err(err) => Err(err)
      case Ok(p) =>
        match DecodeElems(b, e, bytes, p.1)
        case Err(err) => Err(err)
        case Ok(q) => Ok((p.0 + q.0, q.1))
  {
    if a == 0 {
      var q := DecodeElems(b, e, bytes, off);
      if q.Ok? {
        assert [] + q.value.0 == q.value.0;
      }
    } else {
      var head := DecodeAt(e, bytes, off);
      if head.Ok? {
        ElemsConcat(a - 1, b, e, bytes, head.value.1);
        ElemsConsConcat(a, b, e, bytes, off);
      }
    }
  }

  /** The inductive step of ElemsConcat, given the claim for the run that
      starts after the first element. */
  lemma {:induction false} ElemsConsConcat(a: nat, b: nat, e: Codec, bytes: seq<byte>, off: nat)
    requires off <= |bytes| && a > 0
    requires DecodeAt(e, bytes, off).Ok?
    requires var mid := DecodeAt(e, bytes, off).value.1;
      DecodeElems(a - 1 + b, e, bytes, mid) ==
        match DecodeElems(a - 1, e, bytes, mid)
        case Err(err) => Err(err)
        case Ok(p) =>
          match DecodeElems(b, e, bytes, p.1)
          case Err(err) => Err(err)
          case Ok(q) => Ok((p.0 + q.0, q.1))
    ensures DecodeElems(a + b, e, bytes, off) ==
      match DecodeElems(a, e, bytes, off)
      case Err(err) => Err(err)
      case Ok(p) =>
        match DecodeElems(b, e, bytes, p.1)
        case Err(err) => Err(err)
        case Ok(q) => Ok((p.0 + q.0, q.1))
  {
    var (v, mid) := DecodeAt(e, bytes, off).value;
    var p := DecodeElems(a - 1, e, bytes, mid);
    if p.Ok? {
      var q := DecodeElems(b, e, bytes, p.value.1);
      if q.Ok? {
        assert [v] + (p.value.0 + q.value.0) == ([v] + p.value.0) + q.value.0;
      }
    }
  }

  lemma {:induction false} FieldsWidthConcat(a: seq<Field>, b: seq<Field>)
    ensures FieldsWidth(a + b) == FieldsWidth(a) + FieldsWidth(b)
  {
    if a == [] {
      assert a + b == b;
    } else {
      assert (a + b)[0] == a[0];
      assert (a + b)[1..] == a[1..] + b;
      FieldsWidthConcat(a[1..], b);
    }
  }

  /** Decoding the fields of `a + b` is decoding the fields of `a` and then
      those of `b` from where `a` stopped; a failure in `a` is the result,
      and no field of `b` is ever decoded. */
  lemma {:induction false} FieldsConcat(a: seq<Field>, b: seq<Field>, bytes: seq<byte>, off: nat)
    requires off <= |bytes|
    ensures DecodeFields(a + b, bytes, off) ==
      match DecodeFields(a, bytes, off)
      case Err(err) => Err(err)
      case Ok(p) =>
        match DecodeFields(b, bytes, p.1)
        case Err(err) => Err(err)
        case Ok(q) => Ok((p.0 + q.0, q.1))
  {
    if a == [] {
      assert a + b == b;
      var q := DecodeFields(b, bytes, off);
      if q.Ok? {
        assert [] + q.value.0 == q.value.0;
      }
    } else {
      assert (a + b)[0] == a[0];
      assert (a + b)[1..] == a[1..] + b;
      var head := DecodeAt(a[0].codec, bytes, off);
      if head.Ok? {
        var (v, mid) := head.value;
        FieldsConcat(a[1..], b, bytes, mid);
        var p := DecodeFields(a[1..], bytes, mid);
        if p.Ok? {
          var q := DecodeFields(b, bytes, p.value.1);
          if q.Ok? {
            var x := Entry(a[0].name, v);
            assert [x] + (p.value.0 + q.value.0) == ([x] + p.value.0) + q.value.0;
          }
        }
      }
    }
  }

  /** One more element: the run of `k` elements, then one element decoded
      from where that run stopped. */
  lemma {:induction false} ElemsSnoc(k: nat, e: Codec, bytes: seq<byte>, off: nat)
    requires off <= |bytes|
    ensures DecodeElems(k + 1, e, bytes, off) ==
      match DecodeElems(k, e, bytes, off)
      case Err(err) => Err(err)
      case Ok(p) =>
        match DecodeAt(e, bytes, p.1)
        case Err(err) => Err(err)
        case Ok(q) => Ok((p.0 + [q.0], q.1))
  {
    ElemsConcat(k, 1, e, bytes, off);
    var p := DecodeElems(k, e, bytes, off);
    if p.Ok? {
      var q := DecodeAt(e, bytes, p.value.1);
      if q.Ok? {
        assert DecodeElems(0, e, bytes, q.value.1) == Ok(([], q.value.1));
        assert [q.value.0] + [] == [q.value.0];
      }
    }
  }

  /** One more field: the fields before `i`, then field `i` decoded from
      where they stopped. */
  lemma {:induction false} FieldsSnoc(fs: seq<Field>, i: nat, bytes: seq<byte>, off: nat)
    requires off <= |bytes|
    requires i < |fs|
    ensures DecodeFields(fs[..i + 1], bytes, off) ==
      match DecodeFields(fs[..i], bytes, off)
      case Err(err) => Err(err)
      case Ok(p) =>
        match DecodeAt(fs[i].codec, bytes, p.1)
        case Err(err) => Err(err)
        case Ok(q) => Ok((p.0 + [Entry(fs[i].name, q.0)], q.1))
  {
    assert fs[..i + 1] == fs[..i] + [fs[i]];
    FieldsConcat(fs[..i], [fs[i]], bytes, off);
    var p := DecodeFields(fs[..i], bytes, off);
    if p.Ok? {
      var q := DecodeAt(fs[i].codec, bytes, p.value.1);
      assert [fs[i]][0] == fs[i] && [fs[i]][1..] == [];
      if q.Ok? {
        assert DecodeFields([], bytes, q.value.1) == Ok(([], q.value.1));
        assert [Entry(fs[i].name, q.value.0)] + [] == [Entry(fs[i].name, q.value.0)];
      }
    }
  }

  // ---------------------------------------------------------------------
  // Primitives
  // ---------------------------------------------------------------------

  /** uint8 yields the byte at the cursor, in 0..255; int8 yields its
      two's-complement reading, in -128..127; both move the cursor by one,
      and both fail with OutOfBounds when no byte is left. */
  lemma {:induction false} Primitives(bytes: seq<byte>, off: nat)
    requires off <= |bytes|
    ensures off < |bytes| ==> DecodeAt(UInt8, bytes, off) == Ok((Num(bytes[off] as int), off + 1))
    ensures off < |bytes| ==> DecodeAt(Int8, bytes, off) == Ok((Num(AsInt8(bytes[off])), off + 1))
    ensures off == |bytes| ==> DecodeAt(UInt8, bytes, off) == Err(OutOfBounds)
    ensures off == |bytes| ==> DecodeAt(Int8, bytes, off) == Err(OutOfBounds)
  {
  }

  /** 0xFF read as int8 is -1, 0x80 is -128 and 0x7F is 127. */
  lemma Int8Examples()
    ensures DecodeSource(Int8, [0xFF]) == Ok(Num(-1))
    ensures DecodeSource(Int8, [0x80]) == Ok(Num(-128))
    ensures DecodeSource(Int8, [0x7F]) == Ok(Num(127))
    ensures DecodeSource(UInt8, [0xFF]) == Ok(Num(255))
  {
  }

  // ---------------------------------------------------------------------
  // Arrays
  // ---------------------------------------------------------------------

  /** A zero-size array succeeds everywhere, even with no byte left, and
      consumes nothing. */
  lemma {:induction false} EmptyArray(e: Codec, bytes: seq<byte>, off: nat)
    requires off <= |bytes|
    ensures DecodeAt(Array(0, e), bytes, off) == Ok((List([]), off))
    ensures DecodeSource(Array(0, e), []) == Ok(List([]))
  {
  }

  /** Element `i` of a decoded array is the element codec decoded from
      `off + i * Width(e)`, ending where element `i + 1` begins: no padding
      and no gaps. */
  lemma {:induction false} ArrayElementAt(n: ArraySize, e: Codec, bytes: seq<byte>, off: nat, i: nat)
    requires off <= |bytes|
    requires DecodeAt(Array(n, e), bytes, off).Ok?
    requires i < n
    ensures off + i * Width(e) <= |bytes|
    ensures DecodeAt(e, bytes, off + i * Width(e)) ==
            Ok((DecodeAt(Array(n, e), bytes, off).value.0.items[i], off + i * Width(e) + Width(e)))
  {
    var w := Width(e);
    var items := DecodeAt(Array(n, e), bytes, off).value.0.items;
    ElemsConcat(i, n - i, e, bytes, off);
    assert i + (n - i) == n;
    var p := DecodeElems(i, e, bytes, off).value;
    var q := DecodeElems(n - i, e, bytes, p.1).value;
    assert items == p.0 + q.0;
    assert items[i] == q.0[0];
  }

  /** An array of `n` elements is `n` independent decodes of the element
      codec: element `i` of an array decoded from the start of a source is
      the public decode of the element codec over the `i`-th window of
      `Width(e)` bytes. */
  lemma {:induction false} ArrayWindowAt(n: ArraySize, e: Codec, bytes: seq<byte>, i: nat)
    requires n * Width(e) <= |bytes|
    requires i < n
    ensures DecodeSource(Array(n, e), bytes).Ok?
    ensures i * Width(e) + Width(e) <= |bytes|
    ensures DecodeSource(e, bytes[i * Width(e)..i * Width(e) + Width(e)])
         == Ok(DecodeSource(Array(n, e), bytes).value.items[i])
  {
    var w := Width(e);
    ArrayElementAt(n, e, bytes, 0, i);
    assert DecodeAt(e, bytes, i * w).Ok?;
    assert DecodeSource(Array(n, e), bytes).value == DecodeAt(Array(n, e), bytes, 0).value.0;
    InWindow(e, bytes, i * w);
  }

  /** If the first `k` elements decode and element `k` does not, the array
      fails, whatever its size beyond `k`: there is no partial array. */
  lemma {:induction false} ArrayFailFast(n: ArraySize, e: Codec, bytes: seq<byte>, off: nat, k: nat)
    requires off <= |bytes|
    requires k < n
    requires DecodeElems(k, e, bytes, off).Ok?
    requires DecodeAt(e, bytes, DecodeElems(k, e, bytes, off).value.1).Err?
    ensures DecodeAt(Array(n, e), bytes, off) == Err(OutOfBounds)
  {
    ElemsConcat(k, n - k, e, bytes, off);
    assert k + (n - k) == n;
  }

  // ---------------------------------------------------------------------
  // Schemas
  // ---------------------------------------------------------------------

  /** Field `i` of a decoded record carries the declared name and the field
      codec decoded right after the fields before it. */
  lemma {:induction false} SchemaFieldAt(fs: seq<Field>, bytes: seq<byte>, off: nat, i: nat)
    requires off <= |bytes|
    requires DecodeAt(Schema(fs), bytes, off).Ok?
    requires i < |fs|
    ensures off + FieldsWidth(fs[..i]) <= |bytes|
    ensures DecodeAt(Schema(fs), bytes, off).value.0.entries[i].key == fs[i].name
    ensures DecodeAt(fs[i].codec, bytes, off + FieldsWidth(fs[..i])) ==
            Ok((DecodeAt(Schema(fs), bytes, off).value.0.entries[i].val, off + FieldsWidth(fs[..i + 1])))
  {
    var es := DecodeAt(Schema(fs), bytes, off).value.0.entries;
    assert fs == fs[..i] + fs[i..];
    FieldsConcat(fs[..i], fs[i..], bytes, off);
    var p := DecodeFields(fs[..i], bytes, off).value;
    var q := DecodeFields(fs[i..], bytes, p.1).value;
    assert es == p.0 + q.0;
    assert es[i] == q.0[0];
    assert fs[i..][0] == fs[i];
    assert fs[..i + 1] == fs[..i] + [fs[i]];
    FieldsWidthConcat(fs[..i], [fs[i]]);
    assert FieldsWidth([fs[i]]) == Width(fs[i].codec) + FieldsWidth([]);
  }

  /** If the fields before `k` decode and field `k` does not, the record
      fails, whatever fields follow `k`: none of them is ever decoded and
      there is no partial record. */
  lemma {:induction false} SchemaFailFast(fs: seq<Field>, k: nat, rest: seq<Field>, bytes: seq<byte>, off: nat)
    requires off <= |bytes|
    requires k < |fs|
    requires DecodeFields(fs[..k], bytes, off).Ok?
    requires DecodeAt(fs[k].codec, bytes, DecodeFields(fs[..k], bytes, off).value.1).Err?
    ensures DecodeAt(Schema(fs[..k + 1] + rest), bytes, off) == Err(OutOfBounds)
  {
    var mid := DecodeFields(fs[..k], bytes, off).value.1;
    assert fs[..k + 1] + rest == fs[..k] + ([fs[k]] + rest);
    FieldsConcat(fs[..k], [fs[k]] + rest, bytes, off);
    assert ([fs[k]] + rest)[0] == fs[k];
  }

  /** The record's keys are exactly the declared field names, in order. */
  lemma {:induction false} SchemaKeys(fs: seq<Field>, bytes: seq<byte>)
    requires DecodeSource(Schema(fs), bytes).Ok?
    ensures |DecodeSource(Schema(fs), bytes).value.entries| == |fs|
    ensures forall i :: 0 <= i < |fs| ==> DecodeSource(Schema(fs), bytes).value.entries[i].key == fs[i].name
  {
  }

  /** {a: uint8, b: int8} over [0x05, 0xFF] is {a: 5, b: -1}. */
  lemma SchemaExample()
    ensures DecodeSource(Schema([Field("a", UInt8), Field("b", Int8)]), [0x05, 0xFF])
         == Ok(Record([Entry("a", Num(5)), Entry("b", Num(-1))]))
  {
    var fs: seq<Field> := [Field("a", UInt8), Field("b", Int8)];
    var bytes: seq<byte> := [0x05, 0xFF];
    assert DecodeAt(UInt8, bytes, 0) == Ok((Num(5), 1));
    assert DecodeAt(Int8, bytes, 1) == Ok((Num(-1), 2));
    assert fs[1..][1..] == [];
    assert DecodeFields(fs[1..][1..], bytes, 2) == Ok(([], 2));
    assert [Entry("b", Num(-1))] + [] == [Entry("b", Num(-1))];
    assert DecodeFields(fs[1..], bytes, 1) == Ok(([Entry("b", Num(-1))], 2));
    assert [Entry("a", Num(5))] + [Entry("b", Num(-1))] == [Entry("a", Num(5)), Entry("b", Num(-1))];
    assert DecodeFields(fs, bytes, 0) == Ok(([Entry("a", Num(5)), Entry("b", Num(-1))], 2));
  }

  /** {a: array(2, uint8)} over [1, 2] is {a: [1, 2]}. */
  lemma NestedArrayExample()
    ensures DecodeSource(Schema([Field("a", Array(2, UInt8))]), [0x01, 0x02])
         == Ok(Record([Entry("a", List([Num(1), Num(2)]))]))
  {
    var bytes: seq<byte> := [0x01, 0x02];
    assert DecodeAt(UInt8, bytes, 0) == Ok((Num(1), 1));
    assert DecodeAt(UInt8, bytes, 1) == Ok((Num(2), 2));
    assert DecodeElems(0, UInt8, bytes, 2) == Ok(([], 2));
    assert [Num(2)] + [] == [Num(2)];
    assert DecodeElems(1, UInt8, bytes, 1) == Ok(([Num(2)], 2));
    assert [Num(1)] + [Num(2)] == [Num(1), Num(2)];
    assert DecodeElems(2, UInt8, bytes, 0) == Ok(([Num(1), Num(2)], 2));
    assert DecodeAt(Array(2, UInt8), bytes, 0) == Ok((List([Num(1), Num(2)]), 2));
    var fs: seq<Field> := [Field("a", Array(2, UInt8))];
    assert fs[0].codec == Array(2, UInt8) && fs[1..] == [];
    assert DecodeFields(fs[1..], bytes, 2) == Ok(([], 2));
    assert [Entry("a", List([Num(1), Num(2)]))] + [] == [Entry("a", List([Num(1), Num(2)]))];
    assert DecodeFields(fs, bytes, 0) == Ok(([Entry("a", List([Num(1), Num(2)]))], 2));
  }

  // ---------------------------------------------------------------------
  // Only the codec's own bytes matter
  // ---------------------------------------------------------------------

  /** Decoding at `off` is the public decode of the `Width(c)`-byte window
      that starts there, with the cursor moved past the window. */
  lemma {:induction false} InWindow(c: Codec, bytes: seq<byte>, off: nat)
    requires off + Width(c) <= |bytes|
    ensures DecodeAt(c, bytes, off) == Ok((DecodeSource(c, bytes[off..off + Width(c)]).value, off + Width(c)))
  {
    var window := bytes[off..off + Width(c)];
    var v := DecodeAt(c, bytes, off).value.0;
    DecodeThenEncode(c, bytes, off);
    assert window[0..Width(c)] == window;
    EncodeThenDecode(c, v, window, 0);
  }

  /** Two cursors whose next `Width(c)` bytes agree decode the same value. */
  lemma {:induction false} SameWindowSameValue(c: Codec, b1: seq<byte>, off1: nat, b2: seq<byte>, off2: nat)
    requires off1 + Width(c) <= |b1| && off2 + Width(c) <= |b2|
    requires b1[off1..off1 + Width(c)] == b2[off2..off2 + Width(c)]
    ensures DecodeAt(c, b1, off1).value.0 == DecodeAt(c, b2, off2).value.0
  {
    InWindow(c, b1, off1);
    InWindow(c, b2, off2);
  }

  /** The public decode depends on the first `Width(c)` bytes only: with
      fewer it fails, otherwise everything after them is ignored. */
  lemma {:induction false} OnlyPrefixMatters(c: Codec, bytes: seq<byte>)
    ensures DecodeSource(c, bytes) ==
      if |bytes| < Width(c) then Err(OutOfBounds) else DecodeSource(c, bytes[..Width(c)])
  {
    if Width(c) <= |bytes| {
      InWindow(c, bytes, 0);
      InWindow(c, bytes[..Width(c)], 0);
      assert bytes[..Width(c)][0..Width(c)] == bytes[0..Width(c)];
    }
  }

  /** Appending bytes to a source that is long enough changes nothing. */
  lemma {:induction false} TrailingBytesIgnored(c: Codec, bytes: seq<byte>, extra: seq<byte>)
    requires Width(c) <= |bytes|
    ensures DecodeSource(c, bytes + extra) == DecodeSource(c, bytes)
  {
    OnlyPrefixMatters(c, bytes);
    OnlyPrefixMatters(c, bytes + extra);
    assert (bytes + extra)[..Width(c)] == bytes[..Width(c)];
  }
}
