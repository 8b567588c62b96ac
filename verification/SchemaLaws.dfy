/** The encodings that no reader is generated for, by their relation to those that have one
    (tezos/encoding/src/binary_writer.rs). */
module SchemaLaws {
  import opened Basics
  import opened Bytes
  import opened ZarithLoops
  import opened Encoder
  import S = Schema

  type V = S.Value

  /** The items of a tuple as fields of a record. */
  function Named(names: seq<string>, items: seq<V>): (r: seq<S.FieldValue>)
    requires |items| <= |names|
    ensures |r| == |items| && forall i :: 0 <= i < |items| ==> r[i] == S.FieldValue(names[i], items[i])
  {
    seq(|items|, i requires 0 <= i < |items| => S.FieldValue(names[i], items[i]))
  }

  function NamedEncodings(names: seq<string>, encodings: seq<S.Encoding>): (r: seq<S.Field>)
    requires |encodings| == |names|
    ensures |r| == |encodings| && forall i :: 0 <= i < |encodings| ==> r[i] == S.Field(names[i], encodings[i])
  {
    seq(|encodings|, i requires 0 <= i < |encodings| => S.Field(names[i], encodings[i]))
  }

  ghost predicate Distinct(names: seq<string>) {
    forall i, j :: 0 <= i < j < |names| ==> names[i] != names[j]
  }

  lemma {:induction false} FoundInPlace(names: seq<string>, items: seq<V>, k: nat)
    requires Distinct(names) && |items| <= |names| && k < |names|
    ensures S.FindValue(names[k], Named(names, items)) == if k < |items| then Some(items[k]) else None
    decreases |items|
  {
    if items != [] {
      assert Named(names, items)[1..] == Named(names[1..], items[1..]);
      if k > 0 { FoundInPlace(names[1..], items[1..], k - 1); }
    }
  }

  /** From item `k` on, a tuple is written like a record. */
  lemma {:induction false} TupleFrom(names: seq<string>, encodings: seq<S.Encoding>, items: seq<V>, k: nat)
    requires Distinct(names) && |encodings| == |names| && |items| <= |names| && k <= |items|
    ensures EncodeTuple(items[k..], encodings[k..])
         == EncodeRecord(Named(names, items), NamedEncodings(names, encodings)[k..])
    decreases |names| - k
  {
    hide Encode, S.FindValue;
    var schema := NamedEncodings(names, encodings);
    if k < |names| {
      FoundInPlace(names, items, k);
      assert schema[k..][0] == schema[k] && schema[k..][1..] == schema[k + 1..];
      assert encodings[k..][0] == encodings[k] && encodings[k..][1..] == encodings[k + 1..];
      if k < |items| {
        assert items[k..][0] == items[k] && items[k..][1..] == items[k + 1..];
        TupleFrom(names, encodings, items, k + 1);
      }
    }
  }

  /** A tuple is written like the record of its items under any distinct names, and one that is too
      short is an error like a record with a field missing. */
  lemma TupleIsRecord(name: string, names: seq<string>, encodings: seq<S.Encoding>, items: seq<V>)
    requires Distinct(names) && |encodings| == |names| && |items| <= |names|
    ensures Encode(V.Tuple(items), S.Encoding.Tup(encodings))
         == Encode(V.Record(Named(names, items)), S.Encoding.Obj(name, NamedEncodings(names, encodings)))
  {
    hide EncodeTuple, EncodeRecord;
    TupleFrom(names, encodings, items, 0);
    var schema := NamedEncodings(names, encodings);
    assert items[0..] == items && encodings[0..] == encodings && schema[0..] == schema;
  }

  lemma OptionIs(inner: S.Encoding, v: V)
    ensures Encode(v, S.Encoding.Option(inner))
         == if !v.Opt? then Err else if v.inner.Some? then Prepend([1], Encode(v.inner.value, inner)) else Ok([0])
  {
    hide EncodeTag, EncodeList, EncodeRecord, EncodeTuple, NumberBytes, Framed, RawBytes, EncodeZText, Prepend;
  }

  lemma OptionalFieldIs(inner: S.Encoding, v: V)
    ensures Encode(v, S.Encoding.OptionalField(inner))
         == if !v.Opt? then Err else if v.inner.Some? then Prepend([0xFF], Encode(v.inner.value, inner)) else Ok([0])
  {
    hide EncodeTag, EncodeList, EncodeRecord, EncodeTuple, NumberBytes, Framed, RawBytes, EncodeZText, Prepend;
  }

  /** The two kinds of options accept the same values and write the same payload; an option starts with
      1 where an optional field starts with 255, and both are 0 for nothing. */
  lemma OptionKinds(inner: S.Encoding, v: V)
    ensures var a, b := Encode(v, S.Encoding.Option(inner)), Encode(v, S.Encoding.OptionalField(inner));
            && a.Ok? == b.Ok?
            && (a.Ok? ==>
                  && v.Opt? && a.value != [] && b.value != [] && a.value[1..] == b.value[1..]
                  && (v.inner.Some? ==> a.value[0] == 1 && b.value[0] == 0xFF && Ok(a.value[1..]) == Encode(v.inner.value, inner))
                  && (v.inner.None? ==> a.value == b.value == [0]))
  {
    hide Encode;
    OptionIs(inner, v);
    OptionalFieldIs(inner, v);
    if v.Opt? && v.inner.Some? && Encode(v.inner.value, inner).Ok? {
      var bs := Encode(v.inner.value, inner).value;
      assert ([1] + bs)[1..] == bs && ([0xFF] + bs)[1..] == bs;
    }
  }

  /** A greedy block is its contents. */
  lemma GreedyIsContents(inner: S.Encoding, v: V)
    ensures Encode(v, S.Encoding.Greedy(inner)) == Encode(v, inner)
  {
    hide Encode;
    FramedStep(v, S.Encoding.Greedy(inner));
  }

  /** An ordinal is written like a byte, and is an error from 256 on. */
  lemma OrdinalIsByte(variant: Option<string>, ordinal: Option<nat>)
    ensures Encode(V.Enum(variant, ordinal), S.Encoding.Enum)
         == if ordinal.Some? && ordinal.value < 256 then Encode(V.Uint8(ordinal.value), S.Encoding.Uint8) else Err
  {
    hide EncodeTag, EncodeList, EncodeRecord, EncodeTuple, Framed, RawBytes, EncodeZText, ToBE;
    if ordinal.Some? && ordinal.value < 256 { ByteOf(ordinal.value); }
  }

  lemma ByteOf(b: byte)
    ensures ToBE(1, b) == [b]
  {
    assert ToBE(0, b / 256) == [];
  }
}
