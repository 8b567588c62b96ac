/** Writing and reading back: the generated reader inverts the generated schema. */
module RoundTrip {
  import opened Basics
  import opened Bytes
  import opened Nom
  import opened Zarith
  import opened ZarithLoops
  import opened Utf8
  import opened Encoder
  import opened NomReader
  import opened Shapes
  import S = Schema

  type V = S.Value

  // ----- leaves -----

  lemma PrimitiveRoundTrip(kind: S.Primitive, v: V, suffix: seq<byte>)
    requires NumberOk(v) && Encode(v, S.PrimitiveEncoding(kind)).Ok?
    ensures ReadPrimitive(kind, Encode(v, S.PrimitiveEncoding(kind)).value + suffix) == Done(v, suffix)
  {
    var bs := Encode(v, S.PrimitiveEncoding(kind)).value;
    assert |bs| == Width(kind) by { PrimitiveWidth(kind, v); }
    var input := bs + suffix;
    assert input[..Width(kind)] == bs && input[Width(kind)..] == suffix;
    PrimitiveBack(kind, v);
  }

  lemma PrimitiveWidth(kind: S.Primitive, v: V)
    requires Encode(v, S.PrimitiveEncoding(kind)).Ok?
    ensures |Encode(v, S.PrimitiveEncoding(kind)).value| == Width(kind)
  {
    hide ToBE;
  }

  lemma PrimitiveBack(kind: S.Primitive, v: V)
    requires NumberOk(v) && Encode(v, S.PrimitiveEncoding(kind)).Ok?
    requires |Encode(v, S.PrimitiveEncoding(kind)).value| == Width(kind)
    ensures PrimitiveValue(kind, Encode(v, S.PrimitiveEncoding(kind)).value) == Some(v)
  {
    hide ToBE, FromBE, Bytes.Signed, Pow256;
    SmallPowers();
    match kind
    case Int8 => SignedRoundTrip(1, v.i);
    case Uint8 => FromToBE(1, v.i);
    case Int16 => SignedRoundTrip(2, v.i);
    case Uint16 => FromToBE(2, v.i);
    case Int31 => SignedRoundTrip(4, v.i);
    case Int32 => SignedRoundTrip(4, v.i);
    case Uint32 => FromToBE(4, v.i);
    case Int64 => SignedRoundTrip(8, v.i);
    case Timestamp => SignedRoundTrip(8, v.i);
    case Bool =>
  }

  lemma {:induction false} RawBack(items: seq<V>)
    requires RawBytes(items).Ok? && forall i :: 0 <= i < |items| ==> NumberOk(items[i])
    ensures Items(RawBytes(items).value) == items
  {
    if items != [] {
      RawBack(items[1..]);
      var bs := RawBytes(items).value;
      assert bs == [items[0].i % 256] + RawBytes(items[1..]).value;
      assert Pow256(1) == 256;
      assert NumberOk(items[0]);
    }
  }

  lemma PrefixBack(bs: seq<byte>, suffix: seq<byte>)
    requires |bs| < U32_LIMIT
    ensures var input := LengthPrefixed(bs) + suffix;
            && |input| >= 4 + |bs|
            && FromBE(input[..4]) == |bs|
            && input[4..4 + |bs|] == bs
            && input[4 + |bs|..] == suffix
  {
    hide ToBE, FromBE;
    SmallPowers();
    FromToBE(4, |bs|);
    var input := LengthPrefixed(bs) + suffix;
    assert input[..4] == ToBE(4, |bs|);
  }

  /** Text whose length fits the prefix and the bound comes back. */
  lemma TextRoundTrip(limit: Option<nat>, s: seq<byte>, suffix: seq<byte>)
    requires IsText(s) && (limit.Some? ==> |s| <= limit.value) && |s| < U32_LIMIT
    ensures ReadText(limit, LengthPrefixed(s) + suffix) == Done(S.Value.Str(s), suffix)
  {
    hide FromBE, IsUtf8, IsText, LengthPrefixed;
    Utf8Iff(s);
    PrefixBack(s, suffix);
  }

  /** Longer text is written, bounded or not, with its length cut to 32 bits, and does not come back. */
  lemma LongTextIsLost(limit: Option<nat>, s: seq<byte>, suffix: seq<byte>)
    requires |s| >= U32_LIMIT && (limit.Some? ==> |s| <= limit.value)
    ensures Encode(S.Value.Str(s), S.Gen(S.Ir.Text(limit))) == Ok(LengthPrefixed(s))
    ensures ReadText(limit, LengthPrefixed(s) + suffix) != Done(S.Value.Str(s), suffix)
  {
    hide ToBE, FromBE, IsUtf8;
    SmallPowers();
    var input := LengthPrefixed(s) + suffix;
    assert FromBE(input[..4]) < Pow256(4);
  }

  /** Bytes that are no text are written, and an error on reading. */
  lemma OtherBytesAreRefused(limit: Option<nat>, s: seq<byte>, suffix: seq<byte>)
    requires !IsText(s) && |s| < U32_LIMIT
    ensures ReadText(limit, LengthPrefixed(s) + suffix) == Error
  {
    hide FromBE, IsUtf8, IsText, LengthPrefixed;
    Utf8Iff(s);
    PrefixBack(s, suffix);
  }

  /** A string that the writer accepts comes back exactly when it is text and its length fits the
      prefix. */
  lemma TextComesBackIff(limit: Option<nat>, s: seq<byte>, suffix: seq<byte>)
    requires Encode(S.Value.Str(s), S.Gen(S.Ir.Text(limit))).Ok?
    ensures Parse(S.Ir.Text(limit), Encode(S.Value.Str(s), S.Gen(S.Ir.Text(limit))).value + suffix)
            == Done(S.Value.Str(s), suffix)
       <==> IsText(s) && |s| < U32_LIMIT
  {
    hide ReadText, LengthPrefixed, IsText;
    if |s| >= U32_LIMIT {
      LongTextIsLost(limit, s, suffix);
    } else if IsText(s) {
      TextRoundTrip(limit, s, suffix);
    } else {
      OtherBytesAreRefused(limit, s, suffix);
    }
  }

  // ----- nothing to read -----

  /** On no input a reader either succeeds without reading or reports a plain error, and a reader of
      values that take bytes reports the error. */
  lemma {:induction false} EmptyInput(ir: S.Ir)
    requires WF(ir)
    ensures Parse(ir, []) == Error || (Parse(ir, []).Done? && !NonEmpty(ir))
    decreases ir, 0
  {
    var none: seq<byte> := [];
    match ir
    case Struct(_, fields) => EmptyInputFields(fields);
    case ListOf(limit, inner) =>
      EmptyInput(inner);
      EmptyList(limit, inner);
    case Sized(size, inner) =>
      EmptyInput(inner);
      assert size == 0 ==> none[..size] == none;
    case Bounded(max, inner) =>
      EmptyInput(inner);
      assert none[..0] == none;
    case _ =>
  }

  lemma EmptyList(limit: Option<nat>, inner: S.Ir)
    requires Parse(inner, []) == Error
    ensures Parse(S.Ir.ListOf(limit, inner), []).Done?
  {
    assert ReadMany(inner, []) == Done([], []);
    if limit.Some? {
      assert ReadUpTo(limit.value, inner, []) == Done([], []);
    }
  }

  lemma {:induction false} EmptyInputFields(fields: seq<S.IrField>)
    requires WFFields(fields)
    ensures ReadFields(fields, []) == Error || (ReadFields(fields, []).Done? && !NonEmptyFields(fields))
    decreases fields, 0
  {
    if fields != [] {
      EmptyInput(fields[0].ir);
      EmptyInputFields(fields[1..]);
    }
  }

  // ----- something to write -----

  lemma {:induction false} EncodedNonEmpty(ir: S.Ir, v: V)
    requires WF(ir) && NonEmpty(ir) && Encode(v, S.Gen(ir)).Ok?
    ensures Encode(v, S.Gen(ir)).value != []
    decreases ir, 0
  {
    hide ToBE, TagId, EncodeTag, S.TagMapOf, Encode;
    match ir
    case Primitive(kind) => PrimitiveWidth(kind, v);
    case Struct(name, fields) =>
      ObjStep(v, name, S.GenFields(fields));
      EncodedNonEmptyFields(fields, v.fields);
    case Bounded(_, inner) =>
      FramedStep(v, S.Gen(ir));
      EncodedNonEmpty(inner, v);
    case Variants(_, tagSize, tags) => TagNonEmpty(v, tagSize, S.TagMapOf(S.GenTags(tags)));
    case _ => LeafNonEmpty(ir, v);
  }

  lemma ObjStep(v: V, name: string, schema: seq<S.Field>)
    ensures Encode(v, S.Encoding.Obj(name, schema)) == if v.Record? then EncodeRecord(v.fields, schema) else Err
  {
    hide EncodeRecord;
  }

  lemma LeafNonEmpty(ir: S.Ir, v: V)
    requires NonEmpty(ir) && Encode(v, S.Gen(ir)).Ok?
    requires !ir.Primitive? && !ir.Struct? && !ir.Bounded? && !ir.Variants?
    ensures Encode(v, S.Gen(ir)).value != []
  {
    hide ToBE, EncodeRecord, EncodeList, EncodeTag, EncodeTuple, ParseZ, ZBytes;
  }

  lemma TagNonEmpty(v: V, tagSize: nat, m: S.TagMap)
    requires Encode(v, S.Encoding.Tags(tagSize, m)).Ok?
    ensures Encode(v, S.Encoding.Tags(tagSize, m)).value != []
  {
    hide ToBE;
  }

  lemma {:induction false} EncodedNonEmptyFields(fields: seq<S.IrField>, values: seq<S.FieldValue>)
    requires WFFields(fields) && NonEmptyFields(fields) && EncodeRecord(values, S.GenFields(fields)).Ok?
    ensures EncodeRecord(values, S.GenFields(fields)).value != []
    decreases fields, 0
  {
    hide Encode;
    RecordStep(fields, values);
    var v := S.FindValue(fields[0].name, values).value;
    if NonEmpty(fields[0].ir) {
      EncodedNonEmpty(fields[0].ir, v);
    } else {
      EncodedNonEmptyFields(fields[1..], values);
    }
  }

  /** One field of a record. */
  lemma RecordStep(fields: seq<S.IrField>, values: seq<S.FieldValue>)
    requires fields != [] && EncodeRecord(values, S.GenFields(fields)).Ok?
    ensures S.FindValue(fields[0].name, values).Some?
    ensures var v := S.FindValue(fields[0].name, values).value;
            && Encode(v, S.Gen(fields[0].ir)).Ok?
            && EncodeRecord(values, S.GenFields(fields[1..])).Ok?
            && EncodeRecord(values, S.GenFields(fields)).value
               == Encode(v, S.Gen(fields[0].ir)).value + EncodeRecord(values, S.GenFields(fields[1..])).value
  {
    hide Encode, S.Gen;
    assert S.GenFields(fields)[1..] == S.GenFields(fields[1..]);
  }

  // ----- the round trip -----

  /** For every well-formed representation, every value the writer accepts and every suffix, the
      reader gives back the value in normal form and exactly the suffix (no suffix after a greedy
      part). */
  lemma {:induction false} RoundTrip(ir: S.Ir, v: V, suffix: seq<byte>)
    requires WF(ir) && Fits(ir, v) && Encode(v, S.Gen(ir)).Ok? && (Greedy(ir) ==> suffix == [])
    ensures Parse(ir, Encode(v, S.Gen(ir)).value + suffix) == Done(Canon(ir, v), suffix)
    decreases ir, 2, 0
  {
    match ir
    case Primitive(kind) => PrimitiveRoundTrip(kind, v, suffix);
    case Bytes => BytesRoundTrip(v);
    case Hash(size) => HashRoundTrip(size, v, suffix);
    case Zarith => ZarithRoundTrip(v, suffix);
    case MuTez => MutezRoundTrip(v, suffix);
    case Text(limit) => StrRoundTrip(limit, v, suffix);
    case Struct(name, fields) => StructRoundTrip(name, fields, v, suffix);
    case Variants(name, tagSize, tags) => VariantsRoundTrip(name, tagSize, tags, v, suffix);
    case OptionField(inner) => OptionRoundTrip(inner, v, suffix);
    case ListOf(limit, inner) => ListRoundTrip(limit, inner, v);
    case Sized(size, inner) => SizedRoundTrip(size, inner, v, suffix);
    case Bounded(max, inner) => BoundedRoundTrip(max, inner, v, suffix);
    case Dynamic(limit, inner) => DynamicRoundTrip(limit, inner, v, suffix);
  }

  lemma BytesRoundTrip(v: V)
    requires Fits(S.Ir.Bytes, v) && Encode(v, S.Encoding.Bytes).Ok?
    ensures Parse(S.Ir.Bytes, Encode(v, S.Encoding.Bytes).value + []) == Done(v, [])
  {
    var bs := RawBytes(v.items).value;
    assert bs + [] == bs;
    RawBack(v.items);
  }

  lemma HashRoundTrip(size: nat, v: V, suffix: seq<byte>)
    requires Fits(S.Ir.Hash(size), v) && Encode(v, S.Encoding.Hash(size)).Ok?
    ensures Parse(S.Ir.Hash(size), Encode(v, S.Encoding.Hash(size)).value + suffix) == Done(v, suffix)
  {
    var bs := RawBytes(v.items).value;
    var input := bs + suffix;
    assert input[..size] == bs && input[size..] == suffix;
    RawBack(v.items);
  }

  lemma ZarithRoundTrip(v: V, suffix: seq<byte>)
    requires Encode(v, S.Encoding.Z).Ok?
    ensures Parse(S.Ir.Zarith, Encode(v, S.Encoding.Z).value + suffix) == Done(Canon(S.Ir.Zarith, v), suffix)
  {
    hide ParseZ, HexOf, ReadZ, ZBytes, FromBE;
    var (negative, bytes) := ParseZ(v.utf8).value;
    ZRoundTrip(negative, FromBE(bytes), suffix);
  }

  lemma MutezRoundTrip(v: V, suffix: seq<byte>)
    requires Encode(v, S.Encoding.Mutez).Ok?
    ensures Parse(S.Ir.MuTez, Encode(v, S.Encoding.Mutez).value + suffix) == Done(Canon(S.Ir.MuTez, v), suffix)
  {
    hide ParseZ, HexOf, ReadMutez, ZBytes, FromBE;
    var (negative, bytes) := ParseZ(v.utf8).value;
    MutezOnZBytes(negative, FromBE(bytes), suffix);
  }

  lemma StrRoundTrip(limit: Option<nat>, v: V, suffix: seq<byte>)
    requires Fits(S.Ir.Text(limit), v) && Encode(v, S.Gen(S.Ir.Text(limit))).Ok?
    ensures Parse(S.Ir.Text(limit), Encode(v, S.Gen(S.Ir.Text(limit))).value + suffix) == Done(v, suffix)
  {
    hide ReadText, LengthPrefixed;
    TextRoundTrip(limit, v.utf8, suffix);
  }

  lemma StructRoundTrip(name: string, fields: seq<S.IrField>, v: V, suffix: seq<byte>)
    requires WFFields(fields) && Fits(S.Ir.Struct(name, fields), v)
    requires Encode(v, S.Gen(S.Ir.Struct(name, fields))).Ok?
    requires GreedyFields(fields) ==> suffix == []
    ensures Parse(S.Ir.Struct(name, fields), Encode(v, S.Gen(S.Ir.Struct(name, fields))).value + suffix)
         == Done(Canon(S.Ir.Struct(name, fields), v), suffix)
    decreases fields, 3, 0
  {
    FieldsRoundTrip(fields, v.fields, suffix);
  }

  lemma {:induction false} FieldsRoundTrip(fields: seq<S.IrField>, values: seq<S.FieldValue>, suffix: seq<byte>)
    requires WFFields(fields) && FitsFields(fields, values)
    requires EncodeRecord(values, S.GenFields(fields)).Ok?
    requires GreedyFields(fields) ==> suffix == []
    ensures ReadFields(fields, EncodeRecord(values, S.GenFields(fields)).value + suffix)
         == Done(CanonFields(fields, values), suffix)
    decreases fields, 2, 0
  {
    hide Encode, Parse, Canon, Fits, WF, Greedy;
    if fields == [] {
      assert [] + suffix == suffix;
    } else {
      RecordStep(fields, values);
      var v := S.FindValue(fields[0].name, values).value;
      var first := Encode(v, S.Gen(fields[0].ir)).value;
      var others := EncodeRecord(values, S.GenFields(fields[1..])).value;
      assert (first + others) + suffix == first + (others + suffix);
      if |fields| == 1 {
        assert others + suffix == suffix;
      }
      RoundTrip(fields[0].ir, v, others + suffix);
      FieldsRoundTrip(fields[1..], values, suffix);
    }
  }

  lemma OptionBytes(inner: S.Encoding, v: V)
    requires Encode(v, S.Encoding.OptionalField(inner)).Ok?
    ensures v.Opt?
    ensures v.inner.Some? ==> Encode(v.inner.value, inner).Ok?
    ensures Encode(v, S.Encoding.OptionalField(inner)).value
         == if v.inner.Some? then [FIELD_SOME] + Encode(v.inner.value, inner).value else [FIELD_NONE]
  {
  }

  lemma OptionStep(inner: S.Ir, input: seq<byte>)
    requires input != []
    ensures input[0] == FIELD_NONE ==> Parse(S.Ir.OptionField(inner), input) == Done(S.Value.Opt(None), input[1..])
    ensures input[0] == FIELD_SOME && Parse(inner, input[1..]).Done? ==>
              var r := Parse(inner, input[1..]);
              Parse(S.Ir.OptionField(inner), input) == Done(S.Value.Opt(Some(r.value)), r.rest)
  {
  }

  lemma OptionRoundTrip(inner: S.Ir, v: V, suffix: seq<byte>)
    requires WF(inner) && Fits(S.Ir.OptionField(inner), v)
    requires Encode(v, S.Gen(S.Ir.OptionField(inner))).Ok? && (Greedy(inner) ==> suffix == [])
    ensures Parse(S.Ir.OptionField(inner), Encode(v, S.Gen(S.Ir.OptionField(inner))).value + suffix)
         == Done(Canon(S.Ir.OptionField(inner), v), suffix)
    decreases inner, 3, 0
  {
    hide Encode, Parse, WF, Greedy;
    OptionBytes(S.Gen(inner), v);
    var input := Encode(v, S.Gen(S.Ir.OptionField(inner))).value + suffix;
    OptionStep(inner, input);
    if v.inner.Some? {
      assert input[1..] == Encode(v.inner.value, S.Gen(inner)).value + suffix;
      RoundTrip(inner, v.inner.value, suffix);
    } else {
      assert input[1..] == suffix;
    }
  }

  lemma ListBytes(limit: Option<nat>, inner: S.Ir, v: V)
    ensures Encode(v, S.Gen(S.Ir.ListOf(limit, inner)))
         == if v.List? && (limit.Some? ==> |v.items| <= limit.value) then EncodeList(v.items, S.Gen(inner)) else Err
  {
    hide EncodeList;
  }

  lemma ListRoundTrip(limit: Option<nat>, inner: S.Ir, v: V)
    requires WF(inner) && NonEmpty(inner) && !Greedy(inner) && Fits(S.Ir.ListOf(limit, inner), v)
    requires Encode(v, S.Gen(S.Ir.ListOf(limit, inner))).Ok?
    ensures Parse(S.Ir.ListOf(limit, inner), Encode(v, S.Gen(S.Ir.ListOf(limit, inner))).value + [])
         == Done(Canon(S.Ir.ListOf(limit, inner), v), [])
    decreases inner, 4, 0
  {
    var bs := EncodeList(v.items, S.Gen(inner)).value;
    assert bs + [] == bs;
    if limit.Some? {
      UpToRoundTrip(limit.value, inner, v.items);
    } else {
      ManyRoundTrip(inner, v.items);
    }
  }

  /** One item of a list. */
  lemma ItemStep(inner: S.Ir, items: seq<V>)
    requires items != [] && EncodeList(items, S.Gen(inner)).Ok?
    ensures Encode(items[0], S.Gen(inner)).Ok? && EncodeList(items[1..], S.Gen(inner)).Ok?
    ensures EncodeList(items, S.Gen(inner)).value
         == Encode(items[0], S.Gen(inner)).value + EncodeList(items[1..], S.Gen(inner)).value
  {
    hide Encode, S.Gen;
  }

  lemma {:induction false} ManyRoundTrip(inner: S.Ir, items: seq<V>)
    requires WF(inner) && NonEmpty(inner) && !Greedy(inner) && FitsItems(inner, items)
    requires EncodeList(items, S.Gen(inner)).Ok?
    ensures ReadMany(inner, EncodeList(items, S.Gen(inner)).value) == Done(CanonItems(inner, items), [])
    decreases inner, 3, |items|
  {
    hide Encode, Parse, Canon, Fits, WF, Greedy, NonEmpty, S.Gen;
    if items == [] {
      EmptyInput(inner);
    } else {
      ItemStep(inner, items);
      var first := Encode(items[0], S.Gen(inner)).value;
      var others := EncodeList(items[1..], S.Gen(inner)).value;
      EncodedNonEmpty(inner, items[0]);
      RoundTrip(inner, items[0], others);
      ManyRoundTrip(inner, items[1..]);
    }
  }

  lemma {:induction false} UpToRoundTrip(max: nat, inner: S.Ir, items: seq<V>)
    requires WF(inner) && NonEmpty(inner) && !Greedy(inner) && FitsItems(inner, items)
    requires |items| <= max && EncodeList(items, S.Gen(inner)).Ok?
    ensures ReadUpTo(max, inner, EncodeList(items, S.Gen(inner)).value) == Done(CanonItems(inner, items), [])
    decreases inner, 3, |items|
  {
    hide Encode, Parse, Canon, Fits, WF, Greedy, NonEmpty, S.Gen;
    if items == [] {
      EmptyInput(inner);
    } else {
      ItemStep(inner, items);
      var first := Encode(items[0], S.Gen(inner)).value;
      var others := EncodeList(items[1..], S.Gen(inner)).value;
      EncodedNonEmpty(inner, items[0]);
      RoundTrip(inner, items[0], others);
      UpToRoundTrip(max - 1, inner, items[1..]);
    }
  }

  lemma SizedStep(size: nat, inner: S.Ir, input: seq<byte>)
    requires |input| >= size
    ensures var r := Parse(inner, input[..size]);
            r.Done? ==> Parse(S.Ir.Sized(size, inner), input) == Done(r.value, input[size..])
  {
  }

  lemma CanonOfSized(size: nat, inner: S.Ir, v: V)
    ensures Canon(S.Ir.Sized(size, inner), v) == Canon(inner, v)
  {
  }

  lemma SizedRoundTrip(size: nat, inner: S.Ir, v: V, suffix: seq<byte>)
    requires WF(inner) && Fits(inner, v) && Encode(v, S.Gen(S.Ir.Sized(size, inner))).Ok?
    ensures Parse(S.Ir.Sized(size, inner), Encode(v, S.Gen(S.Ir.Sized(size, inner))).value + suffix)
         == Done(Canon(S.Ir.Sized(size, inner), v), suffix)
    decreases inner, 3, 0
  {
    hide Fits, WF, Greedy, Encode, Parse, Canon;
    FramedStep(v, S.Gen(S.Ir.Sized(size, inner)));
    var bs := Encode(v, S.Gen(inner)).value;
    var input := bs + suffix;
    SizedStep(size, inner, input);
    CanonOfSized(size, inner, v);
    assert input[..size] == bs + [] && input[size..] == suffix;
    RoundTrip(inner, v, []);
  }

  lemma BoundedStep(max: nat, inner: S.Ir, input: seq<byte>)
    ensures var m := if max < |input| then max else |input|;
            var r := Parse(inner, input[..m]);
            r.Done? ==> Parse(S.Ir.Bounded(max, inner), input) == Done(r.value, input[m - |r.rest|..])
  {
  }

  lemma CanonOfBounded(max: nat, inner: S.Ir, v: V)
    ensures Canon(S.Ir.Bounded(max, inner), v) == Canon(inner, v)
  {
  }

  lemma BoundedRoundTrip(max: nat, inner: S.Ir, v: V, suffix: seq<byte>)
    requires WF(inner) && Fits(inner, v) && Encode(v, S.Gen(S.Ir.Bounded(max, inner))).Ok?
    requires Greedy(inner) ==> suffix == []
    ensures Parse(S.Ir.Bounded(max, inner), Encode(v, S.Gen(S.Ir.Bounded(max, inner))).value + suffix)
         == Done(Canon(S.Ir.Bounded(max, inner), v), suffix)
    decreases inner, 3, 0
  {
    hide Fits, WF, Greedy, Encode, Parse, Canon;
    FramedStep(v, S.Gen(S.Ir.Bounded(max, inner)));
    var bs := Encode(v, S.Gen(inner)).value;
    var input := bs + suffix;
    BoundedStep(max, inner, input);
    CanonOfBounded(max, inner, v);
    var m := if max < |input| then max else |input|;
    assert input[..m] == bs + suffix[..m - |bs|];
    assert input[|bs|..] == suffix;
    RoundTrip(inner, v, suffix[..m - |bs|]);
  }

  lemma DynamicRoundTrip(limit: Option<nat>, inner: S.Ir, v: V, suffix: seq<byte>)
    requires WF(inner) && Fits(inner, v) && Encode(v, S.Gen(S.Ir.Dynamic(limit, inner))).Ok?
    ensures Parse(S.Ir.Dynamic(limit, inner), Encode(v, S.Gen(S.Ir.Dynamic(limit, inner))).value + suffix)
         == Done(Canon(S.Ir.Dynamic(limit, inner), v), suffix)
    decreases inner, 3, 0
  {
    hide Fits, WF, Greedy, LengthPrefixed;
    FramedStep(v, S.Gen(S.Ir.Dynamic(limit, inner)));
    var bs := Encode(v, S.Gen(inner)).value;
    PrefixBack(bs, suffix);
    assert bs + [] == bs;
    RoundTrip(inner, v, []);
  }

  // ----- variants -----

  /** What is written for a variant: the id of its tag, and the payload if there is one. */
  lemma VariantBytes(tagSize: nat, tags: seq<S.IrTag>, v: V) returns (i: nat, variant: string, payload: Option<V>)
    requires DistinctIrTags(tags)
    requires Encode(v, S.Encoding.Tags(tagSize, S.TagMapOf(S.GenTags(tags)))).Ok?
    ensures i < |tags| && tags[i].variant == variant
    ensures if v.Tagged? then variant == v.tag && payload == Some(v.payload)
            else v.Enum? && v.variant == Some(variant) && payload == None
    ensures payload.Some? ==> Encode(payload.value, S.Gen(tags[i].ir)).Ok?
    ensures var body := if payload.Some? then Encode(payload.value, S.Gen(tags[i].ir)).value else [];
            Encode(v, S.Encoding.Tags(tagSize, S.TagMapOf(S.GenTags(tags)))).value == ToBE(tagSize, tags[i].id) + body
  {
    hide S.TagMapOf, ToBE, S.Gen;
    var gen := S.GenTags(tags);
    variant := if v.Tagged? then v.tag else v.variant.value;
    payload := if v.Tagged? then Some(v.payload) else None;
    i := S.VariantKnown(gen, variant);
    S.TagFound(gen, i);
    assert ToBE(tagSize, tags[i].id) + [] == ToBE(tagSize, tags[i].id);
  }

  lemma VariantsStep(name: string, tagSize: nat, tags: seq<S.IrTag>, input: seq<byte>)
    requires |input| >= tagSize
    ensures Parse(S.Ir.Variants(name, tagSize, tags), input)
         == ReadVariant(tags, 0, FromBE(input[..tagSize]), input[tagSize..])
  {
    hide FromBE;
  }

  lemma VariantsRoundTrip(name: string, tagSize: nat, tags: seq<S.IrTag>, v: V, suffix: seq<byte>)
    requires var ir := S.Ir.Variants(name, tagSize, tags);
             WF(ir) && Fits(ir, v) && Encode(v, S.Gen(ir)).Ok? && (Greedy(ir) ==> suffix == [])
    ensures var ir := S.Ir.Variants(name, tagSize, tags);
            Parse(ir, Encode(v, S.Gen(ir)).value + suffix) == Done(Canon(ir, v), suffix)
    decreases tags, 4, 0
  {
    hide Encode, Parse, ReadVariant, S.TagMapOf, S.GenTags, ToBE, FromBE, Pow256;
    hide FitsVariant, CanonVariant, GreedyTags, WFTags, DistinctIrTags;
    var i, variant, payload := VariantBytes(tagSize, tags, v);
    var id := ToBE(tagSize, tags[i].id);
    FromToBE(tagSize, tags[i].id);
    var body := if payload.Some? then Encode(payload.value, S.Gen(tags[i].ir)).value else [];
    var input := Encode(v, S.Gen(S.Ir.Variants(name, tagSize, tags))).value + suffix;
    assert input[..tagSize] == id && input[tagSize..] == body + suffix;
    VariantsStep(name, tagSize, tags, input);
    PickVariant(tags, 0, i, variant, payload, suffix);
  }

  lemma {:induction false} PickVariant(tags: seq<S.IrTag>, ordinal: nat, i: nat, variant: string,
                                       payload: Option<V>, suffix: seq<byte>)
    requires i < |tags| && tags[i].variant == variant && DistinctIrTags(tags) && WFTags(tags)
    requires FitsVariant(tags, variant, payload) && (GreedyTags(tags) ==> suffix == [])
    requires payload.Some? ==> Encode(payload.value, S.Gen(tags[i].ir)).Ok?
    ensures var body := if payload.Some? then Encode(payload.value, S.Gen(tags[i].ir)).value else [];
            ReadVariant(tags, ordinal, tags[i].id, body + suffix)
            == Done(CanonVariant(tags, ordinal, variant, payload), suffix)
    decreases tags, 3, 0
  {
    if i > 0 {
      assert tags[1..][i - 1] == tags[i];
      PickVariant(tags[1..], ordinal + 1, i - 1, variant, payload, suffix);
    } else {
      assert [] + suffix == suffix;
      if !tags[0].ir.Unit? {
        RoundTrip(tags[0].ir, payload.value, suffix);
      }
    }
  }
}
