/** One level of what the generated reader does, read backwards: what its input looked like. */
module ReaderSteps {
  import opened Basics
  import opened Bytes
  import opened Nom
  import opened Utf8
  import opened Encoder
  import opened NomReader
  import opened Shapes
  import S = Schema

  type V = S.Value

  // ----- one level of reading, backwards -----

  lemma TextRead(limit: Option<nat>, input: seq<byte>)
    requires ReadText(limit, input).Done?
    ensures var r := ReadText(limit, input);
            && r.value.Str?
            && (limit.Some? ==> |r.value.utf8| <= limit.value)
            && input == LengthPrefixed(r.value.utf8) + r.rest
  {
    hide ToBE, FromBE, IsUtf8;
    var len := FromBE(input[..4]);
    ToFromBE(input[..4]);
    assert input == input[..4] + input[4..4 + len] + input[4 + len..];
  }

  lemma FieldsRead(fields: seq<S.IrField>, input: seq<byte>)
    requires fields != [] && ReadFields(fields, input).Done?
    ensures var r := Parse(fields[0].ir, input);
            && r.Done? && ReadFields(fields[1..], r.rest).Done?
            && var rs := ReadFields(fields[1..], r.rest);
               ReadFields(fields, input) == Done([S.FieldValue(fields[0].name, r.value)] + rs.value, rs.rest)
  {
    hide Parse;
  }

  lemma StructRead(name: string, fields: seq<S.IrField>, input: seq<byte>)
    requires Parse(S.Ir.Struct(name, fields), input).Done?
    ensures var rs := ReadFields(fields, input);
            rs.Done? && Parse(S.Ir.Struct(name, fields), input) == Done(S.Value.Record(rs.value), rs.rest)
  {
    hide ReadFields;
  }

  lemma OptionRead(inner: S.Ir, input: seq<byte>)
    requires Parse(S.Ir.OptionField(inner), input).Done?
    ensures var r := Parse(S.Ir.OptionField(inner), input);
            && input != [] && r.value.Opt?
            && (r.value.inner.None? ==> input[0] == FIELD_NONE && r.rest == input[1..])
            && (r.value.inner.Some? ==>
                  input[0] == FIELD_SOME && Parse(inner, input[1..]) == Done(r.value.inner.value, r.rest))
  {
  }

  lemma ListRead(limit: Option<nat>, inner: S.Ir, input: seq<byte>)
    requires Parse(S.Ir.ListOf(limit, inner), input).Done?
    ensures var r := Parse(S.Ir.ListOf(limit, inner), input);
            && r.value.List?
            && ReadItems(limit, inner, input) == Done(r.value.items, r.rest)
            && (limit.Some? ==> r.rest == [])
  {
    hide ReadMany, ReadUpTo;
  }

  /** The items of a list, bounded or not. */
  function ReadItems(limit: Option<nat>, inner: S.Ir, input: seq<byte>): Read<seq<V>> {
    if limit.Some? then ReadUpTo(limit.value, inner, input) else ReadMany(inner, input)
  }

  function OneLess(limit: Option<nat>): Option<nat>
    requires limit != Some(0)
  {
    if limit.Some? then Some(limit.value - 1) else None
  }

  lemma ItemsRead(limit: Option<nat>, inner: S.Ir, input: seq<byte>)
    requires ReadItems(limit, inner, input).Done?
    ensures var all := ReadItems(limit, inner, input);
            && (limit.Some? ==> |all.value| <= limit.value)
            && (all.value == [] ==> all.rest == input)
            && (all.value != [] ==>
                  && limit != Some(0)
                  && var r := Parse(inner, input);
                  && r.Done? && r.value == all.value[0] && |r.rest| < |input|
                  && ReadItems(OneLess(limit), inner, r.rest) == Done(all.value[1..], all.rest))
  {
    hide Parse;
    if limit.Some? { UpToCount(limit.value, inner, input); }
  }

  lemma {:induction false} UpToCount(max: nat, inner: S.Ir, input: seq<byte>)
    requires ReadUpTo(max, inner, input).Done?
    ensures |ReadUpTo(max, inner, input).value| <= max
    decreases max
  {
    hide Parse;
    if max > 0 && Parse(inner, input).Done? && Parse(inner, input).rest != input {
      UpToCount(max - 1, inner, Parse(inner, input).rest);
    }
  }

  lemma SizedRead(size: nat, inner: S.Ir, input: seq<byte>)
    requires Parse(S.Ir.Sized(size, inner), input).Done?
    ensures |input| >= size
    ensures var r := Parse(inner, input[..size]);
            r.Done? && Parse(S.Ir.Sized(size, inner), input) == Done(r.value, input[size..])
  {
  }

  lemma BoundedRead(max: nat, inner: S.Ir, input: seq<byte>) returns (m: nat)
    requires Parse(S.Ir.Bounded(max, inner), input).Done?
    ensures m == if max < |input| then max else |input|
    ensures var r := Parse(inner, input[..m]);
            r.Done? && Parse(S.Ir.Bounded(max, inner), input) == Done(r.value, input[m - |r.rest|..])
  {
    m := if max < |input| then max else |input|;
  }

  lemma DynamicRead(limit: Option<nat>, inner: S.Ir, input: seq<byte>) returns (block: seq<byte>)
    requires Parse(S.Ir.Dynamic(limit, inner), input).Done?
    ensures |block| < U32_LIMIT && (limit.Some? ==> |block| <= limit.value)
    ensures var r := Parse(S.Ir.Dynamic(limit, inner), input);
            && input == LengthPrefixed(block) + r.rest
            && Parse(inner, block) == Done(r.value, [])
  {
    hide ToBE, FromBE, Pow256;
    SmallPowers();
    var len := FromBE(input[..4]);
    ToFromBE(input[..4]);
    block := input[4..4 + len];
    assert input == input[..4] + block + input[4 + len..];
  }

  /** The variant that was read, and its payload. */
  lemma {:induction false} VariantRead(tags: seq<S.IrTag>, ordinal: nat, id: nat, input: seq<byte>) returns (i: nat)
    requires ReadVariant(tags, ordinal, id, input).Done?
    ensures i < |tags| && tags[i].id == id
    ensures var r := ReadVariant(tags, ordinal, id, input);
            if tags[i].ir.Unit? then r == Done(S.Value.Enum(Some(tags[i].variant), Some(ordinal + i)), input)
            else r.value.Tagged? && r.value.tag == tags[i].variant
                 && Parse(tags[i].ir, input) == Done(r.value.payload, r.rest)
    decreases |tags|
  {
    hide Parse;
    if tags[0].id == id {
      i := 0;
    } else {
      var k := VariantRead(tags[1..], ordinal + 1, id, input);
      i := k + 1;
    }
  }

  lemma VariantsRead(name: string, tagSize: nat, tags: seq<S.IrTag>, input: seq<byte>)
    requires Parse(S.Ir.Variants(name, tagSize, tags), input).Done?
    ensures |input| >= tagSize
    ensures Parse(S.Ir.Variants(name, tagSize, tags), input)
         == ReadVariant(tags, 0, FromBE(input[..tagSize]), input[tagSize..])
  {
    hide FromBE, ReadVariant;
  }

  // ----- leaves -----

  lemma TopByte(bs: seq<byte>)
    requires |bs| == 4
    ensures FromBE(bs) < 0x8000_0000 <==> bs[0] < 0x80
  {
    hide FromBE;
    var a, b, c := bs[..3], bs[..2], bs[..1];
    assert a[..2] == b && b[..1] == c && c[..0] == [];
    assert FromBE(bs) == FromBE(a) * 256 + bs[3] by { FromBESnoc(bs); }
    assert FromBE(a) == FromBE(b) * 256 + bs[2] by { FromBESnoc(a); }
    assert FromBE(b) == FromBE(c) * 256 + bs[1] by { FromBESnoc(b); }
    assert FromBE(c) == bs[0] by { FromBESnoc(c); FromBENothing(); }
  }

  lemma PrimitiveAgain(kind: S.Primitive, input: seq<byte>)
    requires ReadPrimitive(kind, input).Done?
    ensures var r := ReadPrimitive(kind, input);
            var bs := Encode(r.value, S.PrimitiveEncoding(kind));
            && (bs.Ok? ==> input == bs.value + r.rest)
            && input != []
            && (bs.Ok? <==> (kind.Int31? || kind.Uint32? ==> input[0] < 0x80))
  {
    hide PrimitiveValue, Encode;
    var k := Width(kind);
    assert input == input[..k] + input[k..];
    PrimitiveBytesAgain(kind, input[..k]);
  }

  lemma PrimitiveBytesAgain(kind: S.Primitive, bs: seq<byte>)
    requires |bs| == Width(kind) && PrimitiveValue(kind, bs).Some?
    ensures var e := Encode(PrimitiveValue(kind, bs).value, S.PrimitiveEncoding(kind));
            (e.Ok? ==> e.value == bs) && (e.Ok? <==> (kind.Int31? || kind.Uint32? ==> bs[0] < 0x80))
  {
    hide ToBE, FromBE, Pow256;
    SmallPowers();
    ToFromBE(bs);
    SignedBack(bs);
    if |bs| == 4 { TopByte(bs); }
  }

  predicate IsSigned(kind: S.Primitive) {
    !kind.Uint8? && !kind.Uint16? && !kind.Uint32? && !kind.Bool?
  }

  /** The number that is read: the one in the range of its Rust type whose big-endian bytes, in two's
      complement if it is negative, are the ones read. */
  lemma NumberRead(kind: S.Primitive, bs: seq<byte>)
    requires |bs| == Width(kind) && !kind.Bool?
    ensures PrimitiveValue(kind, bs).Some?
    ensures var v := PrimitiveValue(kind, bs).value;
            && (v.Int8? || v.Uint8? || v.Int16? || v.Uint16? || v.Int32? || v.Int64?)
            && ToBE(|bs|, v.i) == bs && InRange(|bs|, IsSigned(kind), v.i)
            && (kind.Uint32? && v.i >= 0x8000_0000 ==> v.Int64?)
  {
    hide ToBE, FromBE, Pow256;
    SmallPowers();
    ToFromBE(bs);
    SignedBack(bs);
  }

  lemma {:induction false} RawAgain(bs: seq<byte>)
    ensures RawBytes(Items(bs)) == Ok(bs)
  {
    if bs != [] {
      assert Items(bs)[1..] == Items(bs[1..]);
      RawAgain(bs[1..]);
      assert Items(bs)[0] == S.Value.Uint8(bs[0]);
      assert bs == [bs[0]] + bs[1..];
    }
  }

  lemma LeafAgain(ir: S.Ir, input: seq<byte>)
    requires (ir.Bytes? || ir.Hash? || ir.Text?) && Parse(ir, input).Done?
    ensures var r := Parse(ir, input);
            Encode(r.value, S.Gen(ir)).Ok? && input == Encode(r.value, S.Gen(ir)).value + r.rest
  {
    hide ReadText, LengthPrefixed, RawBytes, Items;
    match ir
    case Bytes => RawAgain(input);
    case Hash(size) =>
      RawAgain(input[..size]);
      assert input == input[..size] + input[size..];
    case Text(limit) => TextRead(limit, input);
  }

  lemma PrimitiveParse(kind: S.Primitive, input: seq<byte>)
    ensures Parse(S.Ir.Primitive(kind), input) == ReadPrimitive(kind, input)
  {
    hide ReadPrimitive;
  }

  /** The names of a record that was read are those that were declared. */
  lemma {:induction false} FieldNames(fields: seq<S.IrField>, input: seq<byte>)
    requires ReadFields(fields, input).Done?
    ensures var vs := ReadFields(fields, input).value;
            |vs| == |fields| && forall i :: 0 <= i < |fields| ==> vs[i].name == fields[i].name
    decreases |fields|
  {
    hide Parse;
    if fields != [] {
      FieldsRead(fields, input);
      FieldNames(fields[1..], Parse(fields[0].ir, input).rest);
    }
  }

  lemma NoFieldBytes(values: seq<S.FieldValue>)
    ensures EncodeRecord(values, S.GenFields([])) == Ok([])
  {
  }

  lemma {:induction false} WFTagAt(tags: seq<S.IrTag>, i: nat)
    requires WFTags(tags) && i < |tags|
    ensures tags[i].ir.Unit? || WF(tags[i].ir)
  {
    hide WF;
    if i > 0 { WFTagAt(tags[1..], i - 1); }
  }
}
