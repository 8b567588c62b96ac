/** What the generated reader yields is what Rust's types promise of a value. */
module ParsedValues {
  import opened Basics
  import opened Bytes
  import opened Nom
  import opened Utf8
  import opened Encoder
  import opened NomReader
  import opened Shapes
  import opened ReaderSteps
  import NF = NormalForm
  import RT = RoundTrip
  import S = Schema

  lemma PrimitiveInRange(kind: S.Primitive, bs: seq<byte>)
    requires |bs| == Width(kind) && PrimitiveValue(kind, bs).Some?
    ensures NumberOk(PrimitiveValue(kind, bs).value)
  {
    hide FromBE, Pow256;
    SmallPowers();
  }

  lemma LeafFits(ir: S.Ir, input: seq<byte>)
    requires (ir.Primitive? || ir.Bytes? || ir.Hash? || ir.Text?) && Parse(ir, input).Done?
    ensures Fits(ir, Parse(ir, input).value)
  {
    hide FromBE, Pow256, IsUtf8, IsText, PrimitiveValue;
    SmallPowers();
    match ir
    case Primitive(kind) => PrimitiveInRange(kind, input[..Width(kind)]);
    case Text(_) => Utf8Iff(input[4..4 + FromBE(input[..4])]);
    case _ =>
  }

  /** Every value that is read fits its representation. */
  lemma {:induction false} ParsedFits(ir: S.Ir, input: seq<byte>)
    requires WF(ir) && Parse(ir, input).Done?
    ensures Fits(ir, Parse(ir, input).value)
    decreases ir, 2, 0
  {
    hide Parse, ReadFields, ReadVariant, ReadItems, FitsItems, FitsFields, FitsVariant, FromBE;
    match ir
    case Primitive(_) => LeafFits(ir, input);
    case Bytes => LeafFits(ir, input);
    case Hash(_) => LeafFits(ir, input);
    case Text(_) => LeafFits(ir, input);
    case Zarith =>
    case MuTez =>
    case Struct(name, fields) =>
      StructRead(name, fields, input);
      FieldNames(fields, input);
      var values := ReadFields(fields, input).value;
      assert fields[0..] == fields && values[0..] == values;
      FieldsFit(fields, 0, input, values);
    case Variants(name, tagSize, tags) =>
      VariantsRead(name, tagSize, tags, input);
      VariantFits(tags, FromBE(input[..tagSize]), input[tagSize..]);
    case OptionField(inner) =>
      OptionRead(inner, input);
      if Parse(ir, input).value.inner.Some? { ParsedFits(inner, input[1..]); }
    case ListOf(limit, inner) =>
      ListRead(limit, inner, input);
      ItemsFit(limit, inner, input);
    case Sized(size, inner) =>
      SizedRead(size, inner, input);
      ParsedFits(inner, input[..size]);
    case Bounded(max, inner) =>
      var m := BoundedRead(max, inner, input);
      ParsedFits(inner, input[..m]);
    case Dynamic(limit, inner) =>
      var block := DynamicRead(limit, inner, input);
      ParsedFits(inner, block);
  }

  lemma {:induction false} ItemsFit(limit: Option<nat>, inner: S.Ir, input: seq<byte>)
    requires WF(inner) && ReadItems(limit, inner, input).Done?
    ensures FitsItems(inner, ReadItems(limit, inner, input).value)
    decreases inner, 3, |input|
  {
    hide Parse, WF, Fits, ReadItems;
    ItemsRead(limit, inner, input);
    var items := ReadItems(limit, inner, input).value;
    if items != [] {
      ParsedFits(inner, input);
      ItemsFit(OneLess(limit), inner, Parse(inner, input).rest);
      assert forall i :: 1 <= i < |items| ==> items[i] == items[1..][i - 1];
    }
  }

  lemma {:induction false} FieldsFit(all: seq<S.IrField>, k: nat, input: seq<byte>, values: seq<S.FieldValue>)
    requires k <= |all| && DistinctNames(all) && |values| == |all|
    requires forall i :: 0 <= i < |all| ==> values[i].name == all[i].name
    requires WFFields(all[k..]) && ReadFields(all[k..], input).Done? && ReadFields(all[k..], input).value == values[k..]
    ensures FitsFields(all[k..], values)
    decreases all[k..], 1, 0
  {
    hide Parse, WF, Greedy, Fits;
    var fields := all[k..];
    if k < |all| {
      assert fields[1..] == all[k + 1..] && fields[0] == all[k];
      FieldsRead(fields, input);
      NF.FieldInPlace(all, values, k);
      assert values[k..][0] == values[k] && values[k..][1..] == values[k + 1..];
      ParsedFits(fields[0].ir, input);
      FieldsFit(all, k + 1, Parse(fields[0].ir, input).rest, values);
    }
  }

  lemma VariantFits(tags: seq<S.IrTag>, id: nat, input: seq<byte>)
    requires WFTags(tags) && DistinctIrTags(tags) && ReadVariant(tags, 0, id, input).Done?
    ensures var v := ReadVariant(tags, 0, id, input).value;
            && (v.Tagged? ==> FitsVariant(tags, v.tag, Some(v.payload)))
            && (v.Enum? && v.variant.Some? ==> FitsVariant(tags, v.variant.value, None))
    decreases tags, 3, 0
  {
    hide Parse, WF, Fits, ReadVariant;
    var i := VariantRead(tags, 0, id, input);
    WFTagAt(tags, i);
    if tags[i].ir.Unit? {
      FitsAt(tags, i, None);
    } else {
      ParsedFits(tags[i].ir, input);
      FitsAt(tags, i, Some(ReadVariant(tags, 0, id, input).value.payload));
    }
  }

  lemma {:induction false} FitsAt(tags: seq<S.IrTag>, i: nat, payload: Option<S.Value>)
    requires DistinctIrTags(tags) && i < |tags|
    requires if payload.Some? then Fits(tags[i].ir, payload.value) else tags[i].ir.Unit?
    ensures FitsVariant(tags, tags[i].variant, payload)
    decreases |tags|
  {
    hide Fits;
    if i > 0 {
      assert tags[1..][i - 1] == tags[i];
      FitsAt(tags[1..], i - 1, payload);
    }
  }

  /** Any value that the writer accepts, whatever it is, comes back unchanged exactly when it is in
      normal form and fits its representation: numbers in range, text in UTF-8 and below 2^32 bytes,
      payloads where the variant has one. */
  lemma UnchangedIff(ir: S.Ir, v: S.Value, suffix: seq<byte>)
    requires WF(ir) && Encode(v, S.Gen(ir)).Ok? && (Greedy(ir) ==> suffix == [])
    ensures Parse(ir, Encode(v, S.Gen(ir)).value + suffix) == Done(v, suffix) <==> NF.Normal(ir, v) && Fits(ir, v)
  {
    hide Parse, Encode, Canon, NF.Normal, WF, Fits, Greedy;
    var input := Encode(v, S.Gen(ir)).value + suffix;
    if Parse(ir, input) == Done(v, suffix) {
      ParsedFits(ir, input);
    }
    if Fits(ir, v) {
      RT.RoundTrip(ir, v, suffix);
      NF.NormalIff(ir, v);
    }
  }

  /** The variant that an id picks. */
  lemma {:induction false} ReadVariantAt(tags: seq<S.IrTag>, ordinal: nat, i: nat, input: seq<byte>)
    requires DistinctIrTags(tags) && i < |tags| && !tags[i].ir.Unit?
    ensures var r := Parse(tags[i].ir, input);
            ReadVariant(tags, ordinal, tags[i].id, input)
            == if r.Done? then Done(S.Value.Tagged(tags[i].variant, r.value), r.rest) else Propagate(r)
    decreases |tags|
  {
    hide Parse;
    if i > 0 {
      assert tags[1..][i - 1] == tags[i];
      ReadVariantAt(tags[1..], ordinal + 1, i - 1, input);
    }
  }

  /** A variant that is written without the payload its tag has: only the id is written, and the
      reader takes the payload from the bytes that follow. */
  lemma PayloadLeftOut(name: string, tagSize: nat, tags: seq<S.IrTag>, v: S.Value, suffix: seq<byte>) returns (i: nat)
    requires var ir := S.Ir.Variants(name, tagSize, tags);
             WF(ir) && Encode(v, S.Gen(ir)).Ok? && v.Enum?
    ensures i < |tags| && v.variant == Some(tags[i].variant)
    ensures var ir := S.Ir.Variants(name, tagSize, tags);
            var r := Parse(tags[i].ir, suffix);
            && Encode(v, S.Gen(ir)).value == ToBE(tagSize, tags[i].id)
            && (!tags[i].ir.Unit? ==>
                  Parse(ir, Encode(v, S.Gen(ir)).value + suffix)
                  == if r.Done? then Done(S.Value.Tagged(tags[i].variant, r.value), r.rest) else Propagate(r))
  {
    hide Encode, Parse, ReadVariant, S.TagMapOf, S.GenTags, ToBE, FromBE, Pow256, DistinctIrTags;
    var k, variant, payload := RT.VariantBytes(tagSize, tags, v);
    i := k;
    var id := ToBE(tagSize, tags[i].id);
    assert id + [] == id;
    FromToBE(tagSize, tags[i].id);
    var input := id + suffix;
    assert input[..tagSize] == id && input[tagSize..] == suffix;
    RT.VariantsStep(name, tagSize, tags, input);
    if !tags[i].ir.Unit? { ReadVariantAt(tags, 0, i, suffix); }
  }
}
