/** Which written values come back unchanged: exactly those in the form that serialising a Rust
    value gives. */
module NormalForm {
  import opened Basics
  import opened Bytes
  import opened Zarith
  import opened ZarithLoops
  import opened Encoder
  import opened Shapes
  import RT = RoundTrip
  import S = Schema

  type V = S.Value

  /** Fields exactly as declared, the ordinal of a variant as declared, big numbers in the text
      that their own formatter gives, and tez amounts below 64. */
  ghost predicate Normal(ir: S.Ir, v: V)
    decreases ir, 0
  {
    match ir
    case Zarith => v.Str? && exists x: int :: v.utf8 == HexOf(x)
    case MuTez => v.Str? && exists x: int :: 0 <= x < 64 && v.utf8 == HexOf(x)
    case Struct(_, fields) => v.Record? && NormalFields(fields, v.fields)
    case Variants(_, _, tags) =>
      if v.Tagged? then NormalVariant(tags, 0, v.tag, v)
      else v.Enum? && v.variant.Some? && NormalVariant(tags, 0, v.variant.value, v)
    case OptionField(inner) => v.Opt? && (v.inner.Some? ==> Normal(inner, v.inner.value))
    case ListOf(_, inner) => v.List? && forall i :: 0 <= i < |v.items| ==> Normal(inner, v.items[i])
    case Sized(_, inner) => Normal(inner, v)
    case Bounded(_, inner) => Normal(inner, v)
    case Dynamic(_, inner) => Normal(inner, v)
    case Unit | Primitive(_) | Bytes | Hash(_) | Text(_) => true
  }

  ghost predicate NormalFields(fields: seq<S.IrField>, values: seq<S.FieldValue>)
    decreases fields, 0
  {
    && |values| == |fields|
    && forall i :: 0 <= i < |fields| ==> values[i].name == fields[i].name && Normal(fields[i].ir, values[i].value)
  }

  ghost predicate NormalVariant(tags: seq<S.IrTag>, ordinal: nat, variant: string, v: V)
    decreases tags, 0
  {
    tags != [] &&
    if tags[0].variant != variant then NormalVariant(tags[1..], ordinal + 1, variant, v)
    else if tags[0].ir.Unit? then v == S.Value.Enum(Some(variant), Some(ordinal))
    else v.Tagged? && Normal(tags[0].ir, v.payload)
  }

  // ----- numbers -----

  lemma TextOfNumber(x: int)
    ensures ParseZ(HexOf(x)).Ok? && IntOfText(HexOf(x)) == x
    ensures FromBE(ParseZ(HexOf(x)).value.1) == Abs(x)
    ensures x >= 0 ==> !ParseZ(HexOf(x)).value.0
  {
    HexTextParses(x);
  }

  lemma ZarithNormal(v: V)
    requires v.Str? && ParseZ(v.utf8).Ok?
    ensures Canon(S.Ir.Zarith, v) == v <==> Normal(S.Ir.Zarith, v)
  {
    hide ParseZ, HexOf, IntOfText;
    if Normal(S.Ir.Zarith, v) {
      var x: int :| v.utf8 == HexOf(x);
      TextOfNumber(x);
    }
  }

  lemma MutezNormal(v: V)
    requires v.Str? && ParseZ(v.utf8).Ok?
    ensures Canon(S.Ir.MuTez, v) == v <==> Normal(S.Ir.MuTez, v)
  {
    hide ParseZ, HexOf, IntOfText, FromBE;
    if Normal(S.Ir.MuTez, v) {
      var x: int :| 0 <= x < 64 && v.utf8 == HexOf(x);
      TextOfNumber(x);
    }
    if Canon(S.Ir.MuTez, v) == v {
      var (negative, bytes) := ParseZ(v.utf8).value;
      var mag := FromBE(bytes);
      var y := 128 * (mag / 64) + SignBit(negative) + mag % 64;
      assert v.utf8 == HexOf(y);
      TextOfNumber(y);
      assert mag == y && !negative;
    }
  }

  // ----- records -----

  lemma {:induction false} FindFirst(name: string, values: seq<S.FieldValue>, i: nat)
    requires i < |values| && values[i].name == name
    requires forall j :: 0 <= j < i ==> values[j].name != name
    ensures S.FindValue(name, values) == Some(values[i].value)
  {
    if i > 0 {
      FindFirst(name, values[1..], i - 1);
    }
  }

  lemma {:induction false} CanonFieldAt(fields: seq<S.IrField>, values: seq<S.FieldValue>, i: nat)
    requires i < |fields|
    ensures |CanonFields(fields, values)| == |fields|
    ensures CanonFields(fields, values)[i].name == fields[i].name
    ensures S.FindValue(fields[i].name, values).Some? ==>
              CanonFields(fields, values)[i].value == Canon(fields[i].ir, S.FindValue(fields[i].name, values).value)
  {
    hide Canon;
    if i > 0 {
      CanonFieldAt(fields[1..], values, i - 1);
    } else if |fields| > 1 {
      CanonFieldAt(fields[1..], values, 0);
    } else {
      assert CanonFields(fields[1..], values) == [];
    }
  }

  /** A field of a record that has the declared names. */
  lemma {:induction false} FieldInPlace(fields: seq<S.IrField>, values: seq<S.FieldValue>, i: nat)
    requires DistinctNames(fields) && |values| == |fields| && i < |fields|
    requires forall j :: 0 <= j < |fields| ==> values[j].name == fields[j].name
    ensures S.FindValue(fields[i].name, values) == Some(values[i].value)
  {
    FindFirst(fields[i].name, values, i);
  }

  lemma {:induction false} AcceptedField(fields: seq<S.IrField>, values: seq<S.FieldValue>, i: nat)
    requires i < |fields| && EncodeRecord(values, S.GenFields(fields)).Ok?
    requires WFFields(fields)
    ensures S.FindValue(fields[i].name, values).Some?
    ensures Encode(S.FindValue(fields[i].name, values).value, S.Gen(fields[i].ir)).Ok? && WF(fields[i].ir)
    decreases |fields|
  {
    hide Encode, WF, Greedy;
    RT.RecordStep(fields, values);
    if i > 0 {
      AcceptedField(fields[1..], values, i - 1);
    }
  }

  lemma {:induction false} FieldsNormal(fields: seq<S.IrField>, values: seq<S.FieldValue>)
    requires WFFields(fields) && DistinctNames(fields) && EncodeRecord(values, S.GenFields(fields)).Ok?
    ensures CanonFields(fields, values) == values <==> NormalFields(fields, values)
    decreases fields, 1, 0
  {
    hide Canon, Normal, Encode, WF, WFFields, EncodeRecord, CanonFields;
    if fields == [] {
      NoFields(values);
      return;
    }
    forall i | 0 <= i < |fields|
      ensures |CanonFields(fields, values)| == |fields| && CanonFields(fields, values)[i].name == fields[i].name
    {
      CanonFieldAt(fields, values, i);
    }
    assert |CanonFields(fields, values)| == |fields| by { CanonFieldAt(fields, values, 0); }
    if |values| == |fields| && forall j :: 0 <= j < |fields| ==> values[j].name == fields[j].name {
      forall i | 0 <= i < |fields|
        ensures CanonFields(fields, values)[i] == values[i] <==> Normal(fields[i].ir, values[i].value)
      {
        CanonFieldAt(fields, values, i);
        FieldInPlace(fields, values, i);
        AcceptedField(fields, values, i);
        NormalIff(fields[i].ir, values[i].value);
      }
    }
  }

  lemma NoFields(values: seq<S.FieldValue>)
    ensures CanonFields([], values) == []
  {
  }

  // ----- lists -----

  lemma {:induction false} ItemsNormal(inner: S.Ir, items: seq<V>)
    requires WF(inner) && EncodeList(items, S.Gen(inner)).Ok?
    ensures CanonItems(inner, items) == items <==> forall i :: 0 <= i < |items| ==> Normal(inner, items[i])
    decreases inner, 3, |items|
  {
    hide Canon, Normal, Encode, WF, S.Gen;
    if items != [] {
      RT.ItemStep(inner, items);
      NormalIff(inner, items[0]);
      var tail := items[1..];
      ItemsNormal(inner, tail);
      var all := CanonItems(inner, items);
      assert all[0] == Canon(inner, items[0]) && all[1..] == CanonItems(inner, tail);
      assert items == [items[0]] + tail;
      assert (forall i :: 0 <= i < |items| ==> Normal(inner, items[i]))
        <==> Normal(inner, items[0]) && forall i :: 0 <= i < |tail| ==> Normal(inner, tail[i]) by {
        assert forall i :: 0 <= i < |tail| ==> tail[i] == items[i + 1];
        assert forall i :: 1 <= i < |items| ==> items[i] == tail[i - 1];
      }
    }
  }

  // ----- variants -----

  lemma {:induction false} VariantNormal(tags: seq<S.IrTag>, ordinal: nat, i: nat, v: V,
                                         variant: string, payload: Option<V>)
    requires i < |tags| && tags[i].variant == variant && DistinctIrTags(tags) && WFTags(tags)
    requires if v.Tagged? then variant == v.tag && payload == Some(v.payload)
             else v.Enum? && v.variant == Some(variant) && payload == None
    requires payload.Some? ==> Encode(payload.value, S.Gen(tags[i].ir)).Ok?
    ensures CanonVariant(tags, ordinal, variant, payload) == v <==> NormalVariant(tags, ordinal, variant, v)
    decreases tags, 1, 0
  {
    hide Canon, Normal, Encode, WF, S.Gen;
    if i > 0 {
      assert tags[1..][i - 1] == tags[i];
      VariantNormal(tags[1..], ordinal + 1, i - 1, v, variant, payload);
    } else if !tags[0].ir.Unit? && payload.Some? {
      NormalIff(tags[0].ir, payload.value);
    }
  }

  lemma VariantsNormal(ir: S.Ir, v: V)
    requires ir.Variants? && WF(ir) && Encode(v, S.Gen(ir)).Ok?
    ensures Canon(ir, v) == v <==> Normal(ir, v)
    decreases ir, 1, 0
  {
    hide Encode, S.TagMapOf, S.GenTags, CanonVariant, NormalVariant, WFTags, DistinctIrTags;
    var i, variant, payload := RT.VariantBytes(ir.tagSize, ir.tags, v);
    VariantNormal(ir.tags, 0, i, v, variant, payload);
  }

  // ----- all representations -----

  lemma {:induction false} NormalIff(ir: S.Ir, v: V)
    requires WF(ir) && Encode(v, S.Gen(ir)).Ok?
    ensures Canon(ir, v) == v <==> Normal(ir, v)
    decreases ir, 2, 0
  {
    hide Encode, EncodeRecord, EncodeList, CanonFields, CanonItems, NormalFields, WFFields, DistinctNames, S.GenFields;
    match ir
    case Zarith => ZTextAccepted(v, S.Encoding.Z); ZarithNormal(v);
    case MuTez => ZTextAccepted(v, S.Encoding.Mutez); MutezNormal(v);
    case Struct(name, fields) =>
      RT.ObjStep(v, name, S.GenFields(fields));
      FieldsNormal(fields, v.fields);
    case Variants(_, _, _) => VariantsNormal(ir, v);
    case OptionField(inner) =>
      RT.OptionBytes(S.Gen(inner), v);
      if v.inner.Some? { NormalIff(inner, v.inner.value); }
    case ListOf(limit, inner) =>
      RT.ListBytes(limit, inner, v);
      ItemsNormal(inner, v.items);
    case Sized(_, inner) => FramedStep(v, S.Gen(ir)); NormalIff(inner, v);
    case Bounded(_, inner) => FramedStep(v, S.Gen(ir)); NormalIff(inner, v);
    case Dynamic(_, inner) => FramedStep(v, S.Gen(ir)); NormalIff(inner, v);
    case _ =>
  }

  lemma ZTextAccepted(v: V, e: S.Encoding)
    requires (e.Z? || e.Mutez?) && Encode(v, e).Ok?
    ensures v.Str? && ParseZ(v.utf8).Ok?
  {
    hide ParseZ;
  }
}
