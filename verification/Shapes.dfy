/** Which representations and values the schema theorems speak about. */
module Shapes {
  import opened Basics
  import opened Bytes
  import opened Zarith
  import opened ZarithLoops
  import opened Utf8
  import opened Encoder
  import opened NomReader
  import S = Schema

  /** Readers that take all the input they are given. */
  predicate Greedy(ir: S.Ir)
    decreases ir, 0
  {
    match ir
    case Bytes | ListOf(_, _) => true
    case Struct(_, fields) => GreedyFields(fields)
    case Variants(_, _, tags) => GreedyTags(tags)
    case OptionField(inner) => Greedy(inner)
    case Bounded(_, inner) => Greedy(inner)
    case _ => false
  }

  predicate GreedyFields(fields: seq<S.IrField>)
    decreases fields, 0
  {
    fields != [] && (Greedy(fields[0].ir) || GreedyFields(fields[1..]))
  }

  predicate GreedyTags(tags: seq<S.IrTag>)
    decreases tags, 0
  {
    tags != [] && (Greedy(tags[0].ir) || GreedyTags(tags[1..]))
  }

  /** Representations whose values always take at least one byte. */
  predicate NonEmpty(ir: S.Ir)
    decreases ir, 0
  {
    match ir
    case Unit | Bytes | ListOf(_, _) => false
    case Hash(size) => size > 0
    case Struct(_, fields) => NonEmptyFields(fields)
    case Sized(size, _) => size > 0
    case Bounded(_, inner) => NonEmpty(inner)
    case Primitive(_) | Zarith | MuTez | Text(_) | Variants(_, _, _) | OptionField(_) | Dynamic(_, _) => true
  }

  predicate NonEmptyFields(fields: seq<S.IrField>)
    decreases fields, 0
  {
    fields != [] && (NonEmpty(fields[0].ir) || NonEmptyFields(fields[1..]))
  }

  /** Well-formed representations: greedy parts only at the end or inside a block, list items not
      empty, names and tag ids distinct, ids within the tag width, unit only as a variant. */
  ghost predicate WF(ir: S.Ir)
    decreases ir, 0
  {
    match ir
    case Unit => false
    case Struct(_, fields) => WFFields(fields) && DistinctNames(fields)
    case Variants(_, tagSize, tags) =>
      tagSize > 0 && WFTags(tags) && DistinctIrTags(tags) && IdsFit(tagSize, tags)
    case OptionField(inner) => WF(inner)
    case ListOf(_, inner) => WF(inner) && NonEmpty(inner) && !Greedy(inner)
    case Sized(_, inner) => WF(inner)
    case Bounded(_, inner) => WF(inner)
    case Dynamic(_, inner) => WF(inner)
    case Primitive(_) | Bytes | Hash(_) | Zarith | MuTez | Text(_) => true
  }

  ghost predicate WFFields(fields: seq<S.IrField>)
    decreases fields, 0
  {
    fields != [] ==>
      && WF(fields[0].ir)
      && (|fields| > 1 ==> !Greedy(fields[0].ir))
      && WFFields(fields[1..])
  }

  ghost predicate WFTags(tags: seq<S.IrTag>)
    decreases tags, 0
  {
    tags != [] ==> (tags[0].ir.Unit? || WF(tags[0].ir)) && WFTags(tags[1..])
  }

  ghost predicate DistinctNames(fields: seq<S.IrField>) {
    forall i, j :: 0 <= i < j < |fields| ==> fields[i].name != fields[j].name
  }

  ghost predicate DistinctIrTags(tags: seq<S.IrTag>) {
    forall i, j :: 0 <= i < j < |tags| ==> tags[i].id != tags[j].id && tags[i].variant != tags[j].variant
  }

  ghost predicate IdsFit(tagSize: nat, tags: seq<S.IrTag>) {
    forall i :: 0 <= i < |tags| ==> tags[i].id < Pow256(tagSize)
  }

  // ----- values -----

  ghost predicate InRange(k: nat, signed: bool, i: int)
    requires k > 0
  {
    if signed then 0 <= 2 * i + Pow256(k) < 2 * Pow256(k) else 0 <= i < Pow256(k)
  }

  /** Numbers are in the range of their Rust type. */
  ghost predicate NumberOk(v: S.Value) {
    match v
    case Int8(i) => InRange(1, true, i)
    case Uint8(i) => InRange(1, false, i)
    case Int16(i) => InRange(2, true, i)
    case Uint16(i) => InRange(2, false, i)
    case Int32(i) => InRange(4, true, i)
    case Int64(i) => InRange(8, true, i)
    case _ => true
  }

  /** What Rust's types promise about a value that is written under a representation: numbers in
      range, strings in UTF-8, a variant without payload only where the type has one. Strings
      written with a length have to be shorter than 2^32. */
  ghost predicate Fits(ir: S.Ir, v: S.Value)
    decreases ir, 0
  {
    match ir
    case Primitive(_) => NumberOk(v)
    case Bytes | Hash(_) => v.List? ==> forall i :: 0 <= i < |v.items| ==> NumberOk(v.items[i])
    case Text(_) => v.Str? ==> IsText(v.utf8) && |v.utf8| < U32_LIMIT
    case Struct(_, fields) => v.Record? ==> FitsFields(fields, v.fields)
    case Variants(_, _, tags) =>
      && (v.Tagged? ==> FitsVariant(tags, v.tag, Some(v.payload)))
      && (v.Enum? && v.variant.Some? ==> FitsVariant(tags, v.variant.value, None))
    case OptionField(inner) => v.Opt? && v.inner.Some? ==> Fits(inner, v.inner.value)
    case ListOf(_, inner) => v.List? ==> FitsItems(inner, v.items)
    case Sized(_, inner) => Fits(inner, v)
    case Bounded(_, inner) => Fits(inner, v)
    case Dynamic(_, inner) => Fits(inner, v)
    case Unit | Zarith | MuTez => true
  }

  ghost predicate FitsItems(inner: S.Ir, items: seq<S.Value>)
    decreases inner, 1
  {
    forall i :: 0 <= i < |items| ==> Fits(inner, items[i])
  }

  ghost predicate FitsFields(fields: seq<S.IrField>, values: seq<S.FieldValue>)
    decreases fields, 0
  {
    fields != [] ==>
      && (S.FindValue(fields[0].name, values).Some? ==>
            Fits(fields[0].ir, S.FindValue(fields[0].name, values).value))
      && FitsFields(fields[1..], values)
  }

  ghost predicate FitsVariant(tags: seq<S.IrTag>, variant: string, payload: Option<S.Value>)
    decreases tags, 0
  {
    tags != [] ==>
      if tags[0].variant == variant then
        if payload.Some? then Fits(tags[0].ir, payload.value) else tags[0].ir.Unit?
      else FitsVariant(tags[1..], variant, payload)
  }

  // ----- the value that comes back -----

  /** The normal form of an accepted value: fields in declared order, the ordinal of a variant as
      declared, numbers in lower-case hexadecimal without padding. */
  function Canon(ir: S.Ir, v: S.Value): S.Value
    decreases ir, 0
  {
    match ir
    case Zarith =>
      if v.Str? && ParseZ(v.utf8).Ok? then S.Value.Str(HexOf(IntOfText(v.utf8))) else v
    case MuTez =>
      if v.Str? && ParseZ(v.utf8).Ok? then
        var (negative, bytes) := ParseZ(v.utf8).value;
        var mag := FromBE(bytes);
        S.Value.Str(HexOf(128 * (mag / 64) + SignBit(negative) + mag % 64))
      else v
    case Struct(_, fields) => if v.Record? then S.Value.Record(CanonFields(fields, v.fields)) else v
    case Variants(_, _, tags) =>
      if v.Tagged? then CanonVariant(tags, 0, v.tag, Some(v.payload))
      else if v.Enum? && v.variant.Some? then CanonVariant(tags, 0, v.variant.value, None)
      else v
    case OptionField(inner) =>
      if v.Opt? && v.inner.Some? then S.Value.Opt(Some(Canon(inner, v.inner.value))) else v
    case ListOf(_, inner) => if v.List? then S.Value.List(CanonItems(inner, v.items)) else v
    case Sized(_, inner) => Canon(inner, v)
    case Bounded(_, inner) => Canon(inner, v)
    case Dynamic(_, inner) => Canon(inner, v)
    case Unit | Primitive(_) | Bytes | Hash(_) | Text(_) => v
  }

  function CanonItems(inner: S.Ir, items: seq<S.Value>): (r: seq<S.Value>)
    ensures |r| == |items|
    decreases inner, 1, |items|
  {
    if items == [] then [] else [Canon(inner, items[0])] + CanonItems(inner, items[1..])
  }

  function CanonFields(fields: seq<S.IrField>, values: seq<S.FieldValue>): seq<S.FieldValue>
    decreases fields, 0
  {
    if fields == [] then []
    else
      var found := S.FindValue(fields[0].name, values);
      var v := if found.Some? then Canon(fields[0].ir, found.value) else S.Value.Unit;
      [S.FieldValue(fields[0].name, v)] + CanonFields(fields[1..], values)
  }

  function CanonVariant(tags: seq<S.IrTag>, ordinal: nat, variant: string, payload: Option<S.Value>): S.Value
    decreases tags, 0
  {
    if tags == [] then S.Value.Unit
    else if tags[0].variant != variant then CanonVariant(tags[1..], ordinal + 1, variant, payload)
    else if tags[0].ir.Unit? then S.Value.Enum(Some(variant), Some(ordinal))
    else if payload.Some? then S.Value.Tagged(variant, Canon(tags[0].ir, payload.value))
    else S.Value.Unit
  }
}
