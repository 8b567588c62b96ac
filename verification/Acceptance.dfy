/** When the writer accepts what the reader yields. */
module Acceptance {
  import opened Basics
  import opened Bytes
  import opened Nom
  import opened Encoder
  import opened NomReader
  import opened Shapes
  import opened ReaderSteps
  import opened Canonical
  import RT = RoundTrip
  import S = Schema

  /** The number of bytes that a reader takes whatever the input. */
  function FixedWidth(ir: S.Ir): Option<nat>
    decreases ir, 0
  {
    match ir
    case Primitive(kind) => Some(Width(kind))
    case Hash(size) => Some(size)
    case Sized(size, _) => Some(size)
    case Bounded(_, inner) => FixedWidth(inner)
    case Struct(_, fields) => FixedWidthFields(fields)
    case _ => None
  }

  function FixedWidthFields(fields: seq<S.IrField>): Option<nat>
    decreases fields, 0
  {
    if fields == [] then Some(0)
    else
      var first, others := FixedWidth(fields[0].ir), FixedWidthFields(fields[1..]);
      if first.Some? && others.Some? then Some(first.value + others.value) else None
  }

  /** Readers that succeed only when nothing is left. */
  predicate Exhausts(ir: S.Ir)
    decreases ir, 0
  {
    match ir
    case Bytes => true
    case ListOf(limit, _) => limit.Some?
    case Struct(_, fields) => ExhaustsFields(fields)
    case _ => false
  }

  predicate ExhaustsFields(fields: seq<S.IrField>)
    decreases fields, 0
  {
    fields != [] && if |fields| == 1 then Exhausts(fields[0].ir) else ExhaustsFields(fields[1..])
  }

  /** Representations whose values the writer always takes: numbers with a signed or narrow type,
      and sized blocks that their contents fill. */
  ghost predicate Faithful(ir: S.Ir)
    decreases ir, 0
  {
    match ir
    case Primitive(kind) => !kind.Int31? && !kind.Uint32?
    case Struct(_, fields) => forall i :: 0 <= i < |fields| ==> Faithful(fields[i].ir)
    case Variants(_, tagSize, tags) =>
      (tagSize == 1 || tagSize == 2) && forall i :: 0 <= i < |tags| ==> Faithful(tags[i].ir)
    case OptionField(inner) => Faithful(inner)
    case ListOf(_, inner) => Faithful(inner)
    case Sized(size, inner) => Faithful(inner) && (Exhausts(inner) || FixedWidth(inner) == Some(size))
    case Bounded(_, inner) => Faithful(inner)
    case Dynamic(_, inner) => Faithful(inner)
    case Unit | Bytes | Hash(_) | Text(_) | Zarith | MuTez => true
  }

  // ----- how much is read -----

  lemma {:induction false} FixedWidthRead(ir: S.Ir, input: seq<byte>)
    requires FixedWidth(ir).Some? && Parse(ir, input).Done?
    ensures |input| == FixedWidth(ir).value + |Parse(ir, input).rest|
    decreases ir, 0
  {
    hide Parse, ReadFields, PrimitiveValue;
    match ir
    case Primitive(kind) => PrimitiveParse(kind, input);
    case Hash(size) => HashRead(size, input);
    case Sized(size, inner) => SizedRead(size, inner, input);
    case Bounded(max, inner) =>
      var m := BoundedRead(max, inner, input);
      FixedWidthRead(inner, input[..m]);
    case Struct(name, fields) =>
      StructRead(name, fields, input);
      FixedWidthFieldsRead(fields, input);
  }

  lemma HashRead(size: nat, input: seq<byte>)
    requires Parse(S.Ir.Hash(size), input).Done?
    ensures |input| == size + |Parse(S.Ir.Hash(size), input).rest|
  {
  }

  lemma {:induction false} FixedWidthFieldsRead(fields: seq<S.IrField>, input: seq<byte>)
    requires FixedWidthFields(fields).Some? && ReadFields(fields, input).Done?
    ensures |input| == FixedWidthFields(fields).value + |ReadFields(fields, input).rest|
    decreases fields, 0
  {
    hide Parse, FixedWidth;
    if fields != [] {
      FieldsRead(fields, input);
      FixedWidthRead(fields[0].ir, input);
      FixedWidthFieldsRead(fields[1..], Parse(fields[0].ir, input).rest);
    }
  }

  lemma {:induction false} ExhaustsRead(ir: S.Ir, input: seq<byte>)
    requires Exhausts(ir) && Parse(ir, input).Done?
    ensures Parse(ir, input).rest == []
    decreases ir, 0
  {
    hide ReadFields;
    match ir
    case Bytes =>
    case ListOf(limit, inner) => ListRead(limit, inner, input);
    case Struct(name, fields) =>
      StructRead(name, fields, input);
      ExhaustsFieldsRead(fields, input);
  }

  lemma {:induction false} ExhaustsFieldsRead(fields: seq<S.IrField>, input: seq<byte>)
    requires ExhaustsFields(fields) && ReadFields(fields, input).Done?
    ensures ReadFields(fields, input).rest == []
    decreases fields, 0
  {
    hide Parse, Exhausts;
    FieldsRead(fields, input);
    var rest := Parse(fields[0].ir, input).rest;
    if |fields| == 1 {
      ExhaustsRead(fields[0].ir, input);
      assert ReadFields([], rest) == Done([], rest);
    } else {
      ExhaustsFieldsRead(fields[1..], rest);
    }
  }

  // ----- acceptance -----

  /** On the faithful fragment everything that is read is exact. */
  lemma {:induction false} FaithfulIsExact(ir: S.Ir, input: seq<byte>)
    requires WF(ir) && NoBigNumbers(ir) && Faithful(ir) && Parse(ir, input).Done?
    ensures Exact(ir, input)
    decreases ir, 2, 0
  {
    hide Parse, ReadFields, ReadVariant, ReadPrimitive, FixedWidth, Exhausts, FromBE, LengthPrefixed;
    hide ExactFields, ExactItems, ExactVariant;
    match ir
    case Primitive(kind) =>
      PrimitiveParse(kind, input);
      PrimitiveAgain(kind, input);
    case Bytes =>
    case Hash(_) =>
    case Text(_) =>
    case Struct(name, fields) =>
      StructRead(name, fields, input);
      FieldsExact(fields, input);
    case Variants(name, tagSize, tags) => VariantExact(name, tagSize, tags, input);
    case OptionField(inner) =>
      OptionRead(inner, input);
      if input[0] == FIELD_SOME { FaithfulIsExact(inner, input[1..]); }
    case ListOf(limit, inner) => ItemsExact(limit, inner, input);
    case Sized(size, inner) =>
      SizedRead(size, inner, input);
      FaithfulIsExact(inner, input[..size]);
      if Exhausts(inner) {
        ExhaustsRead(inner, input[..size]);
      } else {
        FixedWidthRead(inner, input[..size]);
      }
    case Bounded(max, inner) =>
      var m := BoundedRead(max, inner, input);
      FaithfulIsExact(inner, input[..m]);
    case Dynamic(limit, inner) =>
      var block := DynamicRead(limit, inner, input);
      RT.PrefixBack(block, Parse(ir, input).rest);
      FaithfulIsExact(inner, block);
  }

  lemma {:induction false} FieldsExact(fields: seq<S.IrField>, input: seq<byte>)
    requires WFFields(fields) && ReadFields(fields, input).Done?
    requires forall i :: 0 <= i < |fields| ==> NoBigNumbers(fields[i].ir) && Faithful(fields[i].ir)
    ensures ExactFields(fields, input)
    decreases fields, 1, 0
  {
    hide Parse, WF, Greedy, Exact, NoBigNumbers, Faithful;
    if fields != [] {
      FieldsRead(fields, input);
      FaithfulIsExact(fields[0].ir, input);
      FieldsExact(fields[1..], Parse(fields[0].ir, input).rest);
    }
  }

  lemma VariantExact(name: string, tagSize: nat, tags: seq<S.IrTag>, input: seq<byte>)
    requires var ir := S.Ir.Variants(name, tagSize, tags);
             WF(ir) && NoBigNumbers(ir) && Faithful(ir) && Parse(ir, input).Done?
    ensures Exact(S.Ir.Variants(name, tagSize, tags), input)
    decreases tags, 3, 0
  {
    hide Parse, ReadVariant, FromBE, Pow256, ExactVariant;
    VariantsRead(name, tagSize, tags, input);
    var id, tail := FromBE(input[..tagSize]), input[tagSize..];
    var i := VariantRead(tags, 0, id, tail);
    WFTagAt(tags, i);
    ExactVariantAt(tags, i, tail);
    if tags[i].ir.Unit? {
      UnitIsExact(tail);
    } else {
      FaithfulIsExact(tags[i].ir, tail);
    }
  }

  lemma {:induction false} ItemsExact(limit: Option<nat>, inner: S.Ir, input: seq<byte>)
    requires WF(inner) && NoBigNumbers(inner) && Faithful(inner)
    ensures ExactItems(limit, inner, input)
    decreases inner, 3, |input|
  {
    hide Parse, WF, Exact, NoBigNumbers, Faithful;
    var r := Parse(inner, input);
    if limit != Some(0) && r.Done? && |r.rest| < |input| {
      FaithfulIsExact(inner, input);
      ItemsExact(OneLess(limit), inner, r.rest);
    }
  }

  /** On the faithful fragment the writer accepts every value that is read, and writing it gives
      back exactly the bytes that were read. */
  lemma ReadWriteRead(ir: S.Ir, input: seq<byte>)
    requires WF(ir) && NoBigNumbers(ir) && Faithful(ir) && Parse(ir, input).Done?
    ensures var r := Parse(ir, input);
            var w := Encode(r.value, S.Gen(ir));
            w.Ok? && w.value + r.rest == input
  {
    hide Parse, Encode, WF, NoBigNumbers, Faithful, Exact, S.Gen;
    FaithfulIsExact(ir, input);
    ExactIsReproduced(ir, input);
  }

  /** A sized block is accepted again exactly when its contents filled it. */
  lemma SizedAcceptedIff(size: nat, inner: S.Ir, input: seq<byte>)
    requires WF(inner) && NoBigNumbers(inner) && Parse(S.Ir.Sized(size, inner), input).Done?
    requires Encode(Parse(S.Ir.Sized(size, inner), input).value, S.Gen(inner)).Ok?
    ensures |input| >= size && Parse(inner, input[..size]).Done?
    ensures Encode(Parse(S.Ir.Sized(size, inner), input).value, S.Encoding.Sized(size, S.Gen(inner))).Ok?
       <==> Parse(inner, input[..size]).rest == []
  {
    hide Encode, Parse, WF, NoBigNumbers, S.Gen;
    SizedRead(size, inner, input);
    WrittenBack(inner, input[..size]);
    FramedStep(Parse(S.Ir.Sized(size, inner), input).value, S.Encoding.Sized(size, S.Gen(inner)));
  }

  /** A number read as `Int31` or `Uint32` is accepted again exactly when its top bit is clear. */
  lemma WideNumberAcceptedIff(kind: S.Primitive, input: seq<byte>)
    requires (kind.Int31? || kind.Uint32?) && |input| >= 4
    ensures ReadPrimitive(kind, input).Done?
    ensures Encode(ReadPrimitive(kind, input).value, S.PrimitiveEncoding(kind)).Ok? <==> input[0] < 0x80
  {
    hide Encode, FromBE, Pow256;
    PrimitiveAgain(kind, input);
  }
}
