/** Reading and writing again: exactly when the writer reproduces the bytes that were read. */
module Canonical {
  import opened Basics
  import opened Bytes
  import opened Nom
  import opened Zarith
  import opened ZarithLoops
  import opened Encoder
  import opened NomReader
  import opened Shapes
  import opened ReaderSteps
  import opened ParsedValues
  import RT = RoundTrip
  import NF = NormalForm
  import S = Schema

  type V = S.Value

  /** The writer accepts what was read, and writes exactly the bytes that were read. */
  ghost predicate Reproduced(ir: S.Ir, input: seq<byte>) {
    var r := Parse(ir, input);
    && r.Done?
    && Encode(r.value, S.Gen(ir)).Ok?
    && input == Encode(r.value, S.Gen(ir)).value + r.rest
  }

  // ----- the condition, on the bytes -----

  /** A big number in its only canonical form: not minus zero, no empty last group. */
  ghost predicate ExactZ(input: seq<byte>) {
    ReadZ(input).Done? &&
    var rest := ReadZ(input).rest;
    && |rest| < |input|
    && var used := input[..|input| - |rest|];
       if |used| == 1 then used[0] != 64 else used[|used| - 1] != 0
  }

  /** In the part that is read, every wide number has its top bit clear, every sized block is filled,
      every big number is in canonical form, every tez amount is a single byte below 64 and every tag
      has one or two bytes. */
  ghost predicate Exact(ir: S.Ir, input: seq<byte>)
    decreases ir, 0, 0
  {
    match ir
    case Primitive(kind) => input != [] && (kind.Int31? || kind.Uint32? ==> input[0] < 0x80)
    case Zarith => ExactZ(input)
    case MuTez => input != [] && input[0] < 64
    case Struct(_, fields) => ExactFields(fields, input)
    case Variants(_, tagSize, tags) =>
      && (tagSize == 1 || tagSize == 2) && |input| >= tagSize
      && ExactVariant(tags, FromBE(input[..tagSize]), input[tagSize..])
    case OptionField(inner) => input != [] && (input[0] == FIELD_SOME ==> Exact(inner, input[1..]))
    case ListOf(limit, inner) => ExactItems(limit, inner, input)
    case Sized(size, inner) =>
      && |input| >= size && Exact(inner, input[..size])
      && Parse(inner, input[..size]).Done? && Parse(inner, input[..size]).rest == []
    case Bounded(max, inner) => Exact(inner, input[..if max < |input| then max else |input|])
    case Dynamic(_, inner) =>
      && |input| >= 4 && |input| >= 4 + FromBE(input[..4])
      && Exact(inner, input[4..4 + FromBE(input[..4])])
    case Unit | Bytes | Hash(_) | Text(_) => true
  }

  ghost predicate ExactFields(fields: seq<S.IrField>, input: seq<byte>)
    decreases fields, 0, 0
  {
    fields != [] ==>
      && Exact(fields[0].ir, input)
      && (Parse(fields[0].ir, input).Done? ==> ExactFields(fields[1..], Parse(fields[0].ir, input).rest))
  }

  ghost predicate ExactVariant(tags: seq<S.IrTag>, id: nat, input: seq<byte>)
    decreases tags, 0, 0
  {
    tags != [] ==>
      if tags[0].id == id then Exact(tags[0].ir, input) else ExactVariant(tags[1..], id, input)
  }

  ghost predicate ExactItems(limit: Option<nat>, inner: S.Ir, input: seq<byte>)
    decreases inner, 1, |input|
  {
    var r := Parse(inner, input);
    limit != Some(0) && r.Done? && |r.rest| < |input| ==>
      Exact(inner, input) && ExactItems(OneLess(limit), inner, r.rest)
  }

  // ----- big numbers -----

  /** A big number is read and written through its text. */
  lemma BigNumberCode(ir: S.Ir, input: seq<byte>)
    requires (ir.Zarith? || ir.MuTez?) && Parse(ir, input).Done?
    ensures var r := if ir.Zarith? then ReadZ(input) else ReadMutez(input);
            && r.Done? && Parse(ir, input) == Done(S.Value.Str(HexOf(r.value)), r.rest)
            && Encode(S.Value.Str(HexOf(r.value)), S.Gen(ir)) == Ok(ZBytes(r.value < 0, Abs(r.value)))
  {
    hide ReadZ, ReadMutez, HexOf, ZBytes, Encode;
    var r := if ir.Zarith? then ReadZ(input) else ReadMutez(input);
    BigNumberWritten(ir, r.value);
  }

  lemma BigNumberWritten(ir: S.Ir, x: int)
    requires ir.Zarith? || ir.MuTez?
    ensures Encode(S.Value.Str(HexOf(x)), S.Gen(ir)) == Ok(ZBytes(x < 0, Abs(x)))
  {
    hide HexOf, ZBytes, EncodeZText;
    BigNumberRoundTrip(x, []);
  }

  lemma ZAgain(input: seq<byte>)
    requires Parse(S.Ir.Zarith, input).Done?
    ensures Encode(Parse(S.Ir.Zarith, input).value, S.Encoding.Z).Ok?
    ensures Reproduced(S.Ir.Zarith, input) <==> ExactZ(input)
  {
    hide ReadZ, HexOf, ZBytes, Parse, Encode;
    BigNumberCode(S.Ir.Zarith, input);
    var Done(x, rest) := ReadZ(input);
    BigNumberSuffix(input);
    ZCanonicalIff(input);
    var used := input[..|input| - |rest|];
    assert input == used + rest;
    SamePrefix(used, ZBytes(x < 0, Abs(x)), rest);
  }

  lemma SamePrefix(a: seq<byte>, b: seq<byte>, rest: seq<byte>)
    ensures a + rest == b + rest <==> a == b
  {
    if a + rest == b + rest {
      assert |a| == |b|;
      assert a == (a + rest)[..|a|];
      assert b == (b + rest)[..|b|];
    }
  }

  lemma MutezAgain(input: seq<byte>)
    requires Parse(S.Ir.MuTez, input).Done?
    ensures Encode(Parse(S.Ir.MuTez, input).value, S.Encoding.Mutez).Ok?
    ensures input != [] && (Reproduced(S.Ir.MuTez, input) <==> input[0] < 64)
  {
    hide ReadMutez, HexOf, ZBytes, Parse, Encode;
    BigNumberCode(S.Ir.MuTez, input);
    MutezCanonicalIff(input);
  }

  // ----- exact bytes are reproduced -----

  lemma {:induction false} ExactIsReproduced(ir: S.Ir, input: seq<byte>)
    requires WF(ir) && Parse(ir, input).Done? && Exact(ir, input)
    ensures Reproduced(ir, input)
    decreases ir, 2, 0
  {
    hide Encode, Parse, ReadFields, ReadVariant, EncodeRecord, S.TagMapOf, S.GenTags, S.GenFields, ReadPrimitive;
    hide ExactFields, ExactItems, ExactVariant, ExactZ, FromBE;
    match ir
    case Primitive(kind) =>
      PrimitiveParse(kind, input);
      PrimitiveAgain(kind, input);
    case Bytes => LeafAgain(ir, input);
    case Hash(_) => LeafAgain(ir, input);
    case Text(_) => LeafAgain(ir, input);
    case Zarith => ZAgain(input);
    case MuTez => MutezAgain(input);
    case Struct(name, fields) =>
      StructRead(name, fields, input);
      var rs := ReadFields(fields, input);
      RT.ObjStep(S.Value.Record(rs.value), name, S.GenFields(fields));
      FieldNames(fields, input);
      assert fields[0..] == fields && rs.value[0..] == rs.value;
      FieldsReproduced(fields, 0, input, rs.value);
    case Variants(name, tagSize, tags) => VariantReproduced(name, tagSize, tags, input);
    case OptionField(inner) => OptionReproduced(inner, input);
    case ListOf(limit, inner) =>
      ListRead(limit, inner, input);
      RT.ListBytes(limit, inner, Parse(ir, input).value);
      ItemsReproduced(limit, inner, input);
      ItemsRead(limit, inner, input);
    case Sized(size, inner) => SizedReproduced(size, inner, input);
    case Bounded(max, inner) => BoundedReproduced(max, inner, input);
    case Dynamic(limit, inner) => DynamicReproduced(limit, inner, input);
  }

  lemma OptionReproduced(inner: S.Ir, input: seq<byte>)
    requires WF(inner) && Parse(S.Ir.OptionField(inner), input).Done? && Exact(S.Ir.OptionField(inner), input)
    ensures Reproduced(S.Ir.OptionField(inner), input)
    decreases inner, 3, 0
  {
    hide Encode, Parse, WF;
    OptionRead(inner, input);
    var r := Parse(S.Ir.OptionField(inner), input);
    OptionCode(S.Gen(inner), r.value);
    assert input == [input[0]] + input[1..];
    if r.value.inner.Some? {
      ExactIsReproduced(inner, input[1..]);
      AppendAssoc([input[0]], Encode(r.value.inner.value, S.Gen(inner)).value, r.rest);
    }
  }

  lemma OptionCode(inner: S.Encoding, v: V)
    requires v.Opt?
    ensures Encode(v, S.Encoding.OptionalField(inner))
         == if v.inner.Some? then Prepend([FIELD_SOME], Encode(v.inner.value, inner)) else Ok([FIELD_NONE])
  {
  }

  lemma SizedReproduced(size: nat, inner: S.Ir, input: seq<byte>)
    requires WF(inner) && Parse(S.Ir.Sized(size, inner), input).Done? && Exact(S.Ir.Sized(size, inner), input)
    ensures Reproduced(S.Ir.Sized(size, inner), input)
    decreases inner, 3, 0
  {
    hide Encode, Parse, WF;
    SizedRead(size, inner, input);
    ExactIsReproduced(inner, input[..size]);
    FramedStep(Parse(S.Ir.Sized(size, inner), input).value, S.Gen(S.Ir.Sized(size, inner)));
    assert input == input[..size] + input[size..];
  }

  lemma BoundedReproduced(max: nat, inner: S.Ir, input: seq<byte>)
    requires WF(inner) && Parse(S.Ir.Bounded(max, inner), input).Done? && Exact(S.Ir.Bounded(max, inner), input)
    ensures Reproduced(S.Ir.Bounded(max, inner), input)
    decreases inner, 3, 0
  {
    hide Encode, Parse, WF;
    var m := BoundedRead(max, inner, input);
    ExactIsReproduced(inner, input[..m]);
    FramedStep(Parse(S.Ir.Bounded(max, inner), input).value, S.Gen(S.Ir.Bounded(max, inner)));
    BoundedSplit(input, m, Encode(Parse(inner, input[..m]).value, S.Gen(inner)).value, Parse(inner, input[..m]).rest);
  }

  /** The bytes in front of a bounded reader's rest. */
  lemma BoundedSplit(input: seq<byte>, m: nat, bs: seq<byte>, rest: seq<byte>)
    requires m <= |input| && |rest| <= m
    ensures input[..m] == bs + rest ==> input == bs + input[m - |rest|..]
    ensures input == bs + input[m - |rest|..] && IsSuffix(rest, input[..m]) ==> input[..m] == bs + rest
  {
    if input[..m] == bs + rest {
      assert bs == input[..m][..m - |rest|] == input[..m - |rest|];
    }
    if input == bs + input[m - |rest|..] && IsSuffix(rest, input[..m]) {
      assert |bs| == m - |rest|;
      assert bs == input[..m - |rest|] == input[..m][..m - |rest|];
      assert input[..m] == input[..m][..m - |rest|] + input[..m][m - |rest|..];
    }
  }

  lemma DynamicReproduced(limit: Option<nat>, inner: S.Ir, input: seq<byte>)
    requires WF(inner) && Parse(S.Ir.Dynamic(limit, inner), input).Done? && Exact(S.Ir.Dynamic(limit, inner), input)
    ensures Reproduced(S.Ir.Dynamic(limit, inner), input)
    decreases inner, 3, 0
  {
    hide Encode, Parse, WF, LengthPrefixed, FromBE;
    var block := DynamicRead(limit, inner, input);
    RT.PrefixBack(block, Parse(S.Ir.Dynamic(limit, inner), input).rest);
    ExactIsReproduced(inner, block);
    assert block == Encode(Parse(inner, block).value, S.Gen(inner)).value;
    FramedStep(Parse(S.Ir.Dynamic(limit, inner), input).value, S.Gen(S.Ir.Dynamic(limit, inner)));
  }

  lemma {:induction false} ItemsReproduced(limit: Option<nat>, inner: S.Ir, input: seq<byte>)
    requires WF(inner) && ReadItems(limit, inner, input).Done? && ExactItems(limit, inner, input)
    ensures var all := ReadItems(limit, inner, input);
            var w := EncodeList(all.value, S.Gen(inner));
            w.Ok? && input == w.value + all.rest
    decreases inner, 3, |input|
  {
    hide Encode, Parse, WF, S.Gen, ReadItems, Exact;
    ItemsRead(limit, inner, input);
    var all := ReadItems(limit, inner, input);
    if all.value != [] {
      var r := Parse(inner, input);
      ExactIsReproduced(inner, input);
      ItemsReproduced(OneLess(limit), inner, r.rest);
      AppendAssoc(Encode(r.value, S.Gen(inner)).value, EncodeList(all.value[1..], S.Gen(inner)).value, all.rest);
    }
  }

  lemma {:induction false} FieldsReproduced(all: seq<S.IrField>, k: nat, input: seq<byte>, values: seq<S.FieldValue>)
    requires k <= |all| && DistinctNames(all) && |values| == |all|
    requires forall i :: 0 <= i < |all| ==> values[i].name == all[i].name
    requires WFFields(all[k..]) && ReadFields(all[k..], input).Done? && ReadFields(all[k..], input).value == values[k..]
    requires ExactFields(all[k..], input)
    ensures var w := EncodeRecord(values, S.GenFields(all[k..]));
            w.Ok? && input == w.value + ReadFields(all[k..], input).rest
    decreases all[k..], 1, 0
  {
    hide Encode, Parse, WF, Greedy, Exact, S.GenFields;
    var fields := all[k..];
    if k < |all| {
      assert fields[1..] == all[k + 1..] && fields[0] == all[k];
      FieldsRead(fields, input);
      NF.FieldInPlace(all, values, k);
      assert values[k..][0] == values[k] && values[k..][1..] == values[k + 1..];
      ExactIsReproduced(fields[0].ir, input);
      FieldsReproduced(all, k + 1, Parse(fields[0].ir, input).rest, values);
      RecordCode(fields, values);
      AppendAssoc(Encode(values[k].value, S.Gen(fields[0].ir)).value,
                  EncodeRecord(values, S.GenFields(fields[1..])).value, ReadFields(fields, input).rest);
    } else {
      assert fields == [];
      NoFieldBytes(values);
    }
  }

  lemma RecordCode(fields: seq<S.IrField>, values: seq<S.FieldValue>)
    requires fields != [] && S.FindValue(fields[0].name, values).Some?
    ensures var first := Encode(S.FindValue(fields[0].name, values).value, S.Gen(fields[0].ir));
            first.Ok? ==> EncodeRecord(values, S.GenFields(fields))
                          == Prepend(first.value, EncodeRecord(values, S.GenFields(fields[1..])))
  {
    hide Encode, S.Gen;
    assert S.GenFields(fields)[1..] == S.GenFields(fields[1..]);
  }

  lemma {:induction false} ExactVariantAt(tags: seq<S.IrTag>, i: nat, input: seq<byte>)
    requires DistinctIrTags(tags) && i < |tags|
    ensures ExactVariant(tags, tags[i].id, input) <==> Exact(tags[i].ir, input)
    decreases |tags|
  {
    hide Exact;
    if i > 0 {
      assert tags[1..][i - 1] == tags[i];
      ExactVariantAt(tags[1..], i - 1, input);
    }
  }

  lemma TagCode(tagSize: nat, tags: seq<S.IrTag>, i: nat, v: V)
    requires DistinctIrTags(tags) && i < |tags| && (tagSize == 1 || tagSize == 2)
    requires if v.Tagged? then v.tag == tags[i].variant else v.Enum? && v.variant == Some(tags[i].variant)
    ensures Encode(v, S.Encoding.Tags(tagSize, S.TagMapOf(S.GenTags(tags))))
         == if v.Tagged? then Prepend(ToBE(tagSize, tags[i].id), Encode(v.payload, S.Gen(tags[i].ir)))
            else Ok(ToBE(tagSize, tags[i].id))
  {
    hide S.TagMapOf, ToBE, S.Gen, Framed, EncodeList, EncodeRecord, EncodeTuple;
    S.TagFound(S.GenTags(tags), i);
  }

  lemma VariantReproduced(name: string, tagSize: nat, tags: seq<S.IrTag>, input: seq<byte>)
    requires var ir := S.Ir.Variants(name, tagSize, tags); WF(ir) && Parse(ir, input).Done? && Exact(ir, input)
    ensures Reproduced(S.Ir.Variants(name, tagSize, tags), input)
    decreases tags, 3, 0
  {
    hide Encode, Parse, ReadVariant, S.TagMapOf, S.GenTags, ToBE, FromBE, Pow256, ExactVariant;
    hide WFTags, DistinctIrTags, IdsFit;
    VariantsRead(name, tagSize, tags, input);
    var id, tail := FromBE(input[..tagSize]), input[tagSize..];
    var r := ReadVariant(tags, 0, id, tail);
    var i := VariantRead(tags, 0, id, tail);
    TagCode(tagSize, tags, i, r.value);
    ToFromBE(input[..tagSize]);
    assert input == input[..tagSize] + tail;
    WFTagAt(tags, i);
    if r.value.Tagged? {
      ExactVariantAt(tags, i, tail);
      ExactIsReproduced(tags[i].ir, tail);
      AppendAssoc(input[..tagSize], Encode(r.value.payload, S.Gen(tags[i].ir)).value, r.rest);
    }
  }

  // ----- and nothing else is -----

  /** No big numbers anywhere. */
  ghost predicate NoBigNumbers(ir: S.Ir)
    decreases ir, 0
  {
    match ir
    case Zarith | MuTez => false
    case Struct(_, fields) => forall i :: 0 <= i < |fields| ==> NoBigNumbers(fields[i].ir)
    case Variants(_, _, tags) => forall i :: 0 <= i < |tags| ==> NoBigNumbers(tags[i].ir)
    case OptionField(inner) => NoBigNumbers(inner)
    case ListOf(_, inner) => NoBigNumbers(inner)
    case Sized(_, inner) => NoBigNumbers(inner)
    case Bounded(_, inner) => NoBigNumbers(inner)
    case Dynamic(_, inner) => NoBigNumbers(inner)
    case Unit | Primitive(_) | Bytes | Hash(_) | Text(_) => true
  }

  /** What is known of a value that was read and accepted: that its bytes are those that were read, or
      that there are no big numbers that could be padded. */
  ghost predicate Tight(ir: S.Ir, input: seq<byte>) {
    var r := Parse(ir, input);
    && r.Done? && Encode(r.value, S.Gen(ir)).Ok?
    && (NoBigNumbers(ir) || input == Encode(r.value, S.Gen(ir)).value + r.rest)
  }

  /** If what was written for a value starts the input, the reader of that value took exactly that. */
  lemma TookItsBytes(ir: S.Ir, input: seq<byte>, others: seq<byte>)
    requires WF(ir) && Parse(ir, input).Done? && Encode(Parse(ir, input).value, S.Gen(ir)).Ok?
    requires input == Encode(Parse(ir, input).value, S.Gen(ir)).value + others && (Greedy(ir) ==> others == [])
    ensures Parse(ir, input).rest == others
  {
    hide Encode, Parse, WF, Greedy, Fits, Canon;
    ParsedFits(ir, input);
    RT.RoundTrip(ir, Parse(ir, input).value, others);
  }

  lemma {:induction false} TightIsExact(ir: S.Ir, input: seq<byte>)
    requires WF(ir) && Tight(ir, input)
    ensures Exact(ir, input)
    decreases ir, 2, 0
  {
    hide Encode, Parse, ReadFields, ReadVariant, EncodeRecord, S.TagMapOf, S.GenTags, S.GenFields, ReadPrimitive;
    hide ExactFields, ExactItems, ExactVariant, ExactZ, FromBE, EncodeList;
    match ir
    case Primitive(kind) =>
      PrimitiveParse(kind, input);
      PrimitiveAgain(kind, input);
    case Bytes =>
    case Hash(_) =>
    case Text(_) =>
    case Zarith => ZAgain(input);
    case MuTez => MutezAgain(input);
    case Struct(name, fields) =>
      StructRead(name, fields, input);
      var rs := ReadFields(fields, input);
      RT.ObjStep(S.Value.Record(rs.value), name, S.GenFields(fields));
      FieldNames(fields, input);
      assert fields[0..] == fields && rs.value[0..] == rs.value;
      FieldsAreExact(fields, 0, input, rs.value, NoBigNumbers(ir));
    case Variants(name, tagSize, tags) => VariantIsExact(name, tagSize, tags, input);
    case OptionField(inner) => OptionIsExact(inner, input);
    case ListOf(limit, inner) =>
      ListRead(limit, inner, input);
      RT.ListBytes(limit, inner, Parse(ir, input).value);
      ItemsAreExact(limit, inner, input);
    case Sized(size, inner) => SizedIsExact(size, inner, input);
    case Bounded(max, inner) => BoundedIsExact(max, inner, input);
    case Dynamic(limit, inner) => DynamicIsExact(limit, inner, input);
  }

  lemma OptionIsExact(inner: S.Ir, input: seq<byte>)
    requires WF(inner) && Tight(S.Ir.OptionField(inner), input)
    ensures Exact(S.Ir.OptionField(inner), input)
    decreases inner, 3, 0
  {
    hide Encode, Parse, WF;
    OptionRead(inner, input);
    var r := Parse(S.Ir.OptionField(inner), input);
    OptionCode(S.Gen(inner), r.value);
    if r.value.inner.Some? {
      if !NoBigNumbers(inner) {
        var bs := Encode(r.value.inner.value, S.Gen(inner)).value;
        assert input[1..] == (([FIELD_SOME] + bs) + r.rest)[1..] == bs + r.rest;
      }
      TightIsExact(inner, input[1..]);
    }
  }

  lemma SizedIsExact(size: nat, inner: S.Ir, input: seq<byte>)
    requires WF(inner) && Tight(S.Ir.Sized(size, inner), input)
    ensures Exact(S.Ir.Sized(size, inner), input)
    decreases inner, 3, 0
  {
    hide Encode, Parse, WF, Greedy, Exact;
    SizedRead(size, inner, input);
    var block := input[..size];
    var v := Parse(inner, block).value;
    FramedStep(v, S.Gen(S.Ir.Sized(size, inner)));
    var bs := Encode(v, S.Gen(inner)).value;
    if !NoBigNumbers(inner) {
      assert bs == (bs + input[size..])[..size] == block;
      assert block == bs + [];
      TookItsBytes(inner, block, []);
    }
    TightIsExact(inner, block);
    ExactIsReproduced(inner, block);
    SizedExactness(size, inner, input);
  }

  lemma SizedExactness(size: nat, inner: S.Ir, input: seq<byte>)
    requires |input| >= size && Exact(inner, input[..size])
    requires Parse(inner, input[..size]).Done? && Parse(inner, input[..size]).rest == []
    ensures Exact(S.Ir.Sized(size, inner), input)
  {
    hide Parse;
  }

  lemma BoundedIsExact(max: nat, inner: S.Ir, input: seq<byte>)
    requires WF(inner) && Tight(S.Ir.Bounded(max, inner), input)
    ensures Exact(S.Ir.Bounded(max, inner), input)
    decreases inner, 3, 0
  {
    hide Encode, Parse, WF;
    var m := BoundedRead(max, inner, input);
    var r := Parse(inner, input[..m]);
    FramedStep(r.value, S.Gen(S.Ir.Bounded(max, inner)));
    BoundedSplit(input, m, Encode(r.value, S.Gen(inner)).value, r.rest);
    TightIsExact(inner, input[..m]);
  }

  lemma DynamicIsExact(limit: Option<nat>, inner: S.Ir, input: seq<byte>)
    requires WF(inner) && Tight(S.Ir.Dynamic(limit, inner), input)
    ensures Exact(S.Ir.Dynamic(limit, inner), input)
    decreases inner, 3, 0
  {
    hide Encode, Parse, WF, LengthPrefixed, FromBE;
    var block := DynamicRead(limit, inner, input);
    var r := Parse(S.Ir.Dynamic(limit, inner), input);
    RT.PrefixBack(block, r.rest);
    FramedStep(r.value, S.Gen(S.Ir.Dynamic(limit, inner)));
    var bs := Encode(r.value, S.Gen(inner)).value;
    if !NoBigNumbers(inner) {
      RT.PrefixBack(bs, r.rest);
      assert block == bs + [];
    }
    TightIsExact(inner, block);
  }

  lemma {:induction false} ItemsAreExact(limit: Option<nat>, inner: S.Ir, input: seq<byte>)
    requires WF(inner) && !Greedy(inner) && ReadItems(limit, inner, input).Done?
    requires EncodeList(ReadItems(limit, inner, input).value, S.Gen(inner)).Ok?
    requires NoBigNumbers(inner)
             || input == EncodeList(ReadItems(limit, inner, input).value, S.Gen(inner)).value
                         + ReadItems(limit, inner, input).rest
    ensures ExactItems(limit, inner, input)
    decreases inner, 3, |input|
  {
    hide Encode, Parse, WF, Greedy, S.Gen, ReadItems, Exact, NoBigNumbers;
    ItemsRead(limit, inner, input);
    var all := ReadItems(limit, inner, input);
    if all.value == [] {
      NoItems(limit, inner, input);
    } else {
      var r := Parse(inner, input);
      RT.ItemStep(inner, all.value);
      var first, others := Encode(r.value, S.Gen(inner)).value, EncodeList(all.value[1..], S.Gen(inner)).value;
      AppendAssoc(first, others, all.rest);
      if !NoBigNumbers(inner) {
        TookItsBytes(inner, input, others + all.rest);
      }
      TightIsExact(inner, input);
      ItemsAreExact(OneLess(limit), inner, r.rest);
    }
  }

  lemma NoItems(limit: Option<nat>, inner: S.Ir, input: seq<byte>)
    requires ReadItems(limit, inner, input).Done? && ReadItems(limit, inner, input).value == []
    ensures ExactItems(limit, inner, input)
  {
    hide Parse, Exact;
  }

  lemma {:induction false} FieldsAreExact(all: seq<S.IrField>, k: nat, input: seq<byte>, values: seq<S.FieldValue>,
                                          noBig: bool)
    requires k <= |all| && DistinctNames(all) && |values| == |all|
    requires forall i :: 0 <= i < |all| ==> values[i].name == all[i].name && (noBig ==> NoBigNumbers(all[i].ir))
    requires WFFields(all[k..]) && ReadFields(all[k..], input).Done? && ReadFields(all[k..], input).value == values[k..]
    requires EncodeRecord(values, S.GenFields(all[k..])).Ok?
    requires noBig || input == EncodeRecord(values, S.GenFields(all[k..])).value + ReadFields(all[k..], input).rest
    ensures ExactFields(all[k..], input)
    decreases all[k..], 1, 0
  {
    hide Encode, Parse, WF, Greedy, Exact, NoBigNumbers, S.GenFields;
    var fields := all[k..];
    if k < |all| {
      assert fields[1..] == all[k + 1..] && fields[0] == all[k];
      FieldsRead(fields, input);
      RT.RecordStep(fields, values);
      NF.FieldInPlace(all, values, k);
      assert values[k..][0] == values[k] && values[k..][1..] == values[k + 1..];
      var r, rest := Parse(fields[0].ir, input), ReadFields(fields, input).rest;
      var first, others := Encode(r.value, S.Gen(fields[0].ir)).value,
                           EncodeRecord(values, S.GenFields(fields[1..])).value;
      AppendAssoc(first, others, rest);
      if !noBig {
        if |fields| == 1 {
          assert fields[1..] == [];
          NoFieldBytes(values);
          assert others + rest == rest;
        } else {
          TookItsBytes(fields[0].ir, input, others + rest);
        }
      }
      TightIsExact(fields[0].ir, input);
      FieldsAreExact(all, k + 1, r.rest, values, noBig);
    }
  }

  lemma VariantIsExact(name: string, tagSize: nat, tags: seq<S.IrTag>, input: seq<byte>)
    requires WF(S.Ir.Variants(name, tagSize, tags)) && Tight(S.Ir.Variants(name, tagSize, tags), input)
    ensures Exact(S.Ir.Variants(name, tagSize, tags), input)
    decreases tags, 3, 0
  {
    hide Encode, Parse, ReadVariant, S.TagMapOf, S.GenTags, ToBE, FromBE, Pow256, ExactVariant;
    hide WFTags, DistinctIrTags, IdsFit;
    VariantsRead(name, tagSize, tags, input);
    var id, tail := FromBE(input[..tagSize]), input[tagSize..];
    var r := ReadVariant(tags, 0, id, tail);
    var i := VariantRead(tags, 0, id, tail);
    TagWidth(tagSize, S.TagMapOf(S.GenTags(tags)), r.value);
    TagCode(tagSize, tags, i, r.value);
    ExactVariantAt(tags, i, tail);
    WFTagAt(tags, i);
    if r.value.Tagged? {
      if !NoBigNumbers(tags[i].ir) {
        var bs := Encode(r.value.payload, S.Gen(tags[i].ir)).value;
        assert tail == ((ToBE(tagSize, tags[i].id) + bs) + r.rest)[tagSize..] == bs + r.rest;
      }
      TightIsExact(tags[i].ir, tail);
    } else {
      UnitIsExact(tail);
    }
  }

  lemma TagWidth(tagSize: nat, m: S.TagMap, v: V)
    requires Encode(v, S.Encoding.Tags(tagSize, m)).Ok?
    ensures tagSize == 1 || tagSize == 2
  {
    hide ToBE, S.FindByVariant;
  }

  lemma UnitIsExact(input: seq<byte>)
    ensures Exact(S.Ir.Unit, input)
  {
  }

  // ----- the results -----

  /** For every well-formed representation and every input that is read, the writer reproduces the
      bytes that were read exactly when they are exact. */
  lemma ReproducedIff(ir: S.Ir, input: seq<byte>)
    requires WF(ir) && Parse(ir, input).Done?
    ensures Reproduced(ir, input) <==> Exact(ir, input)
  {
    hide Encode, Parse, WF, Exact;
    if Reproduced(ir, input) {
      TightIsExact(ir, input);
    } else if Exact(ir, input) {
      ExactIsReproduced(ir, input);
    }
  }

  /** Without big numbers, whatever the writer accepts again is reproduced. */
  lemma WrittenBack(ir: S.Ir, input: seq<byte>)
    requires WF(ir) && NoBigNumbers(ir) && Parse(ir, input).Done?
    requires Encode(Parse(ir, input).value, S.Gen(ir)).Ok?
    ensures input == Encode(Parse(ir, input).value, S.Gen(ir)).value + Parse(ir, input).rest
  {
    hide Encode, Parse, WF, Exact;
    TightIsExact(ir, input);
    ExactIsReproduced(ir, input);
  }
}
