/** How the generated reader fails: which failures end a list and which do not
    (tezos/encoding-derive/src/nom.rs, tezos/encoding/src/nom.rs). */
module ReaderErrors {
  import opened Basics
  import opened Bytes
  import opened Nom
  import opened Zarith
  import opened Encoder
  import opened NomReader
  import opened Shapes
  import RT = RoundTrip
  import S = Schema

  type V = S.Value

  // ----- where failures come from -----

  /** An id that no tag has is a failure that nothing recovers from. */
  lemma {:induction false} UnknownTag(tags: seq<S.IrTag>, ordinal: nat, id: nat, input: seq<byte>)
    requires forall i :: 0 <= i < |tags| ==> tags[i].id != id
    ensures ReadVariant(tags, ordinal, id, input) == Failure
  {
    if tags != [] { UnknownTag(tags[1..], ordinal + 1, id, input); }
  }

  lemma UnknownVariant(name: string, tagSize: nat, tags: seq<S.IrTag>, input: seq<byte>)
    requires |input| >= tagSize && forall i :: 0 <= i < |tags| ==> tags[i].id != FromBE(input[..tagSize])
    ensures Parse(S.Ir.Variants(name, tagSize, tags), input) == Failure
  {
    hide FromBE;
    UnknownTag(tags, 0, FromBE(input[..tagSize]), input[tagSize..]);
  }

  /** A block asks for more input exactly when its size is there, allowed and larger than what is left;
      what the reader inside asks for is an error. */
  lemma BlockIncompleteIff(limit: Option<nat>, inner: S.Ir, input: seq<byte>)
    ensures Parse(S.Ir.Dynamic(limit, inner), input) == Incomplete
       <==> && |input| >= 4 && 4 + FromBE(input[..4]) > |input|
            && (limit.Some? ==> FromBE(input[..4]) <= limit.value)
  {
    hide FromBE;
  }

  /** Somewhere inside there is a block with its size. */
  predicate HasBlock(ir: S.Ir)
    decreases ir
  {
    match ir
    case Dynamic(_, _) => true
    case Struct(_, fields) => exists i :: 0 <= i < |fields| && HasBlock(fields[i].ir)
    case Variants(_, _, tags) => exists i :: 0 <= i < |tags| && HasBlock(tags[i].ir)
    case OptionField(inner) => HasBlock(inner)
    case ListOf(_, inner) => HasBlock(inner)
    case Sized(_, inner) => HasBlock(inner)
    case Bounded(_, inner) => HasBlock(inner)
    case _ => false
  }

  /** Somewhere inside there is a choice of variants. */
  predicate HasVariants(ir: S.Ir)
    decreases ir
  {
    match ir
    case Variants(_, _, _) => true
    case Struct(_, fields) => exists i :: 0 <= i < |fields| && HasVariants(fields[i].ir)
    case OptionField(inner) => HasVariants(inner)
    case ListOf(_, inner) => HasVariants(inner)
    case Sized(_, inner) => HasVariants(inner)
    case Bounded(_, inner) => HasVariants(inner)
    case Dynamic(_, inner) => HasVariants(inner)
    case _ => false
  }

  /** Only a block asks for more input, and only an unknown variant is a failure; every other reader that
      cannot go on reports an error. */
  lemma {:induction false} WhoCanFail(ir: S.Ir, input: seq<byte>)
    ensures Parse(ir, input) == Incomplete ==> HasBlock(ir)
    ensures Parse(ir, input) == Failure ==> HasVariants(ir)
    decreases ir, 1, 0
  {
    hide ReadMany, ReadUpTo, ReadFields, ReadVariant, FromBE;
    match ir
    case Zarith => NumbersReportErrors(input);
    case MuTez => NumbersReportErrors(input);
    case Struct(_, fields) => FieldsCanFail(fields, input);
    case Variants(_, tagSize, tags) =>
      if |input| >= tagSize { VariantCanFail(tags, 0, FromBE(input[..tagSize]), input[tagSize..]); }
    case OptionField(inner) => if input != [] { WhoCanFail(inner, input[1..]); }
    case ListOf(limit, inner) =>
      ListFailure(limit, inner, input);
      if limit.Some? { UpToCanFail(limit.value, inner, input); } else { ManyCanFail(inner, input); }
    case Sized(size, inner) => if |input| >= size { WhoCanFail(inner, input[..size]); }
    case Bounded(max, inner) =>
      BoundedFailure(max, inner, input);
      WhoCanFail(inner, input[..if max < |input| then max else |input|]);
    case Dynamic(limit, inner) =>
      if Parse(ir, input) == Failure {
        BlockFailure(limit, inner, input);
        WhoCanFail(inner, input[4..4 + FromBE(input[..4])]);
      }
    case _ =>
  }

  lemma ListFailure(limit: Option<nat>, inner: S.Ir, input: seq<byte>)
    ensures var r := if limit.Some? then ReadUpTo(limit.value, inner, input) else ReadMany(inner, input);
            && (Parse(S.Ir.ListOf(limit, inner), input) == Incomplete <==> r == Incomplete)
            && (Parse(S.Ir.ListOf(limit, inner), input) == Failure <==> r == Failure)
  {
    hide ReadMany, ReadUpTo;
  }

  lemma BoundedFailure(max: nat, inner: S.Ir, input: seq<byte>)
    ensures var r := Parse(inner, input[..if max < |input| then max else |input|]);
            && (Parse(S.Ir.Bounded(max, inner), input) == Incomplete <==> r == Incomplete)
            && (Parse(S.Ir.Bounded(max, inner), input) == Failure <==> r == Failure)
  {
    hide Parse;
    BoundedIs(max, inner, input);
  }

  lemma BlockFailure(limit: Option<nat>, inner: S.Ir, input: seq<byte>)
    requires Parse(S.Ir.Dynamic(limit, inner), input) == Failure
    ensures |input| >= 4 && |input| >= 4 + FromBE(input[..4])
    ensures Parse(inner, input[4..4 + FromBE(input[..4])]) == Failure
  {
    hide FromBE;
  }

  lemma NumbersReportErrors(input: seq<byte>)
    ensures ReadZ(input).Done? || ReadZ(input) == Error
    ensures ReadMutez(input).Done? || ReadMutez(input) == Error
  {
    ChunksReportErrors(input);
    if input != [] { ChunksReportErrors(input[1..]); }
  }

  lemma {:induction false} ChunksReportErrors(input: seq<byte>)
    ensures ReadChunks(input).Done? || ReadChunks(input) == Error
  {
    if input != [] { ChunksReportErrors(input[1..]); }
  }

  lemma {:induction false} FieldsCanFail(fields: seq<S.IrField>, input: seq<byte>)
    ensures ReadFields(fields, input) == Incomplete ==> exists i :: 0 <= i < |fields| && HasBlock(fields[i].ir)
    ensures ReadFields(fields, input) == Failure ==> exists i :: 0 <= i < |fields| && HasVariants(fields[i].ir)
    decreases fields, 0, 0
  {
    hide Parse, HasBlock, HasVariants;
    if fields != [] {
      WhoCanFail(fields[0].ir, input);
      var r := Parse(fields[0].ir, input);
      if r.Done? { FieldsCanFail(fields[1..], r.rest); }
    }
  }

  lemma {:induction false} VariantCanFail(tags: seq<S.IrTag>, ordinal: nat, id: nat, input: seq<byte>)
    ensures ReadVariant(tags, ordinal, id, input) == Incomplete ==> exists i :: 0 <= i < |tags| && HasBlock(tags[i].ir)
    decreases tags, 0, 0
  {
    hide Parse, HasBlock, HasVariants;
    if tags != [] {
      if tags[0].id == id {
        WhoCanFail(tags[0].ir, input);
      } else {
        VariantCanFail(tags[1..], ordinal + 1, id, input);
      }
    }
  }

  lemma {:induction false} ManyCanFail(inner: S.Ir, input: seq<byte>)
    ensures ReadMany(inner, input) == Incomplete ==> HasBlock(inner)
    ensures ReadMany(inner, input) == Failure ==> HasVariants(inner)
    decreases inner, 2, |input|
  {
    hide Parse, HasBlock, HasVariants;
    WhoCanFail(inner, input);
    var r := Parse(inner, input);
    if r.Done? && r.rest != input { ManyCanFail(inner, r.rest); }
  }

  lemma {:induction false} UpToCanFail(max: nat, inner: S.Ir, input: seq<byte>)
    ensures ReadUpTo(max, inner, input) == Incomplete ==> HasBlock(inner)
    ensures ReadUpTo(max, inner, input) == Failure ==> HasVariants(inner)
    decreases inner, 2, max
  {
    hide Parse, HasBlock, HasVariants;
    if max > 0 {
      WhoCanFail(inner, input);
      var r := Parse(inner, input);
      if r.Done? && r.rest != input { UpToCanFail(max - 1, inner, r.rest); }
    }
  }

  // ----- how they go on -----

  /** Options, sized and bounded blocks hand on what the reader inside says. */
  lemma OptionPassesOn(inner: S.Ir, used: seq<byte>)
    requires !Parse(inner, used).Done?
    ensures Parse(S.Ir.OptionField(inner), [FIELD_SOME] + used) == Parse(inner, used)
  {
    assert ([FIELD_SOME] + used)[1..] == used;
  }

  lemma SizedPassesOn(size: nat, inner: S.Ir, input: seq<byte>)
    requires |input| >= size && !Parse(inner, input[..size]).Done?
    ensures Parse(S.Ir.Sized(size, inner), input) == Parse(inner, input[..size])
  {
  }

  lemma BoundedPassesOn(max: nat, inner: S.Ir, input: seq<byte>)
    requires !Parse(inner, input[..if max < |input| then max else |input|]).Done?
    ensures Parse(S.Ir.Bounded(max, inner), input) == Parse(inner, input[..if max < |input| then max else |input|])
  {
    hide Parse;
    BoundedIs(max, inner, input);
  }

  lemma BoundedIs(max: nat, inner: S.Ir, input: seq<byte>)
    ensures Parse(S.Ir.Bounded(max, inner), input) == ReadBounded(max, inner, input)
  {
    hide ReadBounded;
  }

  /** A block with its size does the same, but a request for more input becomes an error. */
  lemma BlockPassesOn(limit: Option<nat>, inner: S.Ir, used: seq<byte>, rest: seq<byte>)
    requires |used| < U32_LIMIT && (limit.Some? ==> |used| <= limit.value) && !Parse(inner, used).Done?
    ensures Parse(S.Ir.Dynamic(limit, inner), LengthPrefixed(used) + rest)
         == if Parse(inner, used).Incomplete? then Error else Parse(inner, used)
  {
    hide FromBE, LengthPrefixed;
    RT.PrefixBack(used, rest);
  }

  /** What a list answers behind `items` when the next item is `next`: it ends at an error and leaves
      the rest, while a failure or a request for more input is that of the whole list. */
  ghost predicate EndsAs(list: Read<seq<V>>, next: Read<V>, items: seq<V>, rest: seq<byte>) {
    match next
    case Error => list == Done(items, rest)
    case Failure => list == Failure
    case Incomplete => list == Incomplete
    case Done(_, _) => true
  }

  lemma OneMore(list: Read<seq<V>>, longer: Read<seq<V>>, next: Read<V>, first: V, items: seq<V>, rest: seq<byte>)
    requires EndsAs(list, next, items, rest)
    requires longer == if list.Done? then Done([first] + list.value, list.rest) else list
    ensures EndsAs(longer, next, [first] + items, rest)
  {
  }

  lemma ManyStep(inner: S.Ir, input: seq<byte>)
    requires Parse(inner, input).Done? && Parse(inner, input).rest != input
    ensures var r := Parse(inner, input);
            var list := ReadMany(inner, r.rest);
            ReadMany(inner, input) == if list.Done? then Done([r.value] + list.value, list.rest) else list
  {
    hide Parse;
  }

  lemma UpToStep(max: nat, inner: S.Ir, input: seq<byte>)
    requires max > 0 && Parse(inner, input).Done? && Parse(inner, input).rest != input
    ensures var r := Parse(inner, input);
            var list := ReadUpTo(max - 1, inner, r.rest);
            ReadUpTo(max, inner, input) == if list.Done? then Done([r.value] + list.value, list.rest) else list
  {
    hide Parse;
  }

  /** The first of the items that were written comes back in front of the others. */
  lemma FirstItem(inner: S.Ir, items: seq<V>, rest: seq<byte>)
    requires WF(inner) && NonEmpty(inner) && !Greedy(inner) && FitsItems(inner, items) && items != []
    requires EncodeList(items, S.Gen(inner)).Ok?
    ensures EncodeList(items[1..], S.Gen(inner)).Ok? && FitsItems(inner, items[1..])
    ensures var input := EncodeList(items, S.Gen(inner)).value + rest;
            var others := EncodeList(items[1..], S.Gen(inner)).value + rest;
            Parse(inner, input) == Done(Canon(inner, items[0]), others) && others != input
    ensures CanonItems(inner, items) == [Canon(inner, items[0])] + CanonItems(inner, items[1..])
  {
    hide Encode, Parse, Canon, Fits, WF, Greedy, NonEmpty, S.Gen;
    RT.ItemStep(inner, items);
    var first := Encode(items[0], S.Gen(inner)).value;
    var others := EncodeList(items[1..], S.Gen(inner)).value;
    RT.EncodedNonEmpty(inner, items[0]);
    RT.RoundTrip(inner, items[0], others + rest);
    AppendAssoc(first, others, rest);
  }

  /** Behind items that were written, an unbounded list ends as the next item says. */
  lemma {:induction false} ListGoesOn(inner: S.Ir, items: seq<V>, rest: seq<byte>)
    requires WF(inner) && NonEmpty(inner) && !Greedy(inner) && FitsItems(inner, items)
    requires EncodeList(items, S.Gen(inner)).Ok?
    ensures EndsAs(ReadMany(inner, EncodeList(items, S.Gen(inner)).value + rest), Parse(inner, rest),
                   CanonItems(inner, items), rest)
    decreases |items|
  {
    hide Parse, Canon, WF, Greedy, NonEmpty, S.Gen, FitsItems;
    if items == [] {
      assert [] + rest == rest;
    } else {
      hide ReadMany, EncodeList, CanonItems, EndsAs;
      FirstItem(inner, items, rest);
      ListGoesOn(inner, items[1..], rest);
      var input := EncodeList(items, S.Gen(inner)).value + rest;
      ManyStep(inner, input);
      OneMore(ReadMany(inner, Parse(inner, input).rest), ReadMany(inner, input), Parse(inner, rest),
              Canon(inner, items[0]), CanonItems(inner, items[1..]), rest);
    }
  }

  /** So does a bounded list that is not full; a full one looks no further. */
  lemma {:induction false} BoundedListGoesOn(max: nat, inner: S.Ir, items: seq<V>, rest: seq<byte>)
    requires WF(inner) && NonEmpty(inner) && !Greedy(inner) && FitsItems(inner, items)
    requires |items| <= max && EncodeList(items, S.Gen(inner)).Ok?
    ensures EndsAs(ReadUpTo(max, inner, EncodeList(items, S.Gen(inner)).value + rest),
                   if |items| == max then Error else Parse(inner, rest), CanonItems(inner, items), rest)
    decreases |items|
  {
    hide Parse, Canon, WF, Greedy, NonEmpty, S.Gen, FitsItems;
    if items == [] {
      assert [] + rest == rest;
    } else {
      hide ReadUpTo, EncodeList, CanonItems, EndsAs;
      FirstItem(inner, items, rest);
      BoundedListGoesOn(max - 1, inner, items[1..], rest);
      var input := EncodeList(items, S.Gen(inner)).value + rest;
      UpToStep(max, inner, input);
      OneMore(ReadUpTo(max - 1, inner, Parse(inner, input).rest), ReadUpTo(max, inner, input),
              if |items| == max then Error else Parse(inner, rest),
              Canon(inner, items[0]), CanonItems(inner, items[1..]), rest);
    }
  }

  /** Behind fields that were written, the next field that cannot be read decides for the record. */
  lemma {:induction false} RecordGoesOn(fields: seq<S.IrField>, k: nat, values: seq<S.FieldValue>, rest: seq<byte>)
    requires WFFields(fields) && k < |fields| && FitsFields(fields[..k], values)
    requires EncodeRecord(values, S.GenFields(fields[..k])).Ok? && !Parse(fields[k].ir, rest).Done?
    ensures ReadFields(fields, EncodeRecord(values, S.GenFields(fields[..k])).value + rest)
         == Propagate(Parse(fields[k].ir, rest))
    decreases k
  {
    hide Encode, Parse, Canon, Fits, WF, Greedy, S.Gen;
    if k == 0 {
      assert fields[..0] == [] && [] + rest == rest;
    } else {
      var front := fields[..k];
      assert front[0] == fields[0] && front[1..] == fields[1..][..k - 1];
      RT.RecordStep(front, values);
      var v := S.FindValue(fields[0].name, values).value;
      var first := Encode(v, S.Gen(fields[0].ir)).value;
      var others := EncodeRecord(values, S.GenFields(front[1..])).value;
      RT.RoundTrip(fields[0].ir, v, others + rest);
      AppendAssoc(first, others, rest);
      RecordGoesOn(fields[1..], k - 1, values, rest);
    }
  }

  /** And the record hands it on. */
  lemma StructPassesOn(name: string, fields: seq<S.IrField>, input: seq<byte>)
    requires !ReadFields(fields, input).Done?
    ensures Parse(S.Ir.Struct(name, fields), input) == Propagate(ReadFields(fields, input))
  {
    hide ReadFields;
  }

  // ----- where a list ends -----

  /** A list whose items can be read without using input is an error. */
  lemma NoProgress(inner: S.Ir, input: seq<byte>, max: nat)
    requires Parse(inner, input).Done? && Parse(inner, input).rest == input
    ensures ReadMany(inner, input) == Error
    ensures ReadUpTo(max, inner, input) == if max == 0 then Done([], input) else Error
  {
    hide Parse;
  }

  /** Items that the writer accepts for a well-formed list. */
  ghost predicate Written(inner: S.Ir, items: seq<V>) {
    && WF(inner) && NonEmpty(inner) && !Greedy(inner) && FitsItems(inner, items)
    && EncodeList(items, S.Gen(inner)).Ok?
  }

  lemma ListEndsAs(inner: S.Ir, items: seq<V>, rest: seq<byte>)
    requires Written(inner, items)
    ensures var r := Parse(S.Ir.ListOf(None, inner), EncodeList(items, S.Gen(inner)).value + rest);
            match Parse(inner, rest)
            case Error => r == Done(V.List(CanonItems(inner, items)), rest)
            case Failure => r == Failure
            case Incomplete => r == Incomplete
            case Done(_, _) => true
  {
    hide Parse, EncodeList, CanonItems, ReadMany, WF, Greedy, NonEmpty, FitsItems;
    ListGoesOn(inner, items, rest);
    ListIs(inner, EncodeList(items, S.Gen(inner)).value + rest);
  }

  lemma ListIs(inner: S.Ir, input: seq<byte>)
    ensures Parse(S.Ir.ListOf(None, inner), input) == ReadList(inner, input)
  {
    hide ReadList;
  }

  /** A list does not end at an unknown tag: that is a failure of the whole list. */
  lemma UnknownTagInList(name: string, tagSize: nat, tags: seq<S.IrTag>, items: seq<V>, rest: seq<byte>)
    requires Written(S.Ir.Variants(name, tagSize, tags), items) && |rest| >= tagSize
    requires forall i :: 0 <= i < |tags| ==> tags[i].id != FromBE(rest[..tagSize])
    ensures var inner := S.Ir.Variants(name, tagSize, tags);
            Parse(S.Ir.ListOf(None, inner), EncodeList(items, S.Gen(inner)).value + rest) == Failure
  {
    hide Parse, EncodeList, Written, FromBE;
    UnknownVariant(name, tagSize, tags, rest);
    ListEndsAs(S.Ir.Variants(name, tagSize, tags), items, rest);
  }

  /** Nor does it end at a block that is cut short: the list asks for more input. */
  lemma BlockCutShortInList(limit: Option<nat>, block: S.Ir, items: seq<V>, rest: seq<byte>)
    requires Written(S.Ir.Dynamic(limit, block), items)
    requires |rest| >= 4 && 4 + FromBE(rest[..4]) > |rest| && (limit.Some? ==> FromBE(rest[..4]) <= limit.value)
    ensures var inner := S.Ir.Dynamic(limit, block);
            Parse(S.Ir.ListOf(None, inner), EncodeList(items, S.Gen(inner)).value + rest) == Incomplete
  {
    hide Parse, EncodeList, Written, FromBE;
    BlockIncompleteIff(limit, block, rest);
    ListEndsAs(S.Ir.Dynamic(limit, block), items, rest);
  }

  /** A number that is cut short does end the list, and stays unread. */
  lemma NumberCutShortInList(kind: S.Primitive, items: seq<V>, rest: seq<byte>)
    requires Written(S.Ir.Primitive(kind), items) && |rest| < Width(kind)
    ensures var inner := S.Ir.Primitive(kind);
            Parse(S.Ir.ListOf(None, inner), EncodeList(items, S.Gen(inner)).value + rest)
            == Done(V.List(CanonItems(inner, items)), rest)
  {
    hide EncodeList, CanonItems, Written;
    assert Parse(S.Ir.Primitive(kind), rest) == Error;
    hide Parse;
    ListEndsAs(S.Ir.Primitive(kind), items, rest);
  }
}
