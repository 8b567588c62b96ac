/** Values in the intermediate form, writer schemas, and the representation that the derive macros
    build both the schema and the reader from (tezos/encoding/src/types.rs, encoding.rs and
    tezos/encoding-derive/src/encoding.rs). */
module Schema {
  import opened Basics

  // ----- values -----

  datatype Value =
    | Unit
    | Int8(i: int)
    | Uint8(i: int)
    | Int16(i: int)
    | Uint16(i: int)
    | Int32(i: int)
    | Int64(i: int)
    | Bool(b: bool)
    | Str(utf8: seq<byte>)
    | Opt(inner: Option<Value>)
    | List(items: seq<Value>)
    | Enum(variant: Option<string>, ordinal: Option<nat>)
    | Tagged(tag: string, payload: Value)
    | Record(fields: seq<FieldValue>)
    | Tuple(items: seq<Value>)

  datatype FieldValue = FieldValue(name: string, value: Value)

  /** The first field with the given name. */
  function FindValue(name: string, values: seq<FieldValue>): (r: Option<Value>)
    ensures r.Some? ==> exists i :: 0 <= i < |values| && values[i] == FieldValue(name, r.value)
  {
    if values == [] then None
    else if values[0].name == name then
      assert values[0] == FieldValue(name, values[0].value);
      Some(values[0].value)
    else
      var r := FindValue(name, values[1..]);
      assert r.Some? ==> exists i :: 0 <= i < |values[1..]| && values[1..][i] == FieldValue(name, r.value);
      assert forall i :: 0 <= i < |values[1..]| ==> values[1..][i] == values[i + 1];
      r
  }

  // ----- writer schemas -----

  datatype Encoding =
    | Unit
    | Int8 | Uint8 | Int16 | Uint16 | Int31 | Int32 | Uint32 | Int64 | Timestamp
    | Bool
    | Z | Mutez
    | Str
    | BoundedString(max: nat)
    | Bytes
    | Hash(size: nat)
    | Tags(tagSize: nat, tagMap: TagMap)
    | Enum
    | List(inner: Encoding)
    | BoundedList(max: nat, inner: Encoding)
    | Option(inner: Encoding)
    | OptionalField(inner: Encoding)
    | Obj(name: string, schema: seq<Field>)
    | Tup(encodings: seq<Encoding>)
    | Dynamic(inner: Encoding)
    | BoundedDynamic(max: nat, inner: Encoding)
    | Sized(size: nat, inner: Encoding)
    | Bounded(max: nat, inner: Encoding)
    | Greedy(inner: Encoding)

  datatype Field = Field(name: string, encoding: Encoding)

  datatype Tag = Tag(id: nat, variant: string, encoding: Encoding)

  datatype TagMap = TagMap(idToTag: map<nat, Tag>, variantToId: map<string, nat>)

  function FindById(m: TagMap, id: nat): Option<Tag> {
    if id in m.idToTag then Some(m.idToTag[id]) else None
  }

  function FindByVariant(m: TagMap, variant: string): (r: Option<Tag>)
    ensures r.Some? ==> r.value in m.idToTag.Values
  {
    if variant in m.variantToId then FindById(m, m.variantToId[variant]) else None
  }

  /** The map of a list of tags; later tags replace earlier ones with the same id or variant. */
  function TagMapOf(tags: seq<Tag>): TagMap {
    if tags == [] then TagMap(map[], map[])
    else
      var k := |tags| - 1;
      var m := TagMapOf(tags[..k]);
      TagMap(m.idToTag[tags[k].id := tags[k]], m.variantToId[tags[k].variant := tags[k].id])
  }

  ghost predicate RepeatedId(tags: seq<Tag>) {
    exists i, j :: 0 <= i < j < |tags| && tags[i].id == tags[j].id
  }

  /** `asserts` tells whether the debug assertion against a repeated id would stop the loop. */
  method NewTagMap(tags: seq<Tag>) returns (m: TagMap, asserts: bool)
    ensures m == TagMapOf(tags)
    ensures asserts <==> RepeatedId(tags)
  {
    var idToTag: map<nat, Tag>, variantToId: map<string, nat> := map[], map[];
    asserts := false;
    for i := 0 to |tags|
      invariant TagMap(idToTag, variantToId) == TagMapOf(tags[..i])
      invariant forall id :: id in idToTag <==> exists j :: 0 <= j < i && tags[j].id == id
      invariant asserts <==> RepeatedId(tags[..i])
    {
      assert tags[..i + 1][..i] == tags[..i];
      RepeatedIdStep(tags, i);
      asserts := asserts || tags[i].id in idToTag;
      idToTag := idToTag[tags[i].id := tags[i]];
      variantToId := variantToId[tags[i].variant := tags[i].id];
    }
    assert tags[..|tags|] == tags;
    m := TagMap(idToTag, variantToId);
  }

  lemma RepeatedIdStep(tags: seq<Tag>, k: nat)
    requires k < |tags|
    ensures RepeatedId(tags[..k + 1]) <==> RepeatedId(tags[..k]) || exists j :: 0 <= j < k && tags[j].id == tags[k].id
  {
    var now, before := tags[..k + 1], tags[..k];
    if RepeatedId(before) {
      var i, j :| 0 <= i < j < |before| && before[i].id == before[j].id;
      assert now[i].id == now[j].id;
    }
    if j :| 0 <= j < k && tags[j].id == tags[k].id {
      assert now[j].id == now[k].id;
    }
    if RepeatedId(now) {
      var i, j :| 0 <= i < j < |now| && now[i].id == now[j].id;
      if j < k { assert before[i].id == before[j].id; }
    }
  }

  ghost predicate DistinctTags(tags: seq<Tag>) {
    forall i, j :: 0 <= i < j < |tags| ==> tags[i].id != tags[j].id && tags[i].variant != tags[j].variant
  }

  /** With distinct ids and variants, every tag is found by its id and by its variant. */
  lemma {:induction false} TagFound(tags: seq<Tag>, i: nat)
    requires DistinctTags(tags) && i < |tags|
    ensures FindById(TagMapOf(tags), tags[i].id) == Some(tags[i])
    ensures tags[i].variant in TagMapOf(tags).variantToId
    ensures TagMapOf(tags).variantToId[tags[i].variant] == tags[i].id
    ensures FindByVariant(TagMapOf(tags), tags[i].variant) == Some(tags[i])
  {
    var k := |tags| - 1;
    if i < k {
      assert tags[..k][i] == tags[i];
      TagFound(tags[..k], i);
    }
  }

  /** Of tags with the same id or variant the last one is found. */
  lemma {:induction false} LastTagWins(tags: seq<Tag>, i: nat)
    requires i < |tags|
    ensures (forall j :: i < j < |tags| ==> tags[j].id != tags[i].id) ==>
              FindById(TagMapOf(tags), tags[i].id) == Some(tags[i])
    ensures (forall j :: i < j < |tags| ==> tags[j].variant != tags[i].variant) ==>
              tags[i].variant in TagMapOf(tags).variantToId && TagMapOf(tags).variantToId[tags[i].variant] == tags[i].id
  {
    var k := |tags| - 1;
    if i < k {
      assert tags[..k][i] == tags[i];
      LastTagWins(tags[..k], i);
      assert forall j :: i < j < k ==> tags[..k][j] == tags[j];
    }
  }

  /** Only the variants of the list are found. */
  lemma {:induction false} VariantKnown(tags: seq<Tag>, variant: string) returns (i: nat)
    requires variant in TagMapOf(tags).variantToId
    ensures i < |tags| && tags[i].variant == variant
  {
    var k := |tags| - 1;
    if tags[k].variant == variant {
      i := k;
    } else {
      i := VariantKnown(tags[..k], variant);
    }
  }

  // ----- the derive representation -----

  datatype Primitive =
    Int8 | Uint8 | Int16 | Uint16 | Int31 | Int32 | Uint32 | Int64 | Timestamp | Bool

  /** `Hash` stands for a path to a hash type; paths to derived types are their representation. */
  datatype Ir =
    | Unit
    | Primitive(kind: Primitive)
    | Bytes
    | Hash(size: nat)
    | Zarith
    | MuTez
    | Text(limit: Option<nat>)
    | Struct(name: string, fields: seq<IrField>)
    | Variants(name: string, tagSize: nat, tags: seq<IrTag>)
    | OptionField(inner: Ir)
    | ListOf(limit: Option<nat>, inner: Ir)
    | Sized(size: nat, inner: Ir)
    | Bounded(max: nat, inner: Ir)
    | Dynamic(limit: Option<nat>, inner: Ir)

  datatype IrField = IrField(name: string, ir: Ir)

  datatype IrTag = IrTag(id: nat, variant: string, ir: Ir)

  function PrimitiveEncoding(kind: Primitive): Encoding {
    match kind
    case Int8 => Encoding.Int8
    case Uint8 => Encoding.Uint8
    case Int16 => Encoding.Int16
    case Uint16 => Encoding.Uint16
    case Int31 => Encoding.Int31
    case Int32 => Encoding.Int32
    case Uint32 => Encoding.Uint32
    case Int64 => Encoding.Int64
    case Timestamp => Encoding.Timestamp
    case Bool => Encoding.Bool
  }

  /** The schema that `generate_encoding` emits (tezos/encoding-derive/src/enc.rs). */
  function Gen(ir: Ir): Encoding
    decreases ir
  {
    match ir
    case Unit => Encoding.Unit
    case Primitive(kind) => PrimitiveEncoding(kind)
    case Bytes => Encoding.Bytes
    case Hash(size) => Encoding.Hash(size)
    case Zarith => Encoding.Z
    case MuTez => Encoding.Mutez
    case Text(limit) => if limit.Some? then Encoding.BoundedString(limit.value) else Encoding.Str
    case Struct(name, fields) => Encoding.Obj(name, GenFields(fields))
    case Variants(name, tagSize, tags) => Encoding.Tags(tagSize, TagMapOf(GenTags(tags)))
    case OptionField(inner) => Encoding.OptionalField(Gen(inner))
    case ListOf(limit, inner) =>
      if limit.Some? then Encoding.BoundedList(limit.value, Gen(inner)) else Encoding.List(Gen(inner))
    case Sized(size, inner) => Encoding.Sized(size, Gen(inner))
    case Bounded(max, inner) => Encoding.Bounded(max, Gen(inner))
    case Dynamic(limit, inner) =>
      if limit.Some? then Encoding.BoundedDynamic(limit.value, Gen(inner)) else Encoding.Dynamic(Gen(inner))
  }

  function GenFields(fields: seq<IrField>): (r: seq<Field>)
    ensures |r| == |fields|
    ensures forall i :: 0 <= i < |fields| ==> r[i] == Field(fields[i].name, Gen(fields[i].ir))
    decreases fields
  {
    if fields == [] then [] else [Field(fields[0].name, Gen(fields[0].ir))] + GenFields(fields[1..])
  }

  function GenTags(tags: seq<IrTag>): (r: seq<Tag>)
    ensures |r| == |tags|
    ensures forall i :: 0 <= i < |tags| ==> r[i] == Tag(tags[i].id, tags[i].variant, Gen(tags[i].ir))
    decreases tags
  {
    if tags == [] then [] else [Tag(tags[0].id, tags[0].variant, Gen(tags[0].ir))] + GenTags(tags[1..])
  }
}
