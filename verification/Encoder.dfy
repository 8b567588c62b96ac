/** The bytes that the binary writer produces, as a function of value and schema
    (tezos/encoding/src/binary_writer.rs). */
module Encoder {
  import opened Basics
  import opened Bytes
  import opened ZarithLoops
  import S = Schema

  type Value = S.Value
  type Encoding = S.Encoding

  const U32_LIMIT := 0x1_0000_0000

  const TRUE_BYTE: byte := 0xFF
  const FALSE_BYTE: byte := 0
  const SOME_BYTE: byte := 1
  const NONE_BYTE: byte := 0
  const FIELD_SOME: byte := 0xFF
  const FIELD_NONE: byte := 0

  function Prepend(bs: seq<byte>, r: Result<seq<byte>>): Result<seq<byte>> {
    match r
    case Ok(more) => Ok(bs + more)
    case Err => Err
  }

  /** The bytes of a list of `Uint8` values, if that is what it is. */
  function RawBytes(items: seq<Value>): (r: Result<seq<byte>>)
    ensures r.Ok? ==> |r.value| == |items|
  {
    if items == [] then Ok([])
    else if items[0].Uint8? then Prepend([items[0].i % 256], RawBytes(items[1..]))
    else Err
  }

  function TagId(tagSize: nat, id: nat): Result<seq<byte>> {
    if tagSize == 1 then Ok(ToBE(1, id)) else if tagSize == 2 then Ok(ToBE(2, id)) else Err
  }

  function LengthPrefixed(s: seq<byte>): seq<byte> {
    ToBE(4, |s|) + s
  }

  predicate IsNumber(e: Encoding) {
    e.Int8? || e.Uint8? || e.Int16? || e.Uint16? || e.Int31? || e.Int32? || e.Uint32? || e.Int64? || e.Timestamp?
  }

  function NumberBytes(v: Value, e: Encoding): Result<seq<byte>>
    requires IsNumber(e)
  {
    match e
    case Int8 => if v.Int8? then Ok(ToBE(1, v.i)) else Err
    case Uint8 => if v.Uint8? then Ok(ToBE(1, v.i)) else Err
    case Int16 => if v.Int16? then Ok(ToBE(2, v.i)) else Err
    case Uint16 => if v.Uint16? then Ok(ToBE(2, v.i)) else Err
    case Int31 => if v.Int32? && 0 <= v.i < 0x8000_0000 then Ok(ToBE(4, v.i)) else Err
    case Int32 => if v.Int32? then Ok(ToBE(4, v.i)) else Err
    case Uint32 => if v.Int32? && v.i >= 0 then Ok(ToBE(4, v.i)) else Err
    case Int64 | Timestamp => if v.Int64? then Ok(ToBE(8, v.i)) else Err
  }

  predicate IsBlock(e: Encoding) {
    e.Dynamic? || e.BoundedDynamic? || e.Sized? || e.Bounded? || e.Greedy?
  }

  /** A block around already encoded bytes: length prefix and size checks. */
  function Framed(e: Encoding, r: Result<seq<byte>>): Result<seq<byte>>
    requires IsBlock(e)
  {
    if r.Err? then Err
    else
      var bs := r.value;
      match e
      case Dynamic(_) => if |bs| < U32_LIMIT then Ok(LengthPrefixed(bs)) else Err
      case BoundedDynamic(max, _) =>
        if |bs| <= max && |bs| < U32_LIMIT then Ok(LengthPrefixed(bs)) else Err
      case Sized(size, _) => if |bs| == size then Ok(bs) else Err
      case Bounded(max, _) => if |bs| <= max then Ok(bs) else Err
      case Greedy(_) => Ok(bs)
  }

  function Encode(v: Value, e: Encoding): Result<seq<byte>>
    decreases e, 0, 0
  {
    match e
    case Unit => Ok([])
    case Int8 | Uint8 | Int16 | Uint16 | Int31 | Int32 | Uint32 | Int64 | Timestamp => NumberBytes(v, e)
    case Bool => if v.Bool? then Ok([if v.b then TRUE_BYTE else FALSE_BYTE]) else Err
    case Z => if v.Str? then EncodeZText(v.utf8) else Err
    case Mutez => if v.Str? then EncodeZText(v.utf8) else Err
    case Str => if v.Str? then Ok(LengthPrefixed(v.utf8)) else Err
    case BoundedString(max) => if v.Str? && |v.utf8| <= max then Ok(LengthPrefixed(v.utf8)) else Err
    case Bytes => if v.List? then RawBytes(v.items) else Err
    case Hash(size) => if v.List? && |v.items| == size then RawBytes(v.items) else Err
    case Tags(tagSize, tagMap) =>
      if v.Tagged? then EncodeTag(v.tag, v.payload, tagSize, tagMap)
      else if v.Enum? && v.variant.Some? then
        var found := S.FindByVariant(tagMap, v.variant.value);
        if found.Some? then TagId(tagSize, found.value.id) else Err
      else Err
    case Enum =>
      if v.Enum? && v.ordinal.Some? && v.ordinal.value < 256 then Ok([v.ordinal.value]) else Err
    case List(inner) => if v.List? then EncodeList(v.items, inner) else Err
    case BoundedList(max, inner) =>
      if v.List? && |v.items| <= max then EncodeList(v.items, inner) else Err
    case Option(inner) =>
      if !v.Opt? then Err
      else if v.inner.Some? then Prepend([SOME_BYTE], Encode(v.inner.value, inner))
      else Ok([NONE_BYTE])
    case OptionalField(inner) =>
      if !v.Opt? then Err
      else if v.inner.Some? then Prepend([FIELD_SOME], Encode(v.inner.value, inner))
      else Ok([FIELD_NONE])
    case Obj(_, schema) => if v.Record? then EncodeRecord(v.fields, schema) else Err
    case Tup(encodings) => if v.Tuple? then EncodeTuple(v.items, encodings) else Err
    case Dynamic(inner) => Framed(e, Encode(v, inner))
    case BoundedDynamic(_, inner) => Framed(e, Encode(v, inner))
    case Sized(_, inner) => Framed(e, Encode(v, inner))
    case Bounded(_, inner) => Framed(e, Encode(v, inner))
    case Greedy(inner) => Framed(e, Encode(v, inner))
  }

  /** A variant with a payload: the id of its tag, then the payload. */
  function EncodeTag(variant: string, payload: Value, tagSize: nat, tagMap: S.TagMap): Result<seq<byte>>
    decreases tagMap, 0, 0
  {
    match S.FindByVariant(tagMap, variant)
    case Some(tag) =>
      assert tag in tagMap.idToTag.Values;
      (match TagId(tagSize, tag.id)
       case Ok(id) => Prepend(id, Encode(payload, tag.encoding))
       case Err => Err)
    case None => Err
  }

  function EncodeList(items: seq<Value>, inner: Encoding): Result<seq<byte>>
    decreases inner, 1, |items|
  {
    if items == [] then Ok([])
    else
      match Encode(items[0], inner)
      case Ok(bs) => Prepend(bs, EncodeList(items[1..], inner))
      case Err => Err
  }

  function EncodeRecord(values: seq<S.FieldValue>, schema: seq<S.Field>): Result<seq<byte>>
    decreases schema, 0, 0
  {
    if schema == [] then Ok([])
    else
      match S.FindValue(schema[0].name, values)
      case Some(v) =>
        (match Encode(v, schema[0].encoding)
         case Ok(bs) => Prepend(bs, EncodeRecord(values, schema[1..]))
         case Err => Err)
      case None => Err
  }

  function EncodeTuple(items: seq<Value>, encodings: seq<Encoding>): Result<seq<byte>>
    decreases encodings, 0, 0
  {
    if encodings == [] then Ok([])
    else if items == [] then Err
    else
      match Encode(items[0], encodings[0])
      case Ok(bs) => Prepend(bs, EncodeTuple(items[1..], encodings[1..]))
      case Err => Err
  }

  lemma FramedStep(v: Value, e: Encoding)
    requires IsBlock(e)
    ensures Encode(v, e) == Framed(e, Encode(v, e.inner))
  {
    hide Framed, NumberBytes, EncodeTag, EncodeList, EncodeRecord, EncodeTuple, RawBytes, EncodeZText;
  }
}
