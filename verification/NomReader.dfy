/** The reader that `generate_nom_read` emits for a representation
    (tezos/encoding-derive/src/nom.rs), built from the combinators of tezos/encoding/src/nom.rs.
    It yields the value that serialising the read Rust value gives. */
module NomReader {
  import opened Basics
  import opened Bytes
  import opened Nom
  import opened Utf8
  import opened Zarith
  import opened ZarithLoops
  import S = Schema

  type Value = S.Value
  type Ir = S.Ir

  ghost predicate IsSuffix(a: seq<byte>, b: seq<byte>) {
    |a| <= |b| && a == b[|b| - |a|..]
  }

  /** A result without a value, at another value type. */
  function Propagate<A, B>(r: Read<A>): (r': Read<B>)
    requires !r.Done?
    ensures !r'.Done?
  {
    match r
    case Error => Error
    case Failure => Failure
    case Incomplete => Incomplete
  }

  /** Number of bytes of a primitive. */
  function Width(kind: S.Primitive): (k: nat)
    ensures k > 0
  {
    match kind
    case Int8 | Uint8 | Bool => 1
    case Int16 | Uint16 => 2
    case Int31 | Int32 | Uint32 => 4
    case Int64 | Timestamp => 8
  }

  /** The value of a primitive's bytes; `None` for a byte that is no boolean. A `u32` above the
      `i32` range serialises as `Int64`. */
  function PrimitiveValue(kind: S.Primitive, bs: seq<byte>): Option<Value>
    requires |bs| == Width(kind)
  {
    var u := FromBE(bs);
    var i := Bytes.Signed(|bs|, u);
    match kind
    case Int8 => Some(Value.Int8(i))
    case Uint8 => Some(Value.Uint8(u))
    case Int16 => Some(Value.Int16(i))
    case Uint16 => Some(Value.Uint16(u))
    case Int31 | Int32 => Some(Value.Int32(i))
    case Uint32 => Some(if u < 0x8000_0000 then Value.Int32(u) else Value.Int64(u))
    case Int64 | Timestamp => Some(Value.Int64(i))
    case Bool =>
      if bs[0] == 0xFF then Some(Value.Bool(true)) else if bs[0] == 0 then Some(Value.Bool(false)) else None
  }

  function ReadPrimitive(kind: S.Primitive, input: seq<byte>): (r: Read<Value>)
    ensures r.Done? ==> IsSuffix(r.rest, input)
  {
    if |input| < Width(kind) then Error
    else
      match PrimitiveValue(kind, input[..Width(kind)])
      case Some(v) => Done(v, input[Width(kind)..])
      case None => Error
  }

  /** `string` and `bounded_string`. */
  function ReadText(limit: Option<nat>, input: seq<byte>): (r: Read<Value>)
    ensures r.Done? ==> IsSuffix(r.rest, input)
  {
    if |input| < 4 then Error
    else
      var len := FromBE(input[..4]);
      if limit.Some? && len > limit.value then Error
      else if |input| - 4 < len then Error
      else
        var text := input[4..4 + len];
        if IsUtf8(text) then Done(Value.Str(text), input[4 + len..]) else Error
  }

  function Items(bs: seq<byte>): (items: seq<Value>)
    ensures |items| == |bs|
  {
    seq(|bs|, i requires 0 <= i < |bs| => Value.Uint8(bs[i]))
  }

  function BigNumber(r: Read<int>): Read<Value> {
    match r
    case Done(v, rest) => Done(Value.Str(HexOf(v)), rest)
    case _ => Propagate(r)
  }

  function Parse(ir: Ir, input: seq<byte>): (r: Read<Value>)
    ensures r.Done? ==> IsSuffix(r.rest, input)
    decreases ir, 0, 0
  {
    match ir
    case Unit => Error // no reader is generated for it outside a tag
    case Primitive(kind) => ReadPrimitive(kind, input)
    case Bytes => Done(Value.List(Items(input)), [])
    case Hash(size) =>
      if |input| < size then Error else Done(Value.List(Items(input[..size])), input[size..])
    case Zarith =>
      BigNumberSuffix(input);
      BigNumber(ReadZ(input))
    case MuTez =>
      BigNumberSuffix(input);
      BigNumber(ReadMutez(input))
    case Text(limit) => ReadText(limit, input)
    case Struct(_, fields) =>
      (match ReadFields(fields, input)
       case Done(fs, rest) => Done(Value.Record(fs), rest)
       case Error => Error
       case Failure => Failure
       case Incomplete => Incomplete)
    case Variants(_, tagSize, tags) =>
      if |input| < tagSize then Error
      else ReadVariant(tags, 0, FromBE(input[..tagSize]), input[tagSize..])
    case OptionField(inner) =>
      if input == [] then Error
      else if input[0] == 0x00 then Done(Value.Opt(None), input[1..])
      else if input[0] == 0xFF then
        (match Parse(inner, input[1..])
         case Done(v, rest) => Done(Value.Opt(Some(v)), rest)
         case Error => Error
         case Failure => Failure
         case Incomplete => Incomplete)
      else Error
    case ListOf(limit, inner) =>
      if limit.None? then ReadList(inner, input) else ReadBoundedList(limit.value, inner, input)
    case Sized(size, inner) =>
      if |input| < size then Error
      else
        (match Parse(inner, input[..size])
         case Done(v, _) => Done(v, input[size..])
         case Error => Error
         case Failure => Failure
         case Incomplete => Incomplete)
    case Bounded(max, inner) => ReadBounded(max, inner, input)
    case Dynamic(limit, inner) => ReadDynamic(limit, inner, input)
  }

  lemma BigNumberSuffix(input: seq<byte>)
    ensures ReadZ(input).Done? ==> IsSuffix(ReadZ(input).rest, input)
    ensures ReadMutez(input).Done? ==> IsSuffix(ReadMutez(input).rest, input)
  {
    ReadChunksSuffix(input);
    if input != [] { ReadChunksSuffix(input[1..]); }
  }

  function ReadList(inner: Ir, input: seq<byte>): (r: Read<Value>)
    ensures r.Done? ==> IsSuffix(r.rest, input)
    decreases inner, 2, 0
  {
    match ReadMany(inner, input)
    case Done(vs, rest) => Done(Value.List(vs), rest)
    case Error => Error
    case Failure => Failure
    case Incomplete => Incomplete
  }

  /** `bounded`: the inner reader sees at most `max` bytes. */
  function ReadBounded(max: nat, inner: Ir, input: seq<byte>): (r: Read<Value>)
    ensures r.Done? ==> IsSuffix(r.rest, input)
    decreases inner, 2, 0
  {
    var m := if max < |input| then max else |input|;
    match Parse(inner, input[..m])
    case Done(v, rest) => Done(v, input[m - |rest|..])
    case Error => Error
    case Failure => Failure
    case Incomplete => Incomplete
  }

  /** `bounded_list`: at most `max` items, and nothing may be left over. */
  function ReadBoundedList(max: nat, inner: Ir, input: seq<byte>): (r: Read<Value>)
    ensures r.Done? ==> r.rest == [] && IsSuffix(r.rest, input)
    decreases inner, 2, 0
  {
    match ReadUpTo(max, inner, input)
    case Done(vs, rest) => if rest == [] then Done(Value.List(vs), rest) else Error
    case Error => Error
    case Failure => Failure
    case Incomplete => Incomplete
  }

  /** `dynamic` and `bounded_dynamic`: a four-byte size, and a block of that size that the inner
      reader has to use up. A block that is not all there asks for more input. */
  function ReadDynamic(limit: Option<nat>, inner: Ir, input: seq<byte>): (r: Read<Value>)
    ensures r.Done? ==> IsSuffix(r.rest, input)
    decreases inner, 2, 0
  {
    if |input| < 4 then Error
    else
      var len := FromBE(input[..4]);
      if limit.Some? && len > limit.value then Error
      else if |input| - 4 < len then Incomplete
      else
        match Parse(inner, input[4..4 + len])
        case Done(v, rest) => if rest == [] then Done(v, input[4 + len..]) else Error
        case Error => Error
        case Failure => Failure
        case Incomplete => Error
  }

  /** `fold_many0`: items until the inner reader reports an error. */
  function ReadMany(inner: Ir, input: seq<byte>): (r: Read<seq<Value>>)
    ensures r.Done? ==> IsSuffix(r.rest, input)
    decreases inner, 1, |input|
  {
    match Parse(inner, input)
    case Done(v, rest) =>
      if rest == input then Error
      else
        (match ReadMany(inner, rest)
         case Done(vs, rest') => Done([v] + vs, rest')
         case Error => Error
         case Failure => Failure
         case Incomplete => Incomplete)
    case Error => Done([], input)
    case Failure => Failure
    case Incomplete => Incomplete
  }

  /** `fold_many_m_n` with no minimum. */
  function ReadUpTo(max: nat, inner: Ir, input: seq<byte>): (r: Read<seq<Value>>)
    ensures r.Done? ==> IsSuffix(r.rest, input)
    decreases inner, 1, max
  {
    if max == 0 then Done([], input)
    else
      match Parse(inner, input)
      case Done(v, rest) =>
        if rest == input then Error
        else
          (match ReadUpTo(max - 1, inner, rest)
           case Done(vs, rest') => Done([v] + vs, rest')
           case Error => Error
           case Failure => Failure
           case Incomplete => Incomplete)
      case Error => Done([], input)
      case Failure => Failure
      case Incomplete => Incomplete
  }

  function ReadFields(fields: seq<S.IrField>, input: seq<byte>): (r: Read<seq<S.FieldValue>>)
    ensures r.Done? ==> IsSuffix(r.rest, input)
    decreases fields, 0, 0
  {
    if fields == [] then Done([], input)
    else
      match Parse(fields[0].ir, input)
      case Done(v, rest) =>
        (match ReadFields(fields[1..], rest)
         case Done(fs, rest') => Done([S.FieldValue(fields[0].name, v)] + fs, rest')
         case Error => Error
         case Failure => Failure
         case Incomplete => Incomplete)
      case Error => Error
      case Failure => Failure
      case Incomplete => Incomplete
  }

  /** The first variant with the id that was read; `ordinal` is the position of `tags[0]`. */
  function ReadVariant(tags: seq<S.IrTag>, ordinal: nat, id: nat, input: seq<byte>): (r: Read<Value>)
    ensures r.Done? ==> IsSuffix(r.rest, input)
    decreases tags, 0, 0
  {
    if tags == [] then Failure
    else if tags[0].id != id then ReadVariant(tags[1..], ordinal + 1, id, input)
    else if tags[0].ir.Unit? then Done(Value.Enum(Some(tags[0].variant), Some(ordinal)), input)
    else
      match Parse(tags[0].ir, input)
      case Done(v, rest) => Done(Value.Tagged(tags[0].variant, v), rest)
      case Error => Error
      case Failure => Failure
      case Incomplete => Incomplete
  }
}
