/** The writer itself: every operation appends to one buffer, and length prefixes are written as a
    placeholder and patched in place once the block behind them is complete. */
module BinaryWriter {
  import opened Basics
  import opened Bytes
  import opened Words
  import opened ZarithLoops
  import opened Encoder
  import S = Schema

  class Buffer {
    var data: seq<byte>

    constructor ()
      ensures data == []
    {
      data := [];
    }

    method Put(bs: seq<byte>)
      modifies this
      ensures data == old(data) + bs
    {
      data := data + bs;
    }

    /** Overwrites part of the buffer. */
    method Patch(at: nat, bs: seq<byte>)
      requires at + |bs| <= |data|
      modifies this
      ensures data == old(data)[..at] + bs + old(data)[at + |bs|..]
    {
      data := data[..at] + bs + data[at + |bs|..];
    }
  }

  /** What a writing step owes: the old bytes stay, it succeeds exactly when the encoder does, and
      then it has appended exactly the encoder's bytes and returned their number. */
  ghost predicate Wrote(before: seq<byte>, after: seq<byte>, r: Result<nat>, spec: Result<seq<byte>>) {
    && before <= after
    && (r.Ok? <==> spec.Ok?)
    && (r.Ok? ==> after == before + spec.value && r.value == |spec.value|)
  }

  lemma PrependNil(r: Result<seq<byte>>)
    ensures Prepend([], r) == r
  {
    if r.Ok? { assert [] + r.value == r.value; }
  }

  lemma PrependTwice(a: seq<byte>, b: seq<byte>, r: Result<seq<byte>>)
    ensures Prepend(a, Prepend(b, r)) == Prepend(a + b, r)
  {
    if r.Ok? { assert a + (b + r.value) == a + b + r.value; }
  }

  method Write(value: Value, encoding: Encoding) returns (r: Result<seq<byte>>)
    ensures r == Encode(value, encoding)
  {
    var buf := new Buffer();
    hide Encode;
    var n := EncodeAny(buf, value, encoding);
    assert n.Ok? ==> buf.data == [] + Encode(value, encoding).value == Encode(value, encoding).value;
    r := if n.Ok? then Ok(buf.data) else Err;
  }

  method EncodeAny(buf: Buffer, value: Value, e: Encoding) returns (r: Result<nat>)
    modifies buf
    ensures Wrote(old(buf.data), buf.data, r, Encode(value, e))
    decreases e, 2, 0
  {
    hide EncodeTag, EncodeList, EncodeRecord, EncodeTuple;
    match e
    case Obj(_, schema) => r := WriteRecord(buf, value, schema);
    case Tup(encodings) => r := WriteTuple(buf, value, encodings);
    case _ => r := EncodeValue(buf, value, e);
  }

  method WriteRecord(buf: Buffer, value: Value, schema: seq<S.Field>) returns (r: Result<nat>)
    modifies buf
    ensures Wrote(old(buf.data), buf.data, r, if value.Record? then EncodeRecord(value.fields, schema) else Err)
    decreases schema, 0, 0
  {
    if !value.Record? {
      return Err;
    }
    hide Encode;
    var size := 0;
    ghost var spec := EncodeRecord(value.fields, schema);
    ghost var done: seq<byte> := [];
    assert schema[0..] == schema;
    PrependNil(spec);
    for i := 0 to |schema|
      invariant buf.data == old(buf.data) + done && size == |done|
      invariant spec == Prepend(done, EncodeRecord(value.fields, schema[i..]))
    {
      assert schema[i..][0] == schema[i] && schema[i..][1..] == schema[i + 1..];
      var found := S.FindValue(schema[i].name, value.fields);
      if found.None? {
        return Err;
      }
      ghost var bs := Encode(found.value, schema[i].encoding);
      var n := EncodeAny(buf, found.value, schema[i].encoding);
      if n.Err? {
        return Err;
      }
      AppendAssoc(old(buf.data), done, bs.value);
      PrependTwice(done, bs.value, EncodeRecord(value.fields, schema[i + 1..]));
      size := size + n.value;
      done := done + bs.value;
    }
    assert spec == Ok(done + []) && done + [] == done;
    r := Ok(size);
  }

  lemma TupleStep(items: seq<Value>, encodings: seq<Encoding>, i: nat)
    requires i <= |encodings| && i <= |items|
    ensures EncodeTuple(items[i..], encodings[i..])
         == if i == |encodings| then Ok([])
            else if i == |items| then Err
            else if Encode(items[i], encodings[i]).Ok? then
              Prepend(Encode(items[i], encodings[i]).value, EncodeTuple(items[i + 1..], encodings[i + 1..]))
            else Err
  {
    hide Encode;
    if i < |encodings| && i < |items| {
      assert encodings[i..][0] == encodings[i] && encodings[i..][1..] == encodings[i + 1..];
      assert items[i..][0] == items[i] && items[i..][1..] == items[i + 1..];
    }
  }

  method WriteTuple(buf: Buffer, value: Value, encodings: seq<Encoding>) returns (r: Result<nat>)
    modifies buf
    ensures Wrote(old(buf.data), buf.data, r, if value.Tuple? then EncodeTuple(value.items, encodings) else Err)
    decreases encodings, 0, 0
  {
    if !value.Tuple? {
      return Err;
    }
    hide Encode, EncodeTuple;
    var size := 0;
    ghost var spec := EncodeTuple(value.items, encodings);
    ghost var done: seq<byte> := [];
    assert encodings[0..] == encodings && value.items[0..] == value.items;
    PrependNil(spec);
    for i := 0 to |encodings|
      invariant i <= |value.items|
      invariant buf.data == old(buf.data) + done && size == |done|
      invariant spec == Prepend(done, EncodeTuple(value.items[i..], encodings[i..]))
    {
      TupleStep(value.items, encodings, i);
      if i >= |value.items| {
        return Err;
      }
      ghost var bs := Encode(value.items[i], encodings[i]);
      var n := EncodeAny(buf, value.items[i], encodings[i]);
      if n.Err? {
        return Err;
      }
      AppendAssoc(old(buf.data), done, bs.value);
      PrependTwice(done, bs.value, EncodeTuple(value.items[i + 1..], encodings[i + 1..]));
      size := size + n.value;
      done := done + bs.value;
    }
    TupleStep(value.items, encodings, |encodings|);
    assert spec == Ok(done + []) && done + [] == done;
    r := Ok(size);
  }

  lemma ListStep(items: seq<Value>, i: nat, inner: Encoding)
    requires i <= |items|
    ensures EncodeList(items[i..], inner)
         == if i == |items| then Ok([])
            else if Encode(items[i], inner).Ok? then
              Prepend(Encode(items[i], inner).value, EncodeList(items[i + 1..], inner))
            else Err
  {
    hide Encode;
    if i < |items| {
      assert items[i..][0] == items[i] && items[i..][1..] == items[i + 1..];
    }
  }

  method WriteList(buf: Buffer, items: seq<Value>, inner: Encoding) returns (r: Result<nat>)
    modifies buf
    ensures Wrote(old(buf.data), buf.data, r, EncodeList(items, inner))
    decreases inner, 2, 1
  {
    var before := |buf.data|;
    hide Encode, EncodeList;
    ghost var spec := EncodeList(items, inner);
    ghost var done: seq<byte> := [];
    assert items[0..] == items;
    PrependNil(spec);
    for i := 0 to |items|
      invariant buf.data == old(buf.data) + done
      invariant spec == Prepend(done, EncodeList(items[i..], inner))
    {
      ListStep(items, i, inner);
      ghost var bs := Encode(items[i], inner);
      var n := EncodeValue(buf, items[i], inner);
      if n.Err? {
        return Err;
      }
      AppendAssoc(old(buf.data), done, bs.value);
      PrependTwice(done, bs.value, EncodeList(items[i + 1..], inner));
      done := done + bs.value;
    }
    ListStep(items, |items|, inner);
    assert spec == Ok(done + []) && done + [] == done;
    r := Ok(|buf.data| - before);
  }

  method WriteRawBytes(buf: Buffer, items: seq<Value>) returns (r: Result<nat>)
    modifies buf
    ensures Wrote(old(buf.data), buf.data, r, RawBytes(items))
  {
    var before := |buf.data|;
    ghost var spec := RawBytes(items);
    ghost var done: seq<byte> := [];
    assert items[0..] == items;
    PrependNil(spec);
    for i := 0 to |items|
      invariant buf.data == old(buf.data) + done
      invariant spec == Prepend(done, RawBytes(items[i..]))
    {
      assert items[i..][0] == items[i] && items[i..][1..] == items[i + 1..];
      if !items[i].Uint8? {
        return Err;
      }
      buf.Put([items[i].i % 256]);
      AppendAssoc(old(buf.data), done, [items[i].i % 256]);
      PrependTwice(done, [items[i].i % 256], RawBytes(items[i + 1..]));
      done := done + [items[i].i % 256];
    }
    assert spec == Ok(done + []) && done + [] == done;
    r := Ok(|buf.data| - before);
  }

  /** A block behind a four-byte length: a placeholder first, the block, then the length on top of
      the placeholder. */
  method WriteDynamic(buf: Buffer, value: Value, limit: Option<nat>, inner: Encoding) returns (r: Result<nat>)
    modifies buf
    ensures var spec := Encode(value, inner);
            Wrote(old(buf.data), buf.data, r,
                  if spec.Ok? && (limit.Some? ==> |spec.value| <= limit.value) && |spec.value| < U32_LIMIT
                  then Ok(LengthPrefixed(spec.value)) else Err)
    decreases inner, 2, 1
  {
    hide Encode, ToBE;
    var before := |buf.data|;
    buf.Put(ToBE(4, 0));
    var after := |buf.data|;
    ghost var placed := buf.data;
    var n := EncodeValue(buf, value, inner);
    if n.Err? || (limit.Some? && n.value > limit.value) || n.value >= U32_LIMIT {
      assert old(buf.data) <= placed <= buf.data;
      return Err;
    }
    ghost var block := Encode(value, inner).value;
    assert buf.data == placed + block;
    buf.Patch(before, ToBE(after - before, n.value));
    assert buf.data == old(buf.data) + ToBE(4, |block|) + block;
    r := Ok(|buf.data| - before);
  }

  method WriteTag(buf: Buffer, variant: string, payload: Option<Value>, tagSize: nat, tagMap: S.TagMap)
    returns (r: Result<nat>)
    modifies buf
    ensures payload.Some? ==>
              Wrote(old(buf.data), buf.data, r, EncodeTag(variant, payload.value, tagSize, tagMap))
    ensures payload.None? ==>
              Wrote(old(buf.data), buf.data, r,
                    var found := S.FindByVariant(tagMap, variant);
                    if found.Some? then TagId(tagSize, found.value.id) else Err)
    decreases tagMap, 0, 0
  {
    hide Encode, TagId;
    var before := |buf.data|;
    var found := S.FindByVariant(tagMap, variant);
    if found.None? {
      return Err;
    }
    assert found.value in tagMap.idToTag.Values;
    var id := TagId(tagSize, found.value.id);
    if id.Err? {
      return Err;
    }
    buf.Put(id.value);
    if payload.Some? {
      ghost var spec := Encode(payload.value, found.value.encoding);
      var n := EncodeValue(buf, payload.value, found.value.encoding);
      if n.Err? {
        return Err;
      }
      assert buf.data == old(buf.data) + (id.value + spec.value);
    }
    r := Ok(|buf.data| - before);
  }

  method PutAll(buf: Buffer, bs: seq<byte>) returns (r: Result<nat>)
    modifies buf
    ensures Wrote(old(buf.data), buf.data, r, Ok(bs))
  {
    buf.Put(bs);
    r := Ok(|bs|);
  }

  /** The mask test of `Int31` on the 32-bit pattern of a number. */
  predicate PassesMask(i: int) {
    And(i % U32_LIMIT, 0x7FFF_FFFF) == i
  }

  /** It lets exactly the numbers of 31 bits through. */
  lemma MaskIsRangeTest(i: int)
    ensures PassesMask(i) <==> 0 <= i < 0x8000_0000
  {
    hide And;
    assert Pow2(31) == 0x8000_0000 by { ThirtyOneBits(); }
    AndLowMask(i % U32_LIMIT, 31);
  }

  lemma ThirtyOneBits()
    ensures Pow2(31) == 0x8000_0000
  {
    Pow2Square(5, 32);
    Pow2Add(10, 10);
    Pow2Add(20, 11);
    Pow2Succ(10);
  }

  method WriteNumber(buf: Buffer, value: Value, e: Encoding) returns (r: Result<nat>)
    requires IsNumber(e)
    modifies buf
    ensures Wrote(old(buf.data), buf.data, r, NumberBytes(value, e))
  {
    hide ToBE, PassesMask;
    r := Err;
    match e
    case Int8 => if value.Int8? { r := PutAll(buf, ToBE(1, value.i)); }
    case Uint8 => if value.Uint8? { r := PutAll(buf, ToBE(1, value.i)); }
    case Int16 => if value.Int16? { r := PutAll(buf, ToBE(2, value.i)); }
    case Uint16 => if value.Uint16? { r := PutAll(buf, ToBE(2, value.i)); }
    case Int31 =>
      if value.Int32? {
        MaskIsRangeTest(value.i);
        if PassesMask(value.i) { r := PutAll(buf, ToBE(4, value.i)); }
      }
    case Int32 => if value.Int32? { r := PutAll(buf, ToBE(4, value.i)); }
    case Uint32 => if value.Int32? && value.i >= 0 { r := PutAll(buf, ToBE(4, value.i)); }
    case Int64 | Timestamp => if value.Int64? { r := PutAll(buf, ToBE(8, value.i)); }
  }

  method WriteSimple(buf: Buffer, value: Value, e: Encoding) returns (r: Result<nat>)
    requires e.Unit? || e.Bool? || e.Str? || e.BoundedString? || e.Enum?
    modifies buf
    ensures Wrote(old(buf.data), buf.data, r, Encode(value, e))
  {
    hide ToBE, EncodeZText, RawBytes, LengthPrefixed;
    r := Err;
    match e
    case Unit => r := Ok(0);
    case Bool => if value.Bool? { r := PutAll(buf, [if value.b then TRUE_BYTE else FALSE_BYTE]); }
    case Str => if value.Str? { r := WriteString(buf, value.utf8); }
    case BoundedString(max) =>
      if value.Str? && |value.utf8| <= max { r := WriteString(buf, value.utf8); }
    case Enum =>
      if value.Enum? && value.ordinal.Some? && value.ordinal.value < 256 {
        r := PutAll(buf, [value.ordinal.value]);
      }
  }

  method WriteZ(buf: Buffer, value: Value) returns (r: Result<nat>)
    modifies buf
    ensures Wrote(old(buf.data), buf.data, r, if value.Str? then EncodeZText(value.utf8) else Err)
  {
    if !value.Str? {
      return Err;
    }
    var z, underflows := EncodeZ(value.utf8);
    if z.Err? {
      return Err;
    }
    r := PutAll(buf, z.value);
  }

  method WriteString(buf: Buffer, s: seq<byte>) returns (r: Result<nat>)
    modifies buf
    ensures Wrote(old(buf.data), buf.data, r, Ok(LengthPrefixed(s)))
  {
    buf.Put(ToBE(4, |s|));
    buf.Put(s);
    r := Ok(4 + |s|);
  }

  predicate IsLeaf(e: Encoding) {
    || IsNumber(e) || e.Unit? || e.Bool? || e.Z? || e.Mutez?
    || e.Str? || e.BoundedString? || e.Bytes? || e.Hash? || e.Enum?
  }

  /** What the encoder does with the kinds of leaves that have their own writing method. */
  lemma LeafBytes(value: Value, e: Encoding)
    ensures IsNumber(e) ==> Encode(value, e) == NumberBytes(value, e)
    ensures e.Z? || e.Mutez? ==> Encode(value, e) == if value.Str? then EncodeZText(value.utf8) else Err
    ensures e.Bytes? ==> Encode(value, e) == if value.List? then RawBytes(value.items) else Err
    ensures e.Hash? ==>
              Encode(value, e) == if value.List? && |value.items| == e.size then RawBytes(value.items) else Err
  {
    hide NumberBytes, EncodeZText, RawBytes, EncodeTag, EncodeList, EncodeRecord, EncodeTuple, Framed, LengthPrefixed;
    hide S.FindByVariant, TagId;
  }

  method EncodeLeaf(buf: Buffer, value: Value, e: Encoding) returns (r: Result<nat>)
    requires IsLeaf(e)
    modifies buf
    ensures Wrote(old(buf.data), buf.data, r, Encode(value, e))
  {
    hide NumberBytes, EncodeZText, RawBytes, Encode;
    LeafBytes(value, e);
    r := Err;
    match e
    case Int8 | Uint8 | Int16 | Uint16 | Int31 | Int32 | Uint32 | Int64 | Timestamp =>
      r := WriteNumber(buf, value, e);
    case Z | Mutez => r := WriteZ(buf, value);
    case Bytes => if value.List? { r := WriteRawBytes(buf, value.items); }
    case Hash(size) =>
      if value.List? {
        r := WriteRawBytes(buf, value.items);
        if r.Ok? && r.value != size { r := Err; }
      }
    case Unit | Bool | Str | BoundedString(_) | Enum => r := WriteSimple(buf, value, e);
  }

  method EncodeValue(buf: Buffer, value: Value, e: Encoding) returns (r: Result<nat>)
    modifies buf
    ensures Wrote(old(buf.data), buf.data, r, Encode(value, e))
    decreases e, 1, 1
  {
    hide Encode;
    if IsLeaf(e) {
      r := EncodeLeaf(buf, value, e);
    } else if IsBlock(e) {
      r := EncodeBlock(buf, value, e);
    } else {
      r := EncodeCompound(buf, value, e);
    }
  }

  method EncodeBlock(buf: Buffer, value: Value, e: Encoding) returns (r: Result<nat>)
    requires IsBlock(e)
    modifies buf
    ensures Wrote(old(buf.data), buf.data, r, Encode(value, e))
    decreases e, 1, 0
  {
    hide Encode;
    FramedStep(value, e);
    match e
    case Dynamic(inner) => r := WriteDynamic(buf, value, None, inner);
    case BoundedDynamic(max, inner) => r := WriteDynamic(buf, value, Some(max), inner);
    case Sized(size, inner) =>
      r := EncodeValue(buf, value, inner);
      if r.Ok? && r.value != size { r := Err; }
    case Bounded(max, inner) =>
      r := EncodeValue(buf, value, inner);
      if r.Ok? && r.value > max { r := Err; }
    case Greedy(inner) => r := EncodeValue(buf, value, inner);
  }

  method EncodeCompound(buf: Buffer, value: Value, e: Encoding) returns (r: Result<nat>)
    requires !IsLeaf(e) && !IsBlock(e)
    modifies buf
    ensures Wrote(old(buf.data), buf.data, r, Encode(value, e))
    decreases e, 1, 0
  {
    hide EncodeTag, EncodeList, EncodeRecord, EncodeTuple, TagId;
    r := Err;
    match e
    case Tags(tagSize, tagMap) =>
      if value.Tagged? {
        r := WriteTag(buf, value.tag, Some(value.payload), tagSize, tagMap);
      } else if value.Enum? && value.variant.Some? {
        r := WriteTag(buf, value.variant.value, None, tagSize, tagMap);
      }
    case List(inner) => if value.List? { r := WriteList(buf, value.items, inner); }
    case BoundedList(max, inner) =>
      if value.List? && |value.items| <= max { r := WriteList(buf, value.items, inner); }
    case Option(inner) =>
      if value.Opt? { r := WriteOption(buf, value.inner, inner, SOME_BYTE, NONE_BYTE); }
    case OptionalField(inner) =>
      if value.Opt? { r := WriteOption(buf, value.inner, inner, FIELD_SOME, FIELD_NONE); }
    case Obj(_, schema) => r := WriteRecord(buf, value, schema);
    case Tup(encodings) => r := WriteTuple(buf, value, encodings);
  }

  method WriteOption(buf: Buffer, value: Option<Value>, inner: Encoding, some: byte, none: byte)
    returns (r: Result<nat>)
    modifies buf
    ensures Wrote(old(buf.data), buf.data, r,
                  if value.Some? then Prepend([some], Encode(value.value, inner)) else Ok([none]))
    decreases inner, 2, 1
  {
    hide Encode;
    if value.None? {
      r := PutAll(buf, [none]);
    } else {
      buf.Put([some]);
      ghost var spec := Encode(value.value, inner);
      var n := EncodeValue(buf, value.value, inner);
      if n.Err? {
        return Err;
      }
      assert buf.data == old(buf.data) + ([some] + spec.value);
      r := Ok(1 + n.value);
    }
  }
}
