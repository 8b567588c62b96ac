/** Big numbers: the bit packing of `encode_z` (tezos/encoding/src/binary_writer.rs) and the
    readers `zarith` and `mutez` (tezos/encoding/src/nom.rs). */
module Zarith {
  import opened Basics
  import opened Nom

  // ----- the encoding as arithmetic -----

  /** Seven-bit groups, least significant first, each but the last marked with bit 7. */
  function Chunks(x: nat): (bs: seq<byte>)
    ensures bs != []
  {
    if x < 128 then [x] else [128 + x % 128] + Chunks(x / 128)
  }

  function SignBit(negative: bool): nat { if negative then 64 else 0 }

  /** The bytes of a sign and a magnitude. */
  function ZBytes(negative: bool, mag: nat): (bs: seq<byte>)
    ensures bs != []
  {
    if mag < 64 then [mag + SignBit(negative)]
    else [128 + SignBit(negative) + mag % 64] + Chunks(mag / 64)
  }

  function Abs(v: int): nat { if v < 0 then -v else v }

  function WithSign(negative: bool, mag: nat): int { if negative then 0 - mag else mag }

  function ReadChunks(input: seq<byte>): Read<nat> {
    if input == [] then Error
    else if input[0] < 128 then Done(input[0], input[1..])
    else
      match ReadChunks(input[1..])
      case Done(x, rest) => Done(input[0] % 128 + 128 * x, rest)
      case _ => Error
  }

  function ReadZ(input: seq<byte>): Read<int> {
    if input == [] then Error
    else
      var negative := (input[0] / 64) % 2 == 1;
      if input[0] < 128 then Done(WithSign(negative, input[0] % 64), input[1..])
      else
        match ReadChunks(input[1..])
        case Done(x, rest) => Done(WithSign(negative, input[0] % 64 + 64 * x), rest)
        case _ => Error
  }

  /** `mutez` reads plain seven-bit groups. */
  function ReadMutez(input: seq<byte>): Read<int> {
    match ReadChunks(input)
    case Done(x, rest) => Done(x, rest)
    case _ => Error
  }

  lemma {:induction false} ChunksRead(x: nat, suffix: seq<byte>)
    ensures ReadChunks(Chunks(x) + suffix) == Done(x, suffix)
  {
    var input := Chunks(x) + suffix;
    if x >= 128 {
      ChunksRead(x / 128, suffix);
      assert input[1..] == Chunks(x / 128) + suffix;
    } else {
      assert input[1..] == suffix;
    }
  }

  /** `zarith` inverts the packing of every sign and magnitude and leaves the suffix alone. */
  lemma ZRoundTrip(negative: bool, mag: nat, suffix: seq<byte>)
    ensures ReadZ(ZBytes(negative, mag) + suffix) == Done(WithSign(negative, mag), suffix)
  {
    var input := ZBytes(negative, mag) + suffix;
    if mag < 64 {
      assert input[1..] == suffix;
    } else {
      assert input[1..] == Chunks(mag / 64) + suffix;
      ChunksRead(mag / 64, suffix);
    }
  }

  /** On the same bytes `mutez` takes the sign bit for a value bit: it reads another number unless
      the number is in `0..64`. */
  lemma MutezOnZBytes(negative: bool, mag: nat, suffix: seq<byte>)
    ensures ReadMutez(ZBytes(negative, mag) + suffix)
         == Done(128 * (mag / 64) + SignBit(negative) + mag % 64, suffix)
    ensures ReadMutez(ZBytes(negative, mag) + suffix) == Done(WithSign(negative, mag), suffix)
       <==> !negative && mag < 64
  {
    var input := ZBytes(negative, mag) + suffix;
    if mag < 64 {
      assert input[1..] == suffix;
    } else {
      assert input[1..] == Chunks(mag / 64) + suffix;
      ChunksRead(mag / 64, suffix);
    }
  }

  // ----- size -----

  function BitLen(x: nat): nat {
    if x == 0 then 0 else 1 + BitLen(x / 2)
  }

  lemma BitLenDrop7(x: nat)
    requires x >= 128
    ensures BitLen(x / 128) == BitLen(x) - 7 && BitLen(x) >= 8
  {
    assert x / 2 / 2 / 2 / 2 / 2 / 2 / 2 == x / 128;
    assert BitLen(x) == 1 + BitLen(x / 2) == 2 + BitLen(x / 2 / 2) == 3 + BitLen(x / 2 / 2 / 2);
    assert BitLen(x / 2 / 2 / 2) == 1 + BitLen(x / 2 / 2 / 2 / 2) == 2 + BitLen(x / 2 / 2 / 2 / 2 / 2);
    assert BitLen(x / 2 / 2 / 2 / 2 / 2) == 1 + BitLen(x / 2 / 2 / 2 / 2 / 2 / 2)
        == 2 + BitLen(x / 2 / 2 / 2 / 2 / 2 / 2 / 2);
    assert BitLen(x / 128) >= 1;
  }

  lemma BitLenDrop6(x: nat)
    requires x >= 64
    ensures BitLen(x / 64) == BitLen(x) - 6 && BitLen(x) >= 7
  {
    assert x / 2 / 2 / 2 / 2 / 2 / 2 == x / 64;
    assert BitLen(x) == 1 + BitLen(x / 2) == 2 + BitLen(x / 2 / 2) == 3 + BitLen(x / 2 / 2 / 2);
    assert BitLen(x / 2 / 2 / 2) == 1 + BitLen(x / 2 / 2 / 2 / 2) == 2 + BitLen(x / 2 / 2 / 2 / 2 / 2)
        == 3 + BitLen(x / 2 / 2 / 2 / 2 / 2 / 2);
    assert BitLen(x / 64) >= 1;
  }

  lemma BitLenSmall(x: nat)
    requires 1 <= x < 128
    ensures 1 <= BitLen(x) <= 7
  {
    assert BitLen(x) == 1 + BitLen(x / 2);
    assert x / 2 / 2 / 2 / 2 / 2 / 2 / 2 == 0;
    var a := x / 2 / 2 / 2;
    assert BitLen(x / 2) <= 2 + BitLen(a);
    assert BitLen(a) <= 2 + BitLen(a / 2 / 2);
    assert BitLen(a / 2 / 2) <= 2 + BitLen(a / 2 / 2 / 2 / 2);
  }

  lemma {:induction false} ChunksSize(x: nat)
    requires x >= 1
    ensures |Chunks(x)| == (BitLen(x) + 6) / 7
  {
    if x >= 128 {
      ChunksSize(x / 128);
      BitLenDrop7(x);
    } else {
      BitLenSmall(x);
    }
  }

  /** One byte below 64, and otherwise one byte plus one for every started group of seven bits
      beyond the first six. */
  lemma ZSize(negative: bool, mag: nat)
    ensures |ZBytes(negative, mag)| == if mag < 64 then 1 else 1 + (BitLen(mag) - 6 + 6) / 7
  {
    if mag >= 64 {
      BitLenDrop6(mag);
      ChunksSize(mag / 64);
    }
  }

  // ----- canonical forms -----

  lemma {:induction false} ReadChunksSuffix(input: seq<byte>)
    ensures var r := ReadChunks(input);
            r.Done? ==> |r.rest| < |input| && r.rest == input[|input| - |r.rest|..]
  {
    if input != [] && input[0] >= 128 {
      ReadChunksSuffix(input[1..]);
    }
  }

  lemma {:induction false} ChunksCanonical(input: seq<byte>)
    requires ReadChunks(input).Done?
    ensures var Done(x, rest) := ReadChunks(input);
            && |rest| < |input|
            && var used := input[..|input| - |rest|];
            && (used == Chunks(x) <==> |used| == 1 || used[|used| - 1] != 0)
            && (used[|used| - 1] != 0 ==> x >= 1)
            && (|used| == 1 ==> x == used[0])
  {
    ReadChunksSuffix(input);
    var Done(x, rest) := ReadChunks(input);
    var used := input[..|input| - |rest|];
    if input[0] < 128 {
      assert used == [input[0]];
    } else {
      var tail := input[1..];
      ReadChunksSuffix(tail);
      ChunksCanonical(tail);
      var x' := ReadChunks(tail).value;
      var used' := tail[..|tail| - |rest|];
      assert used == [input[0]] + used';
      if x' == 0 {
        assert x < 128 && |Chunks(x)| == 1;
      } else {
        assert Chunks(x) == [input[0]] + Chunks(x');
      }
    }
  }

  /** The bytes that `zarith` accepts are the packing of the number it reads exactly when they are
      not the single byte of "minus zero" and do not end in an empty group. */
  lemma ZCanonicalIff(input: seq<byte>)
    requires ReadZ(input).Done?
    ensures var Done(v, rest) := ReadZ(input);
            && |rest| < |input|
            && var used := input[..|input| - |rest|];
            && (used == ZBytes(v < 0, Abs(v)) <==>
                  if |used| == 1 then used[0] != 64 else used[|used| - 1] != 0)
  {
    hide ZBytes, Chunks, ReadChunks;
    var Done(v, rest) := ReadZ(input);
    var b, tail := input[0], input[1..];
    ReadChunksSuffix(tail);
    var used := input[..|input| - |rest|];
    if b < 128 {
      assert used == [b];
      OneByteCanonical(b);
    } else {
      ChunksCanonical(tail);
      var x := ReadChunks(tail).value;
      var used' := tail[..|tail| - |rest|];
      assert used == [b] + used' && used[1..] == used' && |used| >= 2;
      assert used[|used| - 1] == used'[|used'| - 1];
      TopBits(b);
      ZSplit((b / 64) % 2 == 1, b % 64, x);
      assert x != 0 ==> ([b] + Chunks(x))[1..] == Chunks(x);
    }
  }

  lemma OneByteCanonical(b: byte)
    requires b < 128
    ensures var v := WithSign((b / 64) % 2 == 1, b % 64);
            [b] == ZBytes(v < 0, Abs(v)) <==> b != 64
  {
  }

  lemma TopBits(b: byte)
    requires b >= 128
    ensures b == 128 + SignBit((b / 64) % 2 == 1) + b % 64
  {
  }

  lemma Join64(lo: nat, x: nat)
    requires lo < 64
    ensures (lo + 64 * x) / 64 == x && (lo + 64 * x) % 64 == lo
  {
  }

  /** A continued first byte and the groups after it, packed again. */
  lemma ZSplit(negative: bool, lo: nat, x: nat)
    requires lo < 64
    ensures var v := WithSign(negative, lo + 64 * x);
            if x == 0 then |ZBytes(v < 0, Abs(v))| == 1
            else ZBytes(v < 0, Abs(v)) == [128 + SignBit(negative) + lo] + Chunks(x)
  {
    hide Chunks;
    Join64(lo, x);
  }

  /** The bytes that `mutez` accepts are the packing of the amount it reads exactly when they are a
      single byte below 64. */
  lemma MutezCanonicalIff(input: seq<byte>)
    requires ReadMutez(input).Done?
    ensures var Done(x, rest) := ReadMutez(input);
            && input != [] && x >= 0
            && (input == ZBytes(false, x) + rest <==> input[0] < 64)
  {
    var Done(x, rest) := ReadMutez(input);
    if input[0] < 64 {
      assert input == [input[0]] + input[1..];
    } else if input == ZBytes(false, x) + rest {
      MutezOnZBytes(false, x, rest);
    }
  }
}
