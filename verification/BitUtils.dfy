/** Bits of a byte and bit vectors, after `tezos/encoding/src/bit_utils.rs`. */
module BitUtils {
  import opened Basics
  import opened Words
  import opened Bytes

  /** `x >> k` and `1 << k`. */
  function Shr(x: nat, k: nat): nat {
    if k == 0 then x else Shr(x / 2, k - 1)
  }

  function Shl(v: bool, k: nat): nat { if v then Pow2(k) else 0 }

  /** `get`: shift the bit down and blank the others. */
  predicate Get(b: byte, place: nat)
    requires place < 8
  {
    And(Shr(b, place), 1) == 1
  }

  /** `set`: blank the bit, then or in the value. */
  function Set(b: byte, place: nat, v: bool): nat
    requires place < 8
  {
    BitBelow(place);
    Or(And(b, Not(8, Shl(true, place))), Shl(v, place))
  }

  /** `take`: the bit, and the byte with the bit blanked. */
  function Take(b: byte, place: nat): (r: (bool, nat))
    requires place < 8
  {
    BitBelow(place);
    (And(Shl(true, place), b) != 0, And(b, Not(8, Shl(true, place))))
  }

  lemma BitBelow(place: nat)
    requires place < 8
    ensures 2 * Pow2(place) <= Pow2(8) == 256
  {
    Pow2Monotone(place + 1, 8);
  }

  /** Whether the bit at `place` is set. */
  predicate Bit(b: nat, place: nat) { Shr(b, place) % 2 == 1 }

  lemma {:induction false} AndClears(b: nat, place: nat, w: nat)
    requires place < w && b < Pow2(w) && Pow2(place) < Pow2(w)
    ensures And(b, Not(w, Pow2(place))) == b - Shl(Bit(b, place), place)
    decreases w
  {
    hide And, Pow2, Not;
    Pow2Succ(w - 1);
    if place == 0 {
      ClearLowest(b, w);
    } else {
      Pow2Monotone(place, w - 1);
      Pow2Succ(place - 1);
      ClearHigher(b, place, w);
      AndClears(b / 2, place - 1, w - 1);
    }
  }

  lemma ClearLowest(b: nat, w: nat)
    requires 0 < w && b < Pow2(w) && Pow2(0) < Pow2(w)
    ensures And(b, Not(w, Pow2(0))) == b - Shl(Bit(b, 0), 0)
  {
    hide And;
    var m := Not(w, Pow2(0));
    assert m % 2 == 0 && m / 2 == Pow2(w - 1) - 1;
    AndStep(b, m);
    AndLowMask(b / 2, w - 1);
    DivModUnique(b / 2, Pow2(w - 1), 0, b / 2);
  }

  lemma ClearHigher(b: nat, place: nat, w: nat)
    requires 0 < place < w && Pow2(place) < Pow2(w) && Pow2(place - 1) < Pow2(w - 1)
    ensures And(b, Not(w, Pow2(place))) == b % 2 + 2 * And(b / 2, Not(w - 1, Pow2(place - 1)))
  {
    hide And, Pow2;
    Pow2Succ(place - 1);
    Pow2Succ(w - 1);
    var m := Not(w, Pow2(place));
    assert m == 2 * (Pow2(w - 1) - Pow2(place - 1)) - 1;
    AndStep(b, m);
  }

  lemma {:induction false} ShrZero(k: nat)
    ensures Shr(0, k) == 0
  {
    if k > 0 { ShrZero(k - 1); }
  }

  lemma {:induction false} OrSets(b: nat, place: nat, v: bool)
    requires !Bit(b, place)
    ensures Or(b, Shl(v, place)) == b + Shl(v, place)
    decreases place
  {
    if v && b != 0 && place > 0 {
      OrSets(b / 2, place - 1, v);
      var x := Pow2(place);
      assert x / 2 == Pow2(place - 1) && x % 2 == 0;
    }
  }

  lemma {:induction false} AndTests(b: nat, place: nat)
    ensures And(Pow2(place), b) == Shl(Bit(b, place), place)
    decreases place
  {
    if b == 0 {
      ShrZero(place);
    } else if place == 0 {
      assert And(1, b) == (if b % 2 == 1 then 1 else 0) + 2 * And(0, b / 2);
    } else {
      AndTests(b / 2, place - 1);
      var x := Pow2(place);
      assert x / 2 == Pow2(place - 1) && x % 2 == 0;
    }
  }

  lemma GetIsBit(b: byte, place: nat)
    requires place < 8
    ensures Get(b, place) <==> Bit(b, place)
  {
    AndOne(Shr(b, place));
  }

  lemma AndOne(x: nat)
    ensures And(x, 1) == x % 2
  {
    AndLowMask(x, 1);
    assert Pow2(1) == 2;
  }

  lemma TakeIsBit(b: byte, place: nat)
    requires place < 8
    ensures Take(b, place) == (Bit(b, place), b - Shl(Bit(b, place), place))
  {
    hide And, Pow2, Not, Bit;
    BitBelow(place);
    AndTests(b, place);
    AndClears(b, place, 8);
  }

  /** Setting a bit that is clear adds its weight. */
  lemma SetAdds(b: byte, place: nat, v: bool)
    requires place < 8 && !Bit(b, place)
    ensures Set(b, place, v) == b + Shl(v, place)
  {
    hide And, Or, Pow2, Not;
    BitBelow(place);
    AndClears(b, place, 8);
    OrSets(b, place, v);
  }

  lemma {:induction false} ClearedBit(b: nat, place: nat)
    ensures Shl(Bit(b, place), place) <= b && !Bit(b - Shl(Bit(b, place), place), place)
    decreases place
  {
    if place > 0 {
      ClearedBit(b / 2, place - 1);
      var w := Shl(Bit(b, place), place);
      assert w % 2 == 0 && w / 2 == Shl(Bit(b / 2, place - 1), place - 1);
      assert (b - w) / 2 == b / 2 - w / 2;
    }
  }

  /** Setting a bit replaces its weight, whatever it was. */
  lemma SetReplaces(b: byte, place: nat, v: bool)
    requires place < 8
    ensures Set(b, place, v) == b - Shl(Bit(b, place), place) + Shl(v, place)
  {
    hide Pow2, And, Or;
    BitBelow(place);
    AndClears(b, place, 8);
    ClearedBit(b, place);
    OrSets(b - Shl(Bit(b, place), place), place, v);
  }

  // ----- the operations with their range check -----

  function CheckedGet(b: byte, place: nat): Result<bool> {
    if place > 7 then Err else Ok(Get(b, place))
  }

  function CheckedSet(b: byte, place: nat, v: bool): Result<nat> {
    if place > 7 then Err else Ok(Set(b, place, v))
  }

  function CheckedTake(b: byte, place: nat): Result<(bool, nat)> {
    if place > 7 then Err else Ok(Take(b, place))
  }

  /** The masks and shifts of `get`, `set` and `take` on numbers, for every place. */
  lemma BitOperations(b: byte, place: nat, v: bool)
    ensures CheckedGet(b, place) == if place > 7 then Err else Ok(Bit(b, place))
    ensures CheckedSet(b, place, v)
         == if place > 7 then Err else Ok(b - Shl(Bit(b, place), place) + Shl(v, place))
    ensures CheckedTake(b, place)
         == if place > 7 then Err else Ok((Bit(b, place), b - Shl(Bit(b, place), place)))
  {
    hide Get, Set, Take, Shl, Bit;
    if place <= 7 {
      GetIsBit(b, place);
      SetReplaces(b, place, v);
      TakeIsBit(b, place);
    }
  }

  // ----- bit vectors: a sequence of bits, most significant first -----

  function B2N(v: bool): nat { if v then 1 else 0 }

  /** The number with the given bits, most significant first. */
  function BitsVal(bits: seq<bool>): nat {
    if bits == [] then 0
    else 2 * BitsVal(bits[..|bits| - 1]) + B2N(bits[|bits| - 1])
  }

  lemma BitsValSnoc(bits: seq<bool>, bit: bool)
    ensures BitsVal(bits + [bit]) == 2 * BitsVal(bits) + B2N(bit)
  {
    assert (bits + [bit])[..|bits|] == bits;
  }

  /** The number with the given bits, least significant first. */
  function LsbVal(bits: seq<bool>): nat {
    if bits == [] then 0 else B2N(bits[0]) + 2 * LsbVal(bits[1..])
  }

  /** The eight bits of a byte, most significant first. */
  function ByteBits(b: nat, k: nat): (bits: seq<bool>)
    ensures |bits| == k
  {
    if k == 0 then [] else ByteBits(b / 2, k - 1) + [b % 2 == 1]
  }

  /** `BitVec::from_bytes`. */
  function BitsOfBytes(bs: seq<byte>): (bits: seq<bool>)
    ensures |bits| == 8 * |bs|
  {
    if bs == [] then [] else BitsOfBytes(bs[..|bs| - 1]) + ByteBits(bs[|bs| - 1], 8)
  }

  lemma {:induction false} ByteBitsVal(prefix: seq<bool>, b: nat, k: nat)
    requires b < Pow2(k)
    ensures BitsVal(prefix + ByteBits(b, k)) == BitsVal(prefix) * Pow2(k) + b
  {
    if k == 0 {
      assert prefix + [] == prefix;
    } else {
      ByteBitsVal(prefix, b / 2, k - 1);
      var whole := prefix + ByteBits(b, k);
      assert whole[..|whole| - 1] == prefix + ByteBits(b / 2, k - 1);
      DoubleProduct(BitsVal(prefix), Pow2(k - 1));
    }
  }

  lemma {:induction false} BitsOfBytesVal(bs: seq<byte>)
    ensures BitsVal(BitsOfBytes(bs)) == FromBE(bs)
  {
    if bs != [] {
      var k := |bs| - 1;
      BitsOfBytesVal(bs[..k]);
      assert Pow2(8) == 256;
      ByteBitsVal(BitsOfBytes(bs[..k]), bs[k], 8);
    }
  }

  /** `to_bytes` of a bit vector whose length is a multiple of eight. */
  function PackBytes(bits: seq<bool>): (bs: seq<byte>)
    requires |bits| % 8 == 0
    decreases |bits|
  {
    if bits == [] then []
    else PackBytes(bits[..|bits| - 8]) + [Octet(bits)]
  }

  /** The last eight bits. */
  function Octet(bits: seq<bool>): byte
    requires |bits| >= 8
  {
    SplitOctet(bits);
    BitsVal(bits[|bits| - 8..])
  }

  lemma {:induction false} PackBytesVal(bits: seq<bool>)
    requires |bits| % 8 == 0
    ensures 8 * |PackBytes(bits)| == |bits|
    ensures FromBE(PackBytes(bits)) == BitsVal(bits)
    decreases |bits|
  {
    hide FromBE, BitsVal;
    if bits == [] {
      FromBENothing();
      NoBits();
    } else {
      var k := |bits| - 8;
      PackBytesVal(bits[..k]);
      SplitOctet(bits);
      SnocByte(PackBytes(bits[..k]), Octet(bits));
    }
  }

  lemma SnocByte(bs: seq<byte>, b: byte)
    ensures FromBE(bs + [b]) == FromBE(bs) * 256 + b
  {
    assert (bs + [b])[..|bs|] == bs;
  }

  lemma SplitOctet(bits: seq<bool>)
    requires |bits| >= 8
    ensures BitsVal(bits[|bits| - 8..]) < 256
    ensures BitsVal(bits) == BitsVal(bits[..|bits| - 8]) * 256 + BitsVal(bits[|bits| - 8..])
  {
    var k := |bits| - 8;
    SplitVal(bits[..k], bits[k..]);
    assert bits[..k] + bits[k..] == bits;
    assert Pow2(8) == 256;
  }

  lemma {:induction false} SplitVal(hi: seq<bool>, lo: seq<bool>)
    ensures BitsVal(hi + lo) == BitsVal(hi) * Pow2(|lo|) + BitsVal(lo)
    ensures BitsVal(lo) < Pow2(|lo|)
    decreases |lo|
  {
    hide BitsVal, Pow2;
    if lo == [] {
      assert hi + lo == hi;
      NoBits();
      TimesOne(BitsVal(hi));
    } else {
      var k := |lo| - 1;
      SplitVal(hi, lo[..k]);
      assert hi + lo == (hi + lo[..k]) + [lo[k]] && lo == lo[..k] + [lo[k]];
      BitsValSnoc(hi + lo[..k], lo[k]);
      BitsValSnoc(lo[..k], lo[k]);
      Pow2Succ(k);
      DoubleProduct(BitsVal(hi), Pow2(k));
    }
  }

  lemma TimesOne(x: nat)
    ensures Pow2(0) == 1 && x * Pow2(0) == x
  {
  }

  /** `trim_left`: the bits from the first set one on. */
  method TrimLeft(bits: seq<bool>) returns (trimmed: seq<bool>)
    ensures BitsVal(trimmed) == BitsVal(bits)
    ensures trimmed != [] ==> trimmed[0]
    ensures |trimmed| <= |bits| && trimmed == bits[|bits| - |trimmed|..]
    ensures forall i :: 0 <= i < |bits| - |trimmed| ==> !bits[i]
  {
    hide BitsVal;
    trimmed := [];
    var notrim := false;
    assert bits[..0] == [];
    for i := 0 to |bits|
      invariant BitsVal(trimmed) == BitsVal(bits[..i])
      invariant trimmed != [] ==> trimmed[0]
      invariant notrim <==> trimmed != []
      invariant |trimmed| <= i && trimmed == bits[i - |trimmed|..i]
      invariant forall j :: 0 <= j < i - |trimmed| ==> !bits[j]
    {
      assert bits[..i + 1] == bits[..i] + [bits[i]];
      BitsValSnoc(bits[..i], bits[i]);
      BitsValSnoc(trimmed, bits[i]);
      NoBits();
      if bits[i] {
        trimmed := trimmed + [bits[i]];
        notrim := true;
      } else if notrim {
        trimmed := trimmed + [bits[i]];
      }
    }
    assert bits[..|bits|] == bits;
  }

  lemma NoBits()
    ensures BitsVal([]) == 0
  {
  }

  /** `reverse`: least significant first becomes most significant first. */
  method Reverse(bits: seq<bool>) returns (reversed: seq<bool>)
    ensures |reversed| == |bits|
    ensures forall k :: 0 <= k < |bits| ==> reversed[k] == bits[|bits| - 1 - k]
    ensures BitsVal(reversed) == LsbVal(bits)
  {
    reversed := [];
    var i := |bits|;
    while i > 0
      invariant 0 <= i <= |bits| && |reversed| == |bits| - i
      invariant BitsVal(reversed) == LsbVal(bits[i..])
      invariant forall k :: 0 <= k < |reversed| ==> reversed[k] == bits[|bits| - 1 - k]
    {
      i := i - 1;
      assert bits[i..][1..] == bits[i + 1..];
      assert (reversed + [bits[i]])[..|reversed|] == reversed;
      reversed := reversed + [bits[i]];
    }
    assert bits[0..] == bits;
  }

  /** `n` significant bits stand for a number of that bit length. */
  lemma {:induction false} TrimmedRange(bits: seq<bool>)
    requires bits != [] && bits[0]
    ensures Pow2(|bits| - 1) <= BitsVal(bits) < Pow2(|bits|)
    decreases |bits|
  {
    if |bits| > 1 {
      TrimmedRange(bits[..|bits| - 1]);
    } else {
      assert bits[..0] == [];
    }
  }
}
