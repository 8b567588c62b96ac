/** The loops of `encode_z`, `zarith` and `mutez`, proved against the arithmetic of `Zarith`,
    and the hexadecimal text that carries big numbers. */
module ZarithLoops {
  import opened Basics
  import opened Words
  import opened Bytes
  import opened BitUtils
  import opened Nom
  import opened Zarith

  // ----- bits of a number, without division -----

  /** `x` modulo `2^k`. */
  function Low(x: nat, k: nat): nat {
    if k == 0 then 0 else x % 2 + 2 * Low(x / 2, k - 1)
  }

  /** `x` times `2^k`. */
  function Lift(x: nat, k: nat): nat {
    if k == 0 then x else 2 * Lift(x, k - 1)
  }

  lemma {:induction false} LowSnoc(x: nat, k: nat)
    ensures Low(x, k + 1) == Low(x, k) + Shl(Bit(x, k), k)
    ensures Shr(x, k + 1) == Shr(x, k) / 2
    ensures Low(x, k) < Pow2(k)
  {
    if k > 0 {
      LowSnoc(x / 2, k - 1);
    }
  }

  lemma {:induction false} ShrOfSum(c: nat, k: nat, low: nat, j: nat)
    requires j <= k && low < Pow2(j)
    ensures Shr(Lift(c, k) + low, j) == Lift(c, k - j)
    decreases j
  {
    if j > 0 {
      ShrOfSum(c, k - 1, low / 2, j - 1);
      assert (Lift(c, k) + low) / 2 == Lift(c, k - 1) + low / 2;
    }
  }

  lemma {:induction false} ShiftsAreDivisions(x: nat, k: nat)
    ensures Low(x, k) == x % Pow2(k) && Shr(x, k) == x / Pow2(k) && Lift(x, k) == x * Pow2(k)
    decreases k
  {
    if k == 0 {
    } else {
      ShiftsAreDivisions(x / 2, k - 1);
      LiftIsProduct(x, k);
      HalveDivMod(x, k);
    }
  }

  lemma {:induction false} LiftIsProduct(x: nat, k: nat)
    ensures Lift(x, k) == x * Pow2(k)
  {
    if k > 0 {
      LiftIsProduct(x, k - 1);
      DoubleProduct(x, Pow2(k - 1));
    }
  }

  lemma Powers()
    ensures Pow2(5) == 32 && Pow2(6) == 64 && Pow2(7) == 128
  {
  }

  lemma Low6And7(x: nat)
    ensures Low(x, 6) == x % 64 && Shr(x, 6) == x / 64
    ensures Low(x, 7) == x % 128 && Shr(x, 7) == x / 128
    ensures Lift(x, 6) == 64 * x && Lift(x, 7) == 128 * x
  {
    hide Low, Shr, Lift, Pow2;
    Powers();
    ShiftsAreDivisions(x, 6);
    ShiftsAreDivisions(x, 7);
  }

  lemma NoShift(x: nat)
    ensures Low(x, 0) == 0 && Shr(x, 0) == x
  {
  }

  lemma LiftEven(c: nat, k: nat)
    requires k > 0
    ensures Lift(c, k) % 2 == 0
  {
  }

  /** Pops `count` bits off a vector into the low end of a byte whose low bits are clear. */
  method PopBits(bits: seq<bool>, c: nat, count: nat) returns (n: nat, rest: seq<bool>)
    requires count <= 7 && count <= |bits| && Lift(c, count) < 256 && c < 256
    requires Lift(c, count) + Pow2(count) <= 256
    ensures n == Lift(c, count) + Low(BitsVal(bits), count)
    ensures rest == bits[..|bits| - count] && BitsVal(rest) == Shr(BitsVal(bits), count)
  {
    hide Low, Shr, Lift, Pow2, Set;
    ghost var x := BitsVal(bits);
    n, rest := Lift(c, count), bits;
    NoShift(x);
    for i := 0 to count
      invariant n == Lift(c, count) + Low(x, i)
      invariant rest == bits[..|bits| - i] && BitsVal(rest) == Shr(x, i)
    {
      LowSnoc(x, i);
      Pow2Monotone(i, count);
      ShrOfSum(c, count, Low(x, i), i);
      LiftEven(c, count - i);
      var last := |rest| - 1;
      assert bits[..|bits| - i][..last] == bits[..last];
      SetAdds(n, i, rest[last]);
      n := Set(n, i, rest[last]);
      rest := rest[..last];
    }
  }

  /** The seven-bit groups of a nonempty vector that starts with a set bit. */
  method PackChunks(input: seq<bool>) returns (out: seq<byte>)
    requires input != [] && input[0]
    ensures out == Chunks(BitsVal(input))
  {
    hide Low, Shr, Lift, Pow2, Bit, Set, Chunks, BitsVal;
    var bits := input;
    out := [];
    var lastChunk := (|bits| - 1) / 7;
    for chunk := 0 to lastChunk + 1
      invariant |bits| == if chunk <= lastChunk then |input| - 7 * chunk else 0
      invariant bits != [] ==> bits[0]
      invariant Chunks(BitsVal(input)) == if bits == [] then out else out + Chunks(BitsVal(bits))
    {
      ghost var x := BitsVal(bits);
      var rest, n;
      if chunk != lastChunk {
        n, rest := PopGroup(bits);
        assert Chunks(x) == [n] + Chunks(BitsVal(rest));
      } else {
        n, rest := PopLast(bits);
        assert Chunks(x) == [n];
      }
      out := out + [n];
      bits := rest;
    }
  }

  /** A full group that more groups follow: seven bits and the continuation bit. */
  method PopGroup(bits: seq<bool>) returns (n: byte, rest: seq<bool>)
    requires |bits| > 7 && bits[0]
    ensures rest == bits[..|bits| - 7]
    ensures Chunks(BitsVal(bits)) == [n] + Chunks(BitsVal(rest))
  {
    hide Low, Shr, Lift, Pow2, Bit, Set;
    ghost var x := BitsVal(bits);
    Powers();
    TrimmedRange(bits);
    Pow2Monotone(7, |bits| - 1);
    Low6And7(0);
    var m: nat;
    m, rest := PopBits(bits, 0, 7);
    Low6And7(x);
    BitOf7(m);
    SetAdds(m, 7, true);
    n := Set(m, 7, true);
  }

  /** The last group: the one to seven bits that are left. */
  method PopLast(bits: seq<bool>) returns (n: byte, rest: seq<bool>)
    requires 0 < |bits| <= 7 && bits[0]
    ensures rest == []
    ensures Chunks(BitsVal(bits)) == [n]
  {
    hide Low, Shr, Lift, Pow2, Bit, Set;
    ghost var x := BitsVal(bits);
    Powers();
    TrimmedRange(bits);
    Pow2Monotone(|bits|, 7);
    LiftZero(|bits|);
    var m: nat;
    m, rest := PopBits(bits, 0, |bits|);
    LowAll(x, |bits|);
    n := m;
  }

  lemma {:induction false} LiftZero(k: nat)
    ensures Lift(0, k) == 0
  {
    if k > 0 { LiftZero(k - 1); }
  }

  lemma {:induction false} LowAll(x: nat, k: nat)
    requires x < Pow2(k)
    ensures Low(x, k) == x
  {
    if k > 0 { LowAll(x / 2, k - 1); }
  }

  /** The bit-level part of `encode_z`. A missing bit is an error; six popped bits that empty the
      vector make the source subtract one from zero instead, and `underflows` says so. */
  method PackZ(negative: bool, bytes: seq<byte>) returns (r: Result<seq<byte>>, underflows: bool)
    ensures r == if FromBE(bytes) < 64 then Err else Ok(ZBytes(negative, FromBE(bytes)))
    ensures underflows <==> 32 <= FromBE(bytes) < 64
  {
    hide Low, Shr, Lift, Pow2, BitsVal, FromBE, Chunks;
    var bits := TrimLeft(BitsOfBytes(bytes));
    BitsOfBytesVal(bytes);
    NoBits();
    ghost var x := FromBE(bytes);
    if bits != [] {
      TrimmedRange(bits);
      if |bits| >= 7 {
        Pow2Monotone(6, |bits| - 1);
      } else if |bits| < 6 {
        Pow2Monotone(|bits|, 5);
      }
    }
    Powers();
    if |bits| < 6 {
      return Err, false;
    } else if |bits| == 6 {
      return Err, true;
    }
    Low6And7(3);
    Low6And7(2);
    Low6And7(x);
    var n, rest := PopBits(bits, if negative then 3 else 2, 6);
    var chunks := PackChunks(rest);
    r, underflows := Ok([n] + chunks), false;
  }

  // ----- hexadecimal text -----

  function HexDigit(b: byte): Option<nat> {
    if 0x30 <= b <= 0x39 then Some(b - 0x30)
    else if 0x61 <= b <= 0x66 then Some(b - 0x61 + 10)
    else if 0x41 <= b <= 0x46 then Some(b - 0x41 + 10)
    else None
  }

  predicate IsAlphanumeric(b: byte) {
    0x30 <= b <= 0x39 || 0x41 <= b <= 0x5A || 0x61 <= b <= 0x7A
  }

  /** `hex::decode` of text of even length. */
  function HexDecode(s: seq<byte>): (r: Result<seq<byte>>)
    requires |s| % 2 == 0
    ensures r.Ok? ==> 2 * |r.value| == |s| && FromBE(r.value) == HexNum(s)
    ensures r.Ok? <==> AllHex(s)
    decreases |s|
  {
    if s == [] then Ok([])
    else
      var k := |s| - 2;
      var hi, lo := HexDigit(s[k]), HexDigit(s[k + 1]);
      AllHexSplit(s, k);
      match HexDecode(s[..k])
      case Ok(bs) =>
        if hi.Some? && lo.Some? then
          HexNumPair(s);
          var out := bs + [16 * hi.value + lo.value];
          assert out[..|out| - 1] == bs;
          Ok(out)
        else Err
      case Err => Err
  }

  ghost predicate AllHex(s: seq<byte>) {
    forall i :: 0 <= i < |s| ==> HexDigit(s[i]).Some?
  }

  lemma AllHexSplit(s: seq<byte>, k: nat)
    requires k + 2 == |s|
    ensures AllHex(s) <==> AllHex(s[..k]) && HexDigit(s[k]).Some? && HexDigit(s[k + 1]).Some?
  {
    if AllHex(s[..k]) && HexDigit(s[k]).Some? && HexDigit(s[k + 1]).Some? {
      forall i | 0 <= i < |s|
        ensures HexDigit(s[i]).Some?
      {
        if i < k { assert s[..k][i] == s[i]; }
      }
    }
    if AllHex(s) {
      assert forall i :: 0 <= i < k ==> s[..k][i] == s[i];
    }
  }

  /** The number that hexadecimal digits stand for. */
  function HexNum(s: seq<byte>): nat {
    if s == [] then 0
    else
      var d := HexDigit(s[|s| - 1]);
      16 * HexNum(s[..|s| - 1]) + (if d.Some? then d.value else 0)
  }

  lemma HexNumPair(s: seq<byte>)
    requires |s| >= 2 && HexDigit(s[|s| - 2]).Some? && HexDigit(s[|s| - 1]).Some?
    ensures HexNum(s)
         == 256 * HexNum(s[..|s| - 2]) + 16 * HexDigit(s[|s| - 2]).value + HexDigit(s[|s| - 1]).value
  {
    var t := s[..|s| - 1];
    assert t[..|t| - 1] == s[..|s| - 2];
  }

  function HexChar(d: nat): byte
    requires d < 16
  {
    if d < 10 then 0x30 + d else 0x61 + d - 10
  }

  /** `to_str_radix(16)` of a number that is not negative. */
  function Digits(m: nat): (s: seq<byte>)
    ensures s != [] && AllHex(s)
  {
    if m < 16 then [HexChar(m)]
    else
      var s := Digits(m / 16) + [HexChar(m % 16)];
      assert forall i :: 0 <= i < |s| ==> s[i] == if i < |s| - 1 then Digits(m / 16)[i] else HexChar(m % 16);
      s
  }

  /** The text of a big number (tezos/encoding/src/ser.rs, `Serialize for BigInt`). */
  function HexOf(v: int): seq<byte> {
    (if v < 0 then [0x2D] else []) + Digits(Abs(v))
  }

  /** Sign and magnitude bytes that `encode_z` takes from its text. A first byte outside ASCII is
      either no hexadecimal digit or splits a character, so it never succeeds. */
  function ParseZ(s: seq<byte>): Result<(bool, seq<byte>)> {
    if s == [] || s[0] >= 128 then Err
    else
      var digits := if IsAlphanumeric(s[0]) then s else s[1..];
      var even := if |digits| % 2 == 1 then [0x30] + digits else digits;
      match HexDecode(even)
      case Ok(bs) => Ok((s[0] == 0x2D, bs))
      case Err => Err
  }

  /** The digits by their characters, in both cases. */
  lemma HexDigitTable(b: byte, d: nat)
    requires d < 16
    ensures HexDigit(b) == Some(d)
       <==> b == Ascii("0123456789abcdef")[d] || b == Ascii("0123456789ABCDEF")[d]
  {
  }

  /** The text of a number: a minus for negative ones, and the lower-case digits of its magnitude without
      leading zeros. */
  lemma HexOfMeaning(v: int) returns (digits: seq<byte>)
    ensures HexOf(v) == (if v < 0 then Ascii("-") else []) + digits
    ensures digits != [] && HexNum(digits) == Abs(v)
    ensures forall i :: 0 <= i < |digits| ==> digits[i] in Ascii("0123456789abcdef")
    ensures |digits| > 1 ==> digits[0] != Ascii("0")[0]
  {
    hide Digits, HexNum;
    digits := Digits(Abs(v));
    DigitsNum(Abs(v));
    DigitsShape(Abs(v));
    assert Ascii("-") == [0x2D];
  }

  lemma {:induction false} DigitsShape(m: nat)
    ensures forall i :: 0 <= i < |Digits(m)| ==> Digits(m)[i] in Ascii("0123456789abcdef")
    ensures m > 0 ==> Digits(m)[0] != Ascii("0")[0]
    ensures |Digits(m)| > 1 ==> m > 0
  {
    hide HexChar;
    LowerCase(m % 16);
    if m >= 16 {
      DigitsShape(m / 16);
      var s := Digits(m);
      assert forall i :: 0 <= i < |s| ==> s[i] == if i < |s| - 1 then Digits(m / 16)[i] else HexChar(m % 16);
    }
  }

  lemma LowerCase(d: nat)
    requires d < 16
    ensures HexChar(d) == Ascii("0123456789abcdef")[d]
    ensures d > 0 ==> HexChar(d) != Ascii("0")[0]
  {
  }

  /** Which texts are accepted, and as what number: hexadecimal digits, behind at most one ASCII
      character that is neither letter nor digit; the number is negative exactly behind a minus. */
  lemma ParseZMeaning(s: seq<byte>)
    ensures ParseZ(s).Ok? <==> s != [] && (AllHex(s) || (s[0] < 128 && !IsAlphanumeric(s[0]) && AllHex(s[1..])))
    ensures ParseZ(s).Ok? ==>
              var (negative, bytes) := ParseZ(s).value;
              var digits := if AllHex(s) then s else s[1..];
              && (negative <==> s[0] == Ascii("-")[0])
              && FromBE(bytes) == HexNum(digits) && |bytes| == (|digits| + 1) / 2
  {
    hide HexNum, FromBE, HexDecode;
    if s != [] && s[0] < 128 {
      var digits := if IsAlphanumeric(s[0]) then s else s[1..];
      if AllHex(s) {
        assert HexDigit(s[0]).Some?;
      } else if IsAlphanumeric(s[0]) {
        if |s| % 2 == 1 { Padded(s); }
      }
      LeadingZero(digits);
      Padded(digits);
    }
    if s != [] && AllHex(s) { assert HexDigit(s[0]).Some?; }
  }

  lemma Padded(d: seq<byte>)
    ensures AllHex([0x30] + d) <==> AllHex(d)
  {
    if AllHex([0x30] + d) {
      assert forall i :: 0 <= i < |d| ==> d[i] == ([0x30] + d)[i + 1];
    }
  }

  /** `encode_z` as a function of its text. */
  function EncodeZText(s: seq<byte>): (r: Result<seq<byte>>)
    ensures r.Ok? ==>
              ParseZ(s).Ok? && r.value == ZBytes(ParseZ(s).value.0, FromBE(ParseZ(s).value.1))
  {
    match ParseZ(s)
    case Err => Err
    case Ok((negative, bytes)) =>
      if |bytes| == 1 && bytes[0] <= 0x3F then
        assert bytes[..0] == [];
        Ok([bytes[0] + SignBit(negative)])
      else if FromBE(bytes) < 64 then Err
      else Ok(ZBytes(negative, FromBE(bytes)))
  }

  /** The number that an accepted text stands for. */
  function IntOfText(s: seq<byte>): int
    requires ParseZ(s).Ok?
  {
    WithSign(ParseZ(s).value.0, FromBE(ParseZ(s).value.1))
  }

  method EncodeZ(value: seq<byte>) returns (r: Result<seq<byte>>, underflows: bool)
    ensures r == EncodeZText(value)
    ensures underflows <==>
              ParseZ(value).Ok? && |ParseZ(value).value.1| != 1 && 32 <= FromBE(ParseZ(value).value.1) < 64
  {
    underflows := false;
    var parsed := ParseZ(value);
    if parsed.Err? {
      return Err, false;
    }
    var (negative, bytes) := parsed.value;
    if |bytes| == 1 && bytes[0] <= 0x3F {
      var b: nat := bytes[0];
      if negative {
        OrDisjoint(1, b, 6);
        OrSwap(b);
        b := Or(b, 0x40);
      }
      r := Ok([b]);
    } else {
      r, underflows := PackZ(negative, bytes);
      if |bytes| == 1 { assert bytes[..0] == []; }
    }
  }

  lemma OrSwap(b: nat)
    requires b < 64
    ensures Or(b, 0x40) == b + 64
  {
    assert Pow2(6) == 64;
    ShrSmall(b, 6);
    OrSets(b, 6, true);
  }

  lemma {:induction false} ShrSmall(b: nat, k: nat)
    requires b < Pow2(k)
    ensures Shr(b, k) == 0
  {
    if k > 0 { ShrSmall(b / 2, k - 1); }
  }

  lemma {:induction false} DigitsNum(m: nat)
    ensures HexNum(Digits(m)) == m
    ensures |Digits(m)| <= 2 <==> m < 256
    ensures |Digits(m)| == 1 <==> m < 16
  {
    var s := Digits(m);
    if m < 16 {
      assert s[..0] == [];
    } else {
      DigitsNum(m / 16);
      assert s[..|s| - 1] == Digits(m / 16);
    }
  }

  lemma {:induction false} LeadingZero(s: seq<byte>)
    ensures HexNum([0x30] + s) == HexNum(s)
  {
    var t := [0x30] + s;
    if s == [] {
      assert t[..0] == [];
    } else {
      LeadingZero(s[..|s| - 1]);
      assert t[..|t| - 1] == [0x30] + s[..|s| - 1];
    }
  }

  lemma {:induction false} DigitsStart(m: nat)
    ensures IsAlphanumeric(Digits(m)[0])
  {
    if m >= 16 { DigitsStart(m / 16); }
  }

  lemma HexTextParses(v: int)
    ensures var p := ParseZ(HexOf(v));
            p.Ok? && p.value.0 == (v < 0) && FromBE(p.value.1) == Abs(v)
            && (Abs(v) < 256 ==> |p.value.1| == 1)
  {
    hide Digits, HexNum, FromBE, HexDecode, AllHex;
    var d := Digits(Abs(v));
    DigitsNum(Abs(v));
    DigitsStart(Abs(v));
    var s := HexOf(v);
    assert (if IsAlphanumeric(s[0]) then s else s[1..]) == d;
    LeadingZero(d);
    ZeroDigit(d);
  }

  lemma ZeroDigit(d: seq<byte>)
    requires AllHex(d)
    ensures AllHex([0x30] + d)
  {
  }

  lemma OneByte(bytes: seq<byte>)
    requires |bytes| == 1
    ensures FromBE(bytes) == bytes[0]
  {
    assert bytes[..0] == [];
  }

  /** For every integer, writing its text and reading it back with `zarith` gives the integer and
      leaves the suffix alone; the size is one byte exactly below 64. */
  lemma BigNumberRoundTrip(v: int, suffix: seq<byte>)
    ensures EncodeZText(HexOf(v)) == Ok(ZBytes(v < 0, Abs(v)))
    ensures ReadZ(EncodeZText(HexOf(v)).value + suffix) == Done(v, suffix)
    ensures |EncodeZText(HexOf(v)).value|
         == if Abs(v) < 64 then 1 else 1 + (BitLen(Abs(v)) - 6 + 6) / 7
    ensures ReadMutez(EncodeZText(HexOf(v)).value + suffix) == Done(v, suffix) <==> 0 <= v < 64
  {
    hide ReadZ, ReadMutez, ParseZ, HexOf, FromBE, BitLen, Chunks;
    HexTextParses(v);
    var bytes := ParseZ(HexOf(v)).value.1;
    if |bytes| == 1 { OneByte(bytes); }
    ZRoundTrip(v < 0, Abs(v), suffix);
    MutezOnZBytes(v < 0, Abs(v), suffix);
    ZSize(v < 0, Abs(v));
  }

  // ----- the reading loops -----

  function LowBits(b: nat, k: nat): (bits: seq<bool>)
    ensures |bits| == k
  {
    seq(k, i requires 0 <= i < k => Bit(b, i))
  }

  lemma {:induction false} LowBitsVal(b: nat, k: nat)
    ensures LsbVal(LowBits(b, k)) == Low(b, k)
  {
    if k > 0 {
      LowBitsVal(b / 2, k - 1);
      assert LowBits(b, k)[1..] == LowBits(b / 2, k - 1);
    }
  }

  method PushBits(bits: seq<bool>, b: byte, count: nat) returns (out: seq<bool>)
    requires count <= 8
    ensures out == bits + LowBits(b, count)
  {
    out := bits;
    for i := 0 to count
      invariant out == bits + LowBits(b, i)
    {
      GetIsBit(b, i);
      assert LowBits(b, i + 1) == LowBits(b, i) + [Bit(b, i)];
      out := out + [Get(b, i)];
    }
  }

  lemma {:induction false} LiftAdd(x: nat, y: nat, k: nat)
    ensures Lift(x + y, k) == Lift(x, k) + Lift(y, k)
  {
    if k > 0 { LiftAdd(x, y, k - 1); }
  }

  lemma {:induction false} LiftLift(x: nat, j: nat, k: nat)
    ensures Lift(Lift(x, j), k) == Lift(x, j + k)
  {
    if k > 0 {
      LiftLift(x, j, k - 1);
    }
  }

  lemma {:induction false} LsbAppend(a: seq<bool>, b: seq<bool>)
    ensures LsbVal(a + b) == LsbVal(a) + Lift(LsbVal(b), |a|)
  {
    if a == [] {
      assert a + b == b;
    } else {
      LsbAppend(a[1..], b);
      assert (a + b)[1..] == a[1..] + b;
    }
  }

  /** What the loop over continuation bytes returns, given the bits gathered so far. */
  ghost function Gathered(bits: seq<bool>, input: seq<byte>): Read<nat> {
    match ReadChunks(input)
    case Done(x, rest) => Done(LsbVal(bits) + Lift(x, |bits|), rest)
    case _ => Error
  }

  lemma GatherStep(bits: seq<bool>, input: seq<byte>)
    requires input != []
    ensures var more := bits + LowBits(input[0], 7);
            Gathered(bits, input)
            == if input[0] < 128 then Done(LsbVal(more), input[1..]) else Gathered(more, input[1..])
  {
    hide Low, Lift, LowBits, LsbVal;
    var b := input[0];
    LowBitsVal(b, 7);
    Low6And7(b);
    LsbAppend(bits, LowBits(b, 7));
    if b >= 128 {
      match ReadChunks(input[1..])
      case Done(x, rest) =>
        Low6And7(x);
        LiftAdd(b % 128, 128 * x, |bits|);
        LiftLift(x, 7, |bits|);
      case _ =>
    }
  }

  /** The loop shared by `zarith` and `mutez`, with padding, reversal and packing into bytes. */
  method Gather(first: seq<bool>, input: seq<byte>) returns (r: Read<nat>)
    ensures r == Gathered(first, input)
  {
    var bits, rest := first, input;
    var hasNext := true;
    while hasNext
      invariant Gathered(first, input)
             == if hasNext then Gathered(bits, rest) else Done(LsbVal(bits), rest)
      decreases |rest|, hasNext
    {
      if rest == [] {
        return Error;
      }
      GatherStep(bits, rest);
      var b := rest[0];
      bits := PushBits(bits, b, 7);
      GetIsBit(b, 7);
      Low6And7(b);
      hasNext := Get(b, 7);
      rest := rest[1..];
    }
    ghost var unpadded := bits;
    var pad := |bits| % 8;
    if pad != 0 {
      bits := bits + seq(8 - pad, _ => false);
      ZeroPad(8 - pad);
      LsbAppend(unpadded, seq(8 - pad, _ => false));
      LiftZero(|unpadded|);
    }
    var reversed := Reverse(bits);
    PackBytesVal(reversed);
    r := Done(FromBE(PackBytes(reversed)), rest);
  }

  lemma {:induction false} ZeroPad(k: nat)
    ensures LsbVal(seq(k, _ => false)) == 0
  {
    if k > 0 {
      ZeroPad(k - 1);
      assert seq(k, _ => false)[1..] == seq(k - 1, _ => false);
    }
  }

  method ZarithReader(input: seq<byte>) returns (r: Read<int>)
    ensures r == ReadZ(input)
  {
    hide Low, Shr, Lift, LowBits, LsbVal, ReadChunks, Take, Bit, Pow2;
    if input == [] {
      return Error;
    }
    var b := input[0];
    TakeIsBit(b, 7);
    BitOf7(b);
    var (hasNext, b1) := Take(b, 7);
    TakeIsBit(b1, 6);
    BitOf6(b1);
    var (negative, first) := Take(b1, 6);
    if !hasNext {
      r := Done(WithSign(negative, first), input[1..]);
    } else {
      var bits := PushBits([], first, 6);
      LowBitsVal(first, 6);
      Low6And7(first);
      var g := Gather(bits, input[1..]);
      match g
      case Done(v, rest) =>
        Low6And7(ReadChunks(input[1..]).value);
        assert bits == LowBits(first, 6);
        r := Done(WithSign(negative, v), rest);
      case _ =>
        r := Error;
    }
  }

  lemma BitOf7(b: byte)
    ensures Bit(b, 7) <==> b >= 128
    ensures Shl(true, 7) == 128
  {
    hide Shr, Pow2, Low, Lift;
    Low6And7(b);
    Powers();
  }

  lemma BitOf6(b: byte)
    requires b < 128
    ensures Bit(b, 6) <==> b >= 64
    ensures Shl(true, 6) == 64
  {
    hide Shr, Pow2, Low, Lift;
    Low6And7(b);
    Powers();
  }

  method MutezReader(input: seq<byte>) returns (r: Read<int>)
    ensures r == ReadMutez(input)
  {
    var g := Gather([], input);
    match g
    case Done(v, rest) => r := Done(v, rest);
    case _ => r := Error;
  }
}
