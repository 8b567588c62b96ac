/** Big-endian numbers in byte sequences. */
module Bytes {
  import opened Basics

  function Pow256(k: nat): (r: nat)
    ensures r >= 1
  {
    if k == 0 then 1 else 256 * Pow256(k - 1)
  }

  /** The `k` low bytes of `x`, most significant first; negative numbers in two's complement. */
  function ToBE(k: nat, x: int): (bs: seq<byte>)
    ensures |bs| == k
  {
    if k == 0 then [] else ToBE(k - 1, x / 256) + [x % 256]
  }

  function FromBE(bs: seq<byte>): (x: nat)
    ensures x < Pow256(|bs|)
  {
    if bs == [] then 0
    else
      var k := |bs| - 1;
      FromBE(bs[..k]) * 256 + bs[k]
  }

  /** Reads an unsigned `k`-byte number as a signed one. */
  function Signed(k: nat, u: nat): int
    requires k > 0
  {
    if 2 * u >= Pow256(k) then u - Pow256(k) else u
  }

  /** The bytes of text in ASCII. */
  function Ascii(s: string): (bs: seq<byte>)
    requires forall i :: 0 <= i < |s| ==> s[i] as int < 128
    ensures |bs| == |s| && forall i :: 0 <= i < |s| ==> bs[i] == s[i] as int
  {
    seq(|s|, i requires 0 <= i < |s| => s[i] as int)
  }

  lemma {:induction false} FromToBE(k: nat, x: nat)
    requires x < Pow256(k)
    ensures FromBE(ToBE(k, x)) == x
  {
    if k > 0 {
      FromToBE(k - 1, x / 256);
      assert ToBE(k, x)[..k - 1] == ToBE(k - 1, x / 256);
    }
  }

  lemma {:induction false} ToBEShift(k: nat, x: int)
    ensures ToBE(k, x + Pow256(k)) == ToBE(k, x)
  {
    if k > 0 {
      ToBEShift(k - 1, x / 256);
      assert (x + 256 * Pow256(k - 1)) / 256 == x / 256 + Pow256(k - 1);
      assert (x + 256 * Pow256(k - 1)) % 256 == x % 256;
    }
  }

  /** A signed number in range survives the trip. */
  lemma SignedRoundTrip(k: nat, x: int)
    requires k > 0 && 0 <= 2 * x + Pow256(k) < 2 * Pow256(k)
    ensures Signed(k, FromBE(ToBE(k, x))) == x
  {
    hide FromBE, ToBE, Pow256;
    if x >= 0 {
      FromToBE(k, x);
    } else {
      ToBEShift(k, x);
      FromToBE(k, x + Pow256(k));
    }
  }

  lemma {:induction false} ToFromBE(bs: seq<byte>)
    ensures ToBE(|bs|, FromBE(bs)) == bs
  {
    hide FromBE;
    if bs != [] {
      var k := |bs| - 1;
      ToFromBE(bs[..k]);
      FromBESnoc(bs);
      assert bs == bs[..k] + [bs[k]];
    }
  }

  /** Bytes read as a signed number are written back unchanged. */
  lemma SignedBack(bs: seq<byte>)
    requires bs != []
    ensures ToBE(|bs|, Signed(|bs|, FromBE(bs))) == bs
  {
    hide FromBE, ToBE, Pow256;
    var k, u := |bs|, FromBE(bs);
    ToFromBE(bs);
    if 2 * u >= Pow256(k) {
      ToBEShift(k, u - Pow256(k));
    }
  }

  lemma FromBENothing()
    ensures FromBE([]) == 0
  {
  }

  lemma FromBESnoc(bs: seq<byte>)
    requires bs != []
    ensures FromBE(bs) == FromBE(bs[..|bs| - 1]) * 256 + bs[|bs| - 1]
  {
  }

  lemma AppendAssoc(a: seq<byte>, b: seq<byte>, c: seq<byte>)
    ensures (a + b) + c == a + (b + c)
  {
  }

  lemma SmallPowers()
    ensures Pow256(1) == 0x100 && Pow256(2) == 0x1_0000 && Pow256(4) == 0x1_0000_0000
    ensures Pow256(8) == 0x1_0000_0000_0000_0000
  {
    assert Pow256(5) == 256 * Pow256(4);
    assert Pow256(6) == 256 * Pow256(5);
    assert Pow256(7) == 256 * Pow256(6);
  }
}
