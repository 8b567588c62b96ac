/** The search for a proof-of-work nonce (crypto/src/proof_of_work.rs), at integral targets. */
module ProofOfWork {
  import opened Basics
  import opened Words
  import opened Bytes

  const CRYPTO_KEY_SIZE: nat := 32
  const POW_SIZE: nat := 24
  const DATA_SIZE: nat := CRYPTO_KEY_SIZE + POW_SIZE

  /** One more than the largest limb. */
  const LIMB: nat := 0x1_0000_0000_0000_0000
  /** The number of nonces, 2^192. */
  const NONCES: nat := LIMB * LIMB * LIMB

  /** `BigUint::from_bytes_le`. */
  function FromLE(bs: seq<byte>): nat {
    if bs == [] then 0 else bs[0] + 256 * FromLE(bs[1..])
  }

  // ----- the bound -----

  /** The 54 bits that an integral target starts from. */
  const MANTISSA: nat := 0x3F_FFFF_FFFF_FFFF

  function ShiftLeft(x: nat, k: nat): nat { x * Pow2(k) }

  function ShiftRight(x: nat, k: nat): nat {
    DivModSplit(x, Pow2(k));
    x / Pow2(k)
  }

  function MakeTarget(target: nat): nat
    requires target < 256
  {
    if target < 202 then Or(ShiftLeft(MANTISSA, 202 - target), ShiftLeft(1, 202 - target) - 1)
    else ShiftRight(MANTISSA, target - 202)
  }

  lemma MantissaBits()
    ensures MANTISSA == Pow2(54) - 1
  {
    hide Pow2;
    assert Pow2(6) == 64 by { SixBits(); }
    Pow2Square(6, 64);
    Pow2Square(12, 4096);
    Pow2Square(24, 0x100_0000);
    Pow2Add(48, 6);
  }

  lemma SixBits()
    ensures Pow2(6) == 64
  {
  }

  lemma TargetProduct(s: nat)
    ensures MANTISSA * Pow2(s) + (Pow2(s) - 1) == Pow2(54 + s) - 1
  {
    hide Pow2;
    MantissaBits();
    Pow2Add(54, s);
    Expand(Pow2(54), Pow2(s));
  }

  lemma Expand(a: nat, b: nat)
    requires a >= 1
    ensures (a - 1) * b == a * b - b
  {
  }

  /** At an integral target the bound has exactly the low `256 - target` bits set. */
  lemma MakeTargetIsPower(target: nat)
    requires target < 256
    ensures MakeTarget(target) == Pow2(256 - target) - 1
  {
    hide Pow2, Or;
    MantissaBits();
    if target < 202 {
      var s := 202 - target;
      OrDisjoint(MANTISSA, Pow2(s) - 1, s);
      TargetProduct(s);
    } else {
      var k := target - 202;
      Pow2Add(54 - k, k);
      Expand(Pow2(54 - k), Pow2(k));
      DivModUnique(Pow2(54) - 1, Pow2(k), Pow2(54 - k) - 1, Pow2(k) - 1);
    }
  }

  /** `check_proof_of_work_inner`; `hash` stands for the 256-bit digest. */
  predicate Passes(hash: seq<byte> -> seq<byte>, data: seq<byte>, bound: nat) {
    FromLE(hash(data)) <= bound
  }

  /** `check`. */
  predicate Check(hash: seq<byte> -> seq<byte>, key: seq<byte>, nonce: seq<byte>, target: nat)
    requires target < 256
  {
    Passes(hash, key + nonce, MakeTarget(target))
  }

  /** The check asks for a digest whose top bits, as many as the target, are clear. */
  lemma CheckMeansLeadingZeros(hash: seq<byte> -> seq<byte>, key: seq<byte>, nonce: seq<byte>, target: nat)
    requires target < 256
    ensures Check(hash, key, nonce, target) <==> FromLE(hash(key + nonce)) < Pow2(256 - target)
  {
    hide MakeTarget, Pow2;
    MakeTargetIsPower(target);
  }

  /** On the bytes of the digest, of which the last is the most significant: as many bits from its
      end as the target says are zero. */
  lemma CheckOnBytes(hash: seq<byte> -> seq<byte>, key: seq<byte>, nonce: seq<byte>, target: nat)
    requires target < 256 && |hash(key + nonce)| == 32
    ensures var digest, whole := hash(key + nonce), target / 8;
            Check(hash, key, nonce, target) <==>
            && (forall i :: 32 - whole <= i < 32 ==> digest[i] == 0)
            && digest[31 - whole] < Pow2(8 - target % 8)
  {
    hide Pow2, FromLE;
    CheckMeansLeadingZeros(hash, key, nonce, target);
    var k, w := 31 - target / 8, 8 - target % 8;
    assert 256 - target == 8 * k + w;
    BelowPower(hash(key + nonce), k, w);
  }

  lemma {:induction false} BelowPower(bs: seq<byte>, k: nat, w: nat)
    requires k < |bs| && w <= 8
    ensures FromLE(bs) < Pow2(8 * k + w) <==> bs[k] < Pow2(w) && forall i :: k < i < |bs| ==> bs[i] == 0
    decreases k
  {
    hide Pow2;
    var tail := bs[1..];
    EightBits();
    if k == 0 {
      Pow2Monotone(w, 8);
      AllZero(tail);
      assert forall i :: 1 <= i < |bs| ==> bs[i] == tail[i - 1];
    } else {
      BelowPower(tail, k - 1, w);
      Pow2Add(8, 8 * (k - 1) + w);
      assert 8 + (8 * (k - 1) + w) == 8 * k + w;
      assert forall i :: k < i < |bs| ==> bs[i] == tail[i - 1];
      assert forall i :: k - 1 < i < |tail| ==> tail[i] == bs[i + 1];
    }
  }

  lemma EightBits()
    ensures Pow2(8) == 256
  {
  }

  lemma {:induction false} AllZero(bs: seq<byte>)
    ensures FromLE(bs) == 0 <==> forall i :: 0 <= i < |bs| ==> bs[i] == 0
  {
    if bs != [] {
      AllZero(bs[1..]);
      assert forall i :: 1 <= i < |bs| ==> bs[i] == bs[1..][i - 1];
    }
  }

  // ----- limbs -----

  lemma {:induction false} FromBEAppend(a: seq<byte>, b: seq<byte>)
    ensures FromBE(a + b) == FromBE(a) * Pow256(|b|) + FromBE(b)
    decreases |b|
  {
    hide FromBE;
    if b == [] {
      assert a + b == a;
      assert FromBE(b) == 0 by { FromBENothing(); }
    } else {
      var k := |b| - 1;
      var all := a + b;
      assert all[..|all| - 1] == a + b[..k];
      FromBEAppend(a, b[..k]);
      FromBESnoc(all);
      FromBESnoc(b);
      NextDigit(FromBE(a), Pow256(k), FromBE(b[..k]), b[k]);
    }
  }

  lemma NextDigit(x: nat, p: nat, y: nat, d: nat)
    ensures (x * p + y) * 256 + d == x * (256 * p) + (y * 256 + d)
  {
    Shift(x, p);
  }

  lemma Shift(x: nat, p: nat)
    ensures x * p * 256 == x * (256 * p)
  {
  }

  lemma LimbSize()
    ensures Pow256(8) == LIMB && Pow256(24) == NONCES
  {
    SmallPowers();
    assert Pow256(24) == Pow256(8) * Pow256(8) * Pow256(8) by {
      PowAdd(8, 8);
      PowAdd(16, 8);
    }
  }

  lemma {:induction false} PowAdd(a: nat, b: nat)
    ensures Pow256(a + b) == Pow256(a) * Pow256(b)
    decreases b
  {
    if b > 0 {
      PowAdd(a, b - 1);
      Shift(Pow256(a), Pow256(b - 1));
    }
  }

  /** A nonce is a number in three limbs. */
  lemma ThreeLimbs(nonce: seq<byte>)
    requires |nonce| == POW_SIZE
    ensures var a, b, c := FromBE(nonce[..8]), FromBE(nonce[8..16]), FromBE(nonce[16..]);
            a < LIMB && b < LIMB && c < LIMB && FromBE(nonce) == (a * LIMB + b) * LIMB + c && FromBE(nonce) < NONCES
  {
    hide FromBE, Pow256;
    LimbSize();
    var (x, y, z) := (nonce[..8], nonce[8..16], nonce[16..]);
    assert nonce == (x + y) + z;
    FromBEAppend(x + y, z);
    FromBEAppend(x, y);
  }

  ghost function NonceOf(data: array<byte>): (n: nat)
    requires data.Length == DATA_SIZE
    reads data
  {
    FromBE(data[CRYPTO_KEY_SIZE..])
  }

  /** Limb `i` of the nonce part. */
  function LimbAt(data: array<byte>, i: nat): nat
    requires data.Length == DATA_SIZE && i < 3
    reads data
  {
    FromBE(data[0x20 + 8 * i..0x28 + 8 * i])
  }

  lemma NonceInLimbs(data: array<byte>)
    requires data.Length == DATA_SIZE
    ensures LimbAt(data, 0) < LIMB && LimbAt(data, 1) < LIMB && LimbAt(data, 2) < LIMB
    ensures NonceOf(data) == (LimbAt(data, 0) * LIMB + LimbAt(data, 1)) * LIMB + LimbAt(data, 2)
  {
    hide FromBE;
    var nonce := data[0x20..];
    ThreeLimbs(nonce);
    assert nonce[..8] == data[0x20..0x28] && nonce[8..16] == data[0x28..0x30] && nonce[16..] == data[0x30..0x38];
  }

  /** `clone_from_slice` of the big-endian bytes of a limb. */
  method WriteLimb(data: array<byte>, i: nat, limb: nat)
    requires data.Length == DATA_SIZE && i < 3 && limb < LIMB
    modifies data
    ensures data[..CRYPTO_KEY_SIZE] == old(data[..CRYPTO_KEY_SIZE])
    ensures LimbAt(data, i) == limb
    ensures forall j :: 0 <= j < 3 && j != i ==> LimbAt(data, j) == old(LimbAt(data, j))
  {
    hide FromBE, ToBE;
    var at := 0x20 + 8 * i;
    var bytes := ToBE(8, limb);
    ghost var before := data[..];
    for k := 0 to 8
      invariant data[..at] == before[..at] && data[at + 8..] == before[at + 8..]
      invariant data[at..at + k] == bytes[..k]
    {
      data[at + k] := bytes[k];
    }
    assert data[at..at + 8] == bytes;
    SmallPowers();
    FromToBE(8, limb);
    OthersKept(data[..], before, at);
    forall j | 0 <= j < 3 && j != i
      ensures data[0x20 + 8 * j..0x28 + 8 * j] == before[0x20 + 8 * j..0x28 + 8 * j]
    {
      assert data[..][0x20 + 8 * j..0x28 + 8 * j] == data[0x20 + 8 * j..0x28 + 8 * j];
    }
  }

  /** Windows that do not meet the eight bytes at `at`. */
  lemma OthersKept(now: seq<byte>, before: seq<byte>, at: nat)
    requires |now| == |before| && at + 8 <= |now| && now[..at] == before[..at] && now[at + 8..] == before[at + 8..]
    ensures forall x, y :: 0 <= x <= y <= |now| && (y <= at || at + 8 <= x) ==> now[x..y] == before[x..y]
    ensures forall x :: 0 <= x <= at ==> now[..x] == before[..x]
  {
    forall k | 0 <= k < at || at + 8 <= k < |now|
      ensures now[k] == before[k]
    {
      assert k < at ==> now[k] == now[..at][k];
      assert k >= at + 8 ==> now[k] == now[at + 8..][k - at - 8];
    }
  }

  /** The carry over three limbs adds one modulo 2^192 and leaves the key alone. */
  method Increment(data: array<byte>)
    requires data.Length == DATA_SIZE
    modifies data
    ensures data[..CRYPTO_KEY_SIZE] == old(data[..CRYPTO_KEY_SIZE])
    ensures NonceOf(data) == if old(NonceOf(data)) + 1 == NONCES then 0 else old(NonceOf(data)) + 1
  {
    hide NonceOf, LimbAt;
    NonceInLimbs(data);
    var c := LimbAt(data, 2);
    CarryIsSuccessor(LimbAt(data, 0), LimbAt(data, 1), c);
    if c == LIMB - 1 {
      c := 0;
      var b := LimbAt(data, 1);
      if b == LIMB - 1 {
        b := 0;
        var a := LimbAt(data, 0);
        a := if a == LIMB - 1 then 0 else a + 1;
        WriteLimb(data, 0, a);
      } else {
        b := b + 1;
      }
      WriteLimb(data, 1, b);
    } else {
      c := c + 1;
    }
    WriteLimb(data, 2, c);
    NonceInLimbs(data);
  }

  lemma CarryIsSuccessor(a: nat, b: nat, c: nat)
    requires a < LIMB && b < LIMB && c < LIMB
    ensures var n := (a * LIMB + b) * LIMB + c;
            (if n + 1 == NONCES then 0 else n + 1) ==
            if c < LIMB - 1 then (a * LIMB + b) * LIMB + (c + 1)
            else if b < LIMB - 1 then (a * LIMB + (b + 1)) * LIMB
            else if a < LIMB - 1 then (a + 1) * LIMB * LIMB
            else 0
  {
  }

  // ----- the search -----

  /** The nonce that is `k` increments after `start`. */
  function Later(start: nat, k: nat): nat
    requires start < NONCES && k < NONCES
  {
    if start + k < NONCES then start + k else start + k - NONCES
  }

  lemma LaterStep(start: nat, k: nat)
    requires start < NONCES && k + 1 < NONCES
    ensures Later(start, k + 1) == if Later(start, k) + 1 == NONCES then 0 else Later(start, k) + 1
  {
  }

  /** The bytes that are hashed for a nonce. */
  function Candidate(key: seq<byte>, n: nat): seq<byte> {
    key + ToBE(POW_SIZE, n)
  }

  /** Whenever some nonce qualifies the search ends, with the first qualifying nonce counted from the
      random start; `distance` is how far ahead some qualifying nonce is. */
  method Generate(hash: seq<byte> -> seq<byte>, key: seq<byte>, start: seq<byte>, target: nat, ghost distance: nat)
    returns (nonce: seq<byte>, ghost k: nat)
    requires |key| == CRYPTO_KEY_SIZE && |start| == POW_SIZE && target < 256
    requires distance < NONCES && FromBE(start) < NONCES
    requires Passes(hash, Candidate(key, Later(FromBE(start), distance)), MakeTarget(target))
    ensures |nonce| == POW_SIZE && Check(hash, key, nonce, target)
    ensures k <= distance && FromBE(nonce) == Later(FromBE(start), k)
    ensures forall j :: 0 <= j < k ==> !Passes(hash, Candidate(key, Later(FromBE(start), j)), MakeTarget(target))
  {
    hide FromBE, ToBE, MakeTarget, Passes, Later, Candidate, NonceOf;
    var data := new byte[DATA_SIZE](i requires 0 <= i < DATA_SIZE =>
      if i < CRYPTO_KEY_SIZE then key[i] else start[i - CRYPTO_KEY_SIZE]);
    assert data[..CRYPTO_KEY_SIZE] == key && data[CRYPTO_KEY_SIZE..] == start;
    NonceIs(data, start);
    LaterNothing(FromBE(start));
    var bound := MakeTarget(target);
    k := 0;
    while !Passes(hash, data[..], bound)
      invariant data.Length == DATA_SIZE && fresh(data)
      invariant data[..CRYPTO_KEY_SIZE] == key && k <= distance && NonceOf(data) == Later(FromBE(start), k)
      invariant forall j :: 0 <= j < k ==> !Passes(hash, Candidate(key, Later(FromBE(start), j)), bound)
      decreases distance - k
    {
      DataIsCandidate(data, key);
      assert k < distance;
      LaterStep(FromBE(start), k);
      Increment(data);
      k := k + 1;
    }
    assert data[..] == data[..CRYPTO_KEY_SIZE] + data[CRYPTO_KEY_SIZE..];
    nonce := data[CRYPTO_KEY_SIZE..];
    NonceIs(data, nonce);
  }

  lemma NonceIs(data: array<byte>, nonce: seq<byte>)
    requires data.Length == DATA_SIZE && data[CRYPTO_KEY_SIZE..] == nonce
    ensures NonceOf(data) == FromBE(nonce)
  {
  }

  lemma LaterNothing(start: nat)
    requires start < NONCES
    ensures Later(start, 0) == start
  {
  }

  lemma DataIsCandidate(data: array<byte>, key: seq<byte>)
    requires data.Length == DATA_SIZE && data[..CRYPTO_KEY_SIZE] == key
    ensures data[..] == Candidate(key, NonceOf(data))
  {
    ToFromBE(data[CRYPTO_KEY_SIZE..]);
    assert data[..] == data[..CRYPTO_KEY_SIZE] + data[CRYPTO_KEY_SIZE..];
  }
}
