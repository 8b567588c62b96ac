/** The step generator of the block locator (crypto/src/seeded_step.rs). */
module SeededStep {
  import opened Basics
  import opened Words
  import opened Bytes

  const I32_LIMIT: int := 0x8000_0000

  ghost predicate Fits32(x: int) {
    -I32_LIMIT <= x < I32_LIMIT
  }

  /** Rust's remainder, with the sign of the dividend. */
  function Rem(a: int, n: int): int
    requires n > 0
  {
    if a >= 0 then a % n else -((-a) % n)
  }

  /** Digests are 32 bytes long. */
  ghost predicate Digest(hash: seq<byte> -> seq<byte>) {
    forall s: seq<byte> :: |hash(s)| == 32
  }

  /** The random gap taken from a seed. */
  function Gap(seed: seq<byte>, step: int): int
    requires |seed| >= 4 && step >= 1
  {
    if step <= 1 then 0 else Rem(Bytes.Signed(4, FromBE(seed[..4])), step / 2 + 1)
  }

  /** The seed before call `k`: it is hashed once for every call after the first ten. */
  ghost function SeedAt(hash: seq<byte> -> seq<byte>, seed: seq<byte>, k: nat): seq<byte> {
    if k <= 10 then seed else hash(SeedAt(hash, seed, k - 1))
  }

  ghost function StepAt(k: nat): nat { Pow2(k / 10) }

  /** The result of call `k`. */
  ghost function ResultAt(hash: seq<byte> -> seq<byte>, seed: seq<byte>, k: nat): int
    requires |SeedAt(hash, seed, k)| >= 4
  {
    StepAt(k) - Gap(SeedAt(hash, seed, k), StepAt(k))
  }

  lemma GapBound(seed: seq<byte>, step: int)
    requires |seed| >= 4 && step >= 1
    ensures -(step / 2) <= Gap(seed, step) <= step / 2
  {
    hide FromBE, Bytes.Signed;
    if step > 1 { RemBound(Bytes.Signed(4, FromBE(seed[..4])), step / 2 + 1); }
  }

  lemma RemBound(a: int, n: int)
    requires n > 0
    ensures -n < Rem(a, n) < n
  {
  }

  /** The first four bytes of a seed as a signed big-endian number. */
  function SeedNumber(seed: seq<byte>): int
    requires |seed| >= 4
  {
    var a: int, b: int, c: int, d: int := seed[0], seed[1], seed[2], seed[3];
    var u := 0x100_0000 * a + 0x1_0000 * b + 0x100 * c + d;
    if seed[0] < 0x80 then u else u - 0x1_0000_0000
  }

  function Times(q: int, n: int): int { q * n }

  ghost predicate Congruent(a: int, b: int, n: int) {
    exists q: int :: a - b == Times(q, n)
  }

  /** What makes a number the gap for a step: congruent to the seed's number modulo half the step
      plus one, smaller than that, and on the same side of zero. */
  ghost predicate IsGap(gap: int, number: int, step: int)
    requires step >= 1
  {
    && Congruent(gap, number, step / 2 + 1)
    && -(step / 2) <= gap <= step / 2
    && (gap > 0 ==> number > 0) && (gap < 0 ==> number < 0)
  }

  lemma SeedNumberIsSigned(seed: seq<byte>)
    requires |seed| >= 4
    ensures Bytes.Signed(4, FromBE(seed[..4])) == SeedNumber(seed)
  {
    hide FromBE;
    SmallPowers();
    var b := seed[..4];
    FromBESnoc(b);
    FromBESnoc(b[..3]);
    FromBESnoc(b[..3][..2]);
    FromBESnoc(b[..3][..2][..1]);
    assert b[..3][..2][..1][..0] == [];
    FromBENothing();
  }

  lemma RemIsCongruent(a: int, n: int)
    requires n > 0
    ensures Congruent(Rem(a, n), a, n)
    ensures (Rem(a, n) > 0 ==> a > 0) && (Rem(a, n) < 0 ==> a < 0)
  {
    var b := if a >= 0 then a else -a;
    DivModSplit(b, n);
    var q := b / n;
    var m := if a >= 0 then -q else q;
    assert Times(-q, n) == -(q * n);
    assert Rem(a, n) - a == Times(m, n);
  }

  /** The gap is the only number that is one. */
  lemma GapMeaning(seed: seq<byte>, step: int, gap: int)
    requires |seed| >= 4 && step >= 2
    ensures gap == Gap(seed, step) <==> IsGap(gap, SeedNumber(seed), step)
  {
    hide FromBE, Bytes.Signed, Rem, SeedNumber;
    SeedNumberIsSigned(seed);
    GapBound(seed, step);
    var x, n := SeedNumber(seed), step / 2 + 1;
    RemIsCongruent(x, n);
    if IsGap(gap, x, step) { OneGap(gap, Gap(seed, step), x, step); }
  }

  lemma OneGap(g: int, h: int, x: int, step: int)
    requires step >= 2 && IsGap(g, x, step) && IsGap(h, x, step)
    ensures g == h
  {
    hide Times;
    var n := step / 2 + 1;
    var p: int :| g - x == Times(p, n);
    var q: int :| h - x == Times(q, n);
    SmallMultiple(p, q, n);
  }

  lemma SmallMultiple(p: int, q: int, n: int)
    requires n > 0 && -n < Times(p, n) - Times(q, n) < n
    ensures p == q
  {
    hide Times;
    if p > q {
      FurtherApart(p, q, n);
    } else if q > p {
      FurtherApart(q, p, n);
    }
  }

  lemma FurtherApart(p: int, q: int, n: int)
    requires n > 0 && p > q
    ensures Times(p, n) >= Times(q, n) + n
  {
    var d := p - q - 1;
    assert Times(p, n) == Times(q, n) + n + d * n by { assert p == q + 1 + d; }
  }

  lemma {:induction false} SeedLength(hash: seq<byte> -> seq<byte>, seed: seq<byte>, k: nat)
    requires Digest(hash) && |seed| == 32
    ensures |SeedAt(hash, seed, k)| == 32
  {
  }

  lemma StepDoubles(k: nat)
    ensures (k + 1) / 10 == if k % 10 == 9 then k / 10 + 1 else k / 10
    ensures StepAt(k + 1) == if k % 10 == 9 then 2 * StepAt(k) else StepAt(k)
    ensures StepAt(k) <= 1 <==> k < 10
  {
    if k >= 10 { Pow2Monotone(1, k / 10); }
  }

  class Step {
    const hash: seq<byte> -> seq<byte>
    var step: int
    var counter: int
    var seed: seq<byte>
    /** The first seed and the number of calls so far. */
    ghost const origin: seq<byte>
    ghost var calls: nat

    ghost predicate Valid()
      reads this
    {
      && Digest(hash) && |origin| == 32 && calls < 310
      && step == StepAt(calls) && counter == 9 - calls % 10
      && seed == SeedAt(hash, origin, calls)
    }

    /** `init`: the first seed is the digest of the two identities and the block hash. */
    constructor (hash: seq<byte> -> seq<byte>, sender: seq<byte>, receiver: seq<byte>, block: seq<byte>)
      requires Digest(hash)
      ensures Valid() && this.hash == hash && origin == hash(sender + receiver + block) && calls == 0
    {
      this.hash := hash;
      var material := sender;
      material := material + receiver;
      material := material + block;
      step, counter, seed, origin, calls := 1, 9, hash(material), hash(material), 0;
    }

    /** Call `k` of `next` gives a positive number within half a step of `2^(k/10)`. The three
        hundred and tenth call doubles the step beyond 32 bits, which is reported as `None`. */
    method Next() returns (r: Option<int>)
      requires Valid()
      modifies this
      ensures r.None? <==> old(calls) == 309
      ensures r.Some? ==> Valid() && calls == old(calls) + 1
      ensures |SeedAt(hash, origin, old(calls))| >= 4
      ensures r.Some? ==> r.value == ResultAt(hash, origin, old(calls))
      ensures r.Some? ==> seed == if old(calls) < 10 then old(seed) else hash(old(seed))
      ensures r.Some? && old(calls) < 10 ==> r.value == 1
      ensures r.Some? && old(calls) >= 10 ==>
                var k := old(calls);
                IsGap(Pow2(k / 10) - r.value, SeedNumber(SeedAt(hash, origin, k)), Pow2(k / 10))
    {
      hide FromBE, Bytes.Signed, Pow2, Rem, IsGap, SeedNumber;
      SeedLength(hash, origin, calls);
      StepDoubles(calls);
      LastStep(calls);
      GapBound(seed, step);
      var gap := Gap(seed, step);
      if step >= 2 { GapMeaning(seed, step, gap); }
      assert Fits32(step - gap);
      if step > 1 {
        seed := hash(seed);
      }
      var before := step;
      if counter == 0 {
        counter := 9;
        if 2 * step >= I32_LIMIT {
          return None;
        }
        step := 2 * step;
      } else {
        counter := counter - 1;
      }
      calls := calls + 1;
      r := Some(before - gap);
    }
  }

  /** Steps stay in range up to the last group of ten calls, whose end would leave it. */
  lemma LastStep(k: nat)
    requires k < 310
    ensures 2 * StepAt(k) + 2 * (StepAt(k) / 2) <= 3 * 0x4000_0000 && StepAt(k) <= 0x4000_0000
    ensures 2 * StepAt(k) >= I32_LIMIT <==> k >= 300
  {
    hide Pow2;
    Pow2Monotone(k / 10, 30);
    Thirty();
    if k >= 300 {
      assert k / 10 == 30;
    } else {
      Pow2Monotone(k / 10, 29);
      Pow2Succ(29);
    }
  }

  lemma Thirty()
    ensures Pow2(30) == 0x4000_0000
  {
    assert Pow2(10) == 1024;
    Pow2Add(10, 10);
    Pow2Add(20, 10);
  }

  /** Every result is positive, within half a step of the step, and a 32-bit number. */
  lemma ResultBounds(hash: seq<byte> -> seq<byte>, seed: seq<byte>, k: nat)
    requires Digest(hash) && |seed| == 32 && k < 310
    ensures |SeedAt(hash, seed, k)| >= 4
    ensures var r := ResultAt(hash, seed, k);
            0 < r && Fits32(r) && StepAt(k) - StepAt(k) / 2 <= r <= StepAt(k) + StepAt(k) / 2
  {
    hide Gap;
    SeedLength(hash, seed, k);
    GapBound(SeedAt(hash, seed, k), StepAt(k));
    LastStep(k);
  }

  // ----- growth -----

  /** The sum of the first `n` results. */
  ghost function Total(hash: seq<byte> -> seq<byte>, seed: seq<byte>, n: nat): int
    requires Digest(hash) && |seed| == 32
  {
    if n == 0 then 0
    else
      SeedLength(hash, seed, n - 1);
      Total(hash, seed, n - 1) + ResultAt(hash, seed, n - 1)
  }

  /** Ten calls with the same step. */
  lemma {:induction false} GroupSum(hash: seq<byte> -> seq<byte>, seed: seq<byte>, j: nat, i: nat)
    requires Digest(hash) && |seed| == 32 && j < 31 && i <= 10
    ensures Total(hash, seed, 10 * j + i) >= Total(hash, seed, 10 * j) + i * (Pow2(j) - Pow2(j) / 2)
    decreases i
  {
    hide ResultAt, Pow2;
    if i > 0 {
      GroupSum(hash, seed, j, i - 1);
      var k := 10 * j + i - 1;
      ResultBounds(hash, seed, k);
      assert k / 10 == j && k + 1 == 10 * j + i;
      var d := Pow2(j) - Pow2(j) / 2;
      OneMore(i, d);
    }
  }

  lemma OneMore(i: nat, d: int)
    ensures i * d == (i - 1) * d + d
  {
  }

  /** The first `10 * j` results add up to at least `10 * 2^(j-1)`. */
  lemma {:induction false} LocatorGrowth(hash: seq<byte> -> seq<byte>, seed: seq<byte>, j: nat)
    requires Digest(hash) && |seed| == 32 && 1 <= j <= 31
    ensures Total(hash, seed, 10 * j) >= 10 * Pow2(j - 1)
  {
    hide Total;
    if j == 1 {
      GroupSum(hash, seed, 0, 10);
      EmptyTotal(hash, seed);
    } else {
      LocatorGrowth(hash, seed, j - 1);
      GroupSum(hash, seed, j - 1, 10);
      Pow2Succ(j - 2);
      assert 10 * (j - 1) + 10 == 10 * j;
    }
  }

  lemma EmptyTotal(hash: seq<byte> -> seq<byte>, seed: seq<byte>)
    requires Digest(hash) && |seed| == 32
    ensures Total(hash, seed, 0) == 0
  {
  }
}
