/** Machine words as natural numbers: powers of two and the bitwise operators
    that the ring buffer and the proof-of-work target use on them. */
module Words {

  function Pow2(k: nat): (r: nat)
    ensures r >= 1
  {
    if k == 0 then 1 else 2 * Pow2(k - 1)
  }

  /** Bitwise "and", bit by bit from the least significant one. */
  function And(x: nat, y: nat): nat
    decreases x
  {
    if x == 0 || y == 0 then 0 else (if x % 2 == 1 && y % 2 == 1 then 1 else 0) + 2 * And(x / 2, y / 2)
  }

  /** Bitwise "or", bit by bit from the least significant one. */
  function Or(x: nat, y: nat): nat
    decreases x + y
  {
    if x == 0 then y else if y == 0 then x
    else (if x % 2 == 1 || y % 2 == 1 then 1 else 0) + 2 * Or(x / 2, y / 2)
  }

  /** Complement of a `k`-bit word. */
  function Not(k: nat, x: nat): (r: nat)
    requires x < Pow2(k)
    ensures r < Pow2(k)
  {
    Pow2(k) - 1 - x
  }

  lemma {:induction false} Pow2Add(a: nat, b: nat)
    ensures Pow2(a + b) == Pow2(a) * Pow2(b)
  {
    if a == 0 {
    } else {
      Pow2Add(a - 1, b);
      DoubleProduct(Pow2(b), Pow2(a - 1));
    }
  }

  lemma Pow2Succ(k: nat)
    ensures Pow2(k + 1) == 2 * Pow2(k)
  {
  }

  lemma Pow2Square(k: nat, v: nat)
    requires Pow2(k) == v
    ensures Pow2(2 * k) == v * v
  {
    Pow2Add(k, k);
  }

  lemma {:induction false} Pow2Monotone(a: nat, b: nat)
    requires a <= b
    ensures Pow2(a) <= Pow2(b)
  {
    if a < b {
      Pow2Monotone(a, b - 1);
    }
  }

  /** `x / 2^k` and `x % 2^k` one bit at a time. */
  lemma HalveDivMod(x: nat, k: nat)
    requires k > 0
    ensures x % Pow2(k) == x % 2 + 2 * ((x / 2) % Pow2(k - 1))
    ensures x / Pow2(k) == (x / 2) / Pow2(k - 1)
  {
    var p := Pow2(k - 1);
    var y := x / 2;
    var q, r := y / p, y % p;
    assert x == 2 * (q * p + r) + x % 2;
    assert 2 * (q * p + r) == q * (2 * p) + 2 * r;
    var rr := 2 * r + x % 2;
    assert x == q * (2 * p) + rr && 0 <= rr < 2 * p;
    DivModUnique(x, 2 * p, q, rr);
  }

  lemma MulMonotone(a: nat, b: nat, d: nat)
    requires a <= b
    ensures a * d <= b * d
  {
  }

  lemma MulStrict(a: nat, b: nat, d: nat)
    requires a < b
    ensures a * d + d <= b * d
  {
    MulMonotone(a + 1, b, d);
    assert (a + 1) * d == a * d + d;
  }

  lemma DivModUnique(x: nat, d: nat, q: nat, r: nat)
    requires d > 0 && r < d && x == q * d + r
    ensures x / d == q && x % d == r
  {
    var q', r' := x / d, x % d;
    DivModSplit(x, d);
    if q' < q {
      MulStrict(q', q, d);
    } else if q < q' {
      MulStrict(q, q', d);
    }
  }

  lemma DivModSplit(x: nat, d: nat)
    requires d > 0
    ensures x == (x / d) * d + x % d && 0 <= x % d < d && x / d >= 0
  {
  }

  lemma AndStep(x: nat, y: nat)
    ensures And(x, y) == (if x % 2 == 1 && y % 2 == 1 then 1 else 0) + 2 * And(x / 2, y / 2)
  {
  }

  /** Masking with `2^k - 1` keeps the low `k` bits. */
  lemma {:induction false} AndLowMask(x: nat, k: nat)
    ensures And(x, Pow2(k) - 1) == x % Pow2(k)
    decreases k
  {
    if x == 0 {
      DivModUnique(0, Pow2(k), 0, 0);
    } else if k == 0 {
      assert x % 1 == 0;
    } else {
      hide And, Pow2;
      HalveDivMod(x, k);
      AndLowMask(x / 2, k - 1);
      Pow2Succ(k - 1);
      AndStep(x, Pow2(k) - 1);
    }
  }

  lemma NotMaskHalves(k: nat, w: nat)
    requires 0 < k <= w && Pow2(k) - 1 < Pow2(w) && Pow2(k - 1) - 1 < Pow2(w - 1)
    ensures Not(w, Pow2(k) - 1) % 2 == 0
    ensures Not(w, Pow2(k) - 1) / 2 == Not(w - 1, Pow2(k - 1) - 1)
  {
    hide Pow2;
    Pow2Succ(k - 1);
    Pow2Succ(w - 1);
    assert Not(w, Pow2(k) - 1) == 2 * (Pow2(w - 1) - Pow2(k - 1));
  }

  /** Masking a `w`-bit word with the complement of `2^k - 1` clears the low `k` bits. */
  lemma {:induction false} AndHighMask(x: nat, k: nat, w: nat)
    requires k <= w && x < Pow2(w)
    ensures Pow2(k) - 1 < Pow2(w)
    ensures And(x, Not(w, Pow2(k) - 1)) == x - x % Pow2(k)
    decreases w
  {
    hide And, Pow2, Not;
    Pow2Monotone(k, w);
    if x == 0 {
      AndZero(Not(w, Pow2(k) - 1));
      DivModUnique(0, Pow2(k), 0, 0);
    } else if k == 0 {
      AndAll(x, w);
    } else {
      Pow2Succ(w - 1);
      Pow2Monotone(k - 1, w - 1);
      AndHighMask(x / 2, k - 1, w - 1);
      HighMaskStep(x, k, w);
    }
  }

  lemma AndZero(y: nat)
    ensures And(0, y) == 0
  {
  }

  lemma HighMaskStep(x: nat, k: nat, w: nat)
    requires 0 < k <= w && Pow2(k) - 1 < Pow2(w) && Pow2(k - 1) - 1 < Pow2(w - 1)
    requires And(x / 2, Not(w - 1, Pow2(k - 1) - 1)) == x / 2 - (x / 2) % Pow2(k - 1)
    ensures And(x, Not(w, Pow2(k) - 1)) == x - x % Pow2(k)
  {
    hide And, Pow2, Not;
    HalveDivMod(x, k);
    NotMaskHalves(k, w);
    AndStep(x, Not(w, Pow2(k) - 1));
  }

  lemma AndAll(x: nat, w: nat)
    requires x < Pow2(w)
    ensures And(x, Not(w, Pow2(0) - 1)) == x - x % Pow2(0)
  {
    hide And;
    AndLowMask(x, w);
    DivModUnique(x, Pow2(w), 0, x);
  }

  /** Or-ing a number above bit `k` with one below bit `k` adds them. */
  lemma {:induction false} OrDisjoint(hi: nat, lo: nat, k: nat)
    requires lo < Pow2(k)
    ensures Or(hi * Pow2(k), lo) == hi * Pow2(k) + lo
    decreases k
  {
    if k == 0 || lo == 0 || hi == 0 {
    } else {
      var p := Pow2(k - 1);
      OrDisjoint(hi, lo / 2, k - 1);
      DoubleProduct(hi, p);
      var x := hi * Pow2(k);
      assert x == 2 * (hi * p);
      assert x / 2 == hi * p && x % 2 == 0;
      MulMonotone(1, hi, p);
    }
  }

  lemma DoubleProduct(a: nat, p: nat)
    ensures a * (2 * p) == 2 * (a * p)
  {
  }

  lemma {:induction false} OrSameBit(x: nat, k: nat)
    requires Pow2(k) <= x < 2 * Pow2(k)
    ensures Or(x, Pow2(k)) == x
    decreases k
  {
    if k > 0 {
      OrSameBit(x / 2, k - 1);
    } else {
      assert x == 1;
      assert Or(1, 1) == 1 + 2 * Or(0, 0);
    }
  }

  /** The single-bit mask `2^k` tests bit `k` of a `k + 1`-bit word. */
  lemma {:induction false} AndTopBit(x: nat, k: nat)
    requires x < 2 * Pow2(k)
    ensures And(x, Pow2(k)) == if x >= Pow2(k) then Pow2(k) else 0
    decreases k
  {
    if k > 0 && x > 0 {
      AndTopBit(x / 2, k - 1);
      assert Pow2(k) / 2 == Pow2(k - 1) && Pow2(k) % 2 == 0;
    } else if x > 0 {
      assert x == 1;
      assert And(1, 1) == 1 + 2 * And(0, 0);
    }
  }

  /** Rust's `next_power_of_two`: the exponent of the least power of two at or above `x`. */
  function CeilLog2(x: nat): (k: nat)
    requires x >= 1
    ensures x <= Pow2(k) && (k == 0 || Pow2(k - 1) < x)
    decreases x
  {
    if x == 1 then 0 else 1 + CeilLog2((x + 1) / 2)
  }

  function NextPowerOfTwo(x: nat): (r: nat)
    requires x >= 1
    ensures x <= r < 2 * x
  {
    Pow2(CeilLog2(x))
  }
}
