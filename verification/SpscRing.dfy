/** The "lap + index" words of the single-producer/single-consumer ring:
    the word arithmetic of `tezos/spsc/src/lib.rs` and the abstract positions behind it.

    Position `p` counts elements since the queue was created. It lives in slot `p % n` and is
    stored as the word `(p / n) * m + p % n`, where `n` is the capacity and `m` the least power
    of two above it. */
module SpscRing {
  import opened Words

  const CLOSED_BIT := 0x8000_0000_0000_0000
  const WORD := 0x1_0000_0000_0000_0000

  /** A capacity that a boxed slice can have. */
  ghost predicate Capacity(n: nat) {
    0 < n < CLOSED_BIT
  }

  lemma WordIsPow2()
    ensures Pow2(63) == CLOSED_BIT && Pow2(64) == WORD
  {
    assert Pow2(8) == 256;
    hide Pow2;
    Pow2Square(8, 256);
    Pow2Square(16, 0x1_0000);
    Pow2Square(32, 0x1_0000_0000);
    Pow2Succ(63);
  }

  // ----- the operations on words, as written in the source -----

  function MaskBit(n: nat): nat { NextPowerOfTwo(n + 1) }

  function Complement(w: nat): nat
    requires w < WORD
  {
    WORD - 1 - w
  }

  function Index(n: nat, w: nat): nat { And(w, MaskBit(n) - 1) }

  function LapBase(n: nat, w: nat): nat
    requires Capacity(n)
  {
    MaskFits(n);
    And(w, Complement(MaskBit(n) - 1))
  }

  predicate IsClosed(w: nat) { And(w, CLOSED_BIT) != 0 }

  function WithoutClosed(w: nat): nat { And(w, Complement(CLOSED_BIT)) }

  function SetClosed(w: nat): nat { Or(w, CLOSED_BIT) }

  function WrappingAdd(x: nat, y: nat): nat { (x + y) % WORD }

  function WrappingSub(x: nat, y: nat): nat
    requires y <= WORD
  {
    (x + WORD - y) % WORD
  }

  /** The word after one element. */
  function NextWord(n: nat, w: nat): nat
    requires Capacity(n)
  {
    if Index(n, w) + 1 < n then w + 1 else WrappingAdd(LapBase(n, w), MaskBit(n))
  }

  /** The word that `push_slice` computes for a slice of `len` elements. */
  function NextSliceWord(n: nat, w: nat, len: nat): nat
    requires Capacity(n)
  {
    if Index(n, w) + len < n then w + len
    else WrappingAdd(WrappingAdd(LapBase(n, w), MaskBit(n)), (Index(n, w) + len) % n)
  }

  /** What `len` returns for the two words it loads. */
  function LenWord(n: nat, tail: nat, head: nat): int
    requires Capacity(n)
  {
    MaskFits(n);
    if WrappingSub(tail, MaskBit(n)) == head then n
    else
      var t, h := Index(n, tail), Index(n, head);
      if t < h then t + n - h else t - h
  }

  // ----- positions -----

  /** The slot of position `p`. */
  function Slot(n: nat, p: nat): (i: nat)
    requires n > 0
    ensures i < n && i <= p
    decreases p
  {
    if p < n then p else Slot(n, p - n)
  }

  /** The word of position `p`. */
  function Enc(n: nat, p: nat): nat
    requires n > 0
    decreases p
  {
    if p < n then p else MaskBit(n) + Enc(n, p - n)
  }

  /** The words that stand for position `p`: without and with the closed bit. */
  ghost predicate Denotes(n: nat, w: nat, p: nat)
    requires n > 0
  {
    w == Enc(n, p) || w == Enc(n, p) + CLOSED_BIT
  }

  /** The closed form: position `lap * n + i` is slot `i` of its lap and the word `lap * m + i`. */
  lemma {:induction false} ClosedForm(n: nat, lap: nat, i: nat)
    requires i < n
    ensures Slot(n, lap * n + i) == i
    ensures Enc(n, lap * n + i) == lap * MaskBit(n) + i
    decreases lap
  {
    hide MaskBit;
    if lap > 0 {
      ClosedForm(n, lap - 1, i);
      MulSucc(lap - 1, n);
      MulSucc(lap - 1, MaskBit(n));
      assert lap * n + i - n == (lap - 1) * n + i;
    }
  }

  lemma MulSucc(a: nat, d: nat)
    ensures (a + 1) * d == a * d + d
  {
  }

  lemma StepDivMod(x: nat, d: nat)
    requires 0 < d <= x
    ensures x % d == (x - d) % d && x / d == (x - d) / d + 1
  {
    DivModSplit(x - d, d);
    var q, r := (x - d) / d, (x - d) % d;
    MulSucc(q, d);
    DivModUnique(x, d, q + 1, r);
  }

  lemma MaskFits(n: nat)
    requires Capacity(n)
    ensures n < MaskBit(n) <= CLOSED_BIT
    ensures MaskBit(n) == Pow2(CeilLog2(n + 1)) && CeilLog2(n + 1) <= 63
  {
    WordIsPow2();
    var k := CeilLog2(n + 1);
    if k > 63 {
      Pow2Monotone(63, k - 1);
    }
    Pow2Monotone(k, 63);
  }

  lemma {:induction false} EncBounds(n: nat, p: nat)
    requires n > 0
    ensures Slot(n, p) <= Enc(n, p) && p <= Enc(n, p)
    decreases p
  {
    if p >= n {
      EncBounds(n, p - n);
    }
  }

  lemma {:induction false} EncMonotone(n: nat, p: nat, q: nat)
    requires n > 0 && p < q
    ensures Enc(n, p) < Enc(n, q)
    decreases q
  {
    if n <= p {
      EncMonotone(n, p - n, q - n);
    } else if n <= q {
      EncBounds(n, q - n);
    }
  }

  lemma EncInjective(n: nat, p: nat, q: nat)
    requires n > 0 && Enc(n, p) == Enc(n, q)
    ensures p == q
  {
    if p < q { EncMonotone(n, p, q); }
    if q < p { EncMonotone(n, q, p); }
  }

  /** Adding up to one lap to a position, on slots and on words. */
  lemma {:induction false} EncAdd(n: nat, p: nat, len: nat)
    requires n > 0 && len <= n
    ensures Slot(n, p) + len < n ==> Slot(n, p + len) == Slot(n, p) + len && Enc(n, p + len) == Enc(n, p) + len
    ensures Slot(n, p) + len >= n ==>
              && Slot(n, p + len) == (if Slot(n, p) + len == 2 * n then 0 else Slot(n, p) + len - n)
              && Enc(n, p + len) == Enc(n, p) - Slot(n, p) + MaskBit(n) + Slot(n, p + len)
    decreases p
  {
    hide MaskBit;
    if p >= n {
      EncAdd(n, p - n, len);
      assert p + len - n == p - n + len;
    } else if p + len >= n {
      assert Slot(n, p + len) == Slot(n, p + len - n) == p + len - n;
    }
  }

  /** The low bits of a position's word are its slot, with or without the closed bit. */
  lemma {:induction false} EncMod(n: nat, p: nat)
    requires n > 0
    ensures Enc(n, p) % MaskBit(n) == Slot(n, p)
    decreases p
  {
    if p < n {
      DivModUnique(p, MaskBit(n), 0, p);
    } else {
      EncMod(n, p - n);
      StepDivMod(Enc(n, p), MaskBit(n));
    }
  }

  lemma {:induction false} ModAddLaps(x: nat, d: nat, laps: nat)
    requires d > 0
    ensures (x + laps * d) % d == x % d
  {
    if laps > 0 {
      ModAddLaps(x, d, laps - 1);
      assert laps * d == (laps - 1) * d + d;
      MulMonotone(0, laps - 1, d);
      StepDivMod(x + laps * d, d);
    } else {
      assert laps * d == 0;
    }
  }

  /** Every test and mask that the queue applies to a loaded word, read on positions. */
  lemma WordFacts(n: nat, w: nat, p: nat)
    requires Capacity(n) && Enc(n, p) < CLOSED_BIT && Denotes(n, w, p)
    ensures w < WORD
    ensures Index(n, w) == Slot(n, p)
    ensures WithoutClosed(w) == Enc(n, p)
    ensures IsClosed(w) <==> w >= CLOSED_BIT
    ensures IsClosed(w) <==> w != Enc(n, p)
    ensures SetClosed(w) == Enc(n, p) + CLOSED_BIT && IsClosed(SetClosed(w))
  {
    IndexFact(n, w, p);
    ClosedFacts(w, Enc(n, p));
  }

  lemma IndexFact(n: nat, w: nat, p: nat)
    requires Capacity(n) && Denotes(n, w, p)
    ensures Index(n, w) == Slot(n, p)
  {
    hide And, Pow2, Enc, Slot, CeilLog2, MaskBit;
    MaskFits(n);
    AndLowMask(w, CeilLog2(n + 1));
    EncMod(n, p);
    if w != Enc(n, p) {
      ClosedIsLaps(n);
      ModAddLaps(Enc(n, p), MaskBit(n), Pow2(63 - CeilLog2(n + 1)));
    }
  }

  /** The closed bit is a whole number of laps, so it leaves the index alone. */
  lemma ClosedIsLaps(n: nat)
    requires Capacity(n)
    ensures CeilLog2(n + 1) <= 63 && CLOSED_BIT == Pow2(63 - CeilLog2(n + 1)) * MaskBit(n)
  {
    MaskFits(n);
    WordIsPow2();
    Pow2Add(63 - CeilLog2(n + 1), CeilLog2(n + 1));
  }

  lemma ClosedFacts(w: nat, e: nat)
    requires e < CLOSED_BIT && (w == e || w == e + CLOSED_BIT)
    ensures WithoutClosed(w) == e
    ensures IsClosed(w) <==> w >= CLOSED_BIT
    ensures SetClosed(w) == e + CLOSED_BIT && IsClosed(SetClosed(w))
  {
    WordIsPow2();
    TopBitFacts(w, e, 63);
    TopBitFacts(e + CLOSED_BIT, e, 63);
  }

  lemma TopBitFacts(w: nat, e: nat, k: nat)
    requires e < Pow2(k) && (w == e || w == e + Pow2(k))
    ensures And(w, Pow2(k) - 1) == e
    ensures And(w, Pow2(k)) != 0 <==> w >= Pow2(k)
    ensures Or(w, Pow2(k)) == e + Pow2(k)
  {
    var p := Pow2(k);
    AndLowMask(w, k);
    DivModUnique(w, p, if w == e then 0 else 1, e);
    AndTopBit(w, k);
    if w == e {
      OrDisjoint(1, w, k);
      OrCommutes(w, p);
    } else {
      OrSameBit(w, k);
    }
  }

  lemma {:induction false} OrCommutes(x: nat, y: nat)
    ensures Or(x, y) == Or(y, x)
    decreases x + y
  {
    if x != 0 && y != 0 {
      OrCommutes(x / 2, y / 2);
    }
  }

  lemma LapBaseFact(n: nat, p: nat)
    requires Capacity(n) && Enc(n, p) < CLOSED_BIT
    ensures LapBase(n, Enc(n, p)) == Enc(n, p) - Slot(n, p)
    ensures WrappingAdd(LapBase(n, Enc(n, p)), MaskBit(n)) == Enc(n, p) - Slot(n, p) + MaskBit(n)
  {
    hide And, Enc, Slot;
    MaskFits(n);
    EncMod(n, p);
    EncBounds(n, p);
    ClearLow(Enc(n, p), CeilLog2(n + 1));
    NoWrap(Enc(n, p) - Slot(n, p), MaskBit(n));
  }

  lemma ClearLow(w: nat, k: nat)
    requires w < WORD && k <= 63 && Pow2(k) <= CLOSED_BIT
    ensures And(w, Complement(Pow2(k) - 1)) == w - w % Pow2(k)
  {
    WordIsPow2();
    AndHighMask(w, k, 64);
  }

  lemma NoWrap(x: nat, y: nat)
    requires x + y < WORD
    ensures WrappingAdd(x, y) == x + y
  {
  }

  /** `next` in `push` and `pop` is the word of the successor position. */
  lemma NextIsSuccessor(n: nat, p: nat)
    requires Capacity(n) && Enc(n, p) < CLOSED_BIT
    ensures NextWord(n, Enc(n, p)) == Enc(n, p + 1)
  {
    IndexFact(n, Enc(n, p), p);
    LapBaseFact(n, p);
    EncAdd(n, p, 1);
  }

  /** `head + mask_bit` is the word one whole lap ahead. */
  lemma LapAhead(n: nat, h: nat)
    requires Capacity(n) && Enc(n, h) < CLOSED_BIT
    ensures WrappingAdd(Enc(n, h), MaskBit(n)) == Enc(n, h + n)
  {
    MaskFits(n);
    NoWrap(Enc(n, h), MaskBit(n));
  }

  lemma ModOneLap(x: nat, n: nat)
    requires 0 < n <= x < 2 * n
    ensures x % n == x - n
  {
    DivModUnique(x, n, 1, x - n);
  }

  /** `next_tail` in `push_slice` advances by the slice length, up to one lap. */
  lemma NextSliceIsSum(n: nat, p: nat, len: nat)
    requires Capacity(n) && len <= n && Enc(n, p) < CLOSED_BIT
    ensures NextSliceWord(n, Enc(n, p), len) == Enc(n, p + len)
  {
    hide And, MaskBit, Enc, Slot, Index, LapBase, WrappingAdd, NextSliceWord;
    IndexFact(n, Enc(n, p), p);
    EncAdd(n, p, len);
    var i := Slot(n, p);
    if i + len >= n {
      LapBaseFact(n, p);
      MaskFits(n);
      EncBounds(n, p);
      SliceWraps(n, Enc(n, p), len, i + len - n);
      NoWrap(Enc(n, p) - i + MaskBit(n), i + len - n);
    } else {
      SliceStays(n, Enc(n, p), len);
    }
  }

  lemma SliceWraps(n: nat, w: nat, len: nat, r: nat)
    requires Capacity(n) && Index(n, w) + len == n + r && r < n
    ensures NextSliceWord(n, w, len) == WrappingAdd(WrappingAdd(LapBase(n, w), MaskBit(n)), r)
  {
    hide Index, LapBase, WrappingAdd, MaskBit;
    ModOneLap(Index(n, w) + len, n);
  }

  lemma SliceStays(n: nat, w: nat, len: nat)
    requires Capacity(n) && Index(n, w) + len < n
    ensures NextSliceWord(n, w, len) == w + len
  {
  }

  /** Positions less than one lap apart use different slots. */
  lemma {:induction false} SlotsDiffer(n: nat, p: nat, q: nat)
    requires n > 0 && p < q < p + n
    ensures Slot(n, p) != Slot(n, q)
  {
    EncAdd(n, p, q - p);
  }

  lemma {:induction false} SlotAddLap(n: nat, p: nat)
    requires n > 0
    ensures Slot(n, p + n) == Slot(n, p)
  {
    assert p + n - n == p;
  }

  /** What `len` makes of a length once the closed bit is set: a full queue reads as empty; where the
      mask is the closed bit itself, which leaves room for one lap only, an empty one reads as full. */
  function ClosedLen(n: nat, len: int): int {
    if MaskBit(n) == CLOSED_BIT then (if len == 0 then n else len) else if len == n then 0 else len
  }

  /** `len` on the words of two positions at most one lap apart: exact while the closed
      bit is clear; once it is set, only the two extremes can be wrong. */
  lemma LenIsDistance(n: nat, w: nat, t: nat, h: nat)
    requires Capacity(n) && h <= t <= h + n && Enc(n, t) < CLOSED_BIT && Denotes(n, w, t)
    ensures !IsClosed(w) ==> LenWord(n, w, Enc(n, h)) == t - h
    ensures IsClosed(w) ==> LenWord(n, w, Enc(n, h)) == ClosedLen(n, t - h)
  {
    hide And, Or, MaskBit, Enc, Slot, Index, WrappingSub, WithoutClosed, SetClosed, IsClosed;
    if h < t { EncMonotone(n, h, t); }
    WordFacts(n, w, t);
    IndexFact(n, Enc(n, h), h);
    MaskFits(n);
    if MaskBit(n) < CLOSED_BIT || w == Enc(n, t) {
      SubLap(n, w, t, h);
    } else {
      SubTopBit(n, w, t, h);
    }
    EncAdd(n, h, t - h);
    SlotAddLap(n, h);
  }

  lemma WrappingSubIs(x: nat, y: nat)
    requires x < WORD && y <= WORD
    ensures WrappingSub(x, y) == if y <= x then x - y else x + WORD - y
  {
  }

  /** The wrapping comparison in `len` holds exactly for an unclosed full queue. */
  lemma SubLap(n: nat, w: nat, t: nat, h: nat)
    requires Capacity(n) && h <= t <= h + n && Enc(n, t) < CLOSED_BIT && Denotes(n, w, t)
    requires Enc(n, h) <= Enc(n, t) && (MaskBit(n) < CLOSED_BIT || w == Enc(n, t))
    ensures MaskBit(n) <= WORD
    ensures WrappingSub(w, MaskBit(n)) == Enc(n, h) <==> w == Enc(n, t) && t == h + n
  {
    var m := MaskBit(n);
    MaskFits(n);
    assert Enc(n, h + n) == m + Enc(n, h) by { assert h + n - n == h; }
    if t < h + n { EncMonotone(n, t, h + n); }
    WrappingSubIs(w, m);
  }

  /** The same comparison when the mask is the closed bit: it holds exactly for a closed empty queue,
      and there is no second lap. */
  lemma SubTopBit(n: nat, w: nat, t: nat, h: nat)
    requires Capacity(n) && h <= t && Enc(n, t) < CLOSED_BIT == MaskBit(n) && w == Enc(n, t) + CLOSED_BIT
    ensures MaskBit(n) <= WORD && t < n
    ensures WrappingSub(w, MaskBit(n)) == Enc(n, h) <==> t == h
  {
    hide MaskBit, WrappingSub;
    WrappingSubIs(w, MaskBit(n));
    FirstLap(n, t);
    if h < t { EncMonotone(n, h, t); }
  }

  lemma FirstLap(n: nat, t: nat)
    requires n > 0 && Enc(n, t) < MaskBit(n)
    ensures t < n
  {
    hide MaskBit;
  }
}
