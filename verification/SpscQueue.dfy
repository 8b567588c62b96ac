/** The queue object of `tezos/spsc/src/lib.rs`, each operation run without interference:
    the words and the ring are updated in place and specified by the queue's contents. */
module SpscQueue {
  import opened Basics
  import opened Words
  import opened SpscRing
  import opened SpscMachine

  datatype PushStatus = Pushed | Full | ClosedQueue | Panicked

  /** The words of two positions: `push_slice` refuses a slice longer than the capacity exactly
      when the head is before this position, although it should always refuse it. */
  function LongSliceLimit(n: nat, t: nat, len: nat): nat
    requires n > 0
  {
    t - Slot(n, t) + Slot(n, t + len)
  }

  /** A ring holds the contents from a position on. */
  ghost predicate Ring<T>(ring: seq<Option<T>>, first: nat, contents: seq<T>)
    requires ring != []
  {
    forall k :: 0 <= k < |contents| ==> ring[Slot(|ring|, first + k)] == Some(contents[k])
  }

  /** The ring after the copies of `push_slice`: up to its end, then on from its start; the second copy
      panics when what is left is longer than the ring, and the first is then done already. */
  ghost function Landed<T>(ring: seq<Option<T>>, slice: seq<T>, index: nat): (r: seq<Option<T>>)
    requires index < |ring|
    ensures |r| == |ring|
  {
    var n := |ring|;
    seq(n, k requires 0 <= k < n =>
      if index + |slice| <= 2 * n && k + n - index < |slice| then Some(slice[k + n - index])
      else if index <= k < index + |slice| then Some(slice[k - index])
      else ring[k])
  }

  class Queue<T> {
    var head: nat
    var tail: nat
    const buffer: array<Option<T>>
    /** Number of elements popped so far, and the elements in the queue. */
    ghost var first: nat
    ghost var contents: seq<T>

    /** The ring holds the contents from the head on. */
    ghost predicate Holds()
      reads this, buffer
    {
      var n := buffer.Length;
      && Capacity(n)
      && |contents| <= n
      && head == Enc(n, first)
      && Ring(buffer[..], first, contents)
    }

    /** And the tail is the word of its position, which is below the lap bound. */
    ghost predicate Valid()
      reads this, buffer
    {
      var n := buffer.Length;
      && Holds()
      && Enc(n, first + |contents|) < CLOSED_BIT
      && Denotes(n, tail, first + |contents|)
    }

    /** Room for `k` more elements before the encoded tail reaches the closed bit. */
    ghost predicate LapsLeft(k: nat)
      reads this, buffer
      requires Holds()
    {
      Enc(buffer.Length, first + |contents| + k) < CLOSED_BIT
    }

    /** What a push may find: a valid queue, or one whose tail has reached the lap bound and reads as
        closed. */
    ghost predicate Pushable()
      reads this, buffer
    {
      Valid() || (Holds() && IsClosed(tail))
    }

    constructor (capacity: nat)
      requires Capacity(capacity)
      ensures Valid() && fresh(buffer) && buffer.Length == capacity
      ensures contents == [] && first == 0 && !IsClosed(tail)
    {
      head, tail := 0, 0;
      buffer := new Option<T>[capacity](_ => None);
      first, contents := 0, [];
      new;
      WordFacts(capacity, 0, 0);
    }

    method SetClosedBit()
      requires Valid()
      modifies this`tail
      ensures Valid() && IsClosed(tail)
    {
      hide And, Or, MaskBit, Enc, Slot, IsClosed, SetClosed;
      WordFacts(buffer.Length, tail, first + |contents|);
      tail := SetClosed(tail);
    }

    method Len() returns (len: int)
      requires Valid()
      ensures !IsClosed(tail) ==> len == |contents|
      ensures IsClosed(tail) ==> len == ClosedLen(buffer.Length, |contents|)
    {
      LenIsDistance(buffer.Length, tail, first + |contents|, first);
      len := LenWord(buffer.Length, tail, head);
    }

    /** Pushes exactly when open and not full. The push that reaches the lap bound is performed too,
        and leaves a queue that reads as closed. */
    method Push(elem: T) returns (r: PushStatus)
      requires Pushable()
      modifies this`tail, this`contents, buffer
      ensures Pushable() && (old(Valid()) && (!r.Pushed? || old(LapsLeft(1))) ==> Valid())
      ensures r.ClosedQueue? <==> old(IsClosed(tail))
      ensures r.Full? <==> !old(IsClosed(tail)) && |old(contents)| == buffer.Length
      ensures r.Pushed? <==> !old(IsClosed(tail)) && |old(contents)| < buffer.Length
      ensures r.Pushed? ==> contents == old(contents) + [elem] && tail == Enc(buffer.Length, first + |contents|)
      ensures r.Pushed? ==> (IsClosed(tail) <==> !old(LapsLeft(1)))
      ensures !r.Pushed? ==> contents == old(contents) && tail == old(tail) && buffer[..] == old(buffer[..])
    {
      hide And, Or, MaskBit, Enc, Slot, IsClosed, NextWord;
      var n := buffer.Length;
      if IsClosed(tail) {
        return ClosedQueue;
      }
      ghost var t := first + |contents|;
      WordFacts(n, tail, t);
      Below(n, first, t);
      LapAhead(n, first);
      if t < first + n { EncMonotone(n, t, first + n); }
      if WrappingAdd(head, MaskBit(n)) == tail {
        r := Full;
      } else {
        var index := Index(n, tail);
        SlotsFree(n, first, t);
        buffer[index] := Some(elem);
        NextIsSuccessor(n, t);
        AdvancedWord(n, t, 1);
        tail := NextWord(n, tail);
        contents := contents + [elem];
        r := Pushed;
      }
    }

    method Pop() returns (r: PopResult<T>)
      requires Valid()
      modifies this`head, this`first, this`contents
      ensures Valid()
      ensures r.Value? <==> old(contents) != []
      ensures r.Value? ==> old(contents) == [r.value] + contents
      ensures !r.Value? ==> contents == [] && head == old(head) && (r.Closed? <==> IsClosed(tail))
    {
      hide And, Or, MaskBit, Enc, Slot, IsClosed, NextWord;
      var n := buffer.Length;
      WordFacts(n, tail, first + |contents|);
      Below(n, first, first + |contents|);
      WordFacts(n, head, first);
      if contents != [] { EncMonotone(n, first, first + |contents|); }
      if WithoutClosed(tail) == head {
        r := if IsClosed(tail) then Closed else Empty;
      } else {
        var index := Index(n, head);
        assert buffer[Slot(n, first + 0)] == Some(contents[0]);
        r := Value(buffer[index].value);
        NextIsSuccessor(n, first);
        head := NextWord(n, head);
        ghost var before := contents;
        first, contents := first + 1, contents[1..];
        forall k | 0 <= k < |contents|
          ensures buffer[Slot(n, first + k)] == Some(contents[k])
        {
          assert before[k + 1] == contents[k];
          assert first + k == old(first) + (k + 1);
        }
      }
    }

    /** Dropping the queue pops until it is told there is nothing left: every remaining element is
        dropped, once and in order. */
    method Drain() returns (dropped: seq<T>)
      requires Valid()
      modifies this`head, this`first, this`contents
      ensures Valid() && contents == []
      ensures dropped == old(contents)
    {
      dropped := [];
      var r := Pop();
      while r.Value?
        invariant Valid()
        invariant r.Value? ==> dropped + [r.value] + contents == old(contents)
        invariant !r.Value? ==> contents == [] && dropped == old(contents)
        decreases |contents|, r.Value?
      {
        dropped := dropped + [r.value];
        ghost var before := contents;
        r := Pop();
        if r.Value? {
          assert before == [r.value] + contents;
          assert dropped + [r.value] + contents == dropped + before;
        }
      }
    }

    /** Pushing the elements one at a time, stopping at the first refusal: as many are taken as there
        is room for, in an open queue below the lap bound. */
    method PushEach(slice: seq<T>) returns (pushed: nat)
      requires Pushable()
      modifies this`tail, this`contents, buffer
      ensures Pushable() && pushed <= |slice| && contents == old(contents) + slice[..pushed]
      ensures pushed == |slice| || |contents| == buffer.Length || IsClosed(tail)
      ensures old(IsClosed(tail)) ==> pushed == 0 && tail == old(tail)
      ensures !old(IsClosed(tail)) ==>
                && (forall j :: 0 <= j < pushed ==> old(LapsLeft(j)))
                && (IsClosed(tail) <==> !old(LapsLeft(pushed))) && (!IsClosed(tail) ==> Valid())
    {
      hide And, Or, MaskBit, Enc, Slot, IsClosed;
      pushed := 0;
      assert slice[..0] == [];
      if !IsClosed(tail) { WordFacts(buffer.Length, tail, first + |contents|); }
      while pushed < |slice|
        invariant Pushable() && pushed <= |slice| && contents == old(contents) + slice[..pushed]
        invariant old(IsClosed(tail)) ==> pushed == 0 && tail == old(tail)
        invariant !old(IsClosed(tail)) ==>
                    && (forall j :: 0 <= j < pushed ==> old(LapsLeft(j)))
                    && (IsClosed(tail) <==> !old(LapsLeft(pushed))) && (!IsClosed(tail) ==> Valid())
      {
        var r := Push(slice[pushed]);
        if !r.Pushed? {
          return;
        }
        assert slice[..pushed + 1] == slice[..pushed] + [slice[pushed]];
        pushed := pushed + 1;
      }
    }

    /** `copy_from_slice` into the ring from a slot on. */
    method CopyBlock(block: seq<T>, start: nat)
      requires start + |block| <= buffer.Length
      modifies buffer
      ensures forall k :: 0 <= k < buffer.Length ==>
                buffer[k] == if start <= k < start + |block| then Some(block[k - start]) else old(buffer[k])
    {
      for i := 0 to |block|
        invariant forall k :: 0 <= k < buffer.Length ==>
                    buffer[k] == if start <= k < start + i then Some(block[k - start]) else old(buffer[k])
      {
        buffer[start + i] := Some(block[i]);
      }
    }

    /** The copies into the ring. */
    method CopySlice(slice: seq<T>, index: nat) returns (panicked: bool)
      requires index < buffer.Length
      modifies buffer
      ensures panicked <==> index + |slice| > 2 * buffer.Length
      ensures buffer[..] == Landed(old(buffer[..]), slice, index)
    {
      var n := buffer.Length;
      panicked := false;
      if index + |slice| > n {
        var length := n - index;
        CopyBlock(slice[..length], index);
        if |slice| - length > n {
          return true;
        }
        CopyBlock(slice[length..], 0);
      } else {
        CopyBlock(slice, index);
      }
    }

    /** A slice no longer than the capacity is taken whole, in order, exactly when it fits, with the
        effect of pushing its elements one by one; otherwise nothing changes. A longer slice never
        fits, yet it is refused exactly when the head is before `LongSliceLimit`. One that is not
        refused panics, with the queue as it was, unless it ends with the ring; then the queue holds
        as many of its last elements as there are slots from the head to the end of the ring, and
        what it held before is lost. */
    method PushSlice(slice: seq<T>) returns (r: PushStatus)
      requires Pushable()
      modifies this`tail, this`contents, buffer
      ensures r.ClosedQueue? <==> old(IsClosed(tail))
      ensures buffer[..] == if r.ClosedQueue? || r.Full? then old(buffer[..])
                            else Landed(old(buffer[..]), slice, Slot(buffer.Length, first + |old(contents)|))
      ensures !r.Pushed? ==> Pushable() && contents == old(contents) && tail == old(tail)
      ensures |slice| <= buffer.Length && !r.ClosedQueue? ==>
                && (r.Full? || r.Pushed?) && (r.Pushed? <==> |old(contents)| + |slice| <= buffer.Length)
                && (r.Pushed? ==> contents == old(contents) + slice)
      ensures |slice| > buffer.Length && !r.ClosedQueue? ==>
                var n, t := buffer.Length, first + |old(contents)|;
                var limit := LongSliceLimit(n, t, |slice|);
                && (r.Full? <==> first < limit)
                && (r.Panicked? <==> first >= limit && Slot(n, t) + |slice| > 2 * n)
                && (r.Pushed? <==> first >= limit && Slot(n, t) + |slice| == 2 * n)
                && (r.Pushed? ==> 0 < limit + n - first <= n && contents == slice[|slice| - (limit + n - first)..])
      ensures r.Pushed? ==>
                && Pushable() && tail == Enc(buffer.Length, first + |contents|)
                && (IsClosed(tail) <==> !LapsLeft(0)) && (!IsClosed(tail) ==> Valid())
    {
      hide And, Or, MaskBit, Enc, Slot, IsClosed, NextSliceWord, Landed, Ring, LongSliceLimit;
      var n := buffer.Length;
      if IsClosed(tail) {
        return ClosedQueue;
      }
      ghost var t := first + |contents|;
      WordFacts(n, tail, t);
      var index := Index(n, tail);
      var next := NextSliceWord(n, tail, |slice|);
      SliceRefusal(n, first, t, |slice|);
      if WrappingAdd(head, MaskBit(n)) < next {
        return Full;
      }
      ghost var before := buffer[..];
      var panicked := CopySlice(slice, index);
      if panicked {
        PanickedRing(before, first, contents, slice);
        return Panicked;
      }
      if |slice| <= n {
        NextSliceIsSum(n, t, |slice|);
        AdvancedWord(n, t, |slice|);
        FilledRing(before, first, contents, slice);
        contents := contents + slice;
      } else {
        LongSliceWord(n, t, |slice|);
        ghost var limit := LongSliceLimit(n, t, |slice|);
        EncLap(n, limit);
        OverwrittenRing(before, first, contents, slice);
        AdvancedWord(n, t, n - index);
        contents := slice[|slice| - (limit + n - first)..];
      }
      tail := next;
      r := Pushed;
    }
  }

  /** The lap bound is real: from the closed bit on, the word of an open queue reads as closed. */
  lemma LooksClosedIff(n: nat, p: nat)
    requires Capacity(n) && Enc(n, p) < WORD
    ensures IsClosed(Enc(n, p)) <==> Enc(n, p) >= CLOSED_BIT
  {
    hide And, Enc, Pow2;
    WordIsPow2();
    AndTopBit(Enc(n, p), 63);
  }

  /** Up to one lap after a position below the bound, the word still fits, and reads as closed exactly
      from the bound on. */
  lemma AdvancedWord(n: nat, t: nat, len: nat)
    requires Capacity(n) && Enc(n, t) < CLOSED_BIT && len <= n
    ensures Enc(n, t + len) < WORD
    ensures IsClosed(Enc(n, t + len)) <==> Enc(n, t + len) >= CLOSED_BIT
  {
    hide And, Enc, IsClosed, MaskBit;
    EncLap(n, t);
    MaskFits(n);
    if len < n { EncMonotone(n, t + len, t + n); }
    LooksClosedIff(n, t + len);
  }

  /** The slot of position `t` is none of the slots of the positions from `h` up to it. */
  lemma SlotsFree(n: nat, h: nat, t: nat)
    requires 0 < n && h <= t < h + n
    ensures forall p :: h <= p < t ==> Slot(n, p) != Slot(n, t)
  {
    forall p | h <= p < t
      ensures Slot(n, p) != Slot(n, t)
    {
      SlotsDiffer(n, p, t);
    }
  }

  /** The slots of the elements of a slice. */
  lemma SlotAfter(n: nat, t: nat, j: nat)
    requires 0 < n && j <= n
    ensures Slot(n, t + j) == if Slot(n, t) + j < n then Slot(n, t) + j else Slot(n, t) + j - n
  {
    SlotSum(n, t, j);
    var p := Slot(n, t) + j;
    if p >= n { assert Slot(n, p) == Slot(n, p - n) == p - n; }
  }

  /** A slice that fits is copied around the unread slots. */
  lemma SlotUntouched(n: nat, h: nat, t: nat, len: nat, p: nat)
    requires 0 < n && h <= p < t && t + len <= h + n
    ensures var i, k := Slot(n, t), Slot(n, p);
            k + n - i >= len && !(i <= k < i + len)
  {
    hide Slot;
    var i, k := Slot(n, t), Slot(n, p);
    var j := if i <= k then k - i else k + n - i;
    if j < len {
      SlotAfter(n, t, j);
      SlotsDiffer(n, p, t + j);
    }
  }

  /** A slice that fits lands behind the contents. */
  lemma FilledRing<T>(ring: seq<Option<T>>, first: nat, contents: seq<T>, slice: seq<T>)
    requires ring != [] && Ring(ring, first, contents) && |contents| + |slice| <= |ring|
    ensures Ring(Landed(ring, slice, Slot(|ring|, first + |contents|)), first, contents + slice)
  {
    hide Slot;
    var n, t := |ring|, first + |contents|;
    forall j | 0 <= j < |contents| + |slice|
      ensures Landed(ring, slice, Slot(n, t))[Slot(n, first + j)] == Some((contents + slice)[j])
    {
      if j < |contents| {
        SlotUntouched(n, first, t, |slice|, first + j);
      } else {
        assert first + j == t + (j - |contents|);
        SlotAfter(n, t, j - |contents|);
      }
    }
  }

  /** The slots of the lap that a position is in. */
  lemma LapSlot(n: nat, t: nat, p: nat)
    requires 0 < n && t - Slot(n, t) <= p < t - Slot(n, t) + n
    ensures Slot(n, p) == p - (t - Slot(n, t))
  {
    hide Slot;
    var lap := t - Slot(n, t);
    LapStart(n, t);
    SlotAfter(n, lap, p - lap);
  }

  /** Of the longer slices that reach no further than the next lap, only those that end with it are
      not refused. */
  lemma LongSliceEnd(n: nat, t: nat, len: nat)
    requires 0 < n < len && Slot(n, t) + len <= 2 * n
    ensures LongSliceLimit(n, t, len) == if Slot(n, t) + len == 2 * n then t - Slot(n, t) else t + len - n
  {
    SlotAfter(n, t, len - n);
    SlotAddLap(n, t + len - n);
  }

  /** A panicking slice leaves the unread elements alone, since they are in the lap of the tail. */
  lemma PanickedRing<T>(ring: seq<Option<T>>, first: nat, contents: seq<T>, slice: seq<T>)
    requires ring != [] && Ring(ring, first, contents)
    requires LongSliceLimit(|ring|, first + |contents|, |slice|) <= first
    requires Slot(|ring|, first + |contents|) + |slice| > 2 * |ring|
    ensures Ring(Landed(ring, slice, Slot(|ring|, first + |contents|)), first, contents)
  {
    hide Slot;
    var n, t := |ring|, first + |contents|;
    forall j | 0 <= j < |contents|
      ensures Landed(ring, slice, Slot(n, t))[Slot(n, first + j)] == Some(contents[j])
    {
      LapSlot(n, t, first + j);
    }
  }

  /** A longer slice that is taken overwrites the whole ring with its last elements. */
  lemma OverwrittenRing<T>(ring: seq<Option<T>>, first: nat, contents: seq<T>, slice: seq<T>)
    requires 0 < |ring| < |slice|
    requires LongSliceLimit(|ring|, first + |contents|, |slice|) <= first
    requires Slot(|ring|, first + |contents|) + |slice| <= 2 * |ring|
    ensures var n, t := |ring|, first + |contents|;
            var limit := LongSliceLimit(n, t, |slice|);
            && Slot(n, t) + |slice| == 2 * n && limit == t - Slot(n, t)
            && 0 < limit + n - first <= n
            && Ring(Landed(ring, slice, Slot(n, t)), first, slice[|slice| - (limit + n - first)..])
  {
    hide Slot;
    var n, t := |ring|, first + |contents|;
    var limit := LongSliceLimit(n, t, |slice|);
    LongSliceEnd(n, t, |slice|);
    var kept := slice[|slice| - (limit + n - first)..];
    forall j | 0 <= j < |kept|
      ensures Landed(ring, slice, Slot(n, t))[Slot(n, first + j)] == Some(kept[j])
    {
      LapSlot(n, t, first + j);
    }
  }

  /** The refusal test of `push_slice` on positions, for slices of every length. */
  lemma SliceRefusal(n: nat, h: nat, t: nat, len: nat)
    requires Capacity(n) && h <= t <= h + n && Enc(n, t) < CLOSED_BIT
    ensures var refused := WrappingAdd(Enc(n, h), MaskBit(n)) < NextSliceWord(n, Enc(n, t), len);
            && (len <= n ==> (refused <==> h + n < t + len))
            && (len > n ==> (refused <==> h < LongSliceLimit(n, t, len)))
  {
    hide And, Or, MaskBit, Enc, Slot, NextSliceWord;
    Below(n, h, t);
    LapAhead(n, h);
    if len <= n {
      NextSliceIsSum(n, t, len);
      if h + n < t + len {
        EncMonotone(n, h + n, t + len);
      } else if t + len < h + n {
        EncMonotone(n, t + len, h + n);
      }
    } else {
      LongSliceWord(n, t, len);
      var limit := LongSliceLimit(n, t, len);
      EncLap(n, h);
      if h < limit {
        EncMonotone(n, h, limit);
      } else if limit < h {
        EncMonotone(n, limit, h);
      }
    }
  }

  lemma EncLap(n: nat, p: nat)
    requires n > 0
    ensures Enc(n, p + n) == Enc(n, p) + MaskBit(n)
  {
    assert p + n - n == p;
  }

  /** For a slice longer than the capacity, `next_tail` is one lap after `LongSliceLimit`. */
  lemma LongSliceWord(n: nat, t: nat, len: nat)
    requires Capacity(n) && Enc(n, t) < CLOSED_BIT && len > n
    ensures NextSliceWord(n, Enc(n, t), len) == Enc(n, LongSliceLimit(n, t, len)) + MaskBit(n)
  {
    hide MaskBit, Enc, Slot, Index, LapBase, WrappingAdd, NextSliceWord;
    IndexFact(n, Enc(n, t), t);
    LapBaseFact(n, t);
    EncBounds(n, t);
    var i := Slot(n, t);
    var r := Slot(n, t + len);
    SlotSum(n, t, len);
    SlotIsMod(n, i + len);
    SliceReduced(n, Enc(n, t), len, r);
    LapStart(n, t);
    EncAdd(n, t - i, r);
    LapRoom(n, t);
    NoWrap(Enc(n, t) - i + MaskBit(n), r);
  }

  lemma SliceReduced(n: nat, w: nat, len: nat, r: nat)
    requires Capacity(n) && Index(n, w) + len >= n && r == (Index(n, w) + len) % n
    ensures NextSliceWord(n, w, len) == WrappingAdd(WrappingAdd(LapBase(n, w), MaskBit(n)), r)
  {
    hide Index, LapBase, WrappingAdd, MaskBit;
  }

  lemma {:induction false} SlotSum(n: nat, t: nat, len: nat)
    requires n > 0
    ensures Slot(n, t + len) == Slot(n, Slot(n, t) + len)
    decreases t
  {
    if t >= n {
      SlotSum(n, t - n, len);
      assert t + len - n == t - n + len;
    }
  }

  lemma {:induction false} SlotIsMod(n: nat, p: nat)
    requires n > 0
    ensures Slot(n, p) == p % n
    decreases p
  {
    if p >= n {
      SlotIsMod(n, p - n);
      StepDivMod(p, n);
    } else {
      DivModUnique(p, n, 0, p);
    }
  }

  lemma {:induction false} LapStart(n: nat, t: nat)
    requires n > 0
    ensures Slot(n, t - Slot(n, t)) == 0
    ensures Enc(n, t - Slot(n, t)) == Enc(n, t) - Slot(n, t)
    decreases t
  {
    if t >= n {
      LapStart(n, t - n);
      assert t - Slot(n, t) - n == t - n - Slot(n, t - n);
    }
  }

  /** The next lap starts no later than the closed bit. */
  lemma LapRoom(n: nat, t: nat)
    requires Capacity(n) && Enc(n, t) < CLOSED_BIT
    ensures Enc(n, t) - Slot(n, t) + MaskBit(n) + n < WORD
  {
    MaskFits(n);
    if MaskBit(n) < CLOSED_BIT {
      var k := CeilLog2(n + 1);
      WordIsPow2();
      if k >= 63 { Pow2Monotone(63, k); }
      Pow2Monotone(k + 1, 63);
    } else {
      FirstLap(n, t);
    }
  }

  /** The refusal is wrong for a whole family: an empty queue takes a slice of twice its capacity. */
  lemma LongSliceAccepted(n: nat)
    requires Capacity(n)
    ensures !(0 < LongSliceLimit(n, 0, 2 * n))
    ensures !(WrappingAdd(Enc(n, 0), MaskBit(n)) < NextSliceWord(n, Enc(n, 0), 2 * n))
  {
    SliceRefusal(n, 0, 0, 2 * n);
    assert Slot(n, 2 * n) == Slot(n, n) == 0;
  }
}
