/**
 * The `Combinations` iterator: the non-empty subsets of a list, from the
 * least to the most numerous, each size in the order "A, B, C, AB, AC, BC,
 * ABC". The iterator keeps the next subset as a bit mask over the list's
 * positions and derives each successor with the previous-clear-bit /
 * previous-set-bit rule of `next()`.
 *
 * The rule is proved to walk, for each size k, exactly the reference list
 * `At(n, k, 0), At(n, k, 1), ...`: every mask of length n with k set bits,
 * once each, in lexicographic order with a set bit before a clear one.
 */
module Combinations {
  import opened Terms

  /** A `BitSet` over the positions 0 .. n-1 of the list. */
  type Mask = seq<bool>

  function Ones(k: nat): (r: Mask)
    ensures |r| == k && forall j :: 0 <= j < k ==> r[j]
  {
    seq(k, _ => true)
  }

  function Zeros(k: nat): (r: Mask)
    ensures |r| == k && forall j :: 0 <= j < k ==> !r[j]
  {
    seq(k, _ => false)
  }

  /** `k` set bits followed by clear bits up to length `n`: what `advanceToNextK` sets up. */
  function FirstMask(k: nat, n: nat): (r: Mask)
    ensures |r| == n && forall j :: 0 <= j < n ==> r[j] == (j < k)
  {
    seq(n, j => j < k)
  }

  /** The number of set bits (`BitSet.cardinality`). */
  function Count(m: Mask): nat
  {
    if |m| == 0 then 0 else (if m[0] then 1 else 0) + Count(m[1..])
  }

  lemma {:induction false} CountAppend(a: Mask, b: Mask)
    ensures Count(a + b) == Count(a) + Count(b)
    decreases |a|
  {
    if |a| > 0 {
      assert (a + b)[0] == a[0];
      assert (a + b)[1..] == a[1..] + b;
      CountAppend(a[1..], b);
    } else {
      assert a + b == b;
    }
  }

  lemma {:induction false} CountOnes(k: nat)
    ensures Count(Ones(k)) == k
  {
    if k > 0 {
      assert Ones(k)[1..] == Ones(k - 1);
      CountOnes(k - 1);
    }
  }

  lemma {:induction false} CountZeros(k: nat)
    ensures Count(Zeros(k)) == 0
  {
    if k > 0 {
      assert Zeros(k)[1..] == Zeros(k - 1);
      CountZeros(k - 1);
    }
  }

  lemma CountBlock(a: nat, c: nat)
    ensures Count(Zeros(a) + Ones(c)) == c && Count(Ones(c) + Zeros(a)) == c
  {
    CountAppend(Zeros(a), Ones(c));
    CountAppend(Ones(c), Zeros(a));
    CountOnes(c);
    CountZeros(a);
  }

  /** A mask has no more set bits than positions. */
  lemma {:induction false} CountBound(m: Mask)
    ensures Count(m) <= |m|
    decreases |m|
  {
    if |m| > 0 {
      CountBound(m[1..]);
    }
  }

  /** Only the all-set mask has as many set bits as positions. */
  lemma {:induction false} CountFull(m: Mask)
    requires Count(m) == |m|
    ensures m == Ones(|m|)
    decreases |m|
  {
    if |m| > 0 {
      CountBound(m[1..]);
      CountFull(m[1..]);
      assert m == [m[0]] + m[1..];
    }
  }

  // ---------------------------------------------------------------------
  // The successor rule of `next()`.
  // ---------------------------------------------------------------------

  /** `BitSet.previousClearBit(i)`: the highest clear position at or below `i`, or -1. */
  function PrevClear(m: Mask, i: int): (r: int)
    requires -1 <= i < |m|
    ensures -1 <= r <= i
    ensures r >= 0 ==> !m[r]
    ensures forall j :: r < j <= i ==> m[j]
    decreases i + 1
  {
    if i < 0 then -1 else if !m[i] then i else PrevClear(m, i - 1)
  }

  /** `BitSet.previousSetBit(i)`: the highest set position at or below `i`, or -1 (also for i == -1). */
  function PrevSet(m: Mask, i: int): (r: int)
    requires -1 <= i < |m|
    ensures -1 <= r <= i
    ensures r >= 0 ==> m[r]
    ensures forall j :: r < j <= i ==> !m[j]
    decreases i + 1
  {
    if i < 0 then -1 else if m[i] then i else PrevSet(m, i - 1)
  }

  /** The postconditions of `PrevClear` single out its result. */
  lemma PrevClearUnique(m: Mask, i: int, r: int)
    requires -1 <= r <= i < |m|
    requires r >= 0 ==> !m[r]
    requires forall j :: r < j <= i ==> m[j]
    ensures PrevClear(m, i) == r
  {
  }

  /** The postconditions of `PrevSet` single out its result. */
  lemma PrevSetUnique(m: Mask, i: int, r: int)
    requires -1 <= r <= i < |m|
    requires r >= 0 ==> m[r]
    requires forall j :: r < j <= i ==> !m[j]
    ensures PrevSet(m, i) == r
  {
  }

  /** Every set bit comes after every clear bit: the last mask of its size. */
  predicate Packed(m: Mask)
  {
    forall i, j :: 0 <= i < j < |m| && m[i] ==> m[j]
  }

  /**
   * One `next()` step on the mask: b is the highest clear position, b1 the
   * highest set position below it. Without such a b1 the current size is
   * exhausted (`None`); otherwise bit b1 moves up by one and the set bits
   * after it are packed right behind it.
   */
  function Advance(m: Mask): (r: Option<Mask>)
    ensures r.Some? ==> |r.value| == |m|
    ensures r.None? <==> Packed(m)
  {
    var n := |m|;
    var b := PrevClear(m, n - 1);
    var b1 := PrevSet(m, b);
    if b1 == -1 then None
    else
      assert b1 < b && m[b1] && !m[b];
      Some(seq(n, j requires 0 <= j < n => if j < b1 then m[j] else if j == b1 then false else j <= b1 + (n - b)))
  }

  /** Steps on a mask with a leading bit: a successor of the tail keeps the leading bit. */
  lemma AdvanceConsTail(x: bool, rest: Mask)
    requires Advance(rest).Some?
    ensures Advance([x] + rest) == Some([x] + Advance(rest).value)
  {
    var m := [x] + rest;
    var n := |m|;
    var br := PrevClear(rest, n - 2);
    var b1r := PrevSet(rest, br);
    assert b1r >= 0 && br >= 0;
    PrevClearUnique(m, n - 1, br + 1);
    PrevSetUnique(m, br + 1, b1r + 1);
    var b := br + 1;
    var b1 := b1r + 1;
    var r := Advance(m).value;
    var rr := Advance(rest).value;
    assert r == [x] + rr by {
      forall j | 0 <= j < n
        ensures r[j] == ([x] + rr)[j]
      {
        if j > 0 {
          assert ([x] + rr)[j] == rr[j - 1];
        }
      }
    }
  }

  /** Without a successor of the tail, a clear leading bit leaves no successor. */
  lemma AdvanceConsClear(rest: Mask)
    requires Advance(rest).None?
    ensures Advance([false] + rest).None?
  {
    var m := [false] + rest;
    var n := |m|;
    var br := PrevClear(rest, n - 2);
    if br >= 0 {
      PrevClearUnique(m, n - 1, br + 1);
      PrevSetUnique(m, br + 1, -1);
    } else {
      PrevClearUnique(m, n - 1, 0);
      PrevSetUnique(m, 0, -1);
    }
  }

  /**
   * A tail without a successor is a block of clear bits followed by a block
   * of set bits.
   */
  lemma NoSuccessorShape(rest: Mask)
    requires Advance(rest).None?
    ensures Count(rest) <= |rest|
    ensures forall j :: 0 <= j < |rest| ==> rest[j] == (j >= |rest| - Count(rest))
  {
    CountBound(rest);
    var n := |rest|;
    var br := PrevClear(rest, n - 1);
    var c := n - 1 - br;
    assert PrevSet(rest, br) == -1;
    assert rest == Zeros(br + 1) + Ones(c);
    CountBlock(br + 1, c);
  }

  /**
   * Without a successor of the tail, a set leading bit moves one place up
   * and takes every set bit of the tail along, packed behind it; the size is
   * exhausted only when the mask is all set.
   */
  lemma AdvanceConsSet(rest: Mask)
    requires Advance(rest).None?
    ensures Count(rest) == |rest| ==> Advance([true] + rest).None?
    ensures Count(rest) < |rest| ==>
              Advance([true] + rest) == Some([false] + FirstMask(Count(rest) + 1, |rest|))
  {
    CountBound(rest);
    if Count(rest) == |rest| {
      NoSuccessorShape(rest);
      PrevClearUnique([true] + rest, |rest|, -1);
    } else {
      AdvanceConsMove(rest);
    }
  }

  /** The case of `AdvanceConsSet` where the tail has a clear bit. */
  lemma AdvanceConsMove(rest: Mask)
    requires Advance(rest).None? && Count(rest) < |rest|
    ensures Advance([true] + rest) == Some([false] + FirstMask(Count(rest) + 1, |rest|))
  {
    var m := [true] + rest;
    var n := |m|;
    var c := Count(rest);
    NoSuccessorShape(rest);
    var br := |rest| - c - 1;
    assert !rest[br];
    PrevClearUnique(m, n - 1, br + 1);
    PrevSetUnique(m, br + 1, 0);
    var r := Advance(m).value;
    var want := [false] + FirstMask(c + 1, |rest|);
    assert |r| == |want|;
    forall j | 0 <= j < n
      ensures r[j] == want[j]
    {
    }
    assert r == want;
  }

  // ---------------------------------------------------------------------
  // The reference enumeration.
  // ---------------------------------------------------------------------

  /** The binomial coefficient: how many masks of length n have k set bits. */
  function Binom(n: nat, k: nat): nat
  {
    if k == 0 then 1 else if n == 0 then 0 else Binom(n - 1, k - 1) + Binom(n - 1, k)
  }

  /** A size has masks exactly when it does not exceed the length. */
  lemma {:induction false} BinomPositive(n: nat, k: nat)
    ensures Binom(n, k) > 0 <==> k <= n
    decreases n
  {
    if k > 0 && n > 0 {
      BinomPositive(n - 1, k - 1);
      BinomPositive(n - 1, k);
    }
  }

  /** How many masks of length n with k set bits start with a set bit. */
  function Upper(n: nat, k: nat): nat
    requires n > 0
  {
    if k > 0 then Binom(n - 1, k - 1) else 0
  }

  /**
   * The i-th mask of length n with k set bits, in lexicographic order with
   * a set bit ahead of a clear one: the masks that start with a set bit come
   * first, then those that start with a clear bit.
   */
  function At(n: nat, k: nat, i: nat): (r: Mask)
    requires i < Binom(n, k)
    ensures |r| == n && Count(r) == k
    decreases n
  {
    if n == 0 then []
    else if i < Upper(n, k) then
      var t := At(n - 1, k - 1, i);
      assert ([true] + t)[1..] == t;
      [true] + t
    else
      var t := At(n - 1, k, i - Upper(n, k));
      assert ([false] + t)[1..] == t;
      [false] + t
  }

  /** Where a mask sits in the list of its length and size: `At` gives the mask back. */
  function Index(m: Mask): (r: nat)
    ensures r < Binom(|m|, Count(m)) && At(|m|, Count(m), r) == m
    decreases |m|
  {
    if |m| == 0 then 0
    else
      var t := m[1..];
      assert m == [m[0]] + t;
      if m[0] then Index(t) else Upper(|m|, Count(m)) + Index(t)
  }

  /** `Index` undoes `At`: no mask is listed twice. */
  lemma {:induction false} IndexAt(n: nat, k: nat, i: nat)
    requires i < Binom(n, k)
    ensures Index(At(n, k, i)) == i
    decreases n
  {
    if n > 0 {
      var m := At(n, k, i);
      if i < Upper(n, k) {
        var t := At(n - 1, k - 1, i);
        assert m == [true] + t && m[1..] == t;
        IndexAt(n - 1, k - 1, i);
        assert Index(m) == Index(t);
      } else {
        var t := At(n - 1, k, i - Upper(n, k));
        assert m == [false] + t && m[1..] == t;
        IndexAt(n - 1, k, i - Upper(n, k));
        assert Index(m) == Upper(n, k) + Index(t);
      }
    }
  }

  /** The first listed mask is the one `advanceToNextK` sets up: k leading set bits. */
  lemma {:induction false} AtFirst(n: nat, k: nat)
    requires k <= n
    ensures Binom(n, k) > 0 && At(n, k, 0) == FirstMask(k, n)
    decreases n
  {
    BinomPositive(n, k);
    if n > 0 {
      if k > 0 {
        BinomPositive(n - 1, k - 1);
        AtFirst(n - 1, k - 1);
        assert [true] + FirstMask(k - 1, n - 1) == FirstMask(k, n);
      } else {
        AtFirst(n - 1, 0);
        assert [false] + FirstMask(0, n - 1) == FirstMask(0, n);
      }
    }
  }

  /**
   * The successor rule restated by recursion on the leading bit: the tail
   * steps when it can; otherwise a leading set bit moves up one place and
   * takes the tail's set bits along.
   */
  function Succ(m: Mask): Option<Mask>
    decreases |m|
  {
    if |m| == 0 then None
    else match Succ(m[1..])
      case Some(t) => Some([m[0]] + t)
      case None =>
        var c := Count(m[1..]);
        if !m[0] || c >= |m| - 1 then None
        else Some([false] + FirstMask(c + 1, |m| - 1))
  }

  /** `next()`'s bit formula and the recursive restatement agree on every mask. */
  lemma {:induction false} AdvanceIsSucc(m: Mask)
    ensures Advance(m) == Succ(m)
    decreases |m|
  {
    if |m| == 0 {
      assert PrevClear(m, -1) == -1;
    } else {
      var rest := m[1..];
      assert m == [m[0]] + rest;
      AdvanceIsSucc(rest);
      if Advance(rest).Some? {
        AdvanceConsTail(m[0], rest);
      } else if !m[0] {
        AdvanceConsClear(rest);
      } else {
        AdvanceConsSet(rest);
        CountBound(rest);
      }
    }
  }

  /** A set bit in front of a tail without successor moves up and gathers the tail's set bits. */
  lemma SuccBoundaryStep(t: Mask, k: nat)
    requires 0 < k <= |t| && Succ(t).None? && Count(t) == k - 1
    ensures Succ([true] + t) == Some([false] + FirstMask(k, |t|))
  {
    assert ([true] + t)[1..] == t;
  }

  /** A set bit in front of an all-set tail leaves no successor. */
  lemma SuccBoundaryEnd(t: Mask)
    requires Succ(t).None? && Count(t) == |t|
    ensures Succ([true] + t).None?
  {
    assert ([true] + t)[1..] == t;
  }

  /**
   * From the last mask with a leading set bit, the successor is the first
   * mask with a leading clear bit, or there is none when the size is n.
   */
  lemma AcrossBoundary(n: nat, k: nat, i: nat)
    requires n > 0 && i + 1 == Upper(n, k) && i < Binom(n, k)
    requires Succ(At(n - 1, k - 1, i)).None?
    ensures i + 1 < Binom(n, k) ==> Succ(At(n, k, i)) == Some(At(n, k, i + 1))
    ensures i + 1 == Binom(n, k) ==> Succ(At(n, k, i)).None?
  {
    BinomPositive(n, k);
    BinomPositive(n - 1, k);
    if k < n {
      StepDown(n, k, i);
    } else {
      assert At(n, k, i) == [true] + At(n - 1, k - 1, i);
      SuccBoundaryEnd(At(n - 1, k - 1, i));
    }
  }

  /** The boundary step when masks with a leading clear bit follow. */
  lemma StepDown(n: nat, k: nat, i: nat)
    requires 0 < k < n && i + 1 == Upper(n, k) && i < Binom(n, k)
    requires Succ(At(n - 1, k - 1, i)).None?
    ensures i + 1 < Binom(n, k) && Succ(At(n, k, i)) == Some(At(n, k, i + 1))
  {
    var t := At(n - 1, k - 1, i);
    assert At(n, k, i) == [true] + t;
    SuccBoundaryStep(t, k);
    AtFirst(n - 1, k);
    assert At(n, k, i + 1) == [false] + At(n - 1, k, 0);
  }

  /** The recursive successor walks the reference list and stops after its last mask. */
  lemma {:induction false} SuccChain(n: nat, k: nat, i: nat)
    requires i < Binom(n, k)
    ensures i + 1 < Binom(n, k) ==> Succ(At(n, k, i)) == Some(At(n, k, i + 1))
    ensures i + 1 == Binom(n, k) ==> Succ(At(n, k, i)).None?
    decreases n
  {
    if n > 0 {
      var u := Upper(n, k);
      if i < u {
        SuccChain(n - 1, k - 1, i);
        if i + 1 < u {
          UpperStep(n, k, i);
        } else {
          AcrossBoundary(n, k, i);
        }
      } else {
        SuccChain(n - 1, k, i - u);
        LowerStep(n, k, i);
      }
    }
  }

  /** Among masks with a leading set bit, the successor is the tail's successor. */
  lemma UpperStep(n: nat, k: nat, i: nat)
    requires n > 0 && i + 1 < Upper(n, k)
    requires Succ(At(n - 1, k - 1, i)) == Some(At(n - 1, k - 1, i + 1))
    ensures i + 1 < Binom(n, k) && Succ(At(n, k, i)) == Some(At(n, k, i + 1))
  {
    var t := At(n - 1, k - 1, i);
    assert At(n, k, i) == [true] + t && ([true] + t)[1..] == t;
    assert At(n, k, i + 1) == [true] + At(n - 1, k - 1, i + 1);
  }

  /** Among masks with a leading clear bit, the successor is the tail's, and the last has none. */
  lemma LowerStep(n: nat, k: nat, i: nat)
    requires n > 0 && Upper(n, k) <= i < Binom(n, k)
    requires i - Upper(n, k) + 1 < Binom(n - 1, k) ==>
               Succ(At(n - 1, k, i - Upper(n, k))) == Some(At(n - 1, k, i - Upper(n, k) + 1))
    requires i - Upper(n, k) + 1 == Binom(n - 1, k) ==> Succ(At(n - 1, k, i - Upper(n, k))).None?
    ensures i + 1 < Binom(n, k) ==> Succ(At(n, k, i)) == Some(At(n, k, i + 1))
    ensures i + 1 == Binom(n, k) ==> Succ(At(n, k, i)).None?
  {
    var u := Upper(n, k);
    var t := At(n - 1, k, i - u);
    assert At(n, k, i) == [false] + t && ([false] + t)[1..] == t;
    if i + 1 < Binom(n, k) {
      assert At(n, k, i + 1) == [false] + At(n - 1, k, i + 1 - u);
    }
  }

  /**
   * `next()`'s bit rule walks the reference list: each listed mask steps to
   * the next one, and the last one has no successor.
   */
  lemma AdvanceWalksAt(n: nat, k: nat, i: nat)
    requires i < Binom(n, k)
    ensures i + 1 < Binom(n, k) ==> Advance(At(n, k, i)) == Some(At(n, k, i + 1))
    ensures i + 1 == Binom(n, k) ==> Advance(At(n, k, i)).None?
  {
    SuccChain(n, k, i);
    AdvanceIsSucc(At(n, k, i));
  }

  // ---------------------------------------------------------------------
  // All sizes, and the iterator itself.
  // ---------------------------------------------------------------------

  /** Where size k starts among the non-empty subsets: after the sizes 1 .. k - 1. */
  function Offset(n: nat, k: nat): nat
  {
    if k <= 1 then 0 else Offset(n, k - 1) + Binom(n, k - 1)
  }

  /** How many non-empty subsets n positions have. */
  function Total(n: nat): nat
  {
    Offset(n, n + 1)
  }

  lemma {:induction false} OffsetMonotone(n: nat, k1: nat, k2: nat)
    requires 1 <= k1 <= k2
    ensures Offset(n, k1) <= Offset(n, k2)
    decreases k2
  {
    if k1 < k2 {
      OffsetMonotone(n, k1, k2 - 1);
    }
  }

  /** A position in a smaller size comes before every position in a larger one. */
  lemma BlocksOrdered(n: nat, k1: nat, i1: nat, k2: nat, i2: nat)
    requires 1 <= k1 && i1 < Binom(n, k1)
    ensures k1 < k2 ==> Offset(n, k1) + i1 < Offset(n, k2) + i2
  {
    if k1 < k2 {
      OffsetMonotone(n, k1 + 1, k2);
    }
  }

  /** Sizes past n start at the end. */
  lemma OffsetPastEnd(n: nat, k: nat)
    ensures k > n ==> Offset(n, k) >= Total(n)
  {
    if k > n {
      OffsetMonotone(n, n + 1, k);
    }
  }

  function Pow2(n: nat): nat
  {
    if n == 0 then 1 else 2 * Pow2(n - 1)
  }

  /** The number of subsets of n positions with fewer than k elements. */
  function BinomPrefix(n: nat, k: nat): nat
  {
    if k == 0 then 0 else BinomPrefix(n, k - 1) + Binom(n, k - 1)
  }

  /** Pascal's rule, summed: the prefix sums obey the same recurrence as the coefficients. */
  lemma {:induction false} PrefixPascal(n: nat, k: nat)
    requires n > 0 && k > 0
    ensures BinomPrefix(n, k) == BinomPrefix(n - 1, k - 1) + BinomPrefix(n - 1, k)
  {
    if k > 1 {
      PrefixPascal(n, k - 1);
    }
  }

  /** All subsets of n positions, of every size, are 2^n. */
  lemma {:induction false} PrefixFull(n: nat)
    ensures BinomPrefix(n, n + 1) == Pow2(n)
  {
    if n > 0 {
      PrefixPascal(n, n + 1);
      PrefixFull(n - 1);
      BinomPositive(n - 1, n);
      assert BinomPrefix(n - 1, n + 1) == BinomPrefix(n - 1, n);
    }
  }

  lemma {:induction false} OffsetIsPrefix(n: nat, k: nat)
    requires k >= 1
    ensures Offset(n, k) + 1 == BinomPrefix(n, k)
  {
    if k > 1 {
      OffsetIsPrefix(n, k - 1);
    }
  }

  /** n positions have 2^n - 1 non-empty subsets. */
  lemma TotalCount(n: nat)
    ensures Total(n) + 1 == Pow2(n)
  {
    OffsetIsPrefix(n, n + 1);
    PrefixFull(n);
  }

  /** The size and the index within that size of position p, searching from size k on. */
  function Locate(n: nat, k: nat, p: nat): (r: (nat, nat))
    requires 1 <= k && Offset(n, k) + p < Total(n)
    ensures k <= r.0 <= n && r.1 < Binom(n, r.0) && Offset(n, k) + p == Offset(n, r.0) + r.1
    decreases n + 1 - k
  {
    OffsetPastEnd(n, k);
    BinomPositive(n, k);
    if p < Binom(n, k) then (k, p) else Locate(n, k + 1, p - Binom(n, k))
  }

  /** Every non-empty subset of n positions, from the least to the most numerous. */
  function AllMasks(n: nat): (r: seq<Mask>)
    ensures |r| == Total(n) && forall j :: 0 <= j < |r| ==> |r[j]| == n
  {
    seq(Total(n), p requires 0 <= p < Total(n) => var l := Locate(n, 1, p); At(n, l.0, l.1))
  }

  /** `Locate` finds the size and index a position was built from. */
  lemma {:induction false} LocateFinds(n: nat, k0: nat, k: nat, i: nat)
    requires 1 <= k0 <= k <= n && i < Binom(n, k)
    ensures Offset(n, k0) <= Offset(n, k) && Offset(n, k) + i < Total(n)
    ensures Locate(n, k0, Offset(n, k) + i - Offset(n, k0)) == (k, i)
    decreases k - k0
  {
    OffsetMonotone(n, k0, k);
    OffsetMonotone(n, k + 1, n + 1);
    if k0 < k {
      OffsetMonotone(n, k0 + 1, k);
      var p := Offset(n, k) + i - Offset(n, k0);
      assert Offset(n, k0 + 1) == Offset(n, k0) + Binom(n, k0);
      assert p >= Binom(n, k0);
      LocateFinds(n, k0 + 1, k, i);
      assert Locate(n, k0, p) == Locate(n, k0 + 1, p - Binom(n, k0));
    }
  }

  /** The i-th mask of size k sits at position `Offset(n, k) + i`. */
  lemma AllMasksAt(n: nat, k: nat, i: nat)
    requires 1 <= k <= n && i < Binom(n, k)
    ensures Offset(n, k) + i < |AllMasks(n)| && AllMasks(n)[Offset(n, k) + i] == At(n, k, i)
  {
    LocateFinds(n, 1, k, i);
  }

  /** Every position holds the mask of some size and index. */
  lemma AllMasksLocate(n: nat, p: nat) returns (k: nat, i: nat)
    requires p < |AllMasks(n)|
    ensures 1 <= k <= n && i < Binom(n, k) && p == Offset(n, k) + i
    ensures AllMasks(n)[p] == At(n, k, i)
  {
    var l := Locate(n, 1, p);
    k, i := l.0, l.1;
  }

  /**
   * The reference list of all sizes: no empty mask, sizes never decrease,
   * no mask twice, and every non-empty mask present.
   */
  lemma AllMasksSizes(n: nat, p: nat)
    requires p < |AllMasks(n)|
    ensures |AllMasks(n)[p]| == n && 1 <= Count(AllMasks(n)[p])
  {
    var k, i := AllMasksLocate(n, p);
  }

  lemma AllMasksSorted(n: nat, p: nat, q: nat)
    requires p < q < |AllMasks(n)|
    ensures Count(AllMasks(n)[p]) <= Count(AllMasks(n)[q])
  {
    var kp, ip := AllMasksLocate(n, p);
    var kq, iq := AllMasksLocate(n, q);
    BlocksOrdered(n, kq, iq, kp, ip);
  }

  lemma AllMasksDistinct(n: nat, p: nat, q: nat)
    requires p < q < |AllMasks(n)|
    ensures AllMasks(n)[p] != AllMasks(n)[q]
  {
    var kp, ip := AllMasksLocate(n, p);
    var kq, iq := AllMasksLocate(n, q);
    if kp == kq {
      IndexAt(n, kp, ip);
      IndexAt(n, kq, iq);
    }
  }

  lemma AllMasksComplete(m: Mask)
    requires 1 <= Count(m)
    ensures m in AllMasks(|m|)
  {
    var n, k, i := |m|, Count(m), Index(m);
    CountBound(m);
    AllMasksAt(n, k, i);
    var all := AllMasks(n);
    assert all[Offset(n, k) + i] == m;
  }

  /** The positions a mask selects, in list order (the loop that fills `resultList`). */
  function Select(xs: seq<VarId>, m: Mask): (r: seq<VarId>)
    requires |m| == |xs|
    ensures |r| == Count(m)
    decreases |m|
  {
    if |m| == 0 then []
    else (if m[0] then [xs[0]] else []) + Select(xs[1..], m[1..])
  }

  /** A selection has one element per set bit, each taken from the list. */
  lemma {:induction false} SelectShape(xs: seq<VarId>, m: Mask)
    requires |m| == |xs|
    ensures |Select(xs, m)| == Count(m)
    ensures forall x :: x in Select(xs, m) ==> x in xs
    decreases |m|
  {
    if |m| > 0 {
      SelectShape(xs[1..], m[1..]);
      assert forall x :: x in xs[1..] ==> x in xs;
    }
  }

  /** The first element is selected exactly when the first bit is set, if it does not recur later. */
  lemma SelectHead(xs: seq<VarId>, m: Mask)
    requires |m| == |xs| > 0 && xs[0] !in xs[1..]
    ensures xs[0] in Select(xs, m) <==> m[0]
  {
    var rest := Select(xs[1..], m[1..]);
    SelectShape(xs[1..], m[1..]);
    if m[0] {
      assert Select(xs, m) == [xs[0]] + rest;
    } else {
      assert Select(xs, m) == rest;
    }
  }

  /** Over a list without repetitions, different masks select different sublists. */
  lemma {:induction false} SelectInjective(xs: seq<VarId>, m1: Mask, m2: Mask)
    requires |m1| == |xs| && |m2| == |xs|
    requires forall i, j :: 0 <= i < j < |xs| ==> xs[i] != xs[j]
    requires Select(xs, m1) == Select(xs, m2)
    ensures m1 == m2
    decreases |xs|
  {
    if |xs| > 0 {
      var t := xs[1..];
      forall i, j | 0 <= i < j < |t|
        ensures t[i] != t[j]
      {
        assert t[i] == xs[i + 1] && t[j] == xs[j + 1];
      }
      assert xs[0] !in t;
      SelectHead(xs, m1);
      SelectHead(xs, m2);
      var s1 := Select(t, m1[1..]);
      var s2 := Select(t, m2[1..]);
      if m1[0] {
        assert s1 == Select(xs, m1)[1..];
        assert s2 == Select(xs, m2)[1..];
      } else {
        assert s1 == Select(xs, m1) && s2 == Select(xs, m2);
      }
      SelectInjective(t, m1[1..], m2[1..]);
      assert m1 == [m1[0]] + m1[1..] && m2 == [m2[0]] + m2[1..];
    }
  }

  /**
   * The iterator's state: the field `k` (the current size) and `nextBitSet`,
   * the mask the next call returns (`None` once `hasNext()` is false).
   */
  datatype Cursor = Cursor(k: nat, next: Option<Mask>)

  /**
   * advanceToNextK: moves to the next size and sets up its first mask, or
   * finishes once the size would exceed the list.
   */
  function AdvanceToNextK(n: nat, k: nat): (r: Cursor)
    ensures r.k == k + 1
    ensures r.next.Some? <==> k + 1 <= n
    ensures r.next.Some? ==> Binom(n, k + 1) > 0 && r.next.value == At(n, k + 1, 0)
  {
    if k + 1 > n then Cursor(k + 1, None)
    else
      AtFirst(n, k + 1);
      Cursor(k + 1, Some(FirstMask(k + 1, n)))
  }

  /** The iterator as created: `k` is 0 and the constructor's `advanceToNextK()` runs once. */
  function Start(n: nat): Cursor
  {
    AdvanceToNextK(n, 0)
  }

  /** The cursor after `next()`: the mask's successor, or the next size when there is none. */
  function Step(n: nat, c: Cursor): (r: Cursor)
    requires c.next.Some?
    ensures r.k == c.k <==> Advance(c.next.value).Some?
    ensures r.k != c.k ==> r.k == c.k + 1 && (r.next.Some? <==> c.k + 1 <= n)
    ensures r.k != c.k && r.next.Some? ==> Binom(n, c.k + 1) > 0 && r.next.value == At(n, c.k + 1, 0)
  {
    match Advance(c.next.value)
    case Some(m) => Cursor(c.k, Some(m))
    case None => AdvanceToNextK(n, c.k)
  }

  /** A cursor on the i-th mask of size k steps to the next mask of the reference list. */
  lemma StepFollowsAt(n: nat, c: Cursor, i: nat)
    requires 1 <= c.k <= n && i < Binom(n, c.k) && c.next == Some(At(n, c.k, i))
    ensures i + 1 < Binom(n, c.k) ==> Step(n, c) == Cursor(c.k, Some(At(n, c.k, i + 1)))
    ensures i + 1 == Binom(n, c.k) && c.k < n ==>
              Step(n, c).k == c.k + 1 && Binom(n, c.k + 1) > 0 && Step(n, c).next == Some(At(n, c.k + 1, 0))
    ensures i + 1 == Binom(n, c.k) && c.k == n ==> Step(n, c).next.None?
  {
    AdvanceWalksAt(n, c.k, i);
  }

  /**
   * The cursor is at position `pos` of `AllMasks(n)`: on the i-th mask of
   * its size, right after every mask of the smaller sizes, or finished once
   * every mask has been returned.
   */
  ghost predicate OnTrack(n: nat, c: Cursor, i: nat, pos: nat)
  {
    (c.next.None? ==> pos == Total(n))
    && (c.next.Some? ==>
          1 <= c.k <= n && i < Binom(n, c.k) && c.next.value == At(n, c.k, i) && pos == Offset(n, c.k) + i)
  }

  /** The new iterator is at the start of `AllMasks(n)`. */
  lemma StartOnTrack(n: nat)
    ensures OnTrack(n, Start(n), 0, 0)
  {
  }

  /** The index of the cursor's mask within its size after one step. */
  ghost function NextIndex(n: nat, c: Cursor, i: nat): nat
  {
    if i + 1 < Binom(n, c.k) then i + 1 else 0
  }

  /** The cursor after the i-th mask of its size is on track one position further. */
  lemma AfterOnTrack(n: nat, c: Cursor, i: nat, pos: nat, next: Cursor)
    requires OnTrack(n, c, i, pos) && c.next.Some?
    requires i + 1 < Binom(n, c.k) ==> next == Cursor(c.k, Some(At(n, c.k, i + 1)))
    requires i + 1 == Binom(n, c.k) && c.k < n ==>
               next.k == c.k + 1 && Binom(n, c.k + 1) > 0 && next.next == Some(At(n, c.k + 1, 0))
    requires i + 1 == Binom(n, c.k) && c.k == n ==> next.next.None?
    ensures OnTrack(n, next, NextIndex(n, c, i), pos + 1)
  {
    assert Offset(n, c.k + 1) == Offset(n, c.k) + Binom(n, c.k);
  }

  /** One `next()` returns the mask at `pos` and moves the cursor to `pos + 1`. */
  lemma StepOnTrack(n: nat, c: Cursor, i: nat, pos: nat)
    requires OnTrack(n, c, i, pos) && c.next.Some?
    ensures pos < |AllMasks(n)| && AllMasks(n)[pos] == c.next.value
    ensures OnTrack(n, Step(n, c), NextIndex(n, c, i), pos + 1)
  {
    AllMasksAt(n, c.k, i);
    StepFollowsAt(n, c, i);
    AfterOnTrack(n, c, i, pos, Step(n, c));
  }

  /** `r` holds the selections of the first |r| masks of `all`. */
  ghost predicate Collected(xs: seq<VarId>, r: seq<seq<VarId>>, all: seq<Mask>)
    requires forall j :: 0 <= j < |all| ==> |all[j]| == |xs|
  {
    |r| <= |all| && forall j :: 0 <= j < |r| ==> r[j] == Select(xs, all[j])
  }

  /** Appending the selection of the next mask keeps `r` collected. */
  lemma CollectedAppend(xs: seq<VarId>, r: seq<seq<VarId>>, all: seq<Mask>)
    requires forall j :: 0 <= j < |all| ==> |all[j]| == |xs|
    requires Collected(xs, r, all) && |r| < |all|
    ensures Collected(xs, r + [Select(xs, all[|r|])], all)
  {
    var r' := r + [Select(xs, all[|r|])];
    forall j | 0 <= j < |r'|
      ensures r'[j] == Select(xs, all[j])
    {
      if j < |r| {
        assert r'[j] == r[j];
      } else {
        assert j == |r| && r'[j] == Select(xs, all[|r|]);
      }
    }
  }

  /**
   * The for-each loop over `new Combinations(xs)`: collects what each
   * `next()` returns while `hasNext()` holds. The result is the selection
   * of every non-empty mask in the order of `AllMasks`.
   */
  method Enumerate(xs: seq<VarId>) returns (r: seq<seq<VarId>>)
    ensures |r| == |AllMasks(|xs|)|
    ensures forall j :: 0 <= j < |r| ==> r[j] == Select(xs, AllMasks(|xs|)[j])
  {
    var n := |xs|;
    var c := Start(n);
    ghost var i: nat := 0;
    ghost var all := AllMasks(n);
    StartOnTrack(n);
    r := [];
    while c.next.Some?
      invariant OnTrack(n, c, i, |r|) && Collected(xs, r, all)
      decreases |all| - |r|
    {
      var mask := c.next.value;
      StepOnTrack(n, c, i, |r|);
      CollectedAppend(xs, r, all);
      r := r + [Select(xs, mask)];
      i := NextIndex(n, c, i);
      c := Step(n, c);
    }
  }

  /** `r` is what `Enumerate(xs)` returns: the selections of `AllMasks`, in order. */
  ghost predicate Enumerates(xs: seq<VarId>, r: seq<seq<VarId>>)
  {
    |r| == |AllMasks(|xs|)| && forall j :: 0 <= j < |r| ==> r[j] == Select(xs, AllMasks(|xs|)[j])
  }

  /** No returned subset is empty, none is larger than the list, and each draws only on the list. */
  lemma EnumerateNonEmpty(xs: seq<VarId>, r: seq<seq<VarId>>, j: int)
    requires Enumerates(xs, r) && 0 <= j < |r|
    ensures 1 <= |r[j]| <= |xs|
    ensures forall x :: x in r[j] ==> x in xs
  {
    var m := AllMasks(|xs|)[j];
    AllMasksSizes(|xs|, j);
    CountBound(m);
    SelectShape(xs, m);
  }

  /** The subsets come from the least to the most numerous. */
  lemma EnumerateSorted(xs: seq<VarId>, r: seq<seq<VarId>>, j1: int, j2: int)
    requires Enumerates(xs, r) && 0 <= j1 < j2 < |r|
    ensures |r[j1]| <= |r[j2]|
  {
    var all := AllMasks(|xs|);
    AllMasksSorted(|xs|, j1, j2);
    SelectShape(xs, all[j1]);
    SelectShape(xs, all[j2]);
  }

  /** Every non-empty subset of the list's positions is returned. */
  lemma EnumerateComplete(xs: seq<VarId>, r: seq<seq<VarId>>, m: Mask)
    requires Enumerates(xs, r) && |m| == |xs| && Count(m) > 0
    ensures Select(xs, m) in r
  {
    var all := AllMasks(|xs|);
    AllMasksComplete(m);
    var j :| 0 <= j < |all| && all[j] == m;
    assert r[j] == Select(xs, m);
  }

  /** Over n elements the iterator yields 2^n - 1 subsets. */
  lemma EnumerateCount(xs: seq<VarId>, r: seq<seq<VarId>>)
    requires Enumerates(xs, r)
    ensures |r| + 1 == Pow2(|xs|)
  {
    TotalCount(|xs|);
  }

  /** Over a list without repetitions, no subset is returned twice. */
  lemma EnumerateDistinct(xs: seq<VarId>, r: seq<seq<VarId>>, j1: int, j2: int)
    requires Enumerates(xs, r) && 0 <= j1 < j2 < |r|
    requires forall i, j :: 0 <= i < j < |xs| ==> xs[i] != xs[j]
    ensures r[j1] != r[j2]
  {
    var all := AllMasks(|xs|);
    AllMasksDistinct(|xs|, j1, j2);
    if r[j1] == r[j2] {
      SelectInjective(xs, all[j1], all[j2]);
    }
  }

  /** The masks of size one and two over two positions. */
  lemma TwoMasks()
    ensures Binom(2, 1) == 2 && Binom(2, 2) == 1
    ensures At(2, 1, 0) == [true, false] && At(2, 1, 1) == [false, true] && At(2, 2, 0) == [true, true]
  {
    assert Binom(0, 0) == 1 && Binom(1, 0) == 1 && Binom(1, 1) == 1 && Binom(2, 1) == 2 && Binom(2, 2) == 1;
    assert At(0, 0, 0) == [];
    assert At(1, 0, 0) == [false];
    assert At(1, 1, 0) == [true];
  }

  /** The masks of each size over three positions, by index. */
  lemma ThreeAts()
    ensures Binom(3, 1) == 3 && Binom(3, 2) == 3 && Binom(3, 3) == 1
    ensures At(3, 1, 0) == [true, false, false] && At(3, 1, 1) == [false, true, false]
    ensures At(3, 1, 2) == [false, false, true]
    ensures At(3, 2, 0) == [true, true, false] && At(3, 2, 1) == [true, false, true]
    ensures At(3, 2, 2) == [false, true, true] && At(3, 3, 0) == [true, true, true]
  {
    TwoMasks();
    assert Binom(3, 1) == 3 && Binom(3, 2) == 3 && Binom(3, 3) == 1;
    assert At(3, 2, 0) == [true] + At(2, 1, 0);
    assert At(3, 2, 1) == [true] + At(2, 1, 1);
    assert At(3, 2, 2) == [false] + At(2, 2, 0);
    assert At(3, 3, 0) == [true] + At(2, 2, 0);
  }

  /** A selection over three positions, bit by bit. */
  lemma SelectThree(xs: seq<VarId>, p: bool, q: bool, t: bool)
    requires |xs| == 3
    ensures Select(xs, [p, q, t]) == (if p then [xs[0]] else []) + (if q then [xs[1]] else []) + (if t then [xs[2]] else [])
  {
    var m := [p, q, t];
    assert m[1..] == [q, t] && m[1..][1..] == [t] && m[1..][1..][1..] == [];
    assert xs[1..][0] == xs[1] && xs[1..][1..][0] == xs[2];
    assert Select(xs[1..][1..][1..], []) == [];
    assert Select(xs[1..][1..], [t]) == (if t then [xs[2]] else []);
    assert Select(xs[1..], [q, t]) == (if q then [xs[1]] else []) + (if t then [xs[2]] else []);
  }

  /** The singletons of the documented example come first. */
  lemma DocumentedSingles(a: VarId, b: VarId, c: VarId, r: seq<seq<VarId>>)
    requires Enumerates([a, b, c], r)
    ensures |r| == 7 && r[0] == [a] && r[1] == [b] && r[2] == [c]
  {
    var xs := [a, b, c];
    assert |xs| == 3;
    ThreeAts();
    assert Offset(3, 1) == 0;
    assert |r| == 7 by { assert Total(3) == Offset(3, 3) + Binom(3, 3); }
    assert r[0] == [a] by { AllMasksAt(3, 1, 0); SelectThree(xs, true, false, false); }
    assert r[1] == [b] by { AllMasksAt(3, 1, 1); SelectThree(xs, false, true, false); }
    assert r[2] == [c] by { AllMasksAt(3, 1, 2); SelectThree(xs, false, false, true); }
  }

  /** Then the pairs. */
  lemma DocumentedPairs(a: VarId, b: VarId, c: VarId, r: seq<seq<VarId>>)
    requires Enumerates([a, b, c], r)
    ensures |r| == 7 && r[3] == [a, b] && r[4] == [a, c] && r[5] == [b, c]
  {
    var xs := [a, b, c];
    assert |xs| == 3;
    ThreeAts();
    assert Offset(3, 2) == 3;
    assert |r| == 7 by { assert Total(3) == Offset(3, 3) + Binom(3, 3); }
    assert r[3] == [a, b] by { AllMasksAt(3, 2, 0); SelectThree(xs, true, true, false); }
    assert r[4] == [a, c] by { AllMasksAt(3, 2, 1); SelectThree(xs, true, false, true); }
    assert r[5] == [b, c] by { AllMasksAt(3, 2, 2); SelectThree(xs, false, true, true); }
  }

  /** Then the whole list, last. */
  lemma DocumentedWhole(a: VarId, b: VarId, c: VarId, r: seq<seq<VarId>>)
    requires Enumerates([a, b, c], r)
    ensures |r| == 7 && r[6] == [a, b, c]
  {
    var xs := [a, b, c];
    assert |xs| == 3;
    ThreeAts();
    assert Offset(3, 3) == 6;
    assert |r| == 7 by { assert Total(3) == Offset(3, 3) + Binom(3, 3); }
    assert r[6] == [a, b, c] by { AllMasksAt(3, 3, 0); SelectThree(xs, true, true, true); }
  }

  /** The documented example: for the list ABC the order is A, B, C, AB, AC, BC, ABC. */
  lemma DocumentedOrder(a: VarId, b: VarId, c: VarId, r: seq<seq<VarId>>)
    requires Enumerates([a, b, c], r)
    ensures r == [[a], [b], [c], [a, b], [a, c], [b, c], [a, b, c]]
  {
    DocumentedSingles(a, b, c, r);
    DocumentedPairs(a, b, c, r);
    DocumentedWhole(a, b, c, r);
  }

}
