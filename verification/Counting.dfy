/** Counting indices of an interval, and the 32-bit unsigned arithmetic of the C counters. */
module Counting {

  const U32: nat := 0x1_0000_0000

  /** `x + n` on a `uint32_t`. */
  function Add32(x: nat, n: nat): nat {
    (x + n) % U32
  }

  /** `x--` on a `uint32_t`. */
  function Dec32(x: nat): nat {
    if x == 0 then U32 - 1 else x - 1
  }

  lemma Add32Snoc(x: nat, n: nat)
    ensures Add32(Add32(x, n), 1) == Add32(x, n + 1)
  {
  }

  /** How many indices of `lo..hi` satisfy `p`. */
  function Count(lo: nat, hi: nat, p: nat -> bool): (c: nat)
    ensures lo <= hi ==> c <= hi - lo
    decreases hi - lo
  {
    if lo >= hi then 0 else (if p(lo) then 1 else 0) + Count(lo + 1, hi, p)
  }

  lemma {:induction false} CountCong(lo: nat, hi: nat, p: nat -> bool, q: nat -> bool)
    requires forall i :: lo <= i < hi ==> p(i) == q(i)
    ensures Count(lo, hi, p) == Count(lo, hi, q)
    decreases hi - lo
  {
    if lo < hi {
      CountCong(lo + 1, hi, p, q);
    }
  }

  lemma {:induction false} CountSnoc(lo: nat, hi: nat, p: nat -> bool)
    requires lo <= hi
    ensures Count(lo, hi + 1, p) == Count(lo, hi, p) + if p(hi) then 1 else 0
    decreases hi - lo
  {
    if lo < hi {
      CountSnoc(lo + 1, hi, p);
    }
  }

  /** The count is the whole interval exactly when every index is counted. */
  lemma {:induction false} CountFull(lo: nat, hi: nat, p: nat -> bool)
    requires lo <= hi
    ensures Count(lo, hi, p) == hi - lo <==> forall i :: lo <= i < hi ==> p(i)
    decreases hi - lo
  {
    if lo < hi {
      CountFull(lo + 1, hi, p);
    }
  }

  lemma {:induction false} CountNone(lo: nat, hi: nat, p: nat -> bool)
    ensures Count(lo, hi, p) == 0 <==> forall i :: lo <= i < hi ==> !p(i)
    decreases hi - lo
  {
    if lo < hi {
      CountNone(lo + 1, hi, p);
    }
  }

  /** Indices counted by `p` and those counted by `q` add up when the two exclude each other and cover `r`. */
  lemma {:induction false} CountUnion(lo: nat, hi: nat, p: nat -> bool, q: nat -> bool, r: nat -> bool)
    requires forall i :: lo <= i < hi ==> !(p(i) && q(i)) && (r(i) <==> p(i) || q(i))
    ensures Count(lo, hi, p) + Count(lo, hi, q) == Count(lo, hi, r)
    decreases hi - lo
  {
    if lo < hi {
      CountUnion(lo + 1, hi, p, q, r);
    }
  }

  /** A stronger predicate counts no more, and counts the same only when it is not stronger. */
  lemma {:induction false} CountSub(lo: nat, hi: nat, p: nat -> bool, q: nat -> bool)
    requires forall i :: lo <= i < hi && p(i) ==> q(i)
    ensures Count(lo, hi, p) <= Count(lo, hi, q)
    ensures Count(lo, hi, p) == Count(lo, hi, q) <==> forall i :: lo <= i < hi ==> (p(i) <==> q(i))
    decreases hi - lo
  {
    if lo < hi {
      CountSub(lo + 1, hi, p, q);
    }
  }

  lemma {:induction false} CountSplit(lo: nat, mid: nat, hi: nat, p: nat -> bool)
    requires lo <= mid <= hi
    ensures Count(lo, hi, p) == Count(lo, mid, p) + Count(mid, hi, p)
    decreases mid - lo
  {
    if lo < mid {
      CountSplit(lo + 1, mid, hi, p);
    }
  }
}
