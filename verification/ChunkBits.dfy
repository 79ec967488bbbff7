/**
 The bitmap of a page of chunks: bit i is set while chunk i is free.  The bitmap is kept in words of
 64 bits (MALLOC_BITS); its bits behind the last chunk may be anything.
 */
module ChunkBits {

  // ---------- counting and finding set bits ----------

  function CountTo(bits: seq<bool>, k: nat): (n: nat)
    requires k <= |bits|
    ensures n <= k
  {
    if k == 0 then 0 else CountTo(bits, k - 1) + (if bits[k - 1] then 1 else 0)
  }

  function Count(bits: seq<bool>): nat { CountTo(bits, |bits|) }

  lemma {:induction false} CountToUpdate(bits: seq<bool>, i: nat, b: bool, k: nat)
    requires i < |bits| && k <= |bits|
    ensures CountTo(bits[i := b], k)
         == CountTo(bits, k) + (if i < k then (if b then 1 else 0) - (if bits[i] then 1 else 0) else 0)
  {
    if k != 0 { CountToUpdate(bits, i, b, k - 1); }
  }

  lemma {:induction false} CountToMonotone(bits: seq<bool>, j: nat, k: nat)
    requires j <= k <= |bits|
    ensures CountTo(bits, j) <= CountTo(bits, k) <= CountTo(bits, j) + (k - j)
  {
    if j < k { CountToMonotone(bits, j, k - 1); }
  }

  /** When no bit from j to k is set, the count stands still. */
  lemma {:induction false} CountToGap(bits: seq<bool>, j: nat, k: nat)
    requires j <= k <= |bits| && forall i :: j <= i < k ==> !bits[i]
    ensures CountTo(bits, k) == CountTo(bits, j)
  {
    if j < k { CountToGap(bits, j, k - 1); }
  }

  lemma {:induction false} CountAllSet(bits: seq<bool>, k: nat)
    requires k <= |bits| && forall i :: 0 <= i < k ==> bits[i]
    ensures CountTo(bits, k) == k
  {
    if k != 0 { CountAllSet(bits, k - 1); }
  }

  /** Bit i is the one with exactly r set bits in front of it. */
  ghost predicate IsNthSet(bits: seq<bool>, r: nat, i: nat) {
    i < |bits| && bits[i] && CountTo(bits, i) == r
  }

  lemma NthSetUnique(bits: seq<bool>, r: nat, i: nat, j: nat)
    requires IsNthSet(bits, r, i) && IsNthSet(bits, r, j)
    ensures i == j
  {
    if i < j { CountToMonotone(bits, i + 1, j); }
    if j < i { CountToMonotone(bits, j + 1, i); }
  }

  /** Some bit from k to n is set while the part before n has more set bits than the part before k. */
  lemma {:induction false} MoreToCome(bits: seq<bool>, k: nat, n: nat)
    requires k <= |bits| && n <= |bits| && CountTo(bits, k) < CountTo(bits, n)
    ensures k < n
    ensures exists i :: k <= i < n && bits[i]
  {
    if n <= k {
      CountToMonotone(bits, n, k);
    } else if forall i :: k <= i < n ==> !bits[i] {
      CountToGap(bits, k, n);
    }
  }

  /** The set bits before n are all there are exactly when none is set behind. */
  lemma CountedAllIff(bits: seq<bool>, n: nat)
    requires n <= |bits|
    ensures CountTo(bits, n) == Count(bits) <==> forall i :: n <= i < |bits| ==> !bits[i]
  {
    if forall i :: n <= i < |bits| ==> !bits[i] {
      CountToGap(bits, n, |bits|);
    } else {
      var i :| n <= i < |bits| && bits[i];
      CountToMonotone(bits, n, i);
      CountToMonotone(bits, i + 1, |bits|);
    }
  }

  // ---------- the search of malloc_bytes ----------

  ghost predicate WordEmpty(bits: seq<bool>, w: nat) {
    forall i :: w * 64 <= i < (w + 1) * 64 && i < |bits| ==> !bits[i]
  }

  /**
   Find the chunk to hand out: the first word that is not empty, the first bit of it that is set, and
   from there `skip` set bits further on, the random walk (skip is 0 without guard pages).  Whatever
   the bits behind the first n are, the walk stops on the set bit with `skip` set bits before it, and
   that bit is one of the first n when those have more than `skip` set ones.
   */
  method FindChunk(bits: seq<bool>, skip: nat, ghost n: nat) returns (lp: nat, k: nat)
    requires n <= |bits| && skip < CountTo(bits, n) && |bits| % 64 == 0
    ensures k < 64 && IsNthSet(bits, skip, lp * 64 + k) && lp * 64 + k < n
  {
    MoreToCome(bits, 0, n);
    lp := FirstWord(bits);
    k := 0;
    CountToGap(bits, 0, lp * 64);
    while !bits[lp * 64 + k]
      invariant k < 64 && lp * 64 + k < |bits|
      invariant CountTo(bits, lp * 64 + k) == 0
      invariant exists j :: lp * 64 + k <= j < (lp + 1) * 64 && bits[j]
      decreases 64 - k
    {
      k := k + 1;
    }
    var i := skip;
    while i > 0
      invariant 0 <= i <= skip && k < 64 && lp * 64 + k < |bits|
      invariant CountTo(bits, lp * 64 + k + 1) + i == skip + 1
      invariant i == 0 ==> bits[lp * 64 + k]
      decreases |bits| - (lp * 64 + k)
    {
      MoreToCome(bits, lp * 64 + k + 1, n);
      k := k + 1;
      if k >= 64 {
        lp, k := lp + 1, 0;
      }
      if bits[lp * 64 + k] {
        i := i - 1;
      }
    }
    assert CountTo(bits, lp * 64 + k + 1) == CountTo(bits, lp * 64 + k) + 1;
    MoreToCome(bits, lp * 64 + k, n);
  }

  /** The first word of the bitmap which isn't empty. */
  method FirstWord(bits: seq<bool>) returns (lp: nat)
    requires |bits| % 64 == 0 && exists i :: 0 <= i < |bits| && bits[i]
    ensures (lp + 1) * 64 <= |bits| && !WordEmpty(bits, lp)
    ensures forall i :: 0 <= i < lp * 64 ==> !bits[i]
  {
    lp := 0;
    ghost var j :| 0 <= j < |bits| && bits[j];
    while WordIsEmpty(bits, lp)
      invariant lp * 64 <= j
      invariant forall i :: 0 <= i < lp * 64 ==> !bits[i]
      decreases j - lp * 64
    {
      assert WordEmpty(bits, lp);
      lp := lp + 1;
    }
  }

  predicate WordIsEmpty(bits: seq<bool>, w: nat)
    ensures WordIsEmpty(bits, w) <==> WordEmpty(bits, w)
  {
    forall i :: w * 64 <= i < (w + 1) * 64 && i < |bits| ==> !bits[i]
  }
}
