/**
 The ladder of table lengths.  The load factor is Tor's 0.6; no length is a multiple of 5, so the
 truncated floating-point product is the integer quotient used here.
 */
module HashPrimes {

  const PRIMES: seq<nat> := [
    53, 97, 193, 389,
    769, 1543, 3079, 6151,
    12289, 24593, 49157, 98317,
    196613, 393241, 786433, 1572869,
    3145739, 6291469, 12582917, 25165843,
    50331653, 100663319, 201326611, 402653189
  ]

  const N_PRIMES: nat := 24

  function Prime(i: nat): nat
    requires i < N_PRIMES
  {
    assert |PRIMES| == 24;
    PRIMES[i]
  }

  /** (unsigned)(load * new_len) */
  function LoadLimit(length: nat): nat { length * 3 / 5 }

  /** The limit in arithmetic: the greatest number of entries with entries / length at most 3/5. */
  lemma LoadLimitIs(length: nat)
    ensures 5 * LoadLimit(length) <= 3 * length < 5 * (LoadLimit(length) + 1)
  {
  }

  /** Everything about the table of lengths that the code relies on. */
  lemma Ladder(i: nat)
    requires i < N_PRIMES
    ensures 53 <= Prime(i) < 0x1_0000_0000 && 31 <= LoadLimit(Prime(i))
    ensures Prime(i) % 2 != 0 && Prime(i) % 3 != 0 && Prime(i) % 5 != 0 && Prime(i) % 7 != 0
    ensures i + 1 < N_PRIMES ==> 18 * Prime(i) < 10 * Prime(i + 1) < 21 * Prime(i)
    ensures i + 1 < N_PRIMES ==> Prime(i) < Prime(i + 1) && LoadLimit(Prime(i)) + 1 < LoadLimit(Prime(i + 1))
  {
    var primes := PRIMES;
    assert Prime(i) == primes[i];
  }

  /** The shortest table is for 31 entries, the longest for 241591913. */
  lemma FirstAndLast()
    ensures LoadLimit(Prime(0)) == 31 && LoadLimit(Prime(N_PRIMES - 1)) == 241591913
  {
    var primes := PRIMES;
    assert Prime(0) == primes[0] && Prime(23) == primes[23];
  }

  lemma {:induction false} LimitsClimb(i: nat, j: nat)
    requires i <= j < N_PRIMES
    ensures Prime(i) <= Prime(j) && LoadLimit(Prime(i)) <= LoadLimit(Prime(j))
    decreases j - i
  {
    Ladder(i);
    Ladder(j);
    if i < j {
      Ladder(j - 1);
      LimitsClimb(i, j - 1);
    }
  }

  /** The index the loop of HT_GROW stops at, or the read of Prime(N_PRIMES) behind the table. */
  datatype Climbed = At(idx: nat) | BehindTable

  /**
   The do-while loop of HT_GROW after it moved on to index i: it goes on while the limit does not
   exceed the size and i < N_PRIMES, which is one time more than there are lengths left.
   */
  function Climb(i: nat, size: nat): Climbed
    decreases N_PRIMES - i
  {
    if i >= N_PRIMES then BehindTable
    else if LoadLimit(Prime(i)) <= size then Climb(i + 1, size)
    else At(i)
  }

  /**
   The loop reads behind the table of lengths exactly when the size asked for reaches the limit of the
   last length; otherwise it finds the first length from i on whose limit exceeds the size.
   */
  lemma {:induction false} ClimbBehindTableIff(i: nat, size: nat)
    requires i < N_PRIMES
    ensures Climb(i, size) == BehindTable <==> LoadLimit(Prime(N_PRIMES - 1)) <= size
    ensures Climb(i, size).At? ==>
              i <= Climb(i, size).idx < N_PRIMES && size < LoadLimit(Prime(Climb(i, size).idx))
              && forall k :: i <= k < Climb(i, size).idx ==> LoadLimit(Prime(k)) <= size
    decreases N_PRIMES - i
  {
    Ladder(i);
    LimitsClimb(i, N_PRIMES - 1);
    if LoadLimit(Prime(i)) <= size && i + 1 < N_PRIMES {
      ClimbBehindTableIff(i + 1, size);
    }
  }

  /** A table that grows because it is full to its limit climbs exactly one length. */
  lemma GrowthClimbsOne(primeIdx: int, entries: nat)
    requires -1 <= primeIdx < N_PRIMES - 1
    requires entries <= (if primeIdx == -1 then 0 else LoadLimit(Prime(primeIdx)))
    ensures Climb((primeIdx + 1) as nat, entries + 1) == At((primeIdx + 1) as nat)
  {
    Ladder((primeIdx + 1) as nat);
    if primeIdx >= 0 { Ladder(primeIdx as nat); }
  }
}
