/**
 random_derangement: a shuffle from the back that gives up when it is about to leave an element in its
 place.  The random numbers are given: choices[j] is what randint(0, j + 1) returns in step j.
 */
module Derangements {
  import opened Links

  datatype Outcome = Done(v: seq<nat>) | Failed

  function Swap(v: seq<nat>, j: nat, p: nat): seq<nat>
    requires j < |v| && p < |v|
  {
    v[j := v[p]][p := v[j]]
  }

  /** Choices that randint can make in the last k steps. */
  predicate Choosable(choices: seq<nat>, k: nat) {
    k <= |choices| && forall j :: 0 <= j < k ==> choices[j] <= j
  }

  /** Steps k - 1 down to 0. */
  function Steps(v: seq<nat>, k: nat, choices: seq<nat>): Outcome
    requires k <= |v| && Choosable(choices, k)
    decreases k
  {
    if k == 0 then Done(v)
    else if v[choices[k - 1]] == k - 1 then Failed
    else Steps(Swap(v, k - 1, choices[k - 1]), k - 1, choices)
  }

  /** list(range(n)) */
  function Range(n: nat): seq<nat> { seq(n, i => i) }

  function Attempt(n: nat, choices: seq<nat>): Outcome
    requires Choosable(choices, n)
  {
    Steps(Range(n), n, choices)
  }

  /** v has just the elements of w. */
  ghost predicate SameElements(v: seq<nat>, w: seq<nat>) {
    |v| == |w| && Distinct(v) && Distinct(w) && forall x :: x in v <==> x in w
  }

  /** A permutation of 0, ..., n - 1 in which nothing is where it was. */
  ghost predicate Derangement(n: nat, v: seq<nat>) {
    SameElements(v, Range(n)) && forall i :: 0 <= i < n ==> v[i] != i
  }

  lemma DerangementIs(n: nat, v: seq<nat>)
    ensures Derangement(n, v) <==>
      && |v| == n && (forall i, j :: 0 <= i < j < n ==> v[i] != v[j])
      && (forall x: nat :: x in v <==> x < n) && forall i :: 0 <= i < n ==> v[i] != i
  {
    forall x: nat ensures x in Range(n) <==> x < n {
      if x < n { assert Range(n)[x] == x; }
    }
  }

  lemma SwapSame(v: seq<nat>, j: nat, p: nat)
    requires j < |v| && p < |v| && Distinct(v)
    ensures SameElements(Swap(v, j, p), v)
  {
    var s := Swap(v, j, p);
    assert s[j] == v[p] && s[p] == v[j];
    forall x ensures x in s <==> x in v {
      if x in v {
        var i :| 0 <= i < |v| && v[i] == x;
        assert s[if i == j then p else if i == p then j else i] == x;
      }
      if x in s {
        var i :| 0 <= i < |s| && s[i] == x;
        assert v[if i == j then p else if i == p then j else i] == x;
      }
    }
  }

  /** The steps k - 1, ..., 0 permute, leave what is behind place k, and put nothing in its own place. */
  lemma {:induction false} StepsSound(v: seq<nat>, k: nat, choices: seq<nat>)
    requires k <= |v| && Choosable(choices, k) && Distinct(v)
    ensures var r := Steps(v, k, choices);
            r.Done? ==> SameElements(r.v, v) && r.v[k..] == v[k..] && forall j :: 0 <= j < k ==> r.v[j] != j
    decreases k
  {
    if k != 0 && v[choices[k - 1]] != k - 1 {
      var w := Swap(v, k - 1, choices[k - 1]);
      SwapSame(v, k - 1, choices[k - 1]);
      StepsSound(w, k - 1, choices);
      var r := Steps(v, k, choices);
      if r.Done? {
        assert r.v[k - 1] == r.v[k - 1..][0] == w[k - 1..][0];
        assert r.v[k..] == r.v[k - 1..][1..] == w[k - 1..][1..] == v[k..];
      }
    }
  }

  lemma AttemptSound(n: nat, choices: seq<nat>)
    requires Choosable(choices, n)
    ensures var r := Attempt(n, choices); r.Done? ==> Derangement(n, r.v)
  {
    StepsSound(Range(n), n, choices);
  }

  /** Whatever is wanted behind place k, some choices get the rest right. */
  lemma {:induction false} StepsReach(v: seq<nat>, k: nat, d: seq<nat>) returns (choices: seq<nat>)
    requires k <= |v| && SameElements(v, d) && v[k..] == d[k..] && forall j :: 0 <= j < k ==> d[j] != j
    ensures |choices| == k && Choosable(choices, k) && Steps(v, k, choices) == Done(d)
    decreases k
  {
    if k == 0 {
      assert v[0..] == v && d[0..] == d;
      return [];
    }
    var p := WhereIs(v, k, d);
    var w := Swap(v, k - 1, p);
    var rest := StepsReach(w, k - 1, d);
    choices := rest + [p];
    StepsPrefix(w, k - 1, rest, choices);
  }

  /** The element wanted at place k - 1 is still among the first k; swapping it there gets one more place right. */
  lemma WhereIs(v: seq<nat>, k: nat, d: seq<nat>) returns (p: nat)
    requires 0 < k <= |v| && SameElements(v, d) && v[k..] == d[k..]
    ensures p < k && v[p] == d[k - 1]
    ensures var w := Swap(v, k - 1, p); SameElements(w, d) && w[k - 1..] == d[k - 1..]
  {
    assert d[k - 1] in v;
    p :| 0 <= p < |v| && v[p] == d[k - 1];
    TailsAgree(v, d, k, p);
    SwapSame(v, k - 1, p);
    var w := Swap(v, k - 1, p);
    forall i | k - 1 <= i < |v| ensures w[i] == d[i] { TailsAgree(v, d, k, i); }
  }

  lemma TailsAgree(v: seq<nat>, d: seq<nat>, k: nat, i: nat)
    requires |v| == |d| && k <= |v| && v[k..] == d[k..] && i < |v|
    ensures k <= i ==> v[i] == d[i]
  {
    assert k <= i ==> v[i] == v[k..][i - k];
    assert k <= i ==> d[i] == d[k..][i - k];
  }

  lemma {:induction false} StepsPrefix(v: seq<nat>, k: nat, c: seq<nat>, d: seq<nat>)
    requires k <= |v| && Choosable(c, k) && Choosable(d, k) && c[..k] == d[..k]
    ensures Steps(v, k, c) == Steps(v, k, d)
    decreases k
  {
    if k != 0 {
      assert c[k - 1] == c[..k][k - 1] == d[k - 1];
      assert c[..k - 1] == c[..k][..k - 1] == d[..k - 1];
      if v[c[k - 1]] != k - 1 { StepsPrefix(Swap(v, k - 1, c[k - 1]), k - 1, c, d); }
    }
  }

  /** Different choices never lead to the same result. */
  lemma {:induction false} StepsInjective(v: seq<nat>, k: nat, c: seq<nat>, d: seq<nat>)
    requires k <= |v| && Choosable(c, k) && Choosable(d, k) && Distinct(v)
    requires Steps(v, k, c).Done? && Steps(v, k, c) == Steps(v, k, d)
    ensures c[..k] == d[..k]
    decreases k
  {
    if k != 0 {
      var j := k - 1;
      var wc, wd := Swap(v, j, c[j]), Swap(v, j, d[j]);
      SwapSame(v, j, c[j]);
      SwapSame(v, j, d[j]);
      StepsSound(wc, j, c);
      StepsSound(wd, j, d);
      var r := Steps(v, k, c).v;
      assert v[c[j]] == wc[j] == wc[j..][0] == r[j..][0] == wd[j..][0] == wd[j] == v[d[j]];
      StepsInjective(wc, j, c, d);
      assert c[..k] == c[..j] + [c[j]] && d[..k] == d[..j] + [d[j]];
    }
  }

  /** These choices, one for each step, are a way to the result d. */
  ghost predicate LeadsTo(n: nat, c: seq<nat>, d: seq<nat>) {
    |c| == n && Choosable(c, n) && Attempt(n, c) == Done(d)
  }

  /**
   An attempt's results are exactly the derangements, and each comes from exactly one sequence of
   choices: when all choices are equally likely, so are all derangements.
   */
  lemma EachDerangementOnce(n: nat, d: seq<nat>)
    ensures Derangement(n, d) <==> exists c :: LeadsTo(n, c, d)
    ensures forall c1, c2 :: LeadsTo(n, c1, d) && LeadsTo(n, c2, d) ==> c1 == c2
  {
    if Derangement(n, d) {
      assert Range(n)[n..] == d[n..];
      var c := StepsReach(Range(n), n, d);
      assert LeadsTo(n, c, d);
    }
    if c :| LeadsTo(n, c, d) {
      AttemptSound(n, c);
    }
    forall c1, c2 | LeadsTo(n, c1, d) && LeadsTo(n, c2, d) ensures c1 == c2
    {
      StepsInjective(Range(n), n, c1, c2);
      assert c1[..n] == c1 && c2[..n] == c2;
    }
  }

  /** The first element is never in its place when all steps are done: the check after the loop always succeeds. */
  lemma FinalCheckRedundant(n: nat, choices: seq<nat>)
    requires 0 < n && Choosable(choices, n)
    ensures var r := Attempt(n, choices); r.Done? ==> |r.v| == n && r.v[0] != 0
  {
    AttemptSound(n, choices);
  }

  /** There is no derangement of one element: every attempt fails. */
  lemma OneElementFails(choices: seq<nat>)
    requires Choosable(choices, 1)
    ensures Attempt(1, choices) == Failed
  {
  }

  // ---------- the code ----------

  /** The body of the while loop, in place. */
  method TryOnce(v: array<nat>, choices: seq<nat>) returns (ok: bool)
    requires v[..] == Range(v.Length) && Choosable(choices, v.Length)
    modifies v
    ensures ok == Attempt(v.Length, choices).Done? && (ok ==> v[..] == Attempt(v.Length, choices).v)
  {
    var j := v.Length - 1;
    while j >= 0
      invariant -1 <= j < v.Length
      invariant Steps(v[..], j + 1, choices) == Attempt(v.Length, choices)
    {
      var p := choices[j];
      if v[p] == j { return false; }
      ghost var s := v[..];
      v[j], v[p] := v[p], v[j];
      assert v[..] == Swap(s, j, p);
      j := j - 1;
    }
    return true;
  }

  /**
   random_derangement, given the choices of the attempts it makes: the first attempt that succeeds is
   returned.  The result is Failed when all the attempts given fail and the code would go on, which for
   one element it always does; for none, v[0] does not exist.
   */
  method RandomDerangement(n: nat, attempts: seq<seq<nat>>) returns (r: Outcome)
    requires 1 <= n && forall i :: 0 <= i < |attempts| ==> Choosable(attempts[i], n)
    ensures r.Done? ==> Derangement(n, r.v)
    ensures r.Done? ==> exists i :: 0 <= i < |attempts| && Attempt(n, attempts[i]) == r
                                    && forall k :: 0 <= k < i ==> Attempt(n, attempts[k]) == Failed
    ensures r.Failed? <==> forall i :: 0 <= i < |attempts| ==> Attempt(n, attempts[i]) == Failed
  {
    for i := 0 to |attempts|
      invariant forall k :: 0 <= k < i ==> Attempt(n, attempts[k]) == Failed
    {
      var v := new nat[n](k => k);
      assert v[..] == Range(n);
      AttemptSound(n, attempts[i]);
      var ok := TryOnce(v, attempts[i]);
      if ok && v[0] != 0 {
        return Done(v[..]);
      }
      if ok { assert false; }
    }
    return Failed;
  }

  // ---------- the training sampler ----------

  /** Each anchor has one pair, and its negative is another example. */
  ghost predicate PairsOk(n: nat, pairs: seq<(nat, nat)>) {
    |pairs| == n && forall i :: 0 <= i < n ==> pairs[i].0 == i && pairs[i].1 < n && pairs[i].1 != i
  }

  /** [(i, di) for i, di in enumerate(derangement)]; no two anchors share a negative. */
  method PairRandom(n: nat, d: seq<nat>) returns (pairs: seq<(nat, nat)>)
    requires Derangement(n, d)
    ensures PairsOk(n, pairs) && forall i, j :: 0 <= i < j < n ==> pairs[i].1 != pairs[j].1
  {
    pairs := [];
    for i := 0 to n
      invariant |pairs| == i && forall k :: 0 <= k < i ==> pairs[k] == (k, d[k])
    {
      pairs := pairs + [(i, d[i])];
    }
    forall i | 0 <= i < n ensures d[i] < n {
      assert d[i] in Range(n);
    }
  }

  /** The examples more similar to the anchor than its own pair, but for the margin alpha. */
  predicate SemiHard(sims: seq<seq<real>>, alpha: real, idx: nat, k: nat)
    requires idx < |sims| && idx < |sims[idx]| && k < |sims[idx]|
  {
    sims[idx][k] < sims[idx][idx] + alpha
  }

  /** The semi-hard ones of the first n examples, in order. */
  function SemiHards(sims: seq<seq<real>>, alpha: real, idx: nat, n: nat): (ks: seq<nat>)
    requires idx < |sims| && |sims[idx]| == |sims| && n <= |sims|
    ensures forall k: nat :: k in ks <==> k < n && sims[idx][k] < sims[idx][idx] + alpha
    ensures forall i, j :: 0 <= i < j < |ks| ==> ks[i] < ks[j]
  {
    if n == 0 then []
    else
      var fewer := SemiHards(sims, alpha, idx, n - 1);
      assert forall i :: 0 <= i < |fewer| ==> fewer[i] in fewer;
      fewer + if SemiHard(sims, alpha, idx, n - 1) then [n - 1] else []
  }

  /** (sim_table[idx] < sim_table[idx, idx] + alpha).nonzero() */
  method SemiHardIdxs(sims: seq<seq<real>>, alpha: real, idx: nat) returns (ks: seq<nat>)
    requires idx < |sims| && |sims[idx]| == |sims|
    ensures ks == SemiHards(sims, alpha, idx, |sims|)
  {
    ks := [];
    for k := 0 to |sims|
      invariant ks == SemiHards(sims, alpha, idx, k)
    {
      if SemiHard(sims, alpha, idx, k) { ks := ks + [k]; }
    }
  }

  /** The tries made: min(len(semihard_idxs), max_retries) */
  function Limit(ks: seq<nat>, maxRetries: nat): nat { if |ks| < maxRetries then |ks| else maxRetries }

  /**
   The negative of one anchor.  tries are the positions rng.choice draws in the list of semi-hard
   examples, other is what it draws from all examples but the anchor: it is used only if every try hit
   the anchor, and else the first try that did not is.
   */
  method SemiHardNegative(sims: seq<seq<real>>, alpha: real, idx: nat, maxRetries: nat, tries: seq<nat>, other: nat)
      returns (negative: nat)
    requires idx < |sims| && |sims[idx]| == |sims| && |tries| == maxRetries && other < |sims| && other != idx
    ensures negative < |sims| && negative != idx
    ensures var ks := SemiHards(sims, alpha, idx, |sims|);
            if forall t :: 0 <= t < |ks| && t < maxRetries ==> ks[tries[t] % |ks|] == idx then negative == other
            else
              && sims[idx][negative] < sims[idx][idx] + alpha
              && exists t :: 0 <= t < |ks| && t < maxRetries && negative == ks[tries[t] % |ks|]
                             && forall u :: 0 <= u < t ==> ks[tries[u] % |ks|] == idx
  {
    var ks := SemiHardIdxs(sims, alpha, idx);
    for t := 0 to Limit(ks, maxRetries)
      invariant forall u :: 0 <= u < t ==> ks[tries[u] % |ks|] == idx
    {
      var pick := ks[tries[t] % |ks|];
      assert pick in ks;
      if pick != idx { return pick; }
    }
    return other;
  }
}
