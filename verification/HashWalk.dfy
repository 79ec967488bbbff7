/**
 The order in which a hash table is walked, and the helpers that move through it: HT_START and HT_NEXT,
 and HT_REP_IS_BAD_.
 */
module HashWalk {
  import opened Links
  import opened HashChains
  import opened HashPrimes
  import opened HashTables

  // ---------- the order of the walk ----------

  /** The elements of the buckets before b. */
  function FlatTo(chains: seq<seq<nat>>, b: nat): seq<nat>
    requires b <= |chains|
  {
    if b == 0 then [] else FlatTo(chains, b - 1) + chains[b - 1]
  }

  /** The elements of the buckets from b on. */
  function FlatFrom(chains: seq<seq<nat>>, b: nat): seq<nat>
    requires b <= |chains|
    decreases |chains| - b
  {
    if b == |chains| then [] else chains[b] + FlatFrom(chains, b + 1)
  }

  function Order(chains: seq<seq<nat>>): seq<nat> { FlatTo(chains, |chains|) }

  /** What is before and what is from place k of bucket b on. */
  function Before(chains: seq<seq<nat>>, b: nat, k: nat): seq<nat>
    requires b <= |chains| && k <= (if b == |chains| then 0 else |chains[b]|)
  {
    FlatTo(chains, b) + (if b == |chains| then [] else chains[b][..k])
  }
  function Rest(chains: seq<seq<nat>>, b: nat, k: nat): seq<nat>
    requires b <= |chains| && k <= (if b == |chains| then 0 else |chains[b]|)
  {
    if b == |chains| then [] else chains[b][k..] + FlatFrom(chains, b + 1)
  }

  lemma {:induction false} FlatSplit(chains: seq<seq<nat>>, b: nat)
    requires b <= |chains|
    ensures FlatTo(chains, b) + FlatFrom(chains, b) == Order(chains)
    decreases |chains| - b
  {
    if b < |chains| {
      FlatSplit(chains, b + 1);
      assert FlatTo(chains, b) + FlatFrom(chains, b) == FlatTo(chains, b + 1) + FlatFrom(chains, b + 1);
    }
  }

  lemma OrderSplit(chains: seq<seq<nat>>, b: nat, k: nat)
    requires b <= |chains| && k <= (if b == |chains| then 0 else |chains[b]|)
    ensures Before(chains, b, k) + Rest(chains, b, k) == Order(chains)
  {
    FlatSplit(chains, b);
    if b < |chains| {
      Regroup(FlatTo(chains, b), chains[b], k, FlatFrom(chains, b + 1));
    }
  }

  lemma Regroup(a: seq<nat>, s: seq<nat>, k: nat, z: seq<nat>)
    requires k <= |s|
    ensures (a + s[..k]) + (s[k..] + z) == a + (s + z)
  {
    assert s == s[..k] + s[k..];
    assert (a + s[..k]) + (s[k..] + z) == a + ((s[..k] + s[k..]) + z);
  }

  lemma {:induction false} FlatToHas(chains: seq<seq<nat>>, b: nat, e: nat)
    requires b <= |chains|
    ensures e in FlatTo(chains, b) <==> exists c :: 0 <= c < b && e in chains[c]
  {
    if b != 0 { FlatToHas(chains, b - 1, e); }
  }

  lemma {:induction false} FlatToDistinct(mem: Elements, table: seq<Link>, chains: seq<seq<nat>>, b: nat)
    requires Forest(mem, table, chains) && b <= |chains|
    ensures Distinct(FlatTo(chains, b)) && |FlatTo(chains, b)| == SizeTo(chains, b)
  {
    if b != 0 {
      FlatToDistinct(mem, table, chains, b - 1);
      var s, t := FlatTo(chains, b - 1), chains[b - 1];
      assert ChainOk(mem, table[b - 1], t);
      forall e | e in t ensures e !in s { FlatToHas(chains, b - 1, e); }
      forall i, j | 0 <= i < j < |s + t| ensures (s + t)[i] != (s + t)[j] {
        if i < |s| && |s| <= j { assert (s + t)[i] in s && (s + t)[j] in t; }
      }
    }
  }

  /** The walk meets each element on the chains exactly once. */
  lemma OrderOnce(mem: Elements, table: seq<Link>, chains: seq<seq<nat>>)
    requires Forest(mem, table, chains)
    ensures Distinct(Order(chains)) && |Order(chains)| == Size(chains)
    ensures forall e :: e in Order(chains) <==> Has(chains, e)
  {
    FlatToDistinct(mem, table, chains, |chains|);
    forall e ensures e in Order(chains) <==> Has(chains, e) { FlatToHas(chains, |chains|, e); }
  }

  // ---------- moving on ----------

  /** A pointer to where the current element is linked from, or NULL. */
  datatype Cursor = End | On(p: Slot)

  ghost predicate Points(chains: seq<seq<nat>>, c: Cursor, b: nat, k: nat) {
    match c
    case End => b == |chains| && k == 0
    case On(p) => b < |chains| && k < |chains[b]| && p == SlotAt(b, chains[b], k)
  }

  /** The loop over the buckets that HT_START, HT_NEXT and HT_NEXT_RMV share: the first that is not empty. */
  method FirstBucket(mem: Elements, table: seq<Link>, from: nat, ghost chains: seq<seq<nat>>) returns (c: Cursor, ghost b: nat)
    requires Forest(mem, table, chains) && from <= |table|
    ensures Points(chains, c, b, 0)
    ensures Before(chains, b, 0) == FlatTo(chains, from) && Rest(chains, b, 0) == FlatFrom(chains, from)
  {
    var i := from;
    while i < |table|
      invariant from <= i <= |table|
      invariant FlatTo(chains, i) == FlatTo(chains, from) && FlatFrom(chains, i) == FlatFrom(chains, from)
    {
      assert ChainOk(mem, table[i], chains[i]);
      if table[i] != Nil {
        b := i;
        return On(Bucket(i)), i;
      }
      i := i + 1;
    }
    return End, |table|;
  }

  /** HT_NEXT; the current element is the first of the rest and then the last of what is before. */
  method Next(mem: Elements, table: seq<Link>, p: Slot, ghost chains: seq<seq<nat>>, ghost b: nat, ghost k: nat, h: nat -> nat)
      returns (e: nat, c: Cursor, ghost b2: nat, ghost k2: nat)
    requires Forest(mem, table, chains) && Hashed(mem, chains, h) && Points(chains, On(p), b, k)
    ensures Points(chains, c, b2, k2) && e == chains[b][k]
    ensures Rest(chains, b, k) == [e] + Rest(chains, b2, k2) && Before(chains, b2, k2) == Before(chains, b, k) + [e]
  {
    hide Rest, Before, FlatTo, FlatFrom;
    e := Current(mem, table, p, chains, b, k);
    assert e in chains[b];
    AtPlace(mem, table, chains, b, k);
    StepOver(chains, b, k);
    if mem[e].next != Nil {
      return e, On(NextOf(e)), b, k + 1;
    } else {
      k2 := 0;
      c, b2 := FirstBucket(mem, table, BucketNum(mem[e].hash, |table|) + 1, chains);
    }
  }

  lemma StepOver(chains: seq<seq<nat>>, b: nat, k: nat)
    requires b < |chains| && k < |chains[b]|
    ensures Rest(chains, b, k) == [chains[b][k]] + Rest(chains, b, k + 1)
    ensures Before(chains, b, k + 1) == Before(chains, b, k) + [chains[b][k]]
    ensures k + 1 == |chains[b]| ==> FlatTo(chains, b + 1) == Before(chains, b, k) + [chains[b][k]]
                                     && Rest(chains, b, k) == [chains[b][k]] + FlatFrom(chains, b + 1)
  {
    StepRest(chains[b], k, FlatFrom(chains, b + 1));
    StepBefore(FlatTo(chains, b), chains[b], k);
    if k + 1 == |chains[b]| {
      assert chains[b][..k + 1] == chains[b];
      assert chains[b][k + 1..] + FlatFrom(chains, b + 1) == FlatFrom(chains, b + 1);
    }
  }

  lemma StepRest(s: seq<nat>, k: nat, z: seq<nat>)
    requires k < |s|
    ensures s[k..] + z == [s[k]] + (s[k + 1..] + z)
  {
    assert s[k..] == [s[k]] + s[k + 1..];
  }

  lemma StepBefore(z: seq<nat>, s: seq<nat>, k: nat)
    requires k < |s|
    ensures z + s[..k + 1] == (z + s[..k]) + [s[k]]
  {
    assert s[..k + 1] == s[..k] + [s[k]];
  }

  /** *p */
  method Current(mem: Elements, table: seq<Link>, p: Slot, ghost chains: seq<seq<nat>>, ghost b: nat, ghost k: nat) returns (e: nat)
    requires Forest(mem, table, chains) && Points(chains, On(p), b, k)
    ensures e == chains[b][k]
  {
    assert ChainOk(mem, table[b], chains[b]);
    if 0 < k { AtPlace(mem, table, chains, b, k - 1); }
    match p
    case Bucket(i) => e := table[i].a;
    case NextOf(a) => e := mem[a].next.a;
  }

  // ---------- taking elements out on the way ----------

  lemma {:induction false} FlatToSame(chains: seq<seq<nat>>, b: nat, chain: seq<nat>, c: nat)
    requires c <= b < |chains|
    ensures FlatTo(chains[b := chain], c) == FlatTo(chains, c)
  {
    if c != 0 { FlatToSame(chains, b, chain, c - 1); }
  }

  lemma {:induction false} FlatFromSame(chains: seq<seq<nat>>, b: nat, chain: seq<nat>, c: nat)
    requires b < c <= |chains|
    ensures FlatFrom(chains[b := chain], c) == FlatFrom(chains, c)
    decreases |chains| - c
  {
    if c != |chains| { FlatFromSame(chains, b, chain, c + 1); }
  }

  /** Without the element at place k of bucket b, the rest there begins with the one behind it. */
  lemma TakenOut(chains: seq<seq<nat>>, b: nat, k: nat, cs: seq<seq<nat>>)
    requires b < |chains| && k < |chains[b]| && cs == chains[b := Spliced(chains[b], k, [], k + 1)]
    ensures k <= |cs[b]| == |chains[b]| - 1
    ensures Rest(chains, b, k) == [chains[b][k]] + Rest(cs, b, k) && Before(cs, b, k) == Before(chains, b, k)
    ensures LinkAt(cs[b], k) == LinkAt(chains[b], k + 1) && SlotAt(b, cs[b], k) == SlotAt(b, chains[b], k)
    ensures k == |cs[b]| ==> FlatTo(cs, b + 1) == Before(cs, b, k) && FlatFrom(cs, b + 1) == Rest(cs, b, k)
  {
    FlatToSame(chains, b, cs[b], b);
    FlatFromSame(chains, b, cs[b], b + 1);
    SplicedSlices(chains[b], k, cs[b], FlatFrom(chains, b + 1));
    if k == |cs[b]| { LastTaken(chains, b, k, cs); }
  }

  lemma SplicedSlices(s: seq<nat>, k: nat, t: seq<nat>, z: seq<nat>)
    requires k < |s| && t == Spliced(s, k, [], k + 1)
    ensures |t| == |s| - 1 && t[..k] == s[..k] && t[k..] == s[k + 1..] && LinkAt(t, k) == LinkAt(s, k + 1)
    ensures (0 < k ==> t[k - 1] == s[k - 1]) && s[k..] + z == [s[k]] + (t[k..] + z)
  {
    assert t == s[..k] + s[k + 1..];
    assert s[k..] == [s[k]] + s[k + 1..];
  }

  lemma LastTaken(chains: seq<seq<nat>>, b: nat, k: nat, cs: seq<seq<nat>>)
    requires b < |chains| && |cs| == |chains| && k == |cs[b]|
    ensures FlatTo(cs, b + 1) == Before(cs, b, k) && FlatFrom(cs, b + 1) == Rest(cs, b, k)
  {
    assert cs[b][..k] == cs[b];
    assert cs[b][k..] == [];
  }

  /** The elements among the first i visited that the answers, which may depend on all visits before, let stay. */
  function Staying(visited: seq<nat>, i: nat, remove: (seq<nat>, nat) -> bool): seq<nat>
    requires i <= |visited|
  {
    if i == 0 then []
    else Staying(visited, i - 1, remove) + if remove(visited[..i - 1], visited[i - 1]) then [] else [visited[i - 1]]
  }

  /** Just those that `remove` did not want to go, in the order of the walk. */
  lemma {:induction false} StayingIs(visited: seq<nat>, i: nat, remove: (seq<nat>, nat) -> bool)
    requires i <= |visited|
    ensures forall x :: x in Staying(visited, i, remove)
                   <==> exists j :: 0 <= j < i && visited[j] == x && !remove(visited[..j], x)
  {
    if i != 0 { StayingIs(visited, i - 1, remove); }
  }

  lemma {:induction false} StayingPrefix(visited: seq<nat>, e: nat, i: nat, remove: (seq<nat>, nat) -> bool)
    requires i <= |visited|
    ensures Staying(visited + [e], i, remove) == Staying(visited, i, remove)
  {
    if i != 0 {
      StayingPrefix(visited, e, i - 1, remove);
      assert (visited + [e])[..i - 1] == visited[..i - 1];
    }
  }

  /** One more visit. */
  lemma StayingNext(visited: seq<nat>, e: nat, remove: (seq<nat>, nat) -> bool)
    ensures Staying(visited + [e], |visited| + 1, remove)
         == Staying(visited, |visited|, remove) + if remove(visited, e) then [] else [e]
  {
    StayingPrefix(visited, e, |visited|, remove);
    assert (visited + [e])[..|visited|] == visited;
  }

  // ---------- HT_REP_IS_BAD_ ----------

  /** What HT_REP_IS_BAD_ takes for a table in order. */
  ghost predicate RepOk(mem: Elements, chains: seq<seq<nat>>, nEntries: nat, loadLimit: nat, primeIdx: int, h: nat -> nat)
    requires primeIdx < N_PRIMES
  {
    if |chains| == 0 then nEntries == 0 && loadLimit == 0 && primeIdx == -1
    else
      && 0 <= primeIdx && 0 < loadLimit && nEntries <= loadLimit
      && |chains| == Prime(primeIdx) && loadLimit == LoadLimit(|chains|)
      && Hashed(mem, chains, h) && nEntries == Size(chains)
  }

  ghost predicate ChainHashed(mem: Elements, chain: seq<nat>, b: nat, length: nat, h: nat -> nat)
    requires 0 < length
  {
    forall e :: e in chain ==> e in mem && mem[e].hash == h(mem[e].key) && BucketNum(mem[e].hash, length) == b
  }

  /** The loop over one chain. */
  method CheckChain(mem: Elements, head: Link, i: nat, length: nat, h: nat -> nat, n0: nat, ghost chain: seq<nat>)
      returns (bad: nat, n: nat)
    requires ChainOk(mem, head, chain) && 0 < length
    ensures bad == 0 <==> ChainHashed(mem, chain, i, length, h)
    ensures bad == 0 ==> n == n0 + |chain|
  {
    var elm := head;
    ghost var k := 0;
    n := n0;
    while elm.To?
      invariant k <= |chain| && elm == LinkAt(chain, k) && n == n0 + k
      invariant ChainHashed(mem, chain[..k], i, length, h)
      decreases |chain| - k
    {
      Here(mem, head, chain, k);
      assert elm.a in chain;
      if mem[elm.a].hash != h(mem[elm.a].key) { return 1000 + i, n; }
      if BucketNum(mem[elm.a].hash, length) != i { return 10000 + i, n; }
      assert chain[..k + 1] == chain[..k] + [chain[k]];
      elm, n, k := mem[elm.a].next, n + 1, k + 1;
    }
    assert chain[..k] == chain;
    bad := 0;
  }

  /** The check accepts exactly the tables whose representation is in order. */
  method RepIsBad(mem: Elements, table: seq<Link>, nEntries: nat, loadLimit: nat, primeIdx: int, h: nat -> nat,
                  ghost chains: seq<seq<nat>>) returns (bad: nat)
    requires Forest(mem, table, chains) && primeIdx < N_PRIMES
    ensures bad == 0 <==> RepOk(mem, chains, nEntries, loadLimit, primeIdx, h)
  {
    if |table| == 0 {
      return if nEntries == 0 && loadLimit == 0 && primeIdx == -1 then 0 else 1;
    }
    if primeIdx < 0 || loadLimit == 0 { return 2; }
    if nEntries > loadLimit { return 3; }
    if |table| != Prime(primeIdx) { return 4; }
    if loadLimit != LoadLimit(|table|) { return 5; }
    bad := CheckChains(mem, table, nEntries, h, chains);
  }

  /** The loop over all chains, and the count. */
  method CheckChains(mem: Elements, table: seq<Link>, nEntries: nat, h: nat -> nat, ghost chains: seq<seq<nat>>) returns (bad: nat)
    requires Forest(mem, table, chains) && 0 < |table|
    ensures bad == 0 <==> Hashed(mem, chains, h) && nEntries == Size(chains)
  {
    var n, i := 0, 0;
    while i < |table|
      invariant 0 <= i <= |table| && n == SizeTo(chains, i)
      invariant forall b {:trigger chains[b]} :: 0 <= b < i ==> ChainHashed(mem, chains[b], b, |chains|, h)
    {
      assert ChainOk(mem, table[i], chains[i]);
      bad, n := CheckChain(mem, table[i], i, |table|, h, n, chains[i]);
      if bad != 0 {
        assert !ChainHashed(mem, chains[i], i, |chains|, h);
        return;
      }
      i := i + 1;
    }
    bad := if n != nEntries then 6 else 0;
  }

  /** A table that stands for a map, with its number of entries right, is bad only when it is over its limit. */
  lemma RepOkIff(mem: Elements, table: seq<Link>, chains: seq<seq<nat>>, view: map<nat, nat>, h: nat -> nat,
                 nEntries: nat, loadLimit: nat, primeIdx: int)
    requires TableOk(mem, table, chains, view, h) && nEntries == |view| && -1 <= primeIdx < N_PRIMES
    requires |table| == (if primeIdx == -1 then 0 else Prime(primeIdx)) && loadLimit == LoadLimit(|table|)
    ensures RepOk(mem, chains, nEntries, loadLimit, primeIdx, h) <==> nEntries <= loadLimit
  {
    if primeIdx >= 0 { Ladder(primeIdx as nat); }
  }
}
