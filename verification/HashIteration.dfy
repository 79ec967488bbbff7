/**
 Walking a hash table and taking elements out on the way.
 */
module HashIteration {
  import opened Links
  import opened HashChains
  import opened HashTables
  import opened HashRehash
  import opened HashTableOps
  import opened HashWalk

  /** The map is the old one without the elements that are on no chain any more. */
  ghost predicate Narrowed(view0: map<nat, nat>, view: map<nat, nat>, chains: seq<seq<nat>>) {
    forall k :: (k in view <==> k in view0 && Has(chains, view0[k])) && (k in view ==> view[k] == view0[k])
  }

  lemma NarrowedNow(m0: Elements, view0: map<nat, nat>, mem: Elements, table: seq<Link>, chains: seq<seq<nat>>,
                    view: map<nat, nat>, h: nat -> nat)
    requires TableOk(mem, table, chains, view, h) && SameButNext(m0, mem)
    requires forall k :: k in view ==> k in view0 && view[k] == view0[k]
    requires forall k :: k in view0 ==> view0[k] in m0 && m0[view0[k]].key == k
    ensures Narrowed(view0, view, chains)
  {
    forall k | k in view0 && Has(chains, view0[k]) ensures k in view {
      FoundAt(mem, table, chains, view, h, view0[k]);
    }
  }

  /** HT_NEXT_RMV: the current element leaves, and the next one becomes current. */
  method NextRmv(ht: HashTable, p: Slot, ghost b: nat, ghost k: nat) returns (e: nat, c: Cursor, ghost b2: nat, ghost k2: nat)
    requires ht.Valid() && Points(ht.chains, On(p), b, k)
    modifies ht, ht.table
    ensures ht.Valid() && ht.table == old(ht.table) && SameButNext(old(ht.mem), ht.mem)
    ensures Points(ht.chains, c, b2, k2) && e == old(ht.chains)[b][k] && !Has(ht.chains, e)
    ensures old(Rest(ht.chains, b, k)) == [e] + Rest(ht.chains, b2, k2)
    ensures Before(ht.chains, b2, k2) == old(Before(ht.chains, b, k))
    ensures e in old(ht.mem) && ht.view == old(ht.view) - {old(ht.mem)[e].key}
    ensures OthersKept(old(ht.mem), old(ht.chains), ht.mem)
    ensures forall x :: Has(ht.chains, x) <==> Has(old(ht.chains), x) && x != e
    ensures ht.loadLimit == old(ht.loadLimit) && ht.primeIdx == old(ht.primeIdx)
  {
    hide TableOk, SizesOk, Rest, Before, FlatTo, FlatFrom, Has;
    Basics(ht.mem, ht.table[..], ht.chains, ht.view, ht.h);
    e := Current(ht.mem, ht.table[..], p, ht.chains, b, k);
    ghost var c0 := ht.chains;
    HomeOf(ht.mem, ht.table[..], c0, ht.view, ht.h, b, k);
    var home := BucketNum(ht.mem[e].hash, ht.table.Length);
    var next := ht.mem[e].next;
    ht.DropAt(p, e, b, k);
    ht.nEntries := ht.nEntries - 1;
    TakenOut(c0, b, k, ht.chains);
    Basics(ht.mem, ht.table[..], ht.chains, ht.view, ht.h);
    if next != Nil {
      return e, On(p), b, k;
    } else {
      k2 := 0;
      c, b2 := FirstBucket(ht.mem, ht.table[..], home + 1, ht.chains);
    }
  }

  lemma HomeOf(mem: Elements, table: seq<Link>, chains: seq<seq<nat>>, view: map<nat, nat>, h: nat -> nat, b: nat, k: nat)
    requires TableOk(mem, table, chains, view, h) && b < |chains| && k < |chains[b]|
    ensures chains[b][k] in mem && BucketNum(mem[chains[b][k]].hash, |chains|) == b
    ensures mem[chains[b][k]].next == LinkAt(chains[b], k + 1)
  {
    AtPlace(mem, table, chains, b, k);
    assert chains[b][k] in chains[b];
  }

  /** The part of TableOk about views, before and after some elements left. */
  lemma KeysKept(mem: Elements, table: seq<Link>, chains: seq<seq<nat>>, view: map<nat, nat>, h: nat -> nat)
    requires TableOk(mem, table, chains, view, h)
    ensures forall k :: k in view ==> view[k] in mem && mem[view[k]].key == k
    ensures Forest(mem, table, chains)
  {
  }

  /** Where a sweep began. */
  datatype Start = Start(mem: Elements, chains: seq<seq<nat>>, view: map<nat, nat>)

  /** Since then elements left, and nothing else happened. */
  ghost predicate Thinned(s: Start, mem: Elements, chains: seq<seq<nat>>, view: map<nat, nat>) {
    && SameButNext(s.mem, mem) && OthersKept(s.mem, s.chains, mem)
    && (forall x :: Has(chains, x) ==> Has(s.chains, x))
    && (forall k :: k in view ==> k in s.view && view[k] == s.view[k])
  }

  lemma ThinnedStart(mem: Elements, chains: seq<seq<nat>>, view: map<nat, nat>)
    ensures Thinned(Start(mem, chains, view), mem, chains, view)
  {
  }

  lemma ThinnedNext(s: Start, m0: Elements, c0: seq<seq<nat>>, v0: map<nat, nat>, mem: Elements, chains: seq<seq<nat>>,
                    view: map<nat, nat>, e: nat, key: nat)
    requires Thinned(s, m0, c0, v0) && SameButNext(m0, mem) && OthersKept(m0, c0, mem)
    requires (forall x :: Has(chains, x) <==> Has(c0, x) && x != e) && view == v0 - {key}
    ensures Thinned(s, mem, chains, view)
  {
  }

  /** One step of a sweep: the visit of e, which stays or goes. */
  ghost predicate Swept(order: seq<nat>, visited: seq<nat>, chains: seq<seq<nat>>, b: nat, k: nat,
                        remove: (seq<nat>, nat) -> bool) {
    && b <= |chains| && k <= (if b == |chains| then 0 else |chains[b]|)
    && order == visited + Rest(chains, b, k)
    && Before(chains, b, k) == Staying(visited, |visited|, remove)
  }

  lemma SweptNext(order: seq<nat>, visited: seq<nat>, remove: (seq<nat>, nat) -> bool, e: nat,
                  c0: seq<seq<nat>>, b: nat, k: nat, c1: seq<seq<nat>>, b1: nat, k1: nat)
    requires Swept(order, visited, c0, b, k, remove)
    requires b1 <= |c1| && k1 <= (if b1 == |c1| then 0 else |c1[b1]|)
    requires Rest(c0, b, k) == [e] + Rest(c1, b1, k1)
    requires Before(c1, b1, k1) == Before(c0, b, k) + if remove(visited, e) then [] else [e]
    ensures Swept(order, visited + [e], c1, b1, k1, remove)
  {
    hide Rest, Before, Staying;
    StayingNext(visited, e, remove);
    assert visited + ([e] + Rest(c1, b1, k1)) == (visited + [e]) + Rest(c1, b1, k1);
  }

  /**
   A program's sweep over the table: HT_START, then HT_NEXT or HT_NEXT_RMV as it likes, which is what
   remove says from the visits so far and the current element.
   */
  method Sweep(ht: HashTable, remove: (seq<nat>, nat) -> bool) returns (visited: seq<nat>)
    requires ht.Valid()
    modifies ht, ht.table
    ensures ht.Valid() && visited == old(Order(ht.chains))
    ensures Order(ht.chains) == Staying(visited, |visited|, remove)
    ensures Narrowed(old(ht.view), ht.view, ht.chains) && ht.table == old(ht.table)
    ensures SameButNext(old(ht.mem), ht.mem) && OthersKept(old(ht.mem), old(ht.chains), ht.mem)
    ensures ht.loadLimit == old(ht.loadLimit) && ht.primeIdx == old(ht.primeIdx)
  {
    hide TableOk, SizesOk, Thinned;
    visited := [];
    ghost var s, order := Start(ht.mem, ht.chains, ht.view), Order(ht.chains);
    KeysKept(ht.mem, ht.table[..], ht.chains, ht.view, ht.h);
    ghost var b, k := 0, 0;
    var c;
    c, b := FirstBucket(ht.mem, ht.table[..], 0, ht.chains);
    SweptFirst(order, ht.chains, b, remove);
    ThinnedStart(ht.mem, ht.chains, ht.view);
    while c.On?
      invariant ht.Valid() && ht.table == old(ht.table) && Points(ht.chains, c, b, k)
      invariant Swept(order, visited, ht.chains, b, k, remove)
      invariant Thinned(s, ht.mem, ht.chains, ht.view)
      invariant ht.loadLimit == old(ht.loadLimit) && ht.primeIdx == old(ht.primeIdx)
      decreases |order| - |visited|
    {
      ghost var before := visited;
      c, b, k, visited := SweepStep(ht, remove, c.p, b, k, visited, order, s);
    }
    AllSwept(order, visited, ht.chains, b, k, remove);
    ThinnedNarrowed(s, ht.mem, ht.table[..], ht.chains, ht.view, ht.h);
  }

  method SweepStep(ht: HashTable, remove: (seq<nat>, nat) -> bool, p: Slot, ghost b: nat, ghost k: nat,
                   visited0: seq<nat>, ghost order: seq<nat>, ghost s: Start)
      returns (c: Cursor, ghost b1: nat, ghost k1: nat, visited: seq<nat>)
    requires ht.Valid() && Points(ht.chains, On(p), b, k) && Swept(order, visited0, ht.chains, b, k, remove)
    requires Thinned(s, ht.mem, ht.chains, ht.view)
    modifies ht, ht.table
    ensures ht.Valid() && ht.table == old(ht.table) && Points(ht.chains, c, b1, k1)
    ensures Swept(order, visited, ht.chains, b1, k1, remove) && |visited| == |visited0| + 1
    ensures Thinned(s, ht.mem, ht.chains, ht.view)
    ensures ht.loadLimit == old(ht.loadLimit) && ht.primeIdx == old(ht.primeIdx)
  {
    hide TableOk, SizesOk, Thinned, Swept, Rest, Before, Staying, Has;
    ghost var m0, c0, v0 := ht.mem, ht.chains, ht.view;
    HashedToo(ht.mem, ht.table[..], ht.chains, ht.view, ht.h);
    var e := Current(ht.mem, ht.table[..], p, ht.chains, b, k);
    if remove(visited0, e) {
      e, c, b1, k1 := NextRmv(ht, p, b, k);
      ThinnedNext(s, m0, c0, v0, ht.mem, ht.chains, ht.view, e, m0[e].key);
    } else {
      e, c, b1, k1 := Next(ht.mem, ht.table[..], p, ht.chains, b, k, ht.h);
    }
    SweptNext(order, visited0, remove, e, c0, b, k, ht.chains, b1, k1);
    visited := visited0 + [e];
  }

  lemma HashedToo(mem: Elements, table: seq<Link>, chains: seq<seq<nat>>, view: map<nat, nat>, h: nat -> nat)
    requires TableOk(mem, table, chains, view, h)
    ensures Hashed(mem, chains, h) && Forest(mem, table, chains)
  {
  }

  lemma SweptFirst(order: seq<nat>, chains: seq<seq<nat>>, b: nat, remove: (seq<nat>, nat) -> bool)
    requires b <= |chains| && order == Order(chains)
    requires Before(chains, b, 0) == FlatTo(chains, 0) && Rest(chains, b, 0) == FlatFrom(chains, 0)
    ensures Swept(order, [], chains, b, 0, remove)
  {
    FlatSplit(chains, 0);
  }

  lemma AllSwept(order: seq<nat>, visited: seq<nat>, chains: seq<seq<nat>>, b: nat, k: nat, remove: (seq<nat>, nat) -> bool)
    requires Swept(order, visited, chains, b, k, remove) && b == |chains|
    ensures visited == order && Order(chains) == Staying(visited, |visited|, remove)
  {
  }

  lemma ThinnedNarrowed(s: Start, mem: Elements, table: seq<Link>, chains: seq<seq<nat>>, view: map<nat, nat>, h: nat -> nat)
    requires TableOk(mem, table, chains, view, h) && Thinned(s, mem, chains, view)
    requires forall k :: k in s.view ==> s.view[k] in s.mem && s.mem[s.view[k]].key == k
    ensures Narrowed(s.view, view, chains) && SameButNext(s.mem, mem) && OthersKept(s.mem, s.chains, mem)
  {
    NarrowedNow(s.mem, s.view, mem, table, chains, view, h);
  }

  /** HT_FOREACH_FN; the answers of fn are nonzero where remove says so. */
  method ForeachFn(ht: HashTable, remove: (seq<nat>, nat) -> bool) returns (visited: seq<nat>)
    requires ht.Valid()
    modifies ht, ht.table
    ensures ht.Valid() && visited == old(Order(ht.chains))
    ensures Order(ht.chains) == Staying(visited, |visited|, remove)
    ensures Narrowed(old(ht.view), ht.view, ht.chains) && ht.table == old(ht.table)
    ensures SameButNext(old(ht.mem), ht.mem) && OthersKept(old(ht.mem), old(ht.chains), ht.mem)
    ensures ht.loadLimit == old(ht.loadLimit) && ht.primeIdx == old(ht.primeIdx)
  {
    hide TableOk, SizesOk, Thinned;
    visited := [];
    ghost var s, order := Start(ht.mem, ht.chains, ht.view), Order(ht.chains);
    KeysKept(ht.mem, ht.table[..], ht.chains, ht.view, ht.h);
    var idx := 0;
    StartSwept(order, ht.chains, remove);
    ThinnedStart(ht.mem, ht.chains, ht.view);
    while idx < ht.table.Length
      invariant 0 <= idx <= |ht.chains| == ht.table.Length && ht.Valid() && ht.table == old(ht.table)
      invariant Swept(order, visited, ht.chains, idx, 0, remove)
      invariant Thinned(s, ht.mem, ht.chains, ht.view)
      invariant ht.loadLimit == old(ht.loadLimit) && ht.primeIdx == old(ht.primeIdx)
      decreases ht.table.Length - idx
    {
      visited := ForeachBucket(ht, remove, idx, visited, order, s);
      idx := idx + 1;
    }
    AllSwept(order, visited, ht.chains, idx, 0, remove);
    ThinnedNarrowed(s, ht.mem, ht.table[..], ht.chains, ht.view, ht.h);
  }

  lemma StartSwept(order: seq<nat>, chains: seq<seq<nat>>, remove: (seq<nat>, nat) -> bool)
    requires order == Order(chains)
    ensures Swept(order, [], chains, 0, 0, remove)
  {
    OrderSplit(chains, 0, 0);
  }

  /** The inner loop: p is the link to the current element, or the last link of the chain. */
  method ForeachBucket(ht: HashTable, remove: (seq<nat>, nat) -> bool, idx: nat, visited0: seq<nat>,
                       ghost order: seq<nat>, ghost s: Start) returns (visited: seq<nat>)
    requires ht.Valid() && idx < ht.table.Length == |ht.chains| && Swept(order, visited0, ht.chains, idx, 0, remove)
    requires Thinned(s, ht.mem, ht.chains, ht.view)
    modifies ht, ht.table
    ensures ht.Valid() && ht.table == old(ht.table) && |ht.chains| == ht.table.Length
    ensures Swept(order, visited, ht.chains, idx + 1, 0, remove)
    ensures Thinned(s, ht.mem, ht.chains, ht.view)
    ensures ht.loadLimit == old(ht.loadLimit) && ht.primeIdx == old(ht.primeIdx)
  {
    hide TableOk, SizesOk, Thinned, Swept;
    visited := visited0;
    var p := Bucket(idx);
    ghost var k := 0;
    Basics(ht.mem, ht.table[..], ht.chains, ht.view, ht.h);
    assert ChainOk(ht.mem, ht.table[..][idx], ht.chains[idx]);
    var cur := ht.table[idx];
    while cur.To?
      invariant ht.Valid() && ht.table == old(ht.table) && |ht.chains| == ht.table.Length
      invariant 0 <= k <= |ht.chains[idx]| && p == SlotAt(idx, ht.chains[idx], k) && cur == LinkAt(ht.chains[idx], k)
      invariant Swept(order, visited, ht.chains, idx, k, remove)
      invariant Thinned(s, ht.mem, ht.chains, ht.view)
      invariant ht.loadLimit == old(ht.loadLimit) && ht.primeIdx == old(ht.primeIdx)
      decreases |ht.chains[idx]| - k
    {
      p, cur, k, visited := ForeachStep(ht, remove, p, cur.a, idx, k, visited, order, s);
    }
    SweptBucket(order, visited, ht.chains, idx, k, remove);
  }

  lemma SweptBucket(order: seq<nat>, visited: seq<nat>, chains: seq<seq<nat>>, b: nat, k: nat, remove: (seq<nat>, nat) -> bool)
    requires Swept(order, visited, chains, b, k, remove) && b < |chains| && k == |chains[b]|
    ensures Swept(order, visited, chains, b + 1, 0, remove)
  {
    LastTaken(chains, b, k, chains);
    if b + 1 < |chains| {
      assert chains[b + 1][..0] == [] && chains[b + 1][0..] == chains[b + 1];
      assert FlatFrom(chains, b + 1) == chains[b + 1] + FlatFrom(chains, b + 2);
    }
  }

  method ForeachStep(ht: HashTable, remove: (seq<nat>, nat) -> bool, p: Slot, e: nat, ghost b: nat, ghost k: nat,
                     visited0: seq<nat>, ghost order: seq<nat>, ghost s: Start)
      returns (p1: Slot, cur: Link, ghost k1: nat, visited: seq<nat>)
    requires ht.Valid() && b < |ht.chains| == ht.table.Length && k < |ht.chains[b]| && p == SlotAt(b, ht.chains[b], k)
    requires e == ht.chains[b][k] && Swept(order, visited0, ht.chains, b, k, remove)
    requires Thinned(s, ht.mem, ht.chains, ht.view)
    modifies ht, ht.table
    ensures ht.Valid() && ht.table == old(ht.table) && |ht.chains| == ht.table.Length
    ensures k1 <= |ht.chains[b]| && p1 == SlotAt(b, ht.chains[b], k1) && cur == LinkAt(ht.chains[b], k1)
    ensures Swept(order, visited, ht.chains, b, k1, remove)
    ensures Thinned(s, ht.mem, ht.chains, ht.view)
    ensures ht.loadLimit == old(ht.loadLimit) && ht.primeIdx == old(ht.primeIdx)
    ensures |ht.chains[b]| - k1 == |old(ht.chains)[b]| - k - 1
  {
    hide TableOk, SizesOk, Thinned, Swept, Rest, Before, Staying, Has;
    ghost var m0, c0, v0 := ht.mem, ht.chains, ht.view;
    Basics(ht.mem, ht.table[..], c0, ht.view, ht.h);
    HomeOf(ht.mem, ht.table[..], c0, ht.view, ht.h, b, k);
    var next := ht.mem[e].next;
    if remove(visited0, e) {
      ht.DropAt(p, e, b, k);
      ht.nEntries := ht.nEntries - 1;
      ThinnedNext(s, m0, c0, v0, ht.mem, ht.chains, ht.view, e, m0[e].key);
      TakenOut(c0, b, k, ht.chains);
      p1, cur, k1 := p, next, k;
    } else {
      StepOver(c0, b, k);
      p1, cur, k1 := NextOf(e), next, k + 1;
    }
    SweptNext(order, visited0, remove, e, c0, b, k, ht.chains, b, k1);
    visited := visited0 + [e];
  }
}
