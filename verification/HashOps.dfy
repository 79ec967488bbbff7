/**
 The operations of the hash table on the table object: growth, insertion, replacement, removal, search
 and the consistency check.
 */
module HashTableOps {
  import opened Links
  import opened HashChains
  import opened HashPrimes
  import opened HashTables
  import opened HashRehash

  /** The length, the load limit and the index of a table; index -1 is HT_INITIALIZER's empty table. */
  ghost predicate SizesOk(length: nat, limit: nat, idx: int) {
    && -1 <= idx < N_PRIMES
    && length == (if idx == -1 then 0 else Prime(idx))
    && limit == LoadLimit(length)
  }

  /** The limit of the longest table. */
  function LastLimit(): nat {
    LoadLimit(Prime(N_PRIMES - 1))
  }

  /** Nothing but links changed, and the elements are where they belong: the table stands for the same map. */
  lemma RehashedOk(m0: Elements, t0: seq<Link>, c0: seq<seq<nat>>, view: map<nat, nat>, h: nat -> nat,
                   m: Elements, t: seq<Link>, c: seq<seq<nat>>)
    requires TableOk(m0, t0, c0, view, h) && SameButNext(m0, m) && Forest(m, t, c) && Size(c) == Size(c0)
    requires forall x :: Has(c, x) <==> Has(c0, x)
    requires forall b :: 0 <= b < |c| ==> Placed(m, c[b], b, |c|)
    ensures TableOk(m, t, c, view, h)
  {
    forall b, e | 0 <= b < |c| && e in c[b]
      ensures e in m && m[e].hash == h(m[e].key) && BucketNum(m[e].hash, |c|) == b
    {
      assert Has(c, e);
      assert Placed(m, c[b], b, |c|);
      var b0 :| 0 <= b0 < |c0| && e in c0[b0];
    }
  }

  lemma Basics(mem: Elements, table: seq<Link>, chains: seq<seq<nat>>, view: map<nat, nat>, h: nat -> nat)
    requires TableOk(mem, table, chains, view, h)
    ensures |table| == |chains| && Forest(mem, table, chains)
  {
  }

  /** In arithmetic: an element on a chain is in the bucket that differs from its hash by a multiple of the length. */
  lemma InBuckets(mem: Elements, table: seq<Link>, chains: seq<seq<nat>>, view: map<nat, nat>, h: nat -> nat)
    requires TableOk(mem, table, chains, view, h)
    ensures forall b, e {:trigger e in chains[b]} :: 0 <= b < |table| && b < |chains| && e in chains[b]
              ==> e in mem && mem[e].hash == h(mem[e].key) && (h(mem[e].key) - b) % |table| == 0
  {
    forall b, e | 0 <= b < |table| && b < |chains| && e in chains[b]
      ensures e in mem && mem[e].hash == h(mem[e].key) && (h(mem[e].key) - b) % |table| == 0
    {
      BucketNumIs(mem[e].hash, |chains|, b);
    }
  }

  /** Two elements share a chain exactly when their hashes differ by a multiple of the table's length. */
  lemma SharesChainIff(mem: Elements, table: seq<Link>, chains: seq<seq<nat>>, view: map<nat, nat>, h: nat -> nat,
                       d: nat, e: nat)
    requires TableOk(mem, table, chains, view, h) && Has(chains, d) && Has(chains, e)
    ensures d in mem && e in mem && 0 < |table|
    ensures (h(mem[d].key) - h(mem[e].key)) % |table| == 0
       <==> exists b :: 0 <= b < |chains| && d in chains[b] && e in chains[b]
  {
    var b :| 0 <= b < |chains| && d in chains[b];
    var c :| 0 <= c < |chains| && e in chains[c];
    BucketNumIs(mem[d].hash, |chains|, b);
    BucketNumIs(mem[e].hash, |chains|, c);
    SameBucketIff(mem[d].hash, b, mem[e].hash, c, |chains|);
  }

  lemma SameBucketIff(x: nat, b: nat, y: nat, c: nat, n: nat)
    requires b < n && c < n && (x - b) % n == 0 && (y - c) % n == 0
    ensures b == c <==> (x - y) % n == 0
  {
    var p, q := (x - b) / n, (y - c) / n;
    assert x == n * p + b && y == n * q + c;
    if b == c {
      assert x - y == n * (p - q);
      MultipleOf(n, p - q);
    }
    if (x - y) % n == 0 {
      var r := (x - y) / n;
      assert x == n * (q + r) + c by { assert x == n * q + c + n * r; }
      SameRemainder(n, p, b, q + r, c);
    }
  }

  lemma ViewedAt(mem: Elements, table: seq<Link>, chains: seq<seq<nat>>, view: map<nat, nat>, h: nat -> nat, key: nat)
    requires TableOk(mem, table, chains, view, h) && key in view
    ensures Has(chains, view[key]) && view[key] in mem && mem[view[key]].key == key
  {
  }

  lemma MapSizes(view: map<nat, nat>, key: nat, e: nat)
    ensures |view[key := e]| == |view| + (if key in view then 0 else 1)
  {
    assert view[key := e].Keys == view.Keys + {key};
  }

  /** HT_SET_HASH_ changes nothing on an element that is in the table. */
  lemma HashSet(mem: Elements, table: seq<Link>, chains: seq<seq<nat>>, view: map<nat, nat>, h: nat -> nat, e: nat)
    requires TableOk(mem, table, chains, view, h) && e in mem
    ensures TableOk(mem[e := mem[e].(hash := h(mem[e].key))], table, chains, view, h)
    ensures Has(chains, e) ==> mem[e].hash == h(mem[e].key) && mem[e].key in view && view[mem[e].key] == e
  {
    if Has(chains, e) {
      var b :| 0 <= b < |chains| && e in chains[b];
    }
    OutsideOk(mem, mem[e := mem[e].(hash := h(mem[e].key))], table, chains, view, h);
  }

  /** The matching element is on no chain but its bucket's. */
  lemma FoundAt(mem: Elements, table: seq<Link>, chains: seq<seq<nat>>, view: map<nat, nat>, h: nat -> nat, e: nat)
    requires TableOk(mem, table, chains, view, h) && Has(chains, e)
    ensures e in mem && mem[e].key in view && view[mem[e].key] == e
  {
    var b :| 0 <= b < |chains| && e in chains[b];
  }

  /** HT_REPLACE writes *p before it takes over r's link; the other order gives the same memory. */
  lemma ReplaceWrites(mem: Elements, p: Slot, e: nat, r: nat)
    requires e in mem && r in mem && e != r && p != NextOf(e) && p != NextOf(r)
    ensures var m1 := WriteMem(mem, p, To(e));
            && e in m1 && r in m1
            && m1[e := m1[e].(next := m1[r].next)] == WriteMem(mem[e := mem[e].(next := mem[r].next)], p, To(e))
  {
  }

  /** The link of an element that has left its chain does not matter. */
  lemma LinkCleared(mem: Elements, table: seq<Link>, chains: seq<seq<nat>>, view: map<nat, nat>, h: nat -> nat, r: nat)
    requires TableOk(mem, table, chains, view, h) && r in mem && !Has(chains, r)
    ensures TableOk(mem[r := mem[r].(next := Nil)], table, chains, view, h)
    ensures SameButNext(mem, mem[r := mem[r].(next := Nil)])
  {
    OutsideOk(mem, mem[r := mem[r].(next := Nil)], table, chains, view, h);
  }

  lemma Relinked(mem: Elements, table: seq<Link>, chains: seq<seq<nat>>, view: map<nat, nat>, h: nat -> nat, e: nat, next: Link)
    requires TableOk(mem, table, chains, view, h) && e in mem && !Has(chains, e)
    ensures TableOk(mem[e := mem[e].(next := next)], table, chains, view, h)
  {
    OutsideOk(mem, mem[e := mem[e].(next := next)], table, chains, view, h);
  }

  /** The slot before place k belongs to the element before, not to the one at k or to one elsewhere. */
  lemma SlotBefore(mem: Elements, table: seq<Link>, chains: seq<seq<nat>>, b: nat, k: nat, x: nat)
    requires Forest(mem, table, chains) && b < |chains| && k <= |chains[b]|
    requires !Has(chains, x) || (k < |chains[b]| && x == chains[b][k])
    ensures SlotAt(b, chains[b], k) != NextOf(x)
  {
    if 0 < k {
      AtPlace(mem, table, chains, b, k - 1);
      assert chains[b][k - 1] != x;
    }
  }

  /** The matching element was found: the new element takes its place, in HT_REPLACE's order of writes. */
  lemma Replaced(mem: Elements, table: seq<Link>, chains: seq<seq<nat>>, view: map<nat, nat>, h: nat -> nat,
                 b: nat, k: nat, e: nat, r: nat, p: Slot, m1: Elements, m2: Elements)
    requires TableOk(mem, table, chains, view, h) && e in mem && mem[e].hash == h(mem[e].key) && !Has(chains, e)
    requires b < |chains| && b == BucketNum(mem[e].hash, |chains|) && k < |chains[b]| && r == chains[b][k]
    requires p == SlotAt(b, chains[b], k) && (r in mem ==> mem[r].key == mem[e].key)
    requires m1 == WriteMem(mem, p, To(e)) && e in m1 && r in m1 && m2 == m1[e := m1[e].(next := m1[r].next)]
    ensures SameButNext(mem, m2) && mem[e].key in view && view[mem[e].key] == r
    ensures var cs := chains[b := Spliced(chains[b], k, [e], k + 1)];
            TableOk(m2, WriteTable(table, p, To(e)), cs, view[mem[e].key := e], h) && !Has(cs, r)
  {
    AtPlace(mem, table, chains, b, k);
    SlotBefore(mem, table, chains, b, k, e);
    SlotBefore(mem, table, chains, b, k, r);
    ReplaceWrites(mem, p, e, r);
    Relinked(mem, table, chains, view, h, e, mem[r].next);
    Swapped(mem[e := mem[e].(next := mem[r].next)], table, chains, view, h, b, k, e, r, p,
            chains[b := Spliced(chains[b], k, [e], k + 1)]);
  }

  /** Keys never change. */
  ghost predicate SameKeys(m0: Elements, m: Elements) {
    m0.Keys == m.Keys && forall x :: x in m0 ==> m0[x].key == m[x].key
  }

  /** Elements outside the table are left alone, but for e. */
  ghost predicate OthersBut(m0: Elements, c0: seq<seq<nat>>, m: Elements, e: nat) {
    forall x :: x in m0 && !Has(c0, x) && x != e ==> x in m && m[x] == m0[x]
  }

  lemma FrameTrans(m0: Elements, c0: seq<seq<nat>>, m1: Elements, c1: seq<seq<nat>>, m2: Elements, e: nat)
    requires SameKeys(m0, m1) && SameKeys(m1, m2) && OthersBut(m0, c0, m1, e) && OthersBut(m1, c1, m2, e)
    requires forall x :: Has(c1, x) ==> Has(c0, x)
    ensures SameKeys(m0, m2) && OthersBut(m0, c0, m2, e)
  {
  }

  /** A write to a slot of a chain is no write to an element outside. */
  lemma WriteOthers(mem: Elements, table: seq<Link>, chains: seq<seq<nat>>, b: nat, k: nat, link: Link)
    requires Forest(mem, table, chains) && b < |chains| && k <= |chains[b]|
    ensures OthersKept(mem, chains, WriteMem(mem, SlotAt(b, chains[b], k), link))
    ensures SameKeys(mem, WriteMem(mem, SlotAt(b, chains[b], k), link))
  {
    if 0 < k { AtPlace(mem, table, chains, b, k - 1); }
  }

  /** Writing a link that is there already. */
  lemma WriteSame(mem: Elements, table: seq<Link>, chains: seq<seq<nat>>, b: nat, k: nat)
    requires Forest(mem, table, chains) && b < |chains| && k < |chains[b]|
    ensures WriteMem(mem, SlotAt(b, chains[b], k), To(chains[b][k])) == mem
    ensures WriteTable(table, SlotAt(b, chains[b], k), To(chains[b][k])) == table
  {
    assert ChainOk(mem, table[b], chains[b]);
    if 0 < k { AtPlace(mem, table, chains, b, k - 1); }
  }

  class HashTable {
    /** hashfn, as a function of the key */
    const h: nat -> nat
    /** the elements of the program, in tables or not */
    var mem: Elements
    /** hth_table; an array of length 0 is NULL */
    var table: array<Link>
    /** hth_n_entries */
    var nEntries: nat
    /** hth_load_limit */
    var loadLimit: nat
    /** hth_prime_idx */
    var primeIdx: int
    ghost var chains: seq<seq<nat>>
    /** The map the table stands for. */
    ghost var view: map<nat, nat>

    /** Everything but the number of entries is right. */
    ghost predicate Linked()
      reads this, table
    {
      TableOk(mem, table[..], chains, view, h) && SizesOk(table.Length, loadLimit, primeIdx)
    }

    ghost predicate Valid()
      reads this, table
    {
      Linked() && nEntries == |view|
    }

    /** The key has this element, Nil for none. */
    ghost function At(key: nat): Link
      reads this
    {
      if key in view then To(view[key]) else Nil
    }

    constructor (hashfn: nat -> nat, memory: Elements)
      ensures Valid() && view == map[] && mem == memory && h == hashfn && fresh(table) && primeIdx == -1
    {
      h, mem, nEntries, loadLimit, primeIdx := hashfn, memory, 0, 0, -1;
      table := new Link[0];
      chains, view := [], map[];
      new;
      Ladder(0);
    }

    // ---------- HT_GROW ----------

    /** The reallocarray of the first branch succeeded: all elements go to a new table. */
    method GrowFresh(newLen: nat)
      requires Linked() && 0 < newLen
      modifies this`mem, this`table, this`chains
      ensures fresh(table) && table.Length == newLen && TableOk(mem, table[..], chains, view, h)
      ensures SameButNext(old(mem), mem) && (forall x :: Has(chains, x) <==> Has(old(chains), x))
      ensures OthersKept(old(mem), old(chains), mem)
    {
      hide TableOk;
      Basics(mem, table[..], chains, view, h);
      ghost var m0, t0, c0 := mem, table[..], chains;
      var t := new Link[newLen](_ => Nil);
      assert t[..] == Nils(newLen);
      Extended(mem, table[..], chains, newLen);
      ghost var cs;
      mem, cs := RehashFresh(table, t, mem, chains + Empties(newLen));
      table, chains := t, cs;
      RehashedOk(m0, t0, c0, view, h, mem, table[..], chains);
    }

    /** The second one did: the table is enlarged, its new part cleared, and its elements are sorted out in it. */
    method GrowInPlace(newLen: nat)
      requires Linked() && 0 < newLen && table.Length <= newLen
      modifies this`mem, this`table, this`chains
      ensures fresh(table) && table.Length == newLen && TableOk(mem, table[..], chains, view, h)
      ensures SameButNext(old(mem), mem) && (forall x :: Has(chains, x) <==> Has(old(chains), x))
      ensures OthersKept(old(mem), old(chains), mem)
    {
      hide TableOk;
      Basics(mem, table[..], chains, view, h);
      ghost var m0, t0, c0 := mem, table[..], chains;
      var t := new Link[newLen];
      forall i | 0 <= i < newLen {
        t[i] := if i < table.Length then table[i] else Nil;
      }
      assert t[..] == table[..] + Nils(newLen - table.Length);
      Extended(mem, table[..], chains, newLen - table.Length);
      ghost var cs;
      mem, cs := RehashInPlace(t, mem, table.Length, chains + Empties(newLen - table.Length));
      table, chains := t, cs;
      RehashedOk(m0, t0, c0, view, h, mem, table[..], chains);
    }

    /** HT_GROW returns without having looked for a new length. */
    ghost predicate LargeEnough(size: nat)
      reads this
    {
      primeIdx == N_PRIMES - 1 || loadLimit > size
    }

    /** fresh and inPlace say which of the two allocations succeed. */
    method Grow(size: nat, fresh_: bool, inPlace: bool) returns (rc: int)
      requires Linked() && (LargeEnough(size) || size < LastLimit())
      modifies this`mem, this`table, this`chains, this`primeIdx, this`loadLimit
      ensures Linked() && (table == old(table) || fresh(table))
      ensures SameButNext(old(mem), mem) && (forall x :: Has(chains, x) <==> Has(old(chains), x))
      ensures OthersKept(old(mem), old(chains), mem)
      ensures rc == if old(LargeEnough(size)) || fresh_ || inPlace then 0 else -1
      ensures old(LargeEnough(size)) || rc == -1 ==>
                mem == old(mem) && table == old(table) && chains == old(chains)
                && primeIdx == old(primeIdx) && loadLimit == old(loadLimit)
      ensures forall b, e {:trigger e in chains[b]} :: 0 <= b < table.Length && b < |chains| && e in chains[b]
                ==> e in mem && mem[e].hash == h(mem[e].key) && (h(mem[e].key) - b) % table.Length == 0
      ensures !old(LargeEnough(size)) && rc == 0 ==>
                loadLimit > size && primeIdx > old(primeIdx) && Climbed.At(primeIdx as nat) == Climb((old(primeIdx) + 1) as nat, size)
    {
      hide TableOk, SizesOk, Has, SameButNext, OthersKept, Climb, Prime, LoadLimit, LastLimit;
      rc := GrowTable(size, fresh_, inPlace);
      InBuckets(mem, table[..], chains, view, h);
    }

    method GrowTable(size: nat, fresh_: bool, inPlace: bool) returns (rc: int)
      requires Linked() && (LargeEnough(size) || size < LastLimit())
      modifies this`mem, this`table, this`chains, this`primeIdx, this`loadLimit
      ensures Linked() && (table == old(table) || fresh(table))
      ensures SameButNext(old(mem), mem) && (forall x :: Has(chains, x) <==> Has(old(chains), x))
      ensures OthersKept(old(mem), old(chains), mem)
      ensures rc == if old(LargeEnough(size)) || fresh_ || inPlace then 0 else -1
      ensures old(LargeEnough(size)) || rc == -1 ==>
                mem == old(mem) && table == old(table) && chains == old(chains)
                && primeIdx == old(primeIdx) && loadLimit == old(loadLimit)
      ensures !old(LargeEnough(size)) && rc == 0 ==>
                loadLimit > size && primeIdx > old(primeIdx) && Climbed.At(primeIdx as nat) == Climb((old(primeIdx) + 1) as nat, size)
    {
      hide TableOk;
      if primeIdx == N_PRIMES - 1 { return 0; }
      if loadLimit > size { return 0; }
      var idx := NextPrime(primeIdx, size);
      var newLen := Prime(idx);
      Ladder(idx);
      if primeIdx >= 0 { LimitsClimb(primeIdx as nat, idx); }
      if fresh_ {
        GrowFresh(newLen);
      } else if inPlace {
        GrowInPlace(newLen);
      } else {
        return -1;
      }
      primeIdx, loadLimit := idx, LoadLimit(newLen);
      return 0;
    }

    // ---------- the other operations ----------

    /** *p = link */
    method Store(p: Slot, link: Link)
      requires match p case Bucket(b) => b < table.Length case NextOf(a) => a in mem
      modifies this`mem, table
      ensures mem == WriteMem(old(mem), p, link) && table[..] == WriteTable(old(table[..]), p, link)
    {
      match p
      case Bucket(b) => table[b] := link;
      case NextOf(a) => mem := mem[a := mem[a].(next := link)];
    }

    /** HT_SET_HASH_ */
    method SetHash(e: nat)
      requires Linked() && e in mem
      modifies this`mem
      ensures Linked() && mem == old(mem)[e := old(mem)[e].(hash := h(old(mem)[e].key))]
      ensures SameKeys(old(mem), mem) && OthersBut(old(mem), chains, mem, e)
      ensures Has(chains, e) ==> mem[e].key in view && view[mem[e].key] == e
    {
      hide TableOk;
      HashSet(mem, table[..], chains, view, h, e);
      mem := mem[e := mem[e].(hash := h(mem[e].key))];
    }

    /** HT_FIND_P_ in a table that is not NULL. */
    method FindP(e: nat) returns (p: Slot, cur: Link, ghost b: nat, ghost k: nat)
      requires Linked() && 0 < table.Length && e in mem && mem[e].hash == h(mem[e].key)
      ensures b == BucketNum(mem[e].hash, |chains|) && k <= |chains[b]| && p == SlotAt(b, chains[b], k)
      ensures cur == LinkAt(chains[b], k) && cur == At(mem[e].key)
      ensures match p case Bucket(i) => i < table.Length case NextOf(a) => a in mem
    {
      var i := BucketNum(mem[e].hash, table.Length);
      b := i;
      assert ChainOk(mem, table[..][b], chains[b]);
      p, cur := FindSlot(mem, table[i], i, chains[b], mem[e].key);
      k := FirstWith(mem, chains[b], mem[e].key, 0);
      FoundIff(mem, table[..], chains, view, h, mem[e].key);
      if 0 < k { AtPlace(mem, table[..], chains, b, k - 1); }
    }

    /** Only the hash of the probe is written. */
    method Find(e: nat) returns (r: Link)
      requires Valid() && e in mem
      modifies this`mem
      ensures Valid() && r == (if old(mem)[e].key in view then To(view[old(mem)[e].key]) else Nil)
      ensures mem == old(mem)[e := old(mem)[e].(hash := h(old(mem)[e].key))]
    {
      hide TableOk, SizesOk, LastLimit, Has, SameKeys, OthersBut;
      ghost var m0, c0 := mem, chains;
      SetHash(e);
      ghost var m1 := mem;
      if table.Length == 0 {
        EmptyTable();
        return Nil;
      }
      var p;
      ghost var b, k;
      p, r, b, k := FindP(e);
    }

    /** A table of no buckets stands for the empty map. */
    lemma EmptyTable()
      requires Linked() && table.Length == 0
      ensures view == map[]
    {
      assert Size(chains) == 0;
    }

    /** The growth that insertions ask for when the table is full does not fail. */
    ghost predicate CanGrow(fresh_: bool, inPlace: bool)
      reads this, table
    {
      table.Length == 0 || nEntries >= loadLimit ==>
        && (LargeEnough(nEntries + 1) || nEntries + 1 < LastLimit())
        && (table.Length == 0 ==> fresh_ || inPlace)
    }

    /** The first lines of HT_INSERT and HT_REPLACE: the table grows when it is full. */
    method MakeRoom(fresh_: bool, inPlace: bool)
      requires Linked() && CanGrow(fresh_, inPlace)
      modifies this`mem, this`table, this`chains, this`primeIdx, this`loadLimit
      ensures Linked() && 0 < table.Length && (table == old(table) || fresh(table))
      ensures SameButNext(old(mem), mem) && (forall x :: Has(chains, x) <==> Has(old(chains), x))
      ensures OthersKept(old(mem), old(chains), mem)
      ensures old(InLadder()) && (fresh_ || inPlace) ==>
                primeIdx <= old(primeIdx) + 1 && (nEntries < loadLimit || primeIdx == N_PRIMES - 1)
    {
      hide TableOk, Has, Climb, Prime;
      if table.Length == 0 || nEntries >= loadLimit {
        if nEntries <= loadLimit && primeIdx < N_PRIMES - 1 { FullTable(); }
        var rc := Grow(nEntries + 1, fresh_, inPlace);
        if primeIdx >= 0 { Ladder(primeIdx as nat); }
      }
    }

    /** A table at its limit, not above it, climbs one length. */
    lemma FullTable()
      requires Linked() && nEntries == loadLimit && primeIdx < N_PRIMES - 1
      ensures Climb((primeIdx + 1) as nat, nEntries + 1) == Climbed.At((primeIdx + 1) as nat)
      ensures nEntries + 1 < LastLimit()
    {
      hide TableOk, Climb, Prime;
      GrowthClimbsOne(primeIdx, nEntries);
      ClimbBehindTableIff((primeIdx + 1) as nat, nEntries + 1);
    }

    /** The number of entries is in the table's limit, as HT_REP_IS_BAD_ wants it. */
    ghost predicate InLimit()
      reads this
    {
      nEntries <= loadLimit
    }

    /** It is, or there is no longer table to grow to. */
    ghost predicate InLadder()
      reads this
    {
      InLimit() || primeIdx == N_PRIMES - 1
    }

    /** In such a table insertions can always grow, unless there is no memory. */
    lemma RoomToGrow(fresh_: bool, inPlace: bool)
      requires Linked() && InLadder() && (fresh_ || inPlace)
      ensures CanGrow(fresh_, inPlace)
    {
      if nEntries >= loadLimit && primeIdx < N_PRIMES - 1 { FullTable(); }
      Ladder(N_PRIMES - 1);
    }

    /** The element must be in no table, and nothing in this one may match it. */
    method Insert(e: nat, fresh_: bool, inPlace: bool)
      requires Valid() && CanGrow(fresh_, inPlace)
      requires e in mem && !Has(chains, e) && mem[e].key !in view
      modifies this, table
      ensures Valid() && view == old(view)[old(mem)[e].key := e] && (table == old(table) || fresh(table))
      ensures forall x :: Has(chains, x) <==> Has(old(chains), x) || x == e
      ensures SameKeys(old(mem), mem) && OthersBut(old(mem), old(chains), mem, e)
      ensures nEntries == old(nEntries) + 1
      ensures forall b, x {:trigger x in chains[b]} :: 0 <= b < table.Length && b < |chains| && x in chains[b]
                ==> x in mem && mem[x].hash == h(mem[x].key) && (h(mem[x].key) - b) % table.Length == 0
      ensures old(InLadder()) && (fresh_ || inPlace) ==> primeIdx <= old(primeIdx) + 1 && InLadder()
    {
      hide TableOk, SizesOk, LastLimit, Has;
      MakeRoom(fresh_, inPlace);
      nEntries := nEntries + 1;
      SetHash(e);
      PushFront(e);
    }

    /** elm->hte_next = *p; *p = elm, at the front of the element's bucket. */
    method PushFront(e: nat)
      requires Linked() && 0 < table.Length && e in mem && !Has(chains, e) && mem[e].key !in view
      requires mem[e].hash == h(mem[e].key)
      modifies this`mem, this`chains, this`view, table
      ensures Linked() && view == old(view)[old(mem)[e].key := e] && |view| == |old(view)| + 1
      ensures forall x :: Has(chains, x) <==> Has(old(chains), x) || x == e
      ensures SameKeys(old(mem), mem) && OthersBut(old(mem), old(chains), mem, e)
      ensures forall b, x {:trigger x in chains[b]} :: 0 <= b < table.Length && b < |chains| && x in chains[b]
                ==> x in mem && mem[x].hash == h(mem[x].key) && (h(mem[x].key) - b) % table.Length == 0
    {
      hide TableOk, SizesOk, Has, SameKeys, OthersBut;
      PushInto(e);
      InBuckets(mem, table[..], chains, view, h);
    }

    method PushInto(e: nat)
      requires Linked() && 0 < table.Length && e in mem && !Has(chains, e) && mem[e].key !in view
      requires mem[e].hash == h(mem[e].key)
      modifies this`mem, this`chains, this`view, table
      ensures Linked() && view == old(view)[old(mem)[e].key := e] && |view| == |old(view)| + 1
      ensures forall x :: Has(chains, x) <==> Has(old(chains), x) || x == e
      ensures SameKeys(old(mem), mem) && OthersBut(old(mem), old(chains), mem, e)
    {
      hide TableOk, SizesOk, LastLimit, Has;
      ghost var m0, t0, c0 := mem, table[..], chains;
      MapSizes(view, mem[e].key, e);
      var b := BucketNum(mem[e].hash, table.Length);
      Basics(mem, t0, c0, view, h);
      assert ChainOk(mem, t0[b], c0[b]);
      Relinked(mem, t0, c0, view, h, e, t0[b]);
      mem := mem[e := mem[e].(next := table[b])];
      ghost var cs := c0[b := Spliced(c0[b], 0, [e], 0)];
      Added(mem, t0, c0, view, h, b, 0, e, Bucket(b), cs);
      AddedHas(c0, b, 0, e);
      view := view[mem[e].key := e];
      chains := cs;
      Store(Bucket(b), To(e));
    }

    /**
     The element may be in the table already; or else it must be unlinked, or match another element,
     whose link it takes over (see LinkMustBeNull).  Only in the first case the number of entries goes
     wrong: it grows although the table does not.
     */
    method Replace(e: nat, fresh_: bool, inPlace: bool) returns (r: Link)
      requires Valid() && CanGrow(fresh_, inPlace)
      requires e in mem && (Has(chains, e) || mem[e].next == Nil || mem[e].key in view)
      modifies this, table
      ensures Linked() && view == old(view)[old(mem)[e].key := e] && (table == old(table) || fresh(table))
      ensures old(Has(chains, e)) ==> r == Nil && nEntries == |view| + 1
      ensures !old(Has(chains, e)) ==> Valid() && r == (if old(mem[e].key in view) then To(old(view[mem[e].key])) else Nil)
      ensures r.To? ==> !Has(chains, r.a) && r.a in mem && mem[r.a].next == Nil
      ensures forall x :: Has(chains, x) <==> (Has(old(chains), x) && To(x) != r) || x == e
      ensures SameKeys(old(mem), mem) && OthersBut(old(mem), old(chains), mem, e)
      ensures old(InLadder()) && (fresh_ || inPlace) && !old(Has(chains, e)) ==>
                primeIdx <= old(primeIdx) + 1 && InLadder()
    {
      hide TableOk, SizesOk, LastLimit, Has;
      MakeRoom(fresh_, inPlace);
      SetHash(e);
      r := ReplaceAt(e);
    }

    /** The rest of HT_REPLACE, in a table with room. */
    method ReplaceAt(e: nat) returns (r: Link)
      requires Linked() && 0 < table.Length && e in mem && mem[e].hash == h(mem[e].key)
      requires Has(chains, e) || mem[e].next == Nil || mem[e].key in view
      requires Has(chains, e) ==> mem[e].key in view && view[mem[e].key] == e
      modifies this`mem, this`chains, this`view, this`nEntries, table
      ensures Linked() && view == old(view)[old(mem)[e].key := e]
      ensures old(Has(chains, e)) ==> r == Nil && view == old(view) && nEntries == old(nEntries) + 1
      ensures !old(Has(chains, e)) ==> r == old(At(mem[e].key)) && nEntries - old(nEntries) == |view| - |old(view)|
      ensures nEntries <= old(nEntries) + 1
      ensures r.To? ==> !Has(chains, r.a) && r.a in mem && mem[r.a].next == Nil
      ensures forall x :: Has(chains, x) <==> (Has(old(chains), x) && To(x) != r) || x == e
      ensures SameKeys(old(mem), mem) && OthersBut(old(mem), old(chains), mem, e)
    {
      hide TableOk, SizesOk, LastLimit, Has;
      ghost var key := mem[e].key;
      var p, cur;
      ghost var b, k;
      p, cur, b, k := FindP(e);
      r := Nil;
      if cur.To? && cur.a != e {
        SwapAt(e, p, cur.a, b, k);
        return cur;
      }
      if cur.Nil? {
        AppendAt(e, p, b, k);
      } else {
        Basics(mem, table[..], chains, view, h);
        ViewedAt(mem, table[..], chains, view, h, key);
        WriteSame(mem, table[..], chains, b, k);
        Store(p, To(e));
        SameView(view, key, e);
      }
      nEntries := nEntries + 1;
    }

    lemma SameView(v: map<nat, nat>, key: nat, e: nat)
      requires key in v && v[key] == e
      ensures v == v[key := e]
    {
    }

    /** *p = elm; elm->hte_next = r->hte_next; r->hte_next = NULL */
    method SwapAt(e: nat, p: Slot, r: nat, ghost b: nat, ghost k: nat)
      requires Linked() && 0 < table.Length && e in mem && mem[e].hash == h(mem[e].key) && e != r
      requires b == BucketNum(mem[e].hash, |chains|) && k <= |chains[b]| && p == SlotAt(b, chains[b], k)
      requires To(r) == LinkAt(chains[b], k) && To(r) == At(mem[e].key)
      requires match p case Bucket(i) => i < table.Length case NextOf(a) => a in mem
      modifies this`mem, this`chains, this`view, table
      ensures Linked() && view == old(view)[old(mem)[e].key := e] && |view| == |old(view)|
      ensures !Has(chains, r) && r in mem && mem[r].next == Nil && !old(Has(chains, e))
      ensures forall x :: Has(chains, x) <==> (Has(old(chains), x) && x != r) || x == e
      ensures SameKeys(old(mem), mem) && OthersBut(old(mem), old(chains), mem, e)
    {
      hide TableOk, SizesOk, LastLimit, Has;
      ghost var m0, t0, c0 := mem, table[..], chains;
      if Has(chains, e) { FoundAt(mem, t0, c0, view, h, e); }
      Basics(mem, t0, c0, view, h);
      AtPlace(mem, t0, c0, b, k);
      ViewedAt(mem, t0, c0, view, h, mem[e].key);
      MapSizes(view, mem[e].key, e);
      SwappedHas(c0, b, k, e);
      WriteOthers(m0, t0, c0, b, k, To(e));
      Store(p, To(e));
      ghost var m1 := mem;
      mem := mem[e := mem[e].(next := mem[r].next)];
      Replaced(m0, t0, c0, view, h, b, k, e, r, p, m1, mem);
      view := view[mem[e].key := e];
      chains := c0[b := Spliced(c0[b], k, [e], k + 1)];
      LinkCleared(mem, table[..], chains, view, h, r);
      mem := mem[r := mem[r].(next := Nil)];
    }

    /** *p = elm at the end of the bucket's chain. */
    method AppendAt(e: nat, p: Slot, ghost b: nat, ghost k: nat)
      requires Linked() && 0 < table.Length && e in mem && mem[e].hash == h(mem[e].key)
      requires b == BucketNum(mem[e].hash, |chains|) && k == |chains[b]| && p == SlotAt(b, chains[b], k)
      requires mem[e].key !in view && (Has(chains, e) || mem[e].next == Nil)
      requires match p case Bucket(i) => i < table.Length case NextOf(a) => a in mem
      modifies this`mem, this`chains, this`view, table
      ensures Linked() && view == old(view)[old(mem)[e].key := e] && !old(Has(chains, e)) && |view| == |old(view)| + 1
      ensures forall x :: Has(chains, x) <==> Has(old(chains), x) || x == e
      ensures SameKeys(old(mem), mem) && OthersBut(old(mem), old(chains), mem, e)
    {
      hide TableOk, SizesOk, LastLimit, Has;
      ghost var m0, t0, c0 := mem, table[..], chains;
      Basics(m0, t0, c0, view, h);
      WriteOthers(m0, t0, c0, b, k, To(e));
      AddedHas(c0, b, k, e);
      MapSizes(view, mem[e].key, e);
      if Has(chains, e) { FoundAt(mem, t0, c0, view, h, e); }
      ghost var cs := c0[b := Spliced(c0[b], k, [e], k)];
      Added(mem, t0, c0, view, h, b, k, e, p, cs);
      view := view[mem[e].key := e];
      chains := cs;
      Store(p, To(e));
    }

    /** The probe may be any element; the removed element's link is cleared. */
    method Remove(e: nat) returns (r: Link)
      requires Valid() && e in mem
      modifies this, table
      ensures Valid() && r == (if old(mem[e].key in view) then To(old(view[mem[e].key])) else Nil)
      ensures view == old(view) - {old(mem)[e].key} && table == old(table)
      ensures r.To? ==> !Has(chains, r.a) && r.a in mem && mem[r.a].next == Nil
      ensures forall x :: Has(chains, x) <==> Has(old(chains), x) && To(x) != r
      ensures SameKeys(old(mem), mem) && OthersBut(old(mem), old(chains), mem, e)
      ensures !old(Has(chains, e)) ==> mem[e].next == old(mem)[e].next
      ensures primeIdx == old(primeIdx) && loadLimit == old(loadLimit)
    {
      hide TableOk, SizesOk, LastLimit, Has, SameKeys, OthersBut;
      ghost var m0, c0 := mem, chains;
      SetHash(e);
      ghost var m1 := mem;
      if table.Length == 0 {
        EmptyTable();
        NoneRemoved(view, mem[e].key);
        return Nil;
      }
      r := RemoveAt(e);
      FrameTrans(m0, c0, m1, c0, mem, e);
    }

    lemma NoneRemoved(v: map<nat, nat>, key: nat)
      requires key !in v
      ensures v - {key} == v
    {
    }

    /** The rest of HT_REMOVE, in a table that is not NULL. */
    method RemoveAt(e: nat) returns (r: Link)
      requires Valid() && 0 < table.Length && e in mem && mem[e].hash == h(mem[e].key)
      modifies this`mem, this`chains, this`view, this`nEntries, table
      ensures Valid() && r == old(At(mem[e].key)) && view == old(view) - {old(mem)[e].key}
      ensures r.To? ==> !Has(chains, r.a) && r.a in mem && mem[r.a].next == Nil
      ensures forall x :: Has(chains, x) <==> Has(old(chains), x) && To(x) != r
      ensures SameKeys(old(mem), mem) && OthersBut(old(mem), old(chains), mem, e)
      ensures !old(Has(chains, e)) ==> mem[e].next == old(mem)[e].next
    {
      hide TableOk, SizesOk, LastLimit, Has;
      var p;
      ghost var b, k;
      p, r, b, k := FindP(e);
      if r.Nil? {
        NoneRemoved(view, mem[e].key);
        return;
      }
      Basics(mem, table[..], chains, view, h);
      ViewedAt(mem, table[..], chains, view, h, mem[e].key);
      UnlinkAt(p, r.a, b, k);
      nEntries := nEntries - 1;
    }

    /** *p = r->hte_next; r->hte_next = NULL */
    method UnlinkAt(p: Slot, r: nat, ghost b: nat, ghost k: nat)
      requires Linked() && b < |chains| && k < |chains[b]| && p == SlotAt(b, chains[b], k) && r == chains[b][k]
      modifies this`mem, this`chains, this`view, table
      ensures r in old(mem) && Linked() && old(mem)[r].key in old(view) && view == old(view) - {old(mem)[r].key}
      ensures old(view)[old(mem)[r].key] == r && |old(view)| == |view| + 1
      ensures !Has(chains, r) && r in mem && mem[r].next == Nil
      ensures forall x :: Has(chains, x) <==> Has(old(chains), x) && x != r
      ensures SameKeys(old(mem), mem) && OthersBut(old(mem), old(chains), mem, r)
    {
      hide TableOk, SizesOk, LastLimit, Has;
      DropAt(p, r, b, k);
      LinkCleared(mem, table[..], chains, view, h, r);
      mem := mem[r := mem[r].(next := Nil)];
    }

    /** *p = r->hte_next; the link of r stays as it is. */
    method DropAt(p: Slot, r: nat, ghost b: nat, ghost k: nat)
      requires Linked() && b < |chains| && k < |chains[b]| && p == SlotAt(b, chains[b], k) && r == chains[b][k]
      modifies this`mem, this`chains, this`view, table
      ensures r in old(mem) && Linked() && old(mem)[r].key in old(view) && view == old(view) - {old(mem)[r].key}
      ensures old(view)[old(mem)[r].key] == r && |old(view)| == |view| + 1
      ensures chains == old(chains)[b := Spliced(old(chains)[b], k, [], k + 1)]
      ensures !Has(chains, r) && SameButNext(old(mem), mem) && r in mem
      ensures forall x :: Has(chains, x) <==> Has(old(chains), x) && x != r
      ensures OthersKept(old(mem), old(chains), mem)
    {
      hide TableOk, SizesOk, LastLimit, Has;
      ghost var m0, t0, c0 := mem, table[..], chains;
      Basics(m0, t0, c0, view, h);
      if 0 < k { AtPlace(m0, t0, c0, b, k - 1); }
      AtPlace(m0, t0, c0, b, k);
      ghost var cs := c0[b := Spliced(c0[b], k, [], k + 1)];
      Dropped(mem, t0, c0, view, h, b, k, r, p, cs);
      DroppedHas(c0, b, k);
      WriteOthers(m0, t0, c0, b, k, mem[r].next);
      Store(p, mem[r].next);
      SmallerView(view, mem[r].key);
      view := view - {mem[r].key};
      chains := cs;
    }
  }

  /** The do-while loop of HT_GROW. */
  method NextPrime(primeIdx: int, size: nat) returns (idx: nat)
    requires -1 <= primeIdx < N_PRIMES - 1 && size < LastLimit()
    ensures idx < N_PRIMES && Climb((primeIdx + 1) as nat, size) == Climbed.At(idx)
    ensures size < LoadLimit(Prime(idx)) && primeIdx < idx
  {
    ClimbBehindTableIff((primeIdx + 1) as nat, size);
    idx := (primeIdx + 1) as nat;
    while LoadLimit(Prime(idx)) <= size
      invariant primeIdx < idx < N_PRIMES && Climb(idx, size) == Climb((primeIdx + 1) as nat, size)
      decreases N_PRIMES - idx
    {
      if idx + 1 == N_PRIMES { assert false; }
      idx := idx + 1;
    }
  }
}
