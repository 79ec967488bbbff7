/**
 Tor's intrusive chained hash table.  A table stands for a map from keys to elements, where two
 elements have the same key when eqfn says they are equal, and hashfn depends on the key only.
 */
module HashTables {
  import opened Links
  import opened HashChains

  /** The bucket of a hash: hash % hth_table_length */
  function BucketNum(hash: nat, length: nat): (b: nat)
    requires 0 < length
    ensures b < length
  {
    hash % length
  }

  /** In arithmetic: the bucket is below the length, and differs from the hash by a multiple of it. */
  lemma BucketNumIs(hash: nat, length: nat, b: nat)
    requires 0 < length
    ensures BucketNum(hash, length) == b <==> b < length && (hash - b) % length == 0
  {
    var r, d := hash % length, hash / length;
    assert hash == length * d + r;
    if b < length && (hash - b) % length == 0 {
      var q := (hash - b) / length;
      assert hash == length * q + b;
      SameRemainder(length, d, r, q, b);
    }
    if r == b { MultipleOf(length, d); }
  }

  lemma SameRemainder(m: nat, p: int, r: nat, q: int, s: nat)
    requires 0 < m && r < m && s < m && m * p + r == m * q + s
    ensures r == s
  {
    var d := p - q;
    assert m * d == s - r by { assert m * p == m * q + m * d; }
    AtLeastOnce(m, d);
    AtLeastOnce(m, -d);
  }

  lemma AtLeastOnce(m: nat, d: int)
    ensures d >= 1 ==> m * d >= m
    ensures m * -d == -(m * d)
  {
    if d >= 1 { assert m * d == m + m * (d - 1); }
  }

  lemma MultipleOf(m: nat, d: int)
    requires 0 < m
    ensures (m * d) % m == 0
  {
    var r := (m * d) % m;
    var q := (m * d) / m;
    assert m * d == m * q + r;
    SameRemainder(m, d, 0, q, r);
  }

  /** Each element on a chain carries its hash and is in that hash's bucket. */
  ghost predicate Hashed(mem: Elements, chains: seq<seq<nat>>, h: nat -> nat) {
    forall b, e {:trigger e in chains[b]} :: 0 <= b < |chains| && e in chains[b]
      ==> e in mem && mem[e].hash == h(mem[e].key) && BucketNum(mem[e].hash, |chains|) == b
  }

  /** The elements on the chains are the values of the map, each under its own key. */
  ghost predicate Views(mem: Elements, chains: seq<seq<nat>>, view: map<nat, nat>) {
    && (forall e :: Has(chains, e) && e in mem ==> mem[e].key in view && view[mem[e].key] == e)
    && (forall k :: k in view ==> Has(chains, view[k]) && view[k] in mem && mem[view[k]].key == k)
  }

  ghost predicate TableOk(mem: Elements, table: seq<Link>, chains: seq<seq<nat>>, view: map<nat, nat>, h: nat -> nat) {
    && Forest(mem, table, chains) && Hashed(mem, chains, h) && Views(mem, chains, view)
    && Size(chains) == |view|
  }

  /** The first element of the chain from place `from` on that has the key, or the chain's end. */
  function FirstWith(mem: Elements, chain: seq<nat>, key: nat, from: nat): (k: nat)
    requires from <= |chain|
    ensures from <= k <= |chain|
    ensures k < |chain| && chain[k] in mem ==> mem[chain[k]].key == key
    ensures forall i :: from <= i < k && chain[i] in mem ==> mem[chain[i]].key != key
    decreases |chain| - from
  {
    if from == |chain| || (chain[from] in mem && mem[chain[from]].key == key) then from
    else FirstWith(mem, chain, key, from + 1)
  }

  /** HT_FIND_P_ on the chain of bucket b: the slot of the matching element, or the last slot. */
  method FindSlot(mem: Elements, head: Link, b: nat, ghost chain: seq<nat>, key: nat) returns (p: Slot, cur: Link)
    requires ChainOk(mem, head, chain)
    ensures var k := FirstWith(mem, chain, key, 0);
            p == SlotAt(b, chain, k) && cur == LinkAt(chain, k)
  {
    p, cur := Bucket(b), head;
    ghost var k := 0;
    while cur.To?
      invariant k <= |chain| && p == SlotAt(b, chain, k) && cur == LinkAt(chain, k)
      invariant FirstWith(mem, chain, key, k) == FirstWith(mem, chain, key, 0)
      decreases |chain| - k
    {
      Here(mem, head, chain, k);
      if mem[cur.a].key == key {
        return;
      }
      p, cur := NextOf(cur.a), mem[cur.a].next;
      k := k + 1;
    }
  }

  /** The chain of the key's bucket has the key's element exactly when the map has it. */
  lemma FoundIff(mem: Elements, table: seq<Link>, chains: seq<seq<nat>>, view: map<nat, nat>, h: nat -> nat, key: nat)
    requires TableOk(mem, table, chains, view, h) && 0 < |chains|
    ensures var chain := chains[BucketNum(h(key), |chains|)];
            var k := FirstWith(mem, chain, key, 0);
            LinkAt(chain, k) == if key in view then To(view[key]) else Nil
  {
    var b := BucketNum(h(key), |chains|);
    var chain := chains[b];
    var k := FirstWith(mem, chain, key, 0);
    if k < |chain| {
      assert chain[k] in chains[b];
      assert Has(chains, chain[k]);
    }
    if key in view {
      var e := view[key];
      var c :| 0 <= c < |chains| && e in chains[c];
      assert c == b;
      var i :| 0 <= i < |chain| && chain[i] == e;
    }
  }

  // ---------- what the operations do to a table in order ----------

  /** The memories agree but for links. */
  ghost predicate SameButNext(m1: Elements, m2: Elements) {
    m1.Keys == m2.Keys && forall e :: e in m1 ==> m1[e].hash == m2[e].hash && m1[e].key == m2[e].key
  }

  lemma InSpliced(s: seq<nat>, k: nat, mid: seq<nat>, m: nat, e: nat)
    requires k <= m <= |s| && e in Spliced(s, k, mid, m)
    ensures e in s || e in mid
  {
    assert e in s[..k] || e in mid || e in s[m..];
  }

  lemma HashedSplice(mem: Elements, chains: seq<seq<nat>>, h: nat -> nat, b: nat, k: nat, mid: seq<nat>, m: nat, mem': Elements)
    requires Hashed(mem, chains, h) && b < |chains| && k <= m <= |chains[b]| && |mid| <= 1
    requires |mid| == 1 ==> mid[0] in mem && mem[mid[0]].hash == h(mem[mid[0]].key)
                            && BucketNum(mem[mid[0]].hash, |chains|) == b
    requires SameButNext(mem, mem')
    ensures Hashed(mem', chains[b := Spliced(chains[b], k, mid, m)], h)
  {
    hide Spliced;
    var t := Spliced(chains[b], k, mid, m);
    var cs := chains[b := t];
    forall c, e | 0 <= c < |cs| && e in cs[c]
      ensures e in mem' && mem'[e].hash == h(mem'[e].key) && BucketNum(mem'[e].hash, |cs|) == c
    {
      if c == b { InSpliced(chains[b], k, mid, m, e); }
    }
  }

  lemma SizeSplice(chains: seq<seq<nat>>, b: nat, k: nat, mid: seq<nat>, m: nat)
    requires b < |chains| && k <= m <= |chains[b]|
    ensures Size(chains[b := Spliced(chains[b], k, mid, m)]) == Size(chains) - (m - k) + |mid|
  {
    SizeToUpdate(chains, b, Spliced(chains[b], k, mid, m), |chains|);
  }

  /** On a chain without repetitions, the elements around place k are others than the one there. */
  lemma OnlyAt(chain: seq<nat>, k: nat, e: nat)
    requires Distinct(chain) && k < |chain|
    ensures e in chain && e !in chain[..k] && e !in chain[k + 1..] <==> e == chain[k]
  {
    assert chain == chain[..k] + [chain[k]] + chain[k + 1..];
  }

  /** What a splice does to each part of TableOk but the view. */
  lemma SpliceParts(mem: Elements, table: seq<Link>, chains: seq<seq<nat>>, h: nat -> nat,
                    b: nat, k: nat, mid: seq<nat>, m: nat)
    requires Forest(mem, table, chains) && Hashed(mem, chains, h) && SpliceOk(mem, chains, b, k, mid, m)
    requires |mid| == 1 ==> mem[mid[0]].hash == h(mem[mid[0]].key) && BucketNum(mem[mid[0]].hash, |chains|) == b
    ensures var p, link, cs := SlotAt(b, chains[b], k), SpliceLink(chains[b], mid, m), chains[b := Spliced(chains[b], k, mid, m)];
            && SameButNext(mem, WriteMem(mem, p, link))
            && Forest(WriteMem(mem, p, link), WriteTable(table, p, link), cs)
            && Hashed(WriteMem(mem, p, link), cs, h)
            && Size(cs) == Size(chains) - (m - k) + |mid|
  {
    SpliceForest(mem, table, chains, b, k, mid, m);
    HashedSplice(mem, chains, h, b, k, mid, m, WriteMem(mem, SlotAt(b, chains[b], k), SpliceLink(chains[b], mid, m)));
    SizeSplice(chains, b, k, mid, m);
  }

  lemma AddedHas(chains: seq<seq<nat>>, b: nat, k: nat, e: nat)
    requires b < |chains| && k <= |chains[b]| && Disjoint(chains)
    ensures var cs := chains[b := Spliced(chains[b], k, [e], k)];
            forall x :: Has(cs, x) <==> Has(chains, x) || x == e
  {
    var cs := chains[b := Spliced(chains[b], k, [e], k)];
    forall x ensures Has(cs, x) <==> Has(chains, x) || x == e {
      SplicedHas(chains, b, k, [e], k, x);
      assert chains[b] == chains[b][..k] + chains[b][k..];
    }
  }

  /** Element e, with a new key and on no chain, goes into its bucket at place k. */
  lemma Added(mem: Elements, table: seq<Link>, chains: seq<seq<nat>>, view: map<nat, nat>, h: nat -> nat,
              b: nat, k: nat, e: nat, p: Slot, cs: seq<seq<nat>>)
    requires TableOk(mem, table, chains, view, h) && 0 < |chains| && e in mem && !Has(chains, e)
    requires mem[e].key !in view && mem[e].hash == h(mem[e].key) && b == BucketNum(mem[e].hash, |chains|)
    requires k <= |chains[b]| && mem[e].next == LinkAt(chains[b], k)
    requires p == SlotAt(b, chains[b], k) && cs == chains[b := Spliced(chains[b], k, [e], k)]
    ensures SameButNext(mem, WriteMem(mem, p, To(e)))
    ensures TableOk(WriteMem(mem, p, To(e)), WriteTable(table, p, To(e)), cs, view[mem[e].key := e], h)
  {
    SpliceParts(mem, table, chains, h, b, k, [e], k);
    AddedHas(chains, b, k, e);
    ViewsGrown(mem, chains, WriteMem(mem, p, To(e)), cs, view, e);
  }

  lemma ViewsGrown(mem: Elements, chains: seq<seq<nat>>, m: Elements, cs: seq<seq<nat>>, view: map<nat, nat>, e: nat)
    requires Views(mem, chains, view) && e in mem && mem[e].key !in view && SameButNext(mem, m)
    requires forall x :: Has(cs, x) <==> Has(chains, x) || x == e
    ensures Views(m, cs, view[mem[e].key := e])
  {
  }

  /** Which elements are left when the one at place k of bucket b goes. */
  lemma DroppedHas(chains: seq<seq<nat>>, b: nat, k: nat)
    requires b < |chains| && k < |chains[b]| && Disjoint(chains) && Distinct(chains[b])
    ensures var cs := chains[b := Spliced(chains[b], k, [], k + 1)];
            forall x :: Has(cs, x) <==> Has(chains, x) && x != chains[b][k]
  {
    var cs := chains[b := Spliced(chains[b], k, [], k + 1)];
    assert chains[b][k] in chains[b];
    forall x ensures Has(cs, x) <==> Has(chains, x) && x != chains[b][k] {
      SplicedHas(chains, b, k, [], k + 1, x);
      OnlyAt(chains[b], k, x);
    }
  }

  lemma AtPlace(mem: Elements, table: seq<Link>, chains: seq<seq<nat>>, b: nat, k: nat)
    requires Forest(mem, table, chains) && b < |chains| && k < |chains[b]|
    ensures chains[b][k] in mem && mem[chains[b][k]].next == LinkAt(chains[b], k + 1)
    ensures Has(chains, chains[b][k]) && Distinct(chains[b])
  {
    assert ChainOk(mem, table[b], chains[b]);
    Here(mem, table[b], chains[b], k);
    assert chains[b][k] in chains[b];
  }

  lemma SmallerView(view: map<nat, nat>, key: nat)
    requires key in view
    ensures |view - {key}| == |view| - 1
  {
    assert view.Keys == (view - {key}).Keys + {key};
  }

  /** The element r at place k of bucket b is taken off. */
  lemma Dropped(mem: Elements, table: seq<Link>, chains: seq<seq<nat>>, view: map<nat, nat>, h: nat -> nat,
                b: nat, k: nat, r: nat, p: Slot, cs: seq<seq<nat>>)
    requires TableOk(mem, table, chains, view, h) && b < |chains| && k < |chains[b]| && r == chains[b][k]
    requires p == SlotAt(b, chains[b], k) && cs == chains[b := Spliced(chains[b], k, [], k + 1)]
    ensures r in mem && mem[r].next == LinkAt(chains[b], k + 1) && mem[r].key in view && view[mem[r].key] == r
    ensures SameButNext(mem, WriteMem(mem, p, mem[r].next)) && !Has(cs, r)
    ensures TableOk(WriteMem(mem, p, mem[r].next), WriteTable(table, p, mem[r].next), cs, view - {mem[r].key}, h)
  {
    AtPlace(mem, table, chains, b, k);
    SpliceParts(mem, table, chains, h, b, k, [], k + 1);
    DroppedHas(chains, b, k);
    ViewsShrunk(mem, chains, WriteMem(mem, p, mem[r].next), cs, view, r);
    SmallerView(view, mem[r].key);
  }

  lemma ViewsShrunk(mem: Elements, chains: seq<seq<nat>>, m: Elements, cs: seq<seq<nat>>, view: map<nat, nat>, r: nat)
    requires Views(mem, chains, view) && r in mem && Has(chains, r) && SameButNext(mem, m)
    requires forall x :: Has(cs, x) <==> Has(chains, x) && x != r
    ensures mem[r].key in view && Views(m, cs, view - {mem[r].key})
  {
  }

  lemma SwappedHas(chains: seq<seq<nat>>, b: nat, k: nat, e: nat)
    requires b < |chains| && k < |chains[b]| && Disjoint(chains) && Distinct(chains[b])
    ensures var cs := chains[b := Spliced(chains[b], k, [e], k + 1)];
            forall x :: Has(cs, x) <==> (Has(chains, x) && x != chains[b][k]) || x == e
  {
    var cs := chains[b := Spliced(chains[b], k, [e], k + 1)];
    assert chains[b][k] in chains[b];
    forall x ensures Has(cs, x) <==> (Has(chains, x) && x != chains[b][k]) || x == e {
      SplicedHas(chains, b, k, [e], k + 1, x);
      OnlyAt(chains[b], k, x);
    }
  }

  /** Element e takes the place of r, the one with its key, at place k of bucket b. */
  lemma Swapped(mem: Elements, table: seq<Link>, chains: seq<seq<nat>>, view: map<nat, nat>, h: nat -> nat,
                b: nat, k: nat, e: nat, r: nat, p: Slot, cs: seq<seq<nat>>)
    requires TableOk(mem, table, chains, view, h) && b < |chains| && k < |chains[b]| && r == chains[b][k]
    requires e in mem && !Has(chains, e) && mem[e].hash == h(mem[e].key) && b == BucketNum(mem[e].hash, |chains|)
    requires mem[e].next == LinkAt(chains[b], k + 1)
    requires r in mem ==> mem[r].key == mem[e].key
    requires p == SlotAt(b, chains[b], k) && cs == chains[b := Spliced(chains[b], k, [e], k + 1)]
    ensures r in mem && mem[e].key in view && view[mem[e].key] == r
    ensures SameButNext(mem, WriteMem(mem, p, To(e))) && !Has(cs, r)
    ensures TableOk(WriteMem(mem, p, To(e)), WriteTable(table, p, To(e)), cs, view[mem[e].key := e], h)
  {
    hide Hashed, Size, Spliced;
    AtPlace(mem, table, chains, b, k);
    SpliceParts(mem, table, chains, h, b, k, [e], k + 1);
    SwappedHas(chains, b, k, e);
    ViewsSwapped(mem, chains, WriteMem(mem, p, To(e)), cs, view, r, e);
  }

  lemma ViewsSwapped(mem: Elements, chains: seq<seq<nat>>, m: Elements, cs: seq<seq<nat>>, view: map<nat, nat>, r: nat, e: nat)
    requires Views(mem, chains, view) && r in mem && Has(chains, r) && SameButNext(mem, m)
    requires e in mem && mem[e].key == mem[r].key && e != r
    requires forall x :: Has(cs, x) <==> (Has(chains, x) && x != r) || x == e
    ensures mem[e].key in view && Views(m, cs, view[mem[e].key := e])
  {
  }

  /** Elements on no chain may change as they like. */
  lemma OutsideOk(mem: Elements, m: Elements, table: seq<Link>, chains: seq<seq<nat>>, view: map<nat, nat>, h: nat -> nat)
    requires TableOk(mem, table, chains, view, h)
    requires forall e :: e in mem ==> e in m && (Has(chains, e) ==> m[e] == mem[e])
    ensures TableOk(m, table, chains, view, h)
  {
    OutsideForest(mem, m, table, chains);
    forall b, e | 0 <= b < |chains| && e in chains[b]
      ensures e in m && m[e].hash == h(m[e].key) && BucketNum(m[e].hash, |chains|) == b
    {
      assert Has(chains, e);
    }
    forall e | Has(chains, e) && e in m ensures m[e].key in view && view[m[e].key] == e {
      var b :| 0 <= b < |chains| && e in chains[b];
    }
  }

  // ---------- a link left over ----------

  /** The slot is in the table or in an element on a chain. */
  ghost predicate OnForest(chains: seq<seq<nat>>, p: Slot) {
    match p
    case Bucket(b) => b < |chains|
    case NextOf(a) => Has(chains, a)
  }

  /** A slot that is not the last of its chain stands at the place of the element it holds. */
  lemma SlotPlace(mem: Elements, table: seq<Link>, chains: seq<seq<nat>>, p: Slot, x: nat) returns (b: nat, k: nat)
    requires Forest(mem, table, chains) && OnForest(chains, p) && Read(mem, table, p) == To(x)
    ensures b < |chains| && k < |chains[b]| && chains[b][k] == x && p == SlotAt(b, chains[b], k)
  {
    match p
    case Bucket(i) =>
      b, k := i, 0;
      assert ChainOk(mem, table[b], chains[b]);
    case NextOf(a) =>
      var i, j :| 0 <= i < |chains| && 0 <= j < |chains[i]| && chains[i][j] == a;
      AtPlace(mem, table, chains, i, j);
      b, k := i, j + 1;
  }

  /** No two slots hold the same element. */
  lemma OneSlot(mem: Elements, table: seq<Link>, chains: seq<seq<nat>>, p: Slot, q: Slot, x: nat)
    requires Forest(mem, table, chains) && OnForest(chains, p) && OnForest(chains, q)
    requires Read(mem, table, p) == To(x) == Read(mem, table, q)
    ensures p == q && p != NextOf(x)
  {
    var b, k := SlotPlace(mem, table, chains, p, x);
    var c, l := SlotPlace(mem, table, chains, q, x);
    assert ChainOk(mem, table[b], chains[b]);
    assert x in chains[b] && x in chains[c];
  }

  lemma SlotOf(mem: Elements, table: seq<Link>, chains: seq<seq<nat>>, x: nat) returns (p: Slot)
    requires Forest(mem, table, chains) && Has(chains, x)
    ensures OnForest(chains, p) && Read(mem, table, p) == To(x)
  {
    var b, k :| 0 <= b < |chains| && 0 <= k < |chains[b]| && chains[b][k] == x;
    p := SlotAt(b, chains[b], k);
    assert ChainOk(mem, table[b], chains[b]);
    if 0 < k {
      AtPlace(mem, table, chains, b, k - 1);
      assert chains[b][k - 1] in chains[b];
    }
  }

  /** An element that HT_REPLACE put behind the last one of its chain is the new last one. */
  lemma NoLinkLeft(mem: Elements, table: seq<Link>, chains: seq<seq<nat>>, view: map<nat, nat>, h: nat -> nat,
                   e: nat, p: Slot, m: Elements, t: seq<Link>, cs: seq<seq<nat>>)
    requires TableOk(mem, table, chains, view, h) && e in mem && !Has(chains, e) && mem[e].key !in view
    requires OnForest(chains, p) && Read(mem, table, p) == Nil
    requires m == WriteMem(mem, p, To(e)) && t == WriteTable(table, p, To(e))
    requires TableOk(m, t, cs, view[mem[e].key := e], h)
    ensures mem[e].next == Nil
  {
    var v := view[mem[e].key := e];
    if mem[e].next.To? {
      var x := mem[e].next.a;
      assert v[mem[e].key] == e && Has(cs, e);
      assert Read(m, t, NextOf(e)) == To(x);
      OneSlot(m, t, cs, NextOf(e), NextOf(e), x);
      HeldOnChain(m, t, cs, NextOf(e), x);
      StillThere(mem, chains, view, e, m, cs, v, x);
      var q := SlotOf(mem, table, chains, x);
      assert Read(m, t, q) == To(x);
      if q.NextOf? { ThereToo(mem, chains, view, e, m, cs, v, q.a); }
      OneSlot(m, t, cs, NextOf(e), q, x);
      assert false;
    }
  }

  lemma HeldOnChain(mem: Elements, table: seq<Link>, chains: seq<seq<nat>>, p: Slot, x: nat)
    requires Forest(mem, table, chains) && OnForest(chains, p) && Read(mem, table, p) == To(x)
    ensures Has(chains, x) && x in mem
  {
    var b, k := SlotPlace(mem, table, chains, p, x);
    assert x in chains[b];
    AtPlace(mem, table, chains, b, k);
  }

  /** The other elements on the new chains were on the old ones. */
  lemma StillThere(mem: Elements, chains: seq<seq<nat>>, view: map<nat, nat>, e: nat,
                   m: Elements, cs: seq<seq<nat>>, v: map<nat, nat>, x: nat)
    requires Views(mem, chains, view) && Views(m, cs, v) && e in mem && v == view[mem[e].key := e] && SameButNext(mem, m)
    requires Has(cs, x) && x in m && x != e
    ensures Has(chains, x)
  {
  }

  /** The other way round. */
  lemma ThereToo(mem: Elements, chains: seq<seq<nat>>, view: map<nat, nat>, e: nat,
                 m: Elements, cs: seq<seq<nat>>, v: map<nat, nat>, y: nat)
    requires Views(mem, chains, view) && Views(m, cs, v) && e in mem && v == view[mem[e].key := e] && mem[e].key !in view
    requires Has(chains, y) && y in mem
    ensures Has(cs, y)
  {
    assert v[mem[y].key] == y;
  }

  /** The links are those of a table for this map. */
  ghost predicate StandsFor(mem: Elements, table: seq<Link>, view: map<nat, nat>, h: nat -> nat) {
    exists chains :: TableOk(mem, table, chains, view, h)
  }

  /**
   HT_REPLACE links an element that matches nothing behind the last one of its bucket, and leaves its
   link as it is.  The table stands for the map with the new element exactly when that link was NULL.
   */
  lemma LinkMustBeNull(mem: Elements, table: seq<Link>, chains: seq<seq<nat>>, view: map<nat, nat>, h: nat -> nat,
                       e: nat, b: nat, p: Slot)
    requires TableOk(mem, table, chains, view, h) && e in mem && !Has(chains, e) && mem[e].key !in view
    requires 0 < |chains| && mem[e].hash == h(mem[e].key) && b == BucketNum(mem[e].hash, |chains|)
    requires p == SlotAt(b, chains[b], |chains[b]|)
    ensures mem[e].next == Nil
       <==> StandsFor(WriteMem(mem, p, To(e)), WriteTable(table, p, To(e)), view[mem[e].key := e], h)
  {
    var m, t, v := WriteMem(mem, p, To(e)), WriteTable(table, p, To(e)), view[mem[e].key := e];
    var k := |chains[b]|;
    assert ChainOk(mem, table[b], chains[b]);
    if 0 < k {
      AtPlace(mem, table, chains, b, k - 1);
      assert chains[b][k - 1] in chains[b];
    }
    if mem[e].next == Nil {
      Added(mem, table, chains, view, h, b, k, e, p, chains[b := Spliced(chains[b], k, [e], k)]);
    }
    forall cs | TableOk(m, t, cs, v, h) ensures mem[e].next == Nil {
      NoLinkLeft(mem, table, chains, view, h, e, p, m, t, cs);
    }
  }
}
