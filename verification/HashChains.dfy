/**
 The chains of the hash table: elements in memory, linked through hte_next, one chain for each slot
 of the bucket table.
 */
module HashChains {
  import opened Links

  /** A table element: its link, its cached hash, and the key that eqfn and hashfn look at. */
  datatype Element = Element(next: Link, hash: nat, key: nat)

  type Elements = map<nat, Element>

  /** Where a pointer to an element is kept: in the bucket table or in the element before. */
  datatype Slot = Bucket(b: nat) | NextOf(a: nat)

  function SlotAt(b: nat, chain: seq<nat>, k: nat): Slot
    requires k <= |chain|
  {
    if k == 0 then Bucket(b) else NextOf(chain[k - 1])
  }

  ghost predicate NextIs(mem: Elements, chain: seq<nat>, k: nat)
    requires k < |chain|
  {
    chain[k] in mem && mem[chain[k]].next == LinkAt(chain, k + 1)
  }

  /** The links from head on go through the elements of the chain. */
  ghost predicate ChainOk(mem: Elements, head: Link, chain: seq<nat>) {
    && head == LinkAt(chain, 0) && Distinct(chain)
    && (forall k {:trigger NextIs(mem, chain, k)} :: 0 <= k < |chain| ==> NextIs(mem, chain, k))
  }

  /** No element is on two chains. */
  ghost predicate Disjoint(chains: seq<seq<nat>>) {
    forall b, c, e {:trigger e in chains[b], e in chains[c]} ::
      0 <= b < |chains| && 0 <= c < |chains| && e in chains[b] && e in chains[c] ==> b == c
  }

  ghost predicate Forest(mem: Elements, table: seq<Link>, chains: seq<seq<nat>>) {
    && |table| == |chains| && Disjoint(chains)
    && (forall b {:trigger ChainOk(mem, table[b], chains[b])} ::
          0 <= b < |chains| ==> ChainOk(mem, table[b], chains[b]))
  }

  ghost predicate Has(chains: seq<seq<nat>>, e: nat) {
    exists b :: 0 <= b < |chains| && e in chains[b]
  }

  lemma Here(mem: Elements, head: Link, chain: seq<nat>, k: nat)
    requires ChainOk(mem, head, chain) && k < |chain|
    ensures chain[k] in mem && mem[chain[k]].next == LinkAt(chain, k + 1)
  {
    assert NextIs(mem, chain, k);
  }

  lemma ChainSame(mem: Elements, m: Elements, head: Link, chain: seq<nat>)
    requires ChainOk(mem, head, chain)
    requires forall e :: e in chain && e in mem ==> e in m && m[e].next == mem[e].next
    ensures ChainOk(m, head, chain)
  {
    forall k | 0 <= k < |chain| ensures NextIs(m, chain, k) {
      Here(mem, head, chain, k);
    }
  }

  // ---------- how many elements ----------

  function SizeTo(chains: seq<seq<nat>>, k: nat): nat
    requires k <= |chains|
  {
    if k == 0 then 0 else SizeTo(chains, k - 1) + |chains[k - 1]|
  }

  function Size(chains: seq<seq<nat>>): nat { SizeTo(chains, |chains|) }

  lemma {:induction false} SizeToUpdate(chains: seq<seq<nat>>, b: nat, chain: seq<nat>, k: nat)
    requires b < |chains| && k <= |chains|
    ensures SizeTo(chains[b := chain], k) == SizeTo(chains, k) + (if b < k then |chain| - |chains[b]| else 0)
  {
    if k != 0 { SizeToUpdate(chains, b, chain, k - 1); }
  }

  lemma {:induction false} SizeToEmpty(chains: seq<seq<nat>>, k: nat)
    requires k <= |chains| && forall b :: 0 <= b < k ==> chains[b] == []
    ensures SizeTo(chains, k) == 0
  {
    if k != 0 { SizeToEmpty(chains, k - 1); }
  }

  // ---------- one chain changes ----------

  /**
   Chain b is replaced by one whose elements were on it or on no chain; the memory changes at elements
   of the old or the new chain only.
   */
  lemma ForestUpdate(mem: Elements, table: seq<Link>, chains: seq<seq<nat>>, b: nat,
                     m: Elements, head: Link, chain: seq<nat>)
    requires Forest(mem, table, chains) && b < |chains|
    requires ChainOk(m, head, chain)
    requires forall e :: e in chain ==> e in chains[b] || !Has(chains, e)
    requires forall e :: e in mem && e !in chains[b] && e !in chain ==> e in m && m[e].next == mem[e].next
    ensures Forest(m, table[b := head], chains[b := chain])
  {
    var t, cs := table[b := head], chains[b := chain];
    forall c | 0 <= c < |cs| ensures ChainOk(m, t[c], cs[c]) {
      if c != b {
        assert ChainOk(mem, table[c], chains[c]);
        forall e | e in chains[c] && e in mem ensures e in m && m[e].next == mem[e].next {
          assert e !in chains[b];
          assert Has(chains, e);
        }
        ChainSame(mem, m, table[c], chains[c]);
      }
    }
    forall c, d, e | 0 <= c < |cs| && 0 <= d < |cs| && e in cs[c] && e in cs[d] ensures c == d {
      if c != d {
        assert c != b ==> e in chains[c] && Has(chains, e);
        assert d != b ==> e in chains[d] && Has(chains, e);
      }
    }
  }

  // ---------- writing through a slot ----------

  /** *p = link, as the table and the memory see it. */
  function WriteTable(table: seq<Link>, p: Slot, link: Link): seq<Link> {
    if p.Bucket? && p.b < |table| then table[p.b := link] else table
  }
  function WriteMem(mem: Elements, p: Slot, link: Link): Elements {
    if p.NextOf? && p.a in mem then mem[p.a := mem[p.a].(next := link)] else mem
  }
  /** *p */
  function Read(mem: Elements, table: seq<Link>, p: Slot): Link {
    match p
    case Bucket(b) => if b < |table| then table[b] else Nil
    case NextOf(a) => if a in mem then mem[a].next else Nil
  }

  function Spliced(chain: seq<nat>, k: nat, mid: seq<nat>, m: nat): seq<nat>
    requires k <= m <= |chain|
  {
    chain[..k] + mid + chain[m..]
  }

  /**
   The one way all operations change a chain: the slot at place k is set to a new element, whose link
   goes on at place m (k <= m), or straight to place m when there is no new element.
   */
  lemma Splice(mem: Elements, table: seq<Link>, b: nat, chain: seq<nat>, k: nat, mid: seq<nat>, m: nat, mem': Elements)
    requires b < |table| && ChainOk(mem, table[b], chain) && k <= m <= |chain| && |mid| <= 1
    requires |mid| == 1 ==> mid[0] in mem && (mid[0] !in chain) && mem[mid[0]].next == LinkAt(chain, m)
    requires mem' == WriteMem(mem, SlotAt(b, chain, k), if |mid| == 1 then To(mid[0]) else LinkAt(chain, m))
    ensures ChainOk(mem', WriteTable(table, SlotAt(b, chain, k), if |mid| == 1 then To(mid[0]) else LinkAt(chain, m))[b],
                    Spliced(chain, k, mid, m))
    ensures mem'.Keys == mem.Keys
  {
    if 0 < k { Here(mem, table[b], chain, k - 1); }
    var t := Spliced(chain, k, mid, m);
    SplicedAt(chain, k, mid, m);
    forall i | 0 <= i < |t| ensures NextIs(mem', t, i) {
      if i < k {
        Here(mem, table[b], chain, i);
      } else if |mid| == 1 && i == k {
      } else {
        Here(mem, table[b], chain, i - k - |mid| + m);
      }
    }
  }

  lemma SplicedAt(chain: seq<nat>, k: nat, mid: seq<nat>, m: nat)
    requires Distinct(chain) && k <= m <= |chain| && |mid| <= 1
    requires |mid| == 1 ==> mid[0] !in chain
    ensures var t := Spliced(chain, k, mid, m);
            && |t| == |chain| - (m - k) + |mid| && Distinct(t)
            && (forall i :: 0 <= i < k ==> t[i] == chain[i])
            && (|mid| == 1 ==> t[k] == mid[0])
            && (forall i :: k + |mid| <= i < |t| ==> t[i] == chain[i - k - |mid| + m])
  {
  }

  ghost predicate SpliceOk(mem: Elements, chains: seq<seq<nat>>, b: nat, k: nat, mid: seq<nat>, m: nat) {
    && b < |chains| && k <= m <= |chains[b]| && |mid| <= 1
    && (|mid| == 1 ==> mid[0] in mem && !Has(chains, mid[0]) && mem[mid[0]].next == LinkAt(chains[b], m))
  }

  function SpliceLink(chain: seq<nat>, mid: seq<nat>, m: nat): Link {
    if |mid| == 1 then To(mid[0]) else LinkAt(chain, m)
  }

  /** A splice of one chain keeps all chains in order. */
  lemma SpliceForest(mem: Elements, table: seq<Link>, chains: seq<seq<nat>>,
                     b: nat, k: nat, mid: seq<nat>, m: nat)
    requires Forest(mem, table, chains) && SpliceOk(mem, chains, b, k, mid, m)
    ensures var p, link := SlotAt(b, chains[b], k), SpliceLink(chains[b], mid, m);
            && WriteMem(mem, p, link).Keys == mem.Keys
            && Forest(WriteMem(mem, p, link), WriteTable(table, p, link), chains[b := Spliced(chains[b], k, mid, m)])
  {
    var chain := chains[b];
    assert ChainOk(mem, table[b], chain);
    assert |mid| == 1 ==> mid[0] !in chain;
    var p, link := SlotAt(b, chain, k), SpliceLink(chain, mid, m);
    var mem', table' := WriteMem(mem, p, link), WriteTable(table, p, link);
    Splice(mem, table, b, chain, k, mid, m, mem');
    var t := Spliced(chain, k, mid, m);
    ForestUpdate(mem, table, chains, b, mem', table'[b], t);
    assert table' == table[b := table'[b]];
  }

  /** Elements on no chain do not matter to the chains. */
  lemma OutsideForest(mem: Elements, m: Elements, table: seq<Link>, chains: seq<seq<nat>>)
    requires Forest(mem, table, chains)
    requires forall e :: e in mem && Has(chains, e) ==> e in m && m[e].next == mem[e].next
    ensures Forest(m, table, chains)
  {
    forall c | 0 <= c < |chains| ensures ChainOk(m, table[c], chains[c]) {
      assert ChainOk(mem, table[c], chains[c]);
      forall e | e in chains[c] && e in mem ensures e in m && m[e].next == mem[e].next {
        assert Has(chains, e);
      }
      ChainSame(mem, m, table[c], chains[c]);
    }
  }

  /** Which elements a splice leaves on the chains. */
  lemma SplicedHas(chains: seq<seq<nat>>, b: nat, k: nat, mid: seq<nat>, m: nat, e: nat)
    requires b < |chains| && k <= m <= |chains[b]| && Disjoint(chains)
    ensures Has(chains[b := Spliced(chains[b], k, mid, m)], e)
       <==> (Has(chains, e) && !(e in chains[b] && e !in chains[b][..k] && e !in chains[b][m..])) || e in mid
  {
    var t := Spliced(chains[b], k, mid, m);
    var cs := chains[b := t];
    assert chains[b] == chains[b][..k] + chains[b][k..m] + chains[b][m..];
    assert cs[b] == t;
    if Has(chains, e) {
      var c :| 0 <= c < |chains| && e in chains[c];
      assert c != b ==> e in cs[c];
    }
    if Has(cs, e) {
      var c :| 0 <= c < |cs| && e in cs[c];
      assert c != b ==> e in chains[c];
    }
  }
}
