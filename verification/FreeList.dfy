/**
 The free list as the allocator keeps it: struct pgfree records in memory, doubly linked behind the
 record `free_list` itself.  The list stands for a sequence of runs, one per record.
 */
module FreeListLinks {
  import opened Links
  import opened FreeRuns
  import opened PageDirectory

  /** A struct pgfree. */
  datatype PgFree = PgFree(next: Link, prev: nat, page: nat, pdir: nat, size: nat)

  type Records = map<nat, PgFree>

  /** The address of the record free_list, which heads the list. */
  const LIST: nat := 0

  function Before(nodes: seq<nat>, k: nat): nat
    requires k <= |nodes|
  {
    if k == 0 then LIST else nodes[k - 1]
  }

  ghost predicate NodeOk(mem: Records, nodes: seq<nat>, k: nat)
    requires k < |nodes|
  {
    && nodes[k] in mem && nodes[k] != LIST
    && mem[nodes[k]].next == LinkAt(nodes, k + 1)
    && mem[nodes[k]].prev == Before(nodes, k)
    && mem[nodes[k]].pdir == PiIdx(mem[nodes[k]].page)
  }

  /** The records in `nodes`, in this order, are the list; each knows its directory page. */
  ghost predicate Listed(mem: Records, nodes: seq<nat>) {
    && LIST in mem && mem[LIST].next == LinkAt(nodes, 0)
    && Distinct(nodes)
    && (forall k {:trigger NodeOk(mem, nodes, k)} :: 0 <= k < |nodes| ==> NodeOk(mem, nodes, k))
  }

  ghost function RunOf(mem: Records, a: nat): Run {
    if a in mem then Run(mem[a].page, mem[a].size) else Run(0, 0)
  }

  /** The runs the list stands for. */
  ghost function RunsOf(mem: Records, nodes: seq<nat>): (rs: seq<Run>)
    ensures |rs| == |nodes| && forall k :: 0 <= k < |nodes| ==> rs[k] == RunOf(mem, nodes[k])
  {
    seq(|nodes|, k requires 0 <= k < |nodes| => RunOf(mem, nodes[k]))
  }

  // ---------- linking in ----------

  /** Record p goes between the records that are k - 1st and kth on the list. */
  function LinkedIn(mem: Records, p: nat, prev: nat, next: Link): Records
    requires p in mem && prev in mem && (next.To? ==> next.a in mem)
  {
    var m := mem[p := mem[p].(next := next, prev := prev)];
    var m := if next.To? then m[next.a := m[next.a].(prev := p)] else m;
    m[prev := m[prev].(next := To(p))]
  }

  ghost predicate Fits(mem: Records, nodes: seq<nat>, k: nat, p: nat) {
    && k <= |nodes| && p in mem && p != LIST && p !in nodes
    && Before(nodes, k) in mem && (k < |nodes| ==> nodes[k] in mem && nodes[k] != Before(nodes, k))
  }

  lemma LinkedInFields(mem: Records, nodes: seq<nat>, k: nat, p: nat)
    requires Fits(mem, nodes, k, p)
    ensures var m := LinkedIn(mem, p, Before(nodes, k), LinkAt(nodes, k));
            && m.Keys == mem.Keys
            && m[p] == mem[p].(next := LinkAt(nodes, k), prev := Before(nodes, k))
            && m[Before(nodes, k)] == mem[Before(nodes, k)].(next := To(p))
            && (k < |nodes| ==> m[nodes[k]] == mem[nodes[k]].(prev := p))
            && (forall a :: a in mem && a != p && a != Before(nodes, k) && LinkAt(nodes, k) != To(a) ==> m[a] == mem[a])
  {
    assert p != Before(nodes, k) && (k < |nodes| ==> nodes[k] != p);
  }

  lemma LinkedInNode(mem: Records, nodes: seq<nat>, k: nat, p: nat, m: Records, j: nat)
    requires Fits(mem, nodes, k, p) && Distinct(nodes) && LIST !in nodes
    requires m == LinkedIn(mem, p, Before(nodes, k), LinkAt(nodes, k))
    requires mem[p].pdir == PiIdx(mem[p].page)
    requires j <= |nodes|
    requires j < k ==> NodeOk(mem, nodes, j)
    requires j > k ==> NodeOk(mem, nodes, j - 1)
    ensures NodeOk(m, Insert(nodes, k, p), j)
  {
    LinkedInFields(mem, nodes, k, p);
    var t := Insert(nodes, k, p);
    assert j < k ==> t[j] == nodes[j];
    assert j > k ==> t[j] == nodes[j - 1];
    assert 0 < j <= k ==> t[j - 1] == nodes[j - 1];
    assert j + 1 < k ==> t[j + 1] == nodes[j + 1];
    assert k <= j < |nodes| ==> t[j + 1] == nodes[j];
    assert j > k + 1 ==> t[j - 1] == nodes[j - 2];
  }

  /** Linking a record in at place k inserts its run at place k. */
  lemma LinkedInOk(mem: Records, nodes: seq<nat>, k: nat, p: nat)
    requires Listed(mem, nodes) && k <= |nodes|
    requires p in mem && p != LIST && p !in nodes && mem[p].pdir == PiIdx(mem[p].page)
    ensures Fits(mem, nodes, k, p)
    ensures var m := LinkedIn(mem, p, Before(nodes, k), LinkAt(nodes, k));
            && Listed(m, Insert(nodes, k, p))
            && RunsOf(m, Insert(nodes, k, p)) == Insert(RunsOf(mem, nodes), k, RunOf(mem, p))
            && m.Keys == mem.Keys
  {
    InList(mem, nodes);
    LinkedInFields(mem, nodes, k, p);
    var m := LinkedIn(mem, p, Before(nodes, k), LinkAt(nodes, k));
    var t := Insert(nodes, k, p);
    forall j | 0 <= j < |t| ensures NodeOk(m, t, j) {
      assert j < k ==> NodeOk(mem, nodes, j);
      assert j > k ==> NodeOk(mem, nodes, j - 1);
      LinkedInNode(mem, nodes, k, p, m, j);
    }
    forall a | a in mem ensures RunOf(m, a) == RunOf(mem, a) {
    }
  }

  lemma InList(mem: Records, nodes: seq<nat>)
    requires Listed(mem, nodes)
    ensures LIST !in nodes && forall k :: 0 <= k < |nodes| ==> nodes[k] in mem
  {
    forall k | 0 <= k < |nodes| ensures nodes[k] in mem && nodes[k] != LIST {
      assert NodeOk(mem, nodes, k);
    }
  }

  // ---------- unlinking ----------

  function Unlinked(mem: Records, prev: nat, next: Link): Records
    requires prev in mem && (next.To? ==> next.a in mem)
  {
    var m := if next.To? then mem[next.a := mem[next.a].(prev := prev)] else mem;
    m[prev := m[prev].(next := next)]
  }

  lemma UnlinkedFields(mem: Records, nodes: seq<nat>, k: nat)
    requires k < |nodes| && Before(nodes, k) in mem
    requires k + 1 < |nodes| ==> nodes[k + 1] in mem && nodes[k + 1] != Before(nodes, k)
    ensures var m := Unlinked(mem, Before(nodes, k), LinkAt(nodes, k + 1));
            && m.Keys == mem.Keys
            && m[Before(nodes, k)] == mem[Before(nodes, k)].(next := LinkAt(nodes, k + 1))
            && (k + 1 < |nodes| ==> m[nodes[k + 1]] == mem[nodes[k + 1]].(prev := Before(nodes, k)))
            && (forall a :: a in mem && a != Before(nodes, k) && LinkAt(nodes, k + 1) != To(a) ==> m[a] == mem[a])
  {
  }

  lemma UnlinkedNode(mem: Records, nodes: seq<nat>, k: nat, m: Records, j: nat)
    requires k < |nodes| && Before(nodes, k) in mem && Distinct(nodes) && LIST !in nodes
    requires k + 1 < |nodes| ==> nodes[k + 1] in mem
    requires m == Unlinked(mem, Before(nodes, k), LinkAt(nodes, k + 1))
    requires j + 1 < |nodes|
    requires if j < k then NodeOk(mem, nodes, j) else NodeOk(mem, nodes, j + 1)
    ensures NodeOk(m, Remove(nodes, k), j)
  {
    UnlinkedFields(mem, nodes, k);
    var t := Remove(nodes, k);
    assert j < k ==> t[j] == nodes[j];
    assert j >= k ==> t[j] == nodes[j + 1];
    assert 0 < j <= k ==> t[j - 1] == nodes[j - 1];
    assert j + 1 < k ==> t[j + 1] == nodes[j + 1];
    assert k - 1 <= j < |nodes| - 2 ==> t[j + 1] == nodes[j + 2];
    assert j > k ==> t[j - 1] == nodes[j];
  }

  /** Unlinking the kth record removes the kth run. */
  lemma UnlinkedOk(mem: Records, nodes: seq<nat>, k: nat)
    requires Listed(mem, nodes) && k < |nodes|
    ensures Before(nodes, k) in mem && (k + 1 < |nodes| ==> nodes[k + 1] in mem)
    ensures var m := Unlinked(mem, Before(nodes, k), LinkAt(nodes, k + 1));
            && Listed(m, Remove(nodes, k))
            && RunsOf(m, Remove(nodes, k)) == Remove(RunsOf(mem, nodes), k)
            && m.Keys == mem.Keys
  {
    InList(mem, nodes);
    UnlinkedFields(mem, nodes, k);
    var m := Unlinked(mem, Before(nodes, k), LinkAt(nodes, k + 1));
    var t := Remove(nodes, k);
    forall j | 0 <= j < |t| ensures NodeOk(m, t, j) {
      assert j < k ==> NodeOk(mem, nodes, j);
      assert j >= k ==> NodeOk(mem, nodes, j + 1);
      UnlinkedNode(mem, nodes, k, m, j);
    }
    forall a | a in mem ensures RunOf(m, a) == RunOf(mem, a) {
    }
  }

  // ---------- changing a run in place ----------

  lemma RunChanged(mem: Records, nodes: seq<nat>, k: nat, page: nat, pdir: nat, size: nat)
    requires Listed(mem, nodes) && k < |nodes| && pdir == PiIdx(page)
    ensures nodes[k] in mem
    ensures var m := mem[nodes[k] := mem[nodes[k]].(page := page, pdir := pdir, size := size)];
            Listed(m, nodes) && RunsOf(m, nodes) == RunsOf(mem, nodes)[k := Run(page, size)]
  {
    InList(mem, nodes);
    var m := mem[nodes[k] := mem[nodes[k]].(page := page, pdir := pdir, size := size)];
    forall j | 0 <= j < |nodes| ensures NodeOk(m, nodes, j) {
      assert NodeOk(mem, nodes, j);
    }
  }

  /** Records off the list do not matter to it. */
  lemma OffList(mem: Records, m: Records, nodes: seq<nat>)
    requires Listed(mem, nodes)
    requires LIST in m && m[LIST] == mem[LIST]
    requires forall a :: a in nodes && a in mem ==> a in m && m[a] == mem[a]
    ensures Listed(m, nodes) && RunsOf(m, nodes) == RunsOf(mem, nodes)
  {
    InList(mem, nodes);
    forall j | 0 <= j < |nodes| ensures NodeOk(m, nodes, j) {
      assert NodeOk(mem, nodes, j);
    }
  }
}
