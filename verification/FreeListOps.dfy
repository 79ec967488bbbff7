/**
 The code that searches and changes the free list: the scan of malloc_pages and the insertion,
 coalescing and trimming of free_pages, record by record.
 */
module FreeListOps {
  import opened FreeRuns
  import opened Links
  import opened FreeListLinks
  import opened PageDirectory

  // ---------- walks along the list ----------

  /** What a walk along the list sees at record k. */
  lemma Here(mem: Records, nodes: seq<nat>, k: nat)
    requires Listed(mem, nodes) && k < |nodes|
    ensures nodes[k] in mem && mem[nodes[k]].next == LinkAt(nodes, k + 1)
    ensures RunsOf(mem, nodes)[k] == Run(mem[nodes[k]].page, mem[nodes[k]].size)
  {
    assert NodeOk(mem, nodes, k);
  }

  method ScanFit(mem: Records, ghost nodes: seq<nat>, size: nat) returns (pf: Link, ghost k: nat)
    requires Listed(mem, nodes)
    ensures pf == LinkAt(nodes, FirstFit(RunsOf(mem, nodes), size)) && k == FirstFit(RunsOf(mem, nodes), size)
  {
    ghost var rs := RunsOf(mem, nodes);
    pf := mem[LIST].next;
    k := 0;
    while pf.To?
      invariant k <= |nodes| && pf == LinkAt(nodes, k)
      invariant FirstFit(rs, size, k) == FirstFit(rs, size)
      decreases |nodes| - k
    {
      Here(mem, nodes, k);
      if mem[pf.a].size >= size {
        return;
      }
      pf := mem[pf.a].next;
      k := k + 1;
    }
  }

  /** The race ahead to the right spot, counting the runs it passes. */
  method RaceAhead(mem: Records, ghost nodes: seq<nat>, ptr: nat)
    returns (pf: nat, cachesize: nat, ghost k: nat)
    requires Listed(mem, nodes) && mem[LIST].next.To?
    ensures k < |nodes| && nodes[k] == pf && cachesize == SumTo(RunsOf(mem, nodes), k)
    ensures EndBelow(RunsOf(mem, nodes), k, ptr)
    ensures ptr <= RunsOf(mem, nodes)[k].End() || k + 1 == |nodes|
  {
    ghost var rs := RunsOf(mem, nodes);
    pf := mem[LIST].next.a;
    k := 0;
    cachesize := 0;
    Here(mem, nodes, k);
    while ptr > mem[pf].page + mem[pf].size && mem[pf].next != Nil
      invariant k < |nodes| && nodes[k] == pf && pf in mem
      invariant rs[k] == Run(mem[pf].page, mem[pf].size) && mem[pf].next == LinkAt(nodes, k + 1)
      invariant EndBelow(rs, k, ptr)
      invariant cachesize == SumTo(rs, k)
      decreases |nodes| - k
    {
      cachesize := cachesize + mem[pf].size;
      pf := mem[pf].next.a;
      k := k + 1;
      Here(mem, nodes, k);
    }
  }

  /** The second half of the cache size calculation, from record pf on. */
  method CountRest(mem: Records, ghost nodes: seq<nat>, pf: nat, counted: nat, ghost k: nat)
    returns (cachesize: nat)
    requires Listed(mem, nodes) && k < |nodes| && nodes[k] == pf && counted == SumTo(RunsOf(mem, nodes), k)
    ensures cachesize == Total(RunsOf(mem, nodes))
  {
    ghost var rs := RunsOf(mem, nodes);
    cachesize := counted;
    var pt := To(pf);
    ghost var j := k;
    while pt.To?
      invariant j <= |nodes| && pt == LinkAt(nodes, j) && cachesize == SumTo(rs, j)
      decreases |nodes| - j
    {
      Here(mem, nodes, j);
      cachesize := cachesize + mem[pt.a].size;
      pt := mem[pt.a].next;
      j := j + 1;
    }
  }

  class FreeList {
    /** The pgfree records in memory: the list, its head, and the spare record. */
    var mem: Records
    /** px: a spare record, or none. */
    var px: Link
    /** The records on the list, in order. */
    ghost var nodes: seq<nat>

    ghost predicate Valid()
      reads this
    {
      && Listed(mem, nodes)
      && (px.To? ==> px.a in mem && px.a != LIST && px.a !in nodes)
    }

    /** The free runs the list stands for. */
    ghost function Runs(): seq<Run>
      reads this
    {
      RunsOf(mem, nodes)
    }

    constructor ()
      ensures Valid() && Runs() == [] && px == Nil
    {
      mem := map[LIST := PgFree(Nil, LIST, 0, 0, 0)];
      px := Nil;
      nodes := [];
    }

    lemma At(k: nat)
      requires Valid() && k < |nodes|
      ensures NodeOk(mem, nodes, k) && Runs()[k] == Run(mem[nodes[k]].page, mem[nodes[k]].size)
      ensures Before(nodes, k) in mem && (k + 1 < |nodes| ==> nodes[k + 1] in mem)
      ensures LIST !in nodes
    {
      InList(mem, nodes);
      assert NodeOk(mem, nodes, k);
    }

    /** The scan for a run that is large enough. */
    method FindFit(size: nat) returns (pf: Link, ghost k: nat)
      requires Valid()
      ensures k == FirstFit(Runs(), size) && pf == LinkAt(nodes, k)
    {
      pf, k := ScanFit(mem, nodes, size);
    }

    /** A run that is used up whole leaves the list; its record is not freed yet. */
    method Unlink(pf: nat, ghost k: nat)
      requires Valid() && k < |nodes| && nodes[k] == pf
      modifies this`mem, this`nodes
      ensures Valid() && Runs() == Remove(old(Runs()), k)
      ensures nodes == Remove(old(nodes), k) && pf !in nodes && mem.Keys == old(mem).Keys && pf in mem && pf != LIST
    {
      At(k);
      UnlinkedOk(mem, nodes, k);
      mem := Unlinked(mem, mem[pf].prev, mem[pf].next);
      nodes := Remove(nodes, k);
    }

    /** The end of malloc_pages: keep the record of a used up run as the spare one, or free it. */
    method Recycle(delayFree: nat)
      requires Valid() && delayFree in mem && delayFree != LIST && delayFree !in nodes
      modifies this`mem, this`px
      ensures Valid() && Runs() == old(Runs()) && mem.Keys <= old(mem).Keys
    {
      if px == Nil {
        px := To(delayFree);
      } else if px != To(delayFree) {
        FreeRecord(delayFree);
      }
    }

    method FreeRecord(a: nat)
      requires Valid() && a in mem && a != LIST && a !in nodes && px != To(a)
      modifies this`mem
      ensures Valid() && Runs() == old(Runs()) && mem.Keys <= old(mem).Keys
    {
      OffList(mem, mem - {a}, nodes);
      mem := mem - {a};
    }

    /** Run k changes in place. */
    method Change(pf: nat, page: nat, pdir: nat, size: nat, ghost k: nat)
      requires Valid() && k < |nodes| && nodes[k] == pf && pdir == PiIdx(page)
      modifies this`mem
      ensures Valid() && Runs() == old(Runs())[k := Run(page, size)] && mem.Keys == old(mem).Keys
    {
      At(k);
      RunChanged(mem, nodes, k, page, pdir, size);
      mem := mem[pf := mem[pf].(page := page, pdir := pdir, size := size)];
    }

    /** The spare record, from the chunk layer at address `chunk` when there is none, holds the run. */
    method FillSpare(ptr: nat, spi: nat, l: nat, chunk: nat) returns (p: nat)
      requires Valid() && chunk !in mem && spi == PiIdx(ptr)
      modifies this`mem, this`px
      ensures mem.Keys <= old(mem).Keys + {chunk}
      ensures Valid() && Runs() == old(Runs()) && px == To(p) && p in mem
      ensures RunOf(mem, p) == Run(ptr, l) && mem[p].pdir == spi
    {
      if px == Nil {
        InList(mem, nodes);
        px := To(chunk);
        OffList(mem, mem[chunk := PgFree(Nil, LIST, 0, 0, 0)], nodes);
        mem := mem[chunk := PgFree(Nil, LIST, 0, 0, 0)];
      }
      p := px.a;
      OffList(mem, mem[p := mem[p].(page := ptr, pdir := spi, size := l)], nodes);
      mem := mem[p := mem[p].(page := ptr, pdir := spi, size := l)];
    }

    /** The spare record goes onto the list at place k, between `prev` and `next`. */
    method LinkSpare(prev: nat, next: Link, ghost k: nat) returns (pf: nat)
      requires Valid() && px.To? && mem[px.a].pdir == PiIdx(mem[px.a].page)
      requires k <= |nodes| && prev == Before(nodes, k) && next == LinkAt(nodes, k)
      modifies this
      ensures mem.Keys <= old(mem).Keys
      ensures Valid() && px == Nil && To(pf) == old(px)
      ensures Runs() == Insert(old(Runs()), k, old(RunOf(mem, px.a)))
      ensures k < |nodes| && nodes[k] == pf
    {
      pf := px.a;
      LinkedInOk(mem, nodes, k, pf);
      mem := LinkedIn(mem, pf, prev, next);
      nodes := Insert(nodes, k, pf);
      px := Nil;
    }

    /** The right spot, and the size of everything on the list. */
    method Race(ptr: nat) returns (pf: nat, cachesize: nat, ghost k: nat)
      requires Valid() && mem[LIST].next.To?
      ensures 0 < |Runs()| == |nodes| && k == Spot(Runs(), ptr) && nodes[k] == pf
      ensures cachesize == Total(Runs())
    {
      pf, cachesize, k := RaceAhead(mem, nodes, ptr);
      SpotIs(Runs(), ptr, k);
      cachesize := CountRest(mem, nodes, pf, cachesize, k);
    }

    /** Collapse the next run into run k: its record, which comes back as pt, leaves the list. */
    method Swallow(pf: nat, ghost k: nat) returns (pt: Link)
      requires Valid() && k + 1 < |nodes| && nodes[k] == pf
      modifies this`mem, this`nodes
      ensures mem.Keys <= old(mem).Keys
      ensures Valid() && k < |nodes| && nodes[k] == pf && IsSpareOf(pt)
      ensures Runs() == old(Runs()[..k] + [Run(Runs()[k].page, Runs()[k].size + Runs()[k + 1].size)] + Runs()[k + 2..])
    {
      ghost var rs := Runs();
      At(k);
      At(k + 1);
      pt := mem[pf].next;
      var size := mem[pf].size + mem[pt.a].size;
      Unlink(pt.a, k + 1);
      At(k);
      assert Runs()[k] == rs[k];
      Change(pf, mem[pf].page, mem[pf].pdir, size, k);
      assert Remove(rs, k + 1)[k := Run(rs[k].page, size)]
             == rs[..k] + [Run(rs[k].page, size)] + rs[k + 2..];
    }

    ghost predicate IsSpareOf(pt: Link)
      reads this
    {
      pt.To? && pt.a in mem && pt.a != LIST && pt.a !in nodes && px != pt
    }

    /** Record pf takes the freed pages f behind it, and the next run too when they reach it. */
    method Append(pf: nat, l: nat, ghost k: nat, ghost f: Run) returns (pt: Link)
      requires Valid() && k < |nodes| && nodes[k] == pf && f.size == l && Runs()[k].End() == f.page
      modifies this`mem, this`nodes
      ensures mem.Keys <= old(mem).Keys
      ensures Valid() && k < |nodes| && nodes[k] == pf && (pt.To? ==> IsSpareOf(pt))
      ensures Runs() == if k + 1 < |old(Runs())| && old(Runs())[k + 1].page == f.End()
                        then Collapsed(old(Runs()), k, f) else Appended(old(Runs()), k, f)
    {
      ghost var rs := Runs();
      At(k);
      if k + 1 < |nodes| { At(k + 1); }
      Change(pf, mem[pf].page, mem[pf].pdir, mem[pf].size + l, k);
      ghost var grown := Runs();
      assert grown == Appended(rs, k, f);
      At(k);
      pt := Nil;
      if mem[pf].next != Nil {
        At(k + 1);
        if mem[mem[pf].next.a].page == mem[pf].page + mem[pf].size {
          CollapsedFromAppended(rs, k, f);
          pt := Swallow(pf, k);
        }
      }
    }

    /** The four ways freed pages go onto a list that is not empty. */
    method PutAt(ptr: nat, l: nat, spi: nat, pf0: nat, total: nat, ghost k: nat)
      returns (pf: nat, cachesize: nat, pt: Link, ghost at: nat)
      requires Valid() && px.To? && RunOf(mem, px.a) == Run(ptr, l) && mem[px.a].pdir == spi == PiIdx(ptr)
      requires k < |nodes| && nodes[k] == pf0 && total == Total(Runs())
      requires PlaceAt(Runs(), k, Run(ptr, l)).Placed?
      modifies this
      ensures mem.Keys <= old(mem).Keys
      ensures Valid()
      ensures var p := PlaceAt(old(Runs()), k, Run(ptr, l));
              Runs() == p.runs && at == p.at < |nodes| && nodes[at] == pf && cachesize == p.cached
              && (px == Nil <==> p.isNew)
      ensures pt.To? ==> IsSpareOf(pt)
    {
      hide Total, Canonical, Collapsed, Appended;
      ghost var f := Run(ptr, l);
      var tail := ptr + l;
      pf, cachesize, pt, at := pf0, total, Nil, k;
      At(k);
      TotalCut(Runs(), k);
      if mem[pf].page > tail {
        pf := LinkSpare(mem[pf].prev, To(pf), k);
      } else if mem[pf].page + mem[pf].size == ptr {
        cachesize := cachesize - mem[pf].size;
        pt := Append(pf, l, k, f);
      } else if mem[pf].page == tail {
        cachesize := cachesize - mem[pf].size;
        Change(pf, ptr, spi, mem[pf].size + l, k);
      } else if mem[pf].next == Nil {
        pf := LinkSpare(pf, Nil, k + 1);
        at := k + 1;
        assert Insert(old(Runs()), k + 1, f) == old(Runs()) + [f];
      } else {
        assert false;
      }
    }

    /**
     Add freed pages to the list: they are a run of their own, or join the run before them, the run
     behind them, or both.  pf is the record that holds them in the end.
     */
    method Release(ptr: nat, l: nat, spi: nat, chunk: nat)
      returns (pf: nat, cachesize: nat, pt: Link, ghost at: nat)
      requires Valid() && chunk !in mem && spi == PiIdx(ptr) && 0 < l
      requires Canonical(Runs()) && DisjointFrom(Runs(), Run(ptr, l))
      modifies this
      ensures mem.Keys <= old(mem).Keys + {chunk}
      ensures Valid()
      ensures var p := Place(old(Runs()), Run(ptr, l));
              p.Placed? && Runs() == p.runs && at == p.at < |nodes| && nodes[at] == pf && cachesize == p.cached
              && (px == Nil <==> p.isNew)
      ensures pt.To? ==> IsSpareOf(pt)
    {
      PlaceSound(Runs(), Run(ptr, l));
      var p := FillSpare(ptr, spi, l, chunk);
      if mem[LIST].next == Nil {
        assert nodes == [];
        pf := LinkSpare(LIST, Nil, 0);
        cachesize, pt, at := 0, Nil, 0;
      } else {
        ghost var k;
        pf, cachesize, k := Race(ptr);
        pf, cachesize, pt, at := PutAt(ptr, l, spi, pf, cachesize, k);
      }
    }

    /** A run left without pages leaves the list and its record becomes the spare one. */
    method DropEmptied(pf: nat, ghost k: nat)
      requires Valid() && k < |nodes| && nodes[k] == pf
      modifies this
      ensures mem.Keys <= old(mem).Keys
      ensures Valid() && Runs() == Remove(old(Runs()), k) && px == To(pf)
      ensures nodes == Remove(old(nodes), k)
    {
      At(k);
      if px.To? {
        FreeSpare();
      }
      Unlink(pf, k);
      px := To(pf);
    }

    /** Run k keeps its first `keep` pages only. */
    method Shorten(pf: nat, keep: nat, ghost k: nat)
      requires Valid() && k < |nodes| && nodes[k] == pf && keep < Runs()[k].size
      modifies this
      ensures mem.Keys <= old(mem).Keys
      ensures Valid() && Runs() == Trim(old(Runs()), k, keep)
    {
      At(k);
      Change(pf, mem[pf].page, mem[pf].pdir, keep, k);
      if keep == 0 {
        DropEmptied(pf, k);
      }
    }

    method FreeSpare()
      requires Valid() && px.To?
      modifies this`mem, this`px
      ensures mem.Keys <= old(mem).Keys
      ensures Valid() && Runs() == old(Runs()) && px == Nil
      ensures forall a :: a in nodes ==> a in mem
    {
      var a := px.a;
      px := Nil;
      FreeRecord(a);
      InList(mem, nodes);
    }
  }
}
