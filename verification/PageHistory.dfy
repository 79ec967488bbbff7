/**
 What several calls of the page allocator do together: freeing undoes allocating, and the order in
 which blocks are freed does not matter while nothing has to go back to the kernel.
 */
module PageHistory {
  import opened FreeRuns
  import opened PageOwnership
  import opened PageDirectory
  import opened PageAllocator

  /** Freeing f gave nothing back: all pages are on the list. */
  ghost predicate KeptAll(rs: seq<Run>, f: Run, cache: nat, t: seq<Run>) {
    FreedTo(rs, f, cache, t) && Total(t) == Total(rs) + f.size
  }

  /** So the list has the old pages and the freed ones. */
  lemma KeptAllPages(rs: seq<Run>, f: Run, cache: nat, t: seq<Run>)
    requires Canonical(rs) && 0 < f.size && DisjointFrom(rs, f) && Total(rs) <= cache && KeptAll(rs, f, cache, t)
    ensures Canonical(t) && Total(t) <= cache
    ensures forall x: nat :: Covers(t, x) <==> Covers(rs, x) || f.Has(x)
  {
    hide Canonical, Place, Covers, Total, DisjointFrom;
    var p := Place(rs, f);
    PlaceSound(rs, f);
    SettledTotal(rs, f, cache);
    TrimmedTotal(p.runs, p.at, cache - p.cached);
    assert t == p.runs;
  }

  /** Everything is kept exactly when the list, with a swallowed run counted twice, fits the cache. */
  lemma KeptAllIff(rs: seq<Run>, f: Run, cache: nat, t: seq<Run>)
    requires Canonical(rs) && 0 < f.size && DisjointFrom(rs, f) && Total(rs) <= cache && FreedTo(rs, f, cache, t)
    ensures Place(rs, f).Placed?
    ensures KeptAll(rs, f, cache, t) <==> Total(rs) + f.size + Place(rs, f).swallowed <= cache
  {
    SettledTotal(rs, f, cache);
  }

  /** Two blocks freed in either order leave the same free list, if it can keep both. */
  lemma FreeOrderDoesNotMatter(rs: seq<Run>, f: Run, g: Run, cache: nat,
                               tf: seq<Run>, tfg: seq<Run>, tg: seq<Run>, tgf: seq<Run>)
    requires Canonical(rs) && 0 < f.size && 0 < g.size && DisjointFrom(rs, f) && DisjointFrom(rs, g)
    requires f.End() <= g.page || g.End() <= f.page
    requires Total(rs) <= cache
    requires KeptAll(rs, f, cache, tf) && KeptAll(tf, g, cache, tfg)
    requires KeptAll(rs, g, cache, tg) && KeptAll(tg, f, cache, tgf)
    ensures tfg == tgf
  {
    KeptAllPages(rs, f, cache, tf);
    KeptAllPages(rs, g, cache, tg);
    DisjointAfter(rs, f, g, tf);
    DisjointAfter(rs, g, f, tg);
    KeptAllPages(tf, g, cache, tfg);
    KeptAllPages(tg, f, cache, tgf);
    CanonicalIsUnique(tfg, tgf);
  }

  lemma DisjointAfter(rs: seq<Run>, f: Run, g: Run, t: seq<Run>)
    requires DisjointFrom(rs, g) && (f.End() <= g.page || g.End() <= f.page)
    requires forall x: nat :: Covers(t, x) <==> Covers(rs, x) || f.Has(x)
    ensures DisjointFrom(t, g)
  {
    forall x: nat | Covers(t, x) ensures !g.Has(x) {}
  }

  /** The pages in front of a run are not free: the run would be longer. */
  lemma GapBefore(rs: seq<Run>, k: nat, j: nat)
    requires Canonical(rs) && k < |rs| && j < |rs| && 0 < rs[k].page
    ensures !rs[j].Has(rs[k].page - 1)
  {
    if j < k { assert rs[j].End() < rs[k].page; }
    if k < j { assert rs[k].End() < rs[j].page; }
  }

  /** Pages just taken from the front of run k go back without a second run being swallowed. */
  lemma NothingSwallowed(rs: seq<Run>, k: nat, size: nat)
    requires Canonical(rs) && k < |rs| && 0 < size <= rs[k].size
    ensures var t, f := TakeFrom(rs, k, size), Run(rs[k].page, size);
            DisjointFrom(t, f) && Place(t, f).Placed? && Place(t, f).swallowed == 0
  {
    var t, f := TakeFrom(rs, k, size), Run(rs[k].page, size);
    TakeFromSound(rs, k, size);
    forall x: nat | Covers(t, x) ensures !f.Has(x) {}
    PlaceSound(t, f);
    if t != [] {
      var m := Spot(t, f.page);
      if t[m].End() == f.page {
        assert 0 < t[m].size;
        assert t[m].Has(f.page - 1);
        assert Covers(t, f.page - 1) && Covers(rs, f.page - 1);
        var j :| 0 <= j < |rs| && rs[j].Has(f.page - 1);
        GapBefore(rs, k, j);
      }
    }
  }

  /** Allocating from the cache and freeing at once leaves the free list as it was, run for run. */
  lemma FreeUndoesAlloc(rs: seq<Run>, k: nat, size: nat, cache: nat, u: seq<Run>)
    requires Canonical(rs) && Total(rs) <= cache && k < |rs| && 0 < size <= rs[k].size
    requires FreedTo(TakeFrom(rs, k, size), Run(rs[k].page, size), cache, u)
    ensures u == rs
  {
    var t, f := TakeFrom(rs, k, size), Run(rs[k].page, size);
    TakeFromSound(rs, k, size);
    NothingSwallowed(rs, k, size);
    KeptAllIff(t, f, cache, u);
    KeptAllPages(t, f, cache, u);
    forall x: nat ensures Covers(u, x) <==> Covers(rs, x) {
      if f.Has(x) { assert rs[k].Has(x); }
    }
    CanonicalIsUnique(u, rs);
  }

  /** The same of the allocator itself; without a run to allocate from, the pages become cached as far as they fit. */
  method AllocAndFree(al: Allocator, size: nat, kernel: nat, chunk: nat) returns (p: nat)
    requires al.Inv() && 0 < size && chunk !in al.fl.mem
    requires forall i: nat :: kernel <= i < kernel + Extent(size, al.guard) ==> EntryAt(al.dir.mem, i) == NotMine
    modifies al, al.dir, al.fl
    ensures al.Inv() && al.live == old(al.live)
    ensures FirstFit(old(al.fl.Runs()), Extent(size, al.guard)) < |old(al.fl.Runs())| ==> al.fl.Runs() == old(al.fl.Runs())
    ensures al.mapped - old(al.mapped) == Total(al.fl.Runs()) - Total(old(al.fl.Runs()))
  {
    hide Agrees, Valid, NoEmptyPage, Canonical, Total, FreedTo, TakeFrom, EntryAt;
    ghost var rs, live := al.fl.Runs(), al.live;
    ghost var n := Extent(size, al.guard);
    ghost var k := FirstFit(rs, n);
    p := al.MallocPages(size, kernel);
    assert al.live[p] == size;
    al.Freeable(p);
    var r := al.FreePages(p, chunk);
    assert al.live == live;
    if k < |rs| { FreeUndoesAlloc(rs, k, n, al.cache, al.fl.Runs()); }
  }
}
