/**
 malloc_pages and free_pages on the page directory and the free list together.  Addresses are page
 numbers as ptr2index counts them, sizes are pages.
 */
module PageAllocator {
  import opened FreeRuns
  import opened Links
  import opened FreeListLinks
  import opened FreeListOps
  import opened PageDirectory
  import opened PageOwnership
  import opened DirectoryWalks

  datatype FreeResult = Freed | AlreadyFree | WrongPage | TooLow | OfChunks(a: nat)

  class Allocator {
    const dir: Directory
    const fl: FreeList
    /** malloc_guard: one guard page behind each block, or none. */
    const guard: bool
    /** malloc_cache: the pages that may stay on the free list. */
    const cache: nat
    /** malloc_used and malloc_guarded, in pages. */
    var used: int
    var guarded: int
    /** The blocks handed out and not freed. */
    ghost var live: Blocks
    /** Those of them that are pages of chunks, with the addresses of their pginfos. */
    ghost var chunked: Pginfos
    /** The pages mmap gave, less those munmap took back. */
    ghost var mapped: int

    /** The three views of memory agree, and each structure keeps its own rules. */
    ghost predicate Inv()
      reads this, dir, fl
    {
      && Valid(dir.mem, 0, 0) && NoEmptyPage(dir.mem) && dir.CachesLive()
      && fl.Valid() && Canonical(fl.Runs()) && Total(fl.Runs()) <= cache
      && Agrees(dir.mem, fl.Runs(), live, chunked, guard)
      && used == Used(live) && guarded == (if guard then |live| else 0)
      && mapped == used + guarded + Total(fl.Runs())
    }

    constructor (cache: nat, guard: bool)
      requires 0 < cache
      ensures Inv() && fresh(dir) && fresh(fl) && live == map[] == chunked && fl.Runs() == []
      ensures this.cache == cache && this.guard == guard
    {
      this.cache, this.guard := cache, guard;
      dir := new Directory();
      fl := new FreeList();
      used, guarded, live, chunked, mapped := 0, 0, map[], map[], 0;
    }

    /** The pages of a block that can be put where free or fresh pages are. */
    ghost predicate Mapped(p: nat, n: nat)
      reads dir
    {
      0 < n && forall d: nat :: PiIdx(p) <= d <= PiIdx(p + n - 1) ==> d in dir.mem
    }

    /** The directory has a page for every entry that is owned. */
    lemma OwnedIsMapped(p: nat, n: nat)
      requires 0 < n && forall i: nat :: p <= i < p + n ==> EntryAt(dir.mem, i) != NotMine
      ensures Mapped(p, n)
    {
      forall d: nat | PiIdx(p) <= d <= PiIdx(p + n - 1) ensures d in dir.mem {
        var i := if d == PiIdx(p) then p else d * 508;
        assert PiIdx(i) == d && p <= i < p + n;
        assert EntryAt(dir.mem, i) != NotMine;
      }
    }

    /** The pages of run k are free in the directory. */
    lemma RunIsFree(k: nat)
      requires fl.Valid() && Agrees(dir.mem, fl.Runs(), live, chunked, guard) && k < |fl.nodes|
      ensures forall i: nat :: fl.Runs()[k].Has(i) ==> EntryAt(dir.mem, i) == Free
      ensures NodeOk(fl.mem, fl.nodes, k)
      ensures fl.Runs()[k] == Run(fl.mem[fl.nodes[k]].page, fl.mem[fl.nodes[k]].size)
    {
      fl.At(k);
      forall i: nat | fl.Runs()[k].Has(i) ensures EntryAt(dir.mem, i) == Free {
        assert Covers(fl.Runs(), i);
      }
    }

    /** Take `need` pages from the front of run k, or the whole run when that is all it has. */
    method TakeRun(pf: nat, need: nat, ghost k: nat) returns (p: nat, delayFree: Link)
      requires Valid(dir.mem, 0, 0) && fl.Valid() && Agrees(dir.mem, fl.Runs(), live, chunked, guard)
      requires k < |fl.nodes| && fl.nodes[k] == pf && 0 < need <= fl.Runs()[k].size
      modifies fl
      ensures fl.Valid() && p == old(fl.Runs())[k].page
      ensures fl.Runs() == TakeFrom(old(fl.Runs()), k, need)
      ensures fl.mem.Keys == old(fl.mem).Keys
      ensures delayFree.To? ==> delayFree.a in fl.mem && delayFree.a != LIST && delayFree.a !in fl.nodes
    {
      RunIsFree(k);
      p := fl.mem[pf].page;
      delayFree := Nil;
      if fl.mem[pf].size == need {
        fl.Unlink(pf, k);
        delayFree := To(pf);
      } else {
        assert EntryAt(dir.mem, p) == Free && EntryAt(dir.mem, p + need) == Free;
        var pi := dir.WalkTo(fl.mem[pf].pdir, PiIdx(p + need), 0, 0);
        fl.Change(pf, p + need, pi.d, fl.mem[pf].size - need, k);
      }
    }

    /** The end of malloc_pages: find the directory page of the block and mark its entries. */
    method PlaceBlock(p: nat, size: nat, ghost lo: nat, ghost hi: nat)
      requires 0 < size && Mapped(p, Extent(size, guard))
      requires Valid(dir.mem, lo, hi) && NoEmptyPage(dir.mem) && dir.CachesLive()
      requires lo != hi ==> lo == p && hi == p + Extent(size, guard)
      requires forall i: nat :: p <= i < p + Extent(size, guard)
                            ==> EntryAt(dir.mem, i) == if lo == hi then Free else NotMine
      modifies dir
      ensures Valid(dir.mem, 0, 0) && NoEmptyPage(dir.mem) && dir.CachesLive()
      ensures forall i: nat :: EntryAt(dir.mem, i) == if p <= i < p + Extent(size, guard)
                                                      then BlockEntry(p, size, i) else EntryAt(old(dir.mem), i)
    {
      var pi, sign := dir.Lookup(p, lo, hi);
      assert PiIdx(p) in dir.mem;
      dir.Remember(pi);
      dir.MarkBlock(pi, p, size, guard, lo, hi);
      EmptyPending(dir.mem, hi, 0);
    }

    /**
     malloc_pages for a number of pages.  A cached run is used when one is large enough, the first
     one in address order; otherwise `kernel` is the place where mmap puts the new pages.
     */
    method MallocPages(size: nat, kernel: nat) returns (p: nat)
      requires Inv() && 0 < size
      requires forall i: nat :: kernel <= i < kernel + Extent(size, guard) ==> EntryAt(dir.mem, i) == NotMine
      modifies this, dir, fl
      ensures Inv()
      ensures p !in old(live) && p !in chunked && live == old(live)[p := size]
      ensures var k := FirstFit(old(fl.Runs()), Extent(size, guard));
              if k < |old(fl.Runs())| then
                p == old(fl.Runs())[k].page && fl.Runs() == TakeFrom(old(fl.Runs()), k, Extent(size, guard))
              else
                p == kernel && fl.Runs() == old(fl.Runs())
      ensures p == kernel || forall i: nat :: p <= i < p + Extent(size, guard) ==> EntryAt(old(dir.mem), i) == Free
      ensures fl.mem.Keys <= old(fl.mem).Keys && chunked == old(chunked)
      ensures forall i: nat :: EntryAt(dir.mem, i) == if p <= i < p + Extent(size, guard)
                                                      then BlockEntry(p, size, i) else EntryAt(old(dir.mem), i)
    {
      var pf, k := fl.FindFit(Extent(size, guard));
      if pf.To? {
        p := FromRun(pf.a, size, k);
      } else {
        p := kernel;
        FromKernel(p, size);
      }
      Enter(p, size);
    }

    /** Count a new block. */
    method Enter(p: nat, size: nat)
      requires p !in live && used == Used(live) && guarded == if guard then |live| else 0
      modifies this`live, this`used, this`guarded
      ensures live == old(live)[p := size]
      ensures used == Used(live) == old(used) + size
      ensures guarded == (if guard then |live| else 0) == old(guarded) + if guard then 1 else 0
    {
      UsedWith(live, p, size);
      live := live[p := size];
      used := used + size;
      guarded := guarded + if guard then 1 else 0;
    }

    /** Allocation from cached run k. */
    method FromRun(pf: nat, size: nat, ghost k: nat) returns (p: nat)
      requires Inv() && 0 < size
      requires k < |fl.nodes| && fl.nodes[k] == pf && Extent(size, guard) <= fl.Runs()[k].size
      modifies dir, fl
      ensures Valid(dir.mem, 0, 0) && NoEmptyPage(dir.mem) && dir.CachesLive()
      ensures fl.Valid() && p == old(fl.Runs())[k].page && fl.mem.Keys <= old(fl.mem).Keys
      ensures fl.Runs() == TakeFrom(old(fl.Runs()), k, Extent(size, guard))
      ensures Canonical(fl.Runs()) && Total(fl.Runs()) == Total(old(fl.Runs())) - Extent(size, guard)
      ensures p !in live && Agrees(dir.mem, fl.Runs(), live[p := size], chunked, guard)
      ensures forall i: nat :: p <= i < p + Extent(size, guard) ==> EntryAt(old(dir.mem), i) == Free
      ensures forall i: nat :: EntryAt(dir.mem, i) == if p <= i < p + Extent(size, guard)
                                                      then BlockEntry(p, size, i) else EntryAt(old(dir.mem), i)
    {
      ghost var mem0, runs0 := dir.mem, fl.Runs();
      var need := Extent(size, guard);
      RunIsFree(k);
      TakeFromSound(fl.Runs(), k, need);
      var delayFree;
      p, delayFree := TakeRun(pf, need, k);
      OwnedIsMapped(p, need);
      PlaceBlock(p, size, 0, 0);
      if delayFree.To? {
        fl.Recycle(delayFree.a);
      }
      AllocAgrees(mem0, runs0, live, chunked, guard, p, size, dir.mem, fl.Runs());
    }

    /** Allocation of new pages. */
    method FromKernel(p: nat, size: nat)
      requires Inv() && 0 < size
      requires forall i: nat :: p <= i < p + Extent(size, guard) ==> EntryAt(dir.mem, i) == NotMine
      modifies dir, this`mapped
      ensures Valid(dir.mem, 0, 0) && NoEmptyPage(dir.mem) && dir.CachesLive()
      ensures p !in live && Agrees(dir.mem, fl.Runs(), live[p := size], chunked, guard)
      ensures mapped == old(mapped) + Extent(size, guard)
      ensures forall i: nat :: EntryAt(dir.mem, i) == if p <= i < p + Extent(size, guard)
                                                      then BlockEntry(p, size, i) else EntryAt(old(dir.mem), i)
    {
      ghost var mem0 := dir.mem;
      mapped := mapped + Extent(size, guard);
      NoRunThere(p, Extent(size, guard));
      var dirs, cnt := dir.MapPages(p, Extent(size, guard));
      PlaceBlock(p, size, p, p + Extent(size, guard));
      AllocAgrees(mem0, fl.Runs(), live, chunked, guard, p, size, dir.mem, fl.Runs());
    }

    lemma NoRunThere(p: nat, n: nat)
      requires Agrees(dir.mem, fl.Runs(), live, chunked, guard)
      requires forall i: nat :: p <= i < p + n ==> EntryAt(dir.mem, i) == NotMine
      ensures forall i: nat :: p <= i < p + n ==> !Covers(fl.Runs(), i)
    {
    }

    // ---------- pages of chunks ----------

    /** The page becomes one of chunks: malloc_make_chunks puts the pginfo's address into its entry. */
    method SetInfo(p: nat, a: nat)
      requires Inv() && p in live && live[p] == 1
      modifies this`chunked, dir
      ensures Inv() && chunked == old(chunked)[p := a]
      ensures forall i: nat :: i != p ==> EntryAt(dir.mem, i) == EntryAt(old(dir.mem), i)
    {
      ghost var mem0, chunked0 := dir.mem, chunked;
      FirstIff(dir.mem, fl.Runs(), live, chunked, guard, p);
      dir.StoreEntry(p, Info(a));
      chunked := chunked[p := a];
      InfoAgrees(mem0, fl.Runs(), live, chunked0, guard, p, dir.mem, chunked);
    }

    /** It becomes a block of one page again: free_bytes puts FIRST into its entry. */
    method ClearInfo(p: nat)
      requires Inv() && p in chunked
      modifies this`chunked, dir
      ensures Inv() && chunked == old(chunked) - {p}
      ensures forall i: nat :: i != p ==> EntryAt(dir.mem, i) == EntryAt(old(dir.mem), i)
    {
      ghost var mem0, chunked0 := dir.mem, chunked;
      FirstIff(dir.mem, fl.Runs(), live, chunked, guard, p);
      dir.StoreEntry(p, First);
      chunked := chunked - {p};
      InfoAgrees(mem0, fl.Runs(), live, chunked0, guard, p, dir.mem, chunked);
    }

    // ---------- free_pages ----------

    /** The page behind a block is never a FOLLOW page: the count stops there. */
    lemma BehindBlock(p: nat)
      requires Agrees(dir.mem, fl.Runs(), live, chunked, guard) && p in live
      ensures EntryAt(dir.mem, p + live[p]) != Follow
      ensures forall i: nat :: p <= i < p + Extent(live[p], guard) ==> EntryAt(dir.mem, i) == EntryIn(live, chunked, p, i)
    {
      forall i: nat | p <= i < p + Extent(live[p], guard)
        ensures EntryAt(dir.mem, i) == EntryIn(live, chunked, p, i)
      {
        assert TakesUp(live, guard, p, i);
      }
      var e := p + live[p];
      if InSomeBlock(live, guard, e) {
        var q :| TakesUp(live, guard, q, e);
        assert EntryIn(live, chunked, q, e) != Follow;
      }
    }

    /** A live block that is no page of chunks. */
    ghost predicate IsBlock(p: nat)
      reads this
    {
      p in live && p !in chunked
    }

    /** Pages that free_pages counts from a FIRST page on: a guard page looks like a block of one page. */
    ghost function Counted(p: nat): (n: nat)
      reads this
    {
      if p in live then live[p] else 1
    }

    lemma LooksLikeBlock(p: nat)
      requires Agrees(dir.mem, fl.Runs(), live, chunked, guard) && (IsBlock(p) || GuardPage(live, guard, p))
      ensures 0 < Counted(p) && EntryAt(dir.mem, p + Counted(p)) != Follow
      ensures forall i: nat :: p <= i < p + Counted(p) ==> EntryAt(dir.mem, i) == BlockEntry(p, Counted(p), i)
    {
      FirstIff(dir.mem, fl.Runs(), live, chunked, guard, p);
      if p in live {
        BehindBlock(p);
        FirstIff(dir.mem, fl.Runs(), live, chunked, guard, p + live[p]);
      }
    }

    /** Behind a block with a guard page is that page's entry. */
    lemma GuardIsBehind(p: nat)
      requires Agrees(dir.mem, fl.Runs(), live, chunked, guard) && p in live && guard
      ensures BehindSlot(dir.mem, p + live[p]) == p + live[p] && EntryAt(dir.mem, p + live[p]) == First
    {
      BehindBlock(p);
      assert EntryAt(dir.mem, p + live[p]) == EntryIn(live, chunked, p, p + live[p]);
    }

    /** The pages of a block are counted and become FREE, with the entry behind it when there are guard pages. */
    method Reclaim(p: nat) returns (l: nat, spi: nat)
      requires Inv() && EntryAt(dir.mem, p) == First
      modifies this`used, this`guarded, dir
      ensures l == Extent(Counted(p), guard) && spi == PiIdx(p) && NoEmptyPage(dir.mem) && dir.CachesLive()
      ensures forall i: nat :: EntryAt(dir.mem, i) ==
                               if p <= i < p + Counted(p) || (guard && i == BehindSlot(old(dir.mem), p + Counted(p)))
                               then Free else EntryAt(old(dir.mem), i)
      ensures used == old(used) - Counted(p) && guarded == old(guarded) - if guard then 1 else 0
      ensures p in live ==> Valid(dir.mem, 0, 0)
    {
      hide Valid, Agrees, Canonical, Total, PiIdx, BehindSlot;
      FirstIff(dir.mem, fl.Runs(), live, chunked, guard, p);
      LooksLikeBlock(p);
      if p in live && guard { GuardIsBehind(p); }
      var n;
      n, spi := dir.FreeExtent(p, Counted(p), guard);
      l := n;
      used := used - n;
      if guard {
        guarded := guarded - 1;
        l := l + 1;
      }
    }

    /**
     ifree, and free_pages up to where the pages go onto the free list, for any page that has an entry.
     Pages of chunks are not for free_pages.  A page at which no live block starts is left alone exactly
     when it is no guard page; see GuardFreed for what happens else.
     */
    method StartFree(p: nat) returns (r: FreeResult, l: nat, spi: nat)
      requires Inv() && PiIdx(p) in dir.mem
      modifies this`used, this`guarded, dir
      ensures r == TooLow <==> p < RESERVED
      ensures r == AlreadyFree <==> EntryAt(old(dir.mem), p) == Free
      ensures r == Freed <==> IsBlock(p) || GuardPage(live, guard, p)
      ensures r.OfChunks? <==> p in chunked
      ensures p in chunked ==> r == OfChunks(chunked[p])
      ensures r != Freed ==> Inv() && dir.mem == old(dir.mem) && used == old(used) && guarded == old(guarded)
      ensures r == Freed ==>
                && l == Extent(Counted(p), guard) && spi == PiIdx(p) && NoEmptyPage(dir.mem) && dir.CachesLive()
                && used == old(used) - Counted(p) && guarded == old(guarded) - (if guard then 1 else 0)
                && forall i: nat :: EntryAt(dir.mem, i) ==
                     if p <= i < p + Counted(p) || (guard && i == BehindSlot(old(dir.mem), p + Counted(p)))
                     then Free else EntryAt(old(dir.mem), i)
      ensures IsBlock(p) ==>
                && Valid(dir.mem, 0, 0) && l == Extent(live[p], guard)
                && forall i: nat :: EntryAt(dir.mem, i) == if p <= i < p + l then Free else EntryAt(old(dir.mem), i)
    {
      hide Valid, Agrees, Canonical, Total, NoEmptyPage, PiIdx, GuardPage, BehindSlot;
      l, spi := 0, 0;
      FirstIff(dir.mem, fl.Runs(), live, chunked, guard, p);
      if p < RESERVED {
        return TooLow, 0, 0;
      }
      var info := dir.ReadEntry(p);
      if info.Info? {
        return OfChunks(info.a), 0, 0;
      }
      if info == Free {
        return AlreadyFree, 0, 0;
      }
      if info != First {
        return WrongPage, 0, 0;
      }
      if p in live && guard { GuardIsBehind(p); }
      l, spi := Reclaim(p);
      return Freed, l, spi;
    }

    /** With guard pages, freeing a guard page breaks the allocator. */
    method FreeGuard(g: nat) returns (r: FreeResult, l: nat, spi: nat)
      requires Inv() && GuardPage(live, guard, g)
      modifies this`used, this`guarded, dir
      ensures r == Freed && l == 2 && !Inv()
      ensures g + 1 in live ==> EntryAt(dir.mem, g + 1) == Free
    {
      FirstIff(dir.mem, fl.Runs(), live, chunked, guard, g);
      ghost var mem0 := dir.mem;
      r, l, spi := StartFree(g);
      GuardFreed(mem0, fl.Runs(), live, chunked, guard, g, dir.mem);
    }

    /** What the tail of run `at` looks like from the directory. */
    lemma TailIsFree(at: nat, keep: nat)
      requires fl.Valid() && Canonical(fl.Runs()) && Agrees(dir.mem, fl.Runs(), live, chunked, guard)
      requires at < |fl.nodes| && keep < fl.Runs()[at].size
      ensures NodeOk(fl.mem, fl.nodes, at)
      ensures var r := fl.Runs()[at];
              && r == Run(fl.mem[fl.nodes[at]].page, fl.mem[fl.nodes[at]].size)
              && (forall i: nat :: r.page <= i < r.page + r.size ==> EntryAt(dir.mem, i) == Free)
              && (forall x: nat :: Covers(Trim(fl.Runs(), at, keep), x)
                              <==> Covers(fl.Runs(), x) && !(r.page + keep <= x < r.page + r.size))
      ensures EntryAt(dir.mem, 0) == Bucket
    {
      RunIsFree(at);
      TrimSound(fl.Runs(), at, keep);
    }

    /** Run `at` is shortened to its first `keep` pages; the others go back to the system. */
    method ReturnPages(pf: nat, keep: nat, ghost at: nat)
      requires Valid(dir.mem, 0, 0) && NoEmptyPage(dir.mem) && dir.CachesLive()
      requires fl.Valid() && Canonical(fl.Runs()) && Agrees(dir.mem, fl.Runs(), live, chunked, guard)
      requires at < |fl.nodes| && fl.nodes[at] == pf && keep < fl.Runs()[at].size
      requires dir.lastDir == Page(PiIdx(fl.Runs()[at].page))
      modifies dir, fl, this`mapped
      ensures fl.mem.Keys <= old(fl.mem).Keys
      ensures Valid(dir.mem, 0, 0) && NoEmptyPage(dir.mem) && dir.CachesLive()
      ensures fl.Valid() && fl.Runs() == Trim(old(fl.Runs()), at, keep)
      ensures Agrees(dir.mem, fl.Runs(), live, chunked, guard)
      ensures mapped == old(mapped) - (old(fl.Runs())[at].size - keep)
    {
      ghost var mem0, runs0 := dir.mem, fl.Runs();
      TailIsFree(at, keep);
      ghost var page, size := fl.mem[pf].page, fl.mem[pf].size;
      mapped := mapped - (size - keep);
      UnmapRun(pf, keep);
      fl.Shorten(pf, keep, at);
      UnmapAgrees(mem0, runs0, live, chunked, guard, page + keep, page + size, dir.mem, fl.Runs());
    }

    /** The directory's side of it; without a page left, last_dir falls back to prev_dir. */
    method UnmapRun(pf: nat, keep: nat)
      requires Valid(dir.mem, 0, 0) && NoEmptyPage(dir.mem) && EntryAt(dir.mem, 0) == Bucket && dir.CachesLive()
      requires pf in fl.mem && fl.mem[pf].pdir == PiIdx(fl.mem[pf].page) && keep < fl.mem[pf].size
      requires dir.lastDir == Page(fl.mem[pf].pdir)
      requires forall i: nat :: fl.mem[pf].page <= i < fl.mem[pf].page + fl.mem[pf].size ==> EntryAt(dir.mem, i) == Free
      modifies dir
      ensures Valid(dir.mem, 0, 0) && NoEmptyPage(dir.mem) && dir.CachesLive()
      ensures forall i: nat :: EntryAt(dir.mem, i) ==
                               if fl.mem[pf].page + keep <= i < fl.mem[pf].page + fl.mem[pf].size
                               then NotMine else EntryAt(old(dir.mem), i)
    {
      dir.UnmapTail(fl.mem[pf].pdir, fl.mem[pf].page, keep, fl.mem[pf].size);
      if keep == 0 {
        dir.lastDir, dir.prevDir := dir.prevDir, Null;
      }
    }

    /** A block is on no free run. */
    lemma BlockOffList(p: nat)
      requires Agrees(dir.mem, fl.Runs(), live, chunked, guard) && p in live
      ensures 0 < live[p] && DisjointFrom(fl.Runs(), Run(p, Extent(live[p], guard)))
    {
      forall x: nat | Run(p, Extent(live[p], guard)).Has(x) ensures !Covers(fl.Runs(), x) {
        assert TakesUp(live, guard, p, x);
      }
    }

    /**
     The freed pages p to p + l, whose entries are FREE by now, go onto the free list.  The record of a
     run that was swallowed is freed here already; the source does so on its way out.
     */
    method PutOnList(p: nat, l: nat, spi: nat, chunk: nat, ghost mem0: Memory)
      returns (pf: nat, cachesize: nat, ghost t: Placement)
      requires IsBlock(p) && l == Extent(live[p], guard) && spi == PiIdx(p) && chunk !in fl.mem
      requires fl.Valid() && Canonical(fl.Runs()) && Agrees(mem0, fl.Runs(), live, chunked, guard)
      requires DisjointFrom(fl.Runs(), Run(p, l))
      requires forall i: nat :: EntryAt(dir.mem, i) == if p <= i < p + l then Free else EntryAt(mem0, i)
      modifies fl
      ensures fl.mem.Keys <= old(fl.mem).Keys + {chunk}
      ensures fl.Valid() && Canonical(fl.Runs()) && Agrees(dir.mem, fl.Runs(), live - {p}, chunked, guard)
      ensures t == Place(old(fl.Runs()), Run(p, l)) && t.Placed? && fl.Runs() == t.runs
      ensures t.at < |fl.nodes| && fl.nodes[t.at] == pf && cachesize == t.cached
      ensures Total(fl.Runs()) == Total(old(fl.Runs())) + l
    {
      ghost var runs0 := fl.Runs();
      PlaceSound(runs0, Run(p, l));
      t := Place(runs0, Run(p, l));
      var pt;
      ghost var at;
      pf, cachesize, pt, at := fl.Release(p, l, spi, chunk);
      if pt.To? {
        fl.FreeRecord(pt.a);
      }
      FreeAgrees(mem0, runs0, live, chunked, guard, p, dir.mem, fl.Runs());
    }

    /** Keep the cache within bounds: what does not fit of the run that grew goes back. */
    method KeepCache(pf: nat, cachesize: nat, ghost at: nat)
      requires Valid(dir.mem, 0, 0) && NoEmptyPage(dir.mem) && dir.CachesLive()
      requires fl.Valid() && Canonical(fl.Runs()) && Agrees(dir.mem, fl.Runs(), live, chunked, guard)
      requires at < |fl.nodes| && fl.nodes[at] == pf && cachesize <= cache
      modifies dir, fl, this`mapped
      ensures fl.mem.Keys <= old(fl.mem).Keys
      ensures Valid(dir.mem, 0, 0) && NoEmptyPage(dir.mem) && dir.CachesLive()
      ensures fl.Valid() && fl.Runs() == Trim(old(fl.Runs()), at, cache - cachesize)
      ensures Agrees(dir.mem, fl.Runs(), live, chunked, guard)
      ensures mapped == old(mapped) - (Total(old(fl.Runs())) - Total(fl.Runs()))
    {
      TrimmedTotal(fl.Runs(), at, cache - cachesize);
      RunIsFree(at);
      assert EntryAt(dir.mem, fl.mem[pf].page) == Free by {
        assert fl.Runs()[at].size > 0;
      }
      dir.Remember(fl.mem[pf].pdir);
      if fl.mem[pf].size > cache - cachesize {
        ReturnPages(pf, cache - cachesize, at);
      }
    }

    /** The freed pages go onto the list, and what is too much goes back to the system. */
    method ListAndTrim(p: nat, l: nat, spi: nat, chunk: nat, ghost mem0: Memory)
      requires Valid(dir.mem, 0, 0) && NoEmptyPage(dir.mem) && dir.CachesLive()
      requires IsBlock(p) && 0 < l == Extent(live[p], guard) && spi == PiIdx(p) && chunk !in fl.mem
      requires fl.Valid() && Canonical(fl.Runs()) && Total(fl.Runs()) <= cache
      requires Agrees(mem0, fl.Runs(), live, chunked, guard) && DisjointFrom(fl.Runs(), Run(p, l))
      requires forall i: nat :: EntryAt(dir.mem, i) == if p <= i < p + l then Free else EntryAt(mem0, i)
      modifies this`live, this`mapped, dir, fl
      ensures fl.mem.Keys <= old(fl.mem).Keys + {chunk}
      ensures live == old(live) - {p}
      ensures mapped == old(mapped) - (Total(old(fl.Runs())) + l - Total(fl.Runs()))
      ensures Valid(dir.mem, 0, 0) && NoEmptyPage(dir.mem) && dir.CachesLive()
      ensures fl.Valid() && Canonical(fl.Runs()) && Total(fl.Runs()) <= cache
      ensures Agrees(dir.mem, fl.Runs(), live, chunked, guard)
      ensures FreedTo(old(fl.Runs()), Run(p, l), cache, fl.Runs())
    {
      ghost var runs0 := fl.Runs();
      CachedFits(runs0, Run(p, l), cache);
      var pf, cachesize, t := PutOnList(p, l, spi, chunk, mem0);
      live := live - {p};
      Settle(pf, cachesize, t, runs0, Run(p, l));
    }

    /** The same as KeepCache, seen from the list there was before the pages f went onto it. */
    method Settle(pf: nat, cachesize: nat, ghost t: Placement, ghost runs0: seq<Run>, ghost f: Run)
      requires Valid(dir.mem, 0, 0) && NoEmptyPage(dir.mem) && dir.CachesLive()
      requires fl.Valid() && Canonical(fl.Runs()) && Agrees(dir.mem, fl.Runs(), live, chunked, guard)
      requires Canonical(runs0) && Total(runs0) <= cache && 0 < f.size && DisjointFrom(runs0, f)
      requires t == Place(runs0, f) && t.Placed? && t.runs == fl.Runs() && Total(t.runs) == Total(runs0) + f.size
      requires t.at < |fl.nodes| && fl.nodes[t.at] == pf && cachesize == t.cached <= cache
      modifies dir, fl, this`mapped
      ensures fl.mem.Keys <= old(fl.mem).Keys
      ensures Valid(dir.mem, 0, 0) && NoEmptyPage(dir.mem) && dir.CachesLive()
      ensures fl.Valid() && Canonical(fl.Runs()) && Total(fl.Runs()) <= cache
      ensures Agrees(dir.mem, fl.Runs(), live, chunked, guard) && FreedTo(runs0, f, cache, fl.Runs())
      ensures mapped == old(mapped) - (Total(runs0) + f.size - Total(fl.Runs()))
    {
      KeepCache(pf, cachesize, t.at);
      FreedFits(runs0, f, cache, t, fl.Runs());
    }

    /** A live block can always be freed. */
    lemma Freeable(p: nat)
      requires Inv() && p in live
      ensures PiIdx(p) in dir.mem && !GuardPage(live, guard, p)
    {
      FirstIff(dir.mem, fl.Runs(), live, chunked, guard, p);
    }

    /**
     ifree for a page pointer: a live block is freed, and any other page is left alone unless it is a
     guard page (see FreeGuard); a page of chunks is for free_bytes, with the pginfo in its entry.
     */
    method FreePages(p: nat, chunk: nat) returns (r: FreeResult)
      requires Inv() && chunk !in fl.mem && PiIdx(p) in dir.mem && !GuardPage(live, guard, p)
      modifies this, dir, fl
      ensures Inv() && chunked == old(chunked) && (r == Freed <==> old(IsBlock(p)))
      ensures fl.mem.Keys <= old(fl.mem).Keys + {chunk}
      ensures old(IsBlock(p)) ==>
                live == old(live) - {p} && FreedTo(old(fl.Runs()), Run(p, Extent(old(live)[p], guard)), cache, fl.Runs())
      ensures !old(IsBlock(p)) ==>
                && r == (if p < RESERVED then TooLow else if p in chunked then OfChunks(chunked[p])
                         else if EntryAt(old(dir.mem), p) == Free then AlreadyFree else WrongPage)
                && live == old(live) && dir.mem == old(dir.mem) && fl.mem == old(fl.mem)
    {
      hide Valid, Agrees, Canonical, Total, NoEmptyPage, PiIdx, GuardPage, BehindSlot, DisjointFrom, FreedTo;
      ghost var mem0 := dir.mem;
      if IsBlock(p) {
        BlockOffList(p);
        UsedWithout(live, p);
      }
      FirstIff(mem0, fl.Runs(), live, chunked, guard, p);
      var l, spi;
      r, l, spi := StartFree(p);
      if r == Freed {
        ListAndTrim(p, l, spi, chunk, mem0);
      }
    }
  }
}
