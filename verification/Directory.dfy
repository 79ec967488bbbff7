/**
 The code that walks and changes the page directory: lookups through the two cached pages, mapping
 new pages, marking and freeing blocks page by page, and unmapping the tail of a free run.
 */
module DirectoryWalks {
  import opened PageDirectory
  import opened PageOwnership

  class Directory {
    var mem: Memory
    var lastDir: Ptr
    var prevDir: Ptr

    ghost predicate CachesLive()
      reads this
    {
      (lastDir.Null? || Live(mem, lastDir)) && (prevDir.Null? || Live(mem, prevDir))
    }

    /** malloc_init: one directory page, whose first entries are the chunk buckets. */
    constructor ()
      ensures Valid(mem, 0, 0) && NoEmptyPage(mem) && CachesLive()
      ensures forall i: nat :: EntryAt(mem, i) == if i < RESERVED then Bucket else NotMine
    {
      var base := seq(PDI_MOD, k => if k < RESERVED then Bucket else NotMine);
      mem := map[0 := PdInfo(base, Null, Null, Dirnum(0, RESERVED))];
      lastDir, prevDir := Page(0), Null;
      new;
      OwnedPrefix(base, RESERVED);
      assert NextOk(mem, 0) && PrevOk(mem, 0) && Counted(mem, 0, 0, 0);
    }

    /** pdir_lookup: the page found and the sign of the distance to the target. */
    method Lookup(index: nat, ghost lo: nat, ghost hi: nat) returns (pi: nat, sign: int)
      requires Valid(mem, lo, hi) && CachesLive()
      ensures IsFloor(mem, pi, PiIdx(index))
      ensures sign == if pi == PiIdx(index) then 0 else -1
    {
      var pidx := PiIdx(index);
      if lastDir.Page? { Facts(mem, lo, hi, lastDir); }
      if prevDir.Page? { Facts(mem, lo, hi, prevDir); }
      Facts(mem, lo, hi, Page(0));
      if lastDir.Page? && mem[lastDir.d].PdIdx() == pidx {
        pi := lastDir.d;
      } else if prevDir.Page? && mem[prevDir.d].PdIdx() == pidx {
        pi := prevDir.d;
      } else if lastDir.Page? && prevDir.Page? {
        if PickLast(mem[lastDir.d].PdIdx(), mem[prevDir.d].PdIdx(), pidx) {
          pi := lastDir.d;
        } else {
          pi := prevDir.d;
        }
        if mem[pi].PdIdx() > pidx {
          pi := ScanBack(pi, pidx, lo, hi);
        } else {
          pi := ScanForward(pi, mem[pi].next, pidx, lo, hi);
        }
      } else {
        pi := ScanForward(0, Page(0), pidx, lo, hi);
      }
      Facts(mem, lo, hi, Page(pi));
      sign := if mem[pi].PdIdx() == pidx then 0 else if mem[pi].PdIdx() > pidx then 1 else -1;
    }

    method ScanBack(from: nat, pidx: nat, ghost lo: nat, ghost hi: nat) returns (pi: nat)
      requires Valid(mem, lo, hi) && from in mem && from > pidx
      ensures IsFloor(mem, pi, pidx)
    {
      pi := from;
      Facts(mem, lo, hi, Page(pi));
      var spi := mem[pi].prev;
      if spi.Page? { Facts(mem, lo, hi, spi); }
      while spi.Page? && mem[spi.d].PdIdx() > pidx
        invariant pi in mem && pi > pidx && spi == mem[pi].prev && PrevOk(mem, pi)
        invariant spi.Page? ==> mem[spi.d].PdIdx() == spi.d && NextOk(mem, spi.d)
        decreases pi
      {
        pi := spi.d;
        Facts(mem, lo, hi, Page(pi));
        spi := mem[pi].prev;
        if spi.Page? { Facts(mem, lo, hi, spi); }
      }
      if spi.Page? {
        pi := spi.d;
      }
    }

    /** The scan starts at `from` itself or at the page behind it. */
    method ScanForward(from: nat, start: Ptr, pidx: nat, ghost lo: nat, ghost hi: nat) returns (pi: nat)
      requires Valid(mem, lo, hi) && from in mem && from <= pidx
      requires start == Page(from) || start == mem[from].next
      ensures IsFloor(mem, pi, pidx)
    {
      pi := from;
      Facts(mem, lo, hi, Page(pi));
      var spi := start;
      if spi.Page? { Facts(mem, lo, hi, spi); }
      while spi.Page? && mem[spi.d].PdIdx() <= pidx
        invariant pi in mem && pi <= pidx && NextOk(mem, pi)
        invariant spi == mem[pi].next || spi == Page(from) == Page(pi)
        invariant spi.Page? ==> spi.d in mem && mem[spi.d].PdIdx() == spi.d
        decreases pidx - pi, spi == Page(pi)
      {
        pi := spi.d;
        Facts(mem, lo, hi, Page(pi));
        spi := mem[pi].next;
        if spi.Page? { Facts(mem, lo, hi, spi); }
      }
    }

    /** Keep the page in the two-place cache. */
    method Remember(pi: nat)
      requires pi in mem && CachesLive()
      modifies this`lastDir, this`prevDir
      ensures CachesLive() && lastDir == Page(pi)
    {
      if Page(pi) != lastDir {
        prevDir := lastDir;
        lastDir := Page(pi);
      }
    }

    /** The entry of page i, by way of the cache, as ifree reads it. */
    method ReadEntry(i: nat) returns (info: Entry)
      requires Valid(mem, 0, 0) && CachesLive() && PiIdx(i) in mem
      modifies this`lastDir, this`prevDir
      ensures CachesLive() && info == EntryAt(mem, i)
    {
      var pi, sign := Lookup(i, 0, 0);
      Facts(mem, 0, 0, Page(pi));
      Remember(pi);
      info := mem[pi].base[PiOff(i)];
    }

    /** The directory page whose index is pidx, walking on from page `from`. */
    method WalkTo(from: nat, pidx: nat, ghost lo: nat, ghost hi: nat) returns (pi: Ptr)
      requires Valid(mem, lo, hi) && from in mem && from <= pidx
      ensures pidx in mem ==> pi == Page(pidx)
      ensures pidx !in mem ==> pi.Null? || (pi.d in mem && pi.d > pidx)
    {
      pi := Page(from);
      Facts(mem, lo, hi, pi);
      while pi.Page? && mem[pi.d].PdIdx() < pidx
        invariant pi.Page? ==> pi.d in mem && mem[pi.d].PdIdx() == pi.d
        invariant forall e :: e in mem && e >= pidx ==> pi.Page? && pi.d <= e
        decreases if pi.Page? then 1 else 0, if pi.Page? then pidx - pi.d else 0
      {
        Facts(mem, lo, hi, pi);
        pi := mem[pi.d].next;
        if pi.Page? { Facts(mem, lo, hi, pi); }
      }
    }

    /** Where the pages [index, index + n) counted so far end when directory page d comes next. */
    static function CountedUpTo(index: nat, n: nat, d: nat): nat {
      if d <= PiIdx(index) then index
      else if d * 508 < index + n then d * 508
      else index + n
    }

    /**
     map_pages, with `index` and `n` the place and number of the pages mmap returned, guard included:
     the missing directory pages go in and each page's dirnum counts its share of the new pages.
     `dirs` is the number of directory pages mapped for this, `cnt` the number used.
     */
    method MapPages(index: nat, n: nat) returns (dirs: nat, cnt: nat)
      requires Valid(mem, 0, 0) && NoEmptyPage(mem) && CachesLive()
      requires 0 < n && forall i: nat :: index <= i < index + n ==> EntryAt(mem, i) == NotMine
      modifies this
      ensures Valid(mem, index, index + n) && NoEmptyPage(mem) && CachesLive()
      ensures SameEntries(old(mem), mem)
      ensures forall d: nat :: d in mem <==> d in old(mem) || PiIdx(index) <= d <= PiIdx(index + n - 1)
      ensures lastDir == Page(PiIdx(index))
      ensures cnt <= dirs
    {
      var lindex := index + n - 1;
      var pidx, lidx := PiIdx(index), PiIdx(lindex);
      dirs := lidx - pidx;
      EmptyPending(mem, 0, index);
      var spi, sign := Lookup(index, index, index);
      if sign != 0 { dirs := dirs + 1; }
      cnt := 0;
      var idx := pidx;
      var pi := Page(spi);
      while idx <= lidx
        invariant pidx <= idx <= lidx + 1
        invariant Valid(mem, index, CountedUpTo(index, n, idx)) && NoEmptyPage(mem) && CachesLive()
        invariant SameEntries(old(mem), mem)
        invariant forall d: nat :: d in mem <==> d in old(mem) || pidx <= d < idx
        invariant spi in mem && BeforeMapping(spi, pi, idx, idx == pidx)
        invariant if idx == pidx then cnt == 0 && (sign == 0 <==> spi == pidx)
                  else lastDir == Page(pidx) && cnt + (if sign == 0 then 1 else 0) <= idx - pidx
      {
        var used := MapStep(index, n, pidx, lidx, idx, spi, pi);
        cnt := cnt + used;
        if idx == pidx {
          Remember(idx);
        }
        spi := idx;
        pi := mem[spi].next;
        idx := idx + 1;
      }
    }

    /** Where map_pages stands before it looks at index idx: at the floor of idx, or one page behind it. */
    ghost predicate BeforeMapping(spi: nat, pi: Ptr, idx: nat, first: bool)
      requires spi in mem
      reads this
    {
      if first then IsFloor(mem, spi, idx) && pi == Page(spi) else spi + 1 == idx && pi == mem[spi].next
    }

    /** One round of the mapping loop; `used` is 1 when a directory page had to go in. */
    method MapStep(index: nat, n: nat, pidx: nat, lidx: nat, idx: nat, spi: nat, pi: Ptr) returns (used: nat)
      requires 0 < n && pidx == PiIdx(index) && lidx == PiIdx(index + n - 1) && pidx <= idx <= lidx
      requires Valid(mem, index, CountedUpTo(index, n, idx)) && NoEmptyPage(mem)
      requires forall i: nat :: index <= i < index + n ==> EntryAt(mem, i) == NotMine
      requires spi in mem && BeforeMapping(spi, pi, idx, idx == pidx)
      modifies this`mem
      ensures Valid(mem, index, CountedUpTo(index, n, idx + 1)) && NoEmptyPage(mem)
      ensures SameEntries(old(mem), mem)
      ensures mem.Keys == old(mem).Keys + {idx}
      ensures used == if idx in old(mem) then 0 else 1
    {
      ghost var hi := CountedUpTo(index, n, idx);
      Facts(mem, index, hi, Page(spi));
      if pi.Page? { Facts(mem, index, hi, pi); }
      used := 0;
      if pi.Null? || mem[pi.d].PdIdx() != idx {
        InsertBehind(spi, idx, index, hi);
        used := 1;
      }
      Facts(mem, index, hi, Page(idx));
      AddPages(index, n, pidx, lidx, idx);
    }

    method InsertBehind(spi: nat, idx: nat, ghost lo: nat, ghost hi: nat)
      requires Valid(mem, lo, hi) && IsFloor(mem, spi, idx) && spi != idx
      requires Overlap(idx, lo, hi) == 0
      modifies this`mem
      ensures Valid(mem, lo, hi) && SameEntries(old(mem), mem)
      ensures mem.Keys == old(mem).Keys + {idx} && idx !in old(mem)
      ensures forall d :: d in old(mem) ==> mem[d].dirnum == old(mem)[d].dirnum
    {
      InsertedLinked(mem, spi, idx);
      InsertedEntries(mem, spi, idx);
      InsertedCounted(mem, spi, idx, lo, hi);
      InsertedFields(mem, spi, idx);
      mem := Inserted(mem, spi, idx);
    }

    /** The share of directory page idx in the pages from index up to and with page index + n - 1. */
    method AddPages(index: nat, n: nat, pidx: nat, lidx: nat, idx: nat)
      requires 0 < n && pidx == PiIdx(index) && lidx == PiIdx(index + n - 1) && pidx <= idx <= lidx
      requires Valid(mem, index, CountedUpTo(index, n, idx)) && idx in mem
      requires forall i: nat :: index <= i < index + n ==> EntryAt(mem, i) == NotMine
      modifies this`mem
      ensures Valid(mem, index, CountedUpTo(index, n, idx + 1)) && SameEntries(old(mem), mem)
      ensures SameLinks(old(mem), mem)
      ensures forall d :: d in mem ==> mem[d].dirnum >= old(mem)[d].dirnum
      ensures mem[idx].dirnum > old(mem)[idx].dirnum
    {
      var c;
      if pidx < idx < lidx {
        c := PDI_MOD;
      } else if idx == pidx {
        if pidx == lidx {
          c := n;
        } else {
          c := PDI_MOD - PiOff(index);
        }
      } else {
        c := PiOff(index + n - 1) + 1;
      }
      ghost var hi, hi' := CountedUpTo(index, n, idx), CountedUpTo(index, n, idx + 1);
      assert c == hi' - hi;
      AddCountValid(mem, idx, index, hi, hi');
      mem := AddCount(mem, idx, c);
    }

    /** The page behind pi, when the next index is there. */
    method StepOn(pi: nat, ghost lo: nat, ghost hi: nat) returns (next: nat)
      requires Valid(mem, lo, hi) && pi in mem && pi + 1 in mem
      ensures next == pi + 1
    {
      Facts(mem, lo, hi, Page(pi));
      next := mem[pi].next.d;
    }

    /** Page i gets entry e; a page that was only counted so far stops being pending. */
    method MarkPage(pi: nat, i: nat, e: Entry, ghost lo: nat, ghost hi: nat) returns (ghost lo': nat)
      requires Valid(mem, lo, hi) && pi in mem && pi == PiIdx(i) && e != NotMine
      requires EntryAt(mem, i) == NotMine ==> lo == i < hi
      modifies this`mem
      ensures lo' == (if old(EntryAt(mem, i)) == NotMine then i + 1 else lo) && Valid(mem, lo', hi)
      ensures SameLinks(old(mem), mem) && SameNumbers(old(mem), mem)
      ensures forall j: nat :: EntryAt(mem, j) == if j == i then e else EntryAt(old(mem), j)
    {
      Facts(mem, lo, hi, Page(pi));
      lo' := if EntryAt(mem, i) == NotMine then i + 1 else lo;
      SetEntryIs(mem, i, e, mem[pi].dirnum);
      SetEntryCounted(mem, i, e, mem[pi].dirnum, lo, hi, lo');
      SameLinksLinked(mem, SetEntry(mem, i, e, mem[pi].dirnum));
      mem := SetEntry(mem, i, e, mem[pi].dirnum);
    }

    /** Mark page i after page i - 1, moving on to the next directory page where i starts one. */
    method MarkNext(pi: nat, i: nat, e: Entry, ghost lo: nat, ghost hi: nat)
      returns (next: nat, ghost lo': nat)
      requires Valid(mem, lo, hi) && 0 < i && pi == PiIdx(i - 1) && pi in mem && PiIdx(i) in mem
      requires e != NotMine && (EntryAt(mem, i) == NotMine ==> lo == i < hi)
      modifies this`mem
      ensures next == PiIdx(i)
      ensures lo' == (if old(EntryAt(mem, i)) == NotMine then i + 1 else lo) && Valid(mem, lo', hi)
      ensures SameLinks(old(mem), mem) && SameNumbers(old(mem), mem)
      ensures forall j: nat :: EntryAt(mem, j) == if j == i then e else EntryAt(old(mem), j)
    {
      next := pi;
      if PiOff(i) == 0 {
        next := StepOn(pi, lo, hi);
      }
      lo' := MarkPage(next, i, e, lo, hi);
    }

    /**
     The marking in malloc_pages: FIRST, then FOLLOW for each further page, then FIRST for the guard
     page, walking from directory page to directory page.  The pages are either all free already or
     all freshly mapped, that is pending.
     */
    method MarkBlock(start: nat, index: nat, size: nat, guard: bool, ghost lo: nat, ghost hi: nat)
      requires Valid(mem, lo, hi) && start == PiIdx(index) && 0 < size
      requires forall d: nat :: PiIdx(index) <= d <= PiIdx(index + Extent(size, guard) - 1) ==> d in mem
      requires lo != hi ==> lo == index && hi == index + Extent(size, guard)
      requires forall i: nat :: index <= i < index + Extent(size, guard)
                            ==> EntryAt(mem, i) == if lo == hi then Free else NotMine
      modifies this`mem
      ensures Valid(mem, hi, hi) && SameLinks(old(mem), mem) && SameNumbers(old(mem), mem)
      ensures forall j: nat :: EntryAt(mem, j) == if index <= j < index + Extent(size, guard)
                                                  then BlockEntry(index, size, j) else EntryAt(old(mem), j)
    {
      hide Valid;
      var pi := start;
      ghost var cur := MarkPage(pi, index, First, lo, hi);
      var i := 1;
      while i < size
        invariant 1 <= i <= size && pi == PiIdx(index + i - 1)
        invariant cur == (if lo != hi then index + i else lo) && Valid(mem, cur, hi)
        invariant SameLinks(old(mem), mem) && SameNumbers(old(mem), mem)
        invariant forall j: nat :: EntryAt(mem, j) == if index <= j < index + i
                                                      then BlockEntry(index, size, j) else EntryAt(old(mem), j)
      {
        pi, cur := MarkNext(pi, index + i, Follow, cur, hi);
        i := i + 1;
      }
      if guard {
        pi, cur := MarkNext(pi, index + i, First, cur, hi);
      }
    }

    /** The directory page of page i after that of page i - 1; Null where there is no such page. */
    method Advance(pi: nat, i: nat, ghost lo: nat, ghost hi: nat) returns (next: Ptr)
      requires Valid(mem, lo, hi) && 0 < i && pi == PiIdx(i - 1) && pi in mem
      ensures next == if PiIdx(i) in mem then Page(PiIdx(i)) else Null
      ensures next.Page? ==> |mem[next.d].base| == PDI_MOD
    {
      next := Page(pi);
      Facts(mem, lo, hi, next);
      if PiOff(i) == 0 {
        next := mem[pi].next;
        if next.Page? {
          Facts(mem, lo, hi, next);
        }
        if next.Null? || mem[next.d].PdIdx() != PiIdx(i) {
          next := Null;
        }
      }
    }

    /** Page i becomes FREE, and the walk goes on to the next page. */
    method FreeNext(pi: nat, i: nat) returns (next: Ptr)
      requires Valid(mem, 0, 0) && pi in mem && pi == PiIdx(i) && EntryAt(mem, i) != NotMine
      modifies this`mem
      ensures Valid(mem, 0, 0) && SameLinks(old(mem), mem) && SameNumbers(old(mem), mem)
      ensures forall j: nat :: EntryAt(mem, j) == if j == i then Free else EntryAt(old(mem), j)
      ensures next == if PiIdx(i + 1) in mem then Page(PiIdx(i + 1)) else Null
      ensures next.Page? ==> |mem[next.d].base| == PDI_MOD
    {
      ghost var z := MarkPage(pi, i, Free, 0, 0);
      next := Advance(pi, i + 1, 0, 0);
    }

    /**
     The counting walk of free_pages over the block at `index`: its entries become FREE and n is the
     number of its pages.  `size` is what the block was allocated with.
     */
    method FreeBlock(start: nat, index: nat, ghost size: nat) returns (n: nat, pi: Ptr)
      requires Valid(mem, 0, 0) && start == PiIdx(index) && 0 < size
      requires forall j: nat :: index <= j < index + size ==> EntryAt(mem, j) == BlockEntry(index, size, j)
      requires EntryAt(mem, index + size) != Follow
      modifies this`mem
      ensures n == size && pi == if PiIdx(index + n) in mem then Page(PiIdx(index + n)) else Null
      ensures Valid(mem, 0, 0) && SameLinks(old(mem), mem) && SameNumbers(old(mem), mem)
      ensures forall j: nat :: EntryAt(mem, j) == if index <= j < index + size then Free else EntryAt(old(mem), j)
    {
      hide Valid, PiIdx, PiOff, Dirnum;
      assert EntryAt(mem, index) == First;
      n := 1;
      pi := FreeNext(start, index);
      while pi.Page? && mem[pi.d].base[PiOff(index + n)] == Follow
        invariant 1 <= n <= size && pi == if PiIdx(index + n) in mem then Page(PiIdx(index + n)) else Null
        invariant Valid(mem, 0, 0) && SameLinks(old(mem), mem) && SameNumbers(old(mem), mem)
        invariant pi.Page? ==> |mem[pi.d].base| == PDI_MOD
        invariant forall j: nat :: EntryAt(mem, j) == if index <= j < index + n then Free else EntryAt(old(mem), j)
        invariant n < size ==> EntryAt(mem, index + n) == Follow
        decreases size - n
      {
        assert EntryAt(mem, index + n) == Follow;
        pi := FreeNext(pi.d, index + n);
        n := n + 1;
      }
    }

    /** The directory page of page i is looked up and remembered, and gets a new entry for it. */
    method StoreEntry(i: nat, e: Entry)
      requires Valid(mem, 0, 0) && NoEmptyPage(mem) && CachesLive() && EntryAt(mem, i) != NotMine && e != NotMine
      modifies this
      ensures Valid(mem, 0, 0) && NoEmptyPage(mem) && CachesLive()
      ensures forall j: nat :: EntryAt(mem, j) == if j == i then e else EntryAt(old(mem), j)
    {
      hide Valid;
      var pi, sign := Lookup(i, 0, 0);
      Remember(pi);
      ghost var z := MarkPage(pi, i, e, 0, 0);
    }

    /** pd[off] = MALLOC_FREE, for entry t; the count follows unless the entry was nobody's. */
    method StoreFree(pd: nat, off: nat, ghost t: nat)
      requires Valid(mem, 0, 0) && pd in mem && pd == PiIdx(t) && off == PiOff(t)
      modifies this`mem
      ensures SameLinks(old(mem), mem) && SameNumbers(old(mem), mem)
      ensures forall j: nat :: EntryAt(mem, j) == if j == t then Free else EntryAt(old(mem), j)
      ensures EntryAt(old(mem), t) != NotMine ==> Valid(mem, 0, 0)
    {
      Facts(mem, 0, 0, Page(pd));
      SetEntryIs(mem, t, Free, mem[pd].dirnum);
      if EntryAt(mem, t) != NotMine { SetEntryCounted(mem, t, Free, mem[pd].dirnum, 0, 0, 0); }
      SameLinksLinked(mem, SetEntry(mem, t, Free, mem[pd].dirnum));
      mem := mem[pd := mem[pd].(base := mem[pd].base[off := Free])];
    }

    /**
     The block's entries become FREE, and with guard pages the entry behind it too; n is the number of
     its pages without the guard.  Where that entry's directory page is missing, pd still is the page
     before, and its first entry is written.
     */
    method FreeExtent(index: nat, ghost size: nat, guard: bool) returns (n: nat, spi: nat)
      requires Valid(mem, 0, 0) && NoEmptyPage(mem) && CachesLive() && 0 < size
      requires forall j: nat :: index <= j < index + size ==> EntryAt(mem, j) == BlockEntry(index, size, j)
      requires EntryAt(mem, index + size) != Follow
      modifies this`mem
      ensures n == size && spi == PiIdx(index) && NoEmptyPage(mem) && CachesLive()
      ensures !guard || EntryAt(old(mem), BehindSlot(old(mem), index + size)) != NotMine ==> Valid(mem, 0, 0)
      ensures forall j: nat :: EntryAt(mem, j) ==
                               if index <= j < index + size || (guard && j == BehindSlot(old(mem), index + size))
                               then Free else EntryAt(old(mem), j)
    {
      hide Valid, PiIdx, PiOff, Dirnum;
      assert EntryAt(mem, index) == First;
      var sign;
      spi, sign := Lookup(index, 0, 0);
      var pi;
      n, pi := FreeBlock(spi, index, size);
      if guard {
        var pd := if pi.Page? then pi.d else PiIdx(index + n - 1);
        assert EntryAt(old(mem), index + n - 1) != NotMine;
        OffOnly(PiIdx(index + n - 1), index + n);
        StoreFree(pd, PiOff(index + n), BehindSlot(mem, index + n));
      }
    }

    lemma OffOnly(d: nat, i: nat)
      ensures PiIdx(d * 508 + PiOff(i)) == d && PiOff(d * 508 + PiOff(i)) == PiOff(i)
    {
    }

    ghost predicate NoEmptyPageBut(d: nat)
      reads this
    {
      forall e :: e in mem && e != d ==> mem[e].dirnum > Dirnum(e, 0)
    }

    method UnmarkPage(pi: nat, i: nat)
      requires Valid(mem, 0, 0) && pi in mem && pi == PiIdx(i) && EntryAt(mem, i) != NotMine
      requires NoEmptyPageBut(pi)
      modifies this`mem
      ensures Valid(mem, 0, 0) && mem.Keys == old(mem).Keys && NoEmptyPageBut(pi)
      ensures forall j: nat :: EntryAt(mem, j) == if j == i then NotMine else EntryAt(old(mem), j)
    {
      Facts(mem, 0, 0, Page(pi));
      OwnedNone(mem[pi].base);
      var k := mem[pi].dirnum - 1;
      SetEntryIs(mem, i, NotMine, k);
      SetEntryCounted(mem, i, NotMine, k, 0, 0, 0);
      SameLinksLinked(mem, SetEntry(mem, i, NotMine, k));
      mem := SetEntry(mem, i, NotMine, k);
    }

    /** Take page pi, which owns nothing any more, off the list. */
    method DropPage(pi: nat)
      requires Valid(mem, 0, 0) && pi in mem && pi != 0 && Owned(mem[pi].base) == 0
      modifies this`mem
      ensures Valid(mem, 0, 0) && SameEntries(old(mem), mem) && mem.Keys == old(mem).Keys - {pi}
      ensures forall e :: e in mem ==> mem[e].dirnum == old(mem)[e].dirnum
    {
      DroppedLinked(mem, pi);
      DroppedRest(mem, pi, 0, 0);
      DroppedFields(mem, pi);
      mem := Dropped(mem, pi);
    }

    /** Leave page pi for the page behind it; it goes off the list when it owns nothing any more. */
    method LeavePage(pi: nat) returns (next: Ptr)
      requires Valid(mem, 0, 0) && pi in mem && NoEmptyPageBut(pi) && EntryAt(mem, 0) == Bucket
      modifies this`mem
      ensures Valid(mem, 0, 0) && NoEmptyPage(mem) && SameEntries(old(mem), mem)
      ensures next == old(mem)[pi].next && (next.Page? ==> next.d in mem && mem[next.d].PdIdx() == next.d > pi)
      ensures forall e :: e in mem && e > pi ==> next.Page? && next.d <= e
    {
      Facts(mem, 0, 0, Page(pi));
      PageZeroOwns(mem);
      next := mem[pi].next;
      if mem[pi].PdOff() == 0 {
        DropPage(pi);
      }
      if next.Page? { Facts(mem, 0, 0, next); }
    }

    /** Page i goes; behind the last page of a directory page, the walk leaves that one. */
    method UnmapPage(pi: nat, i: nat) returns (next: Ptr, stop: bool)
      requires Valid(mem, 0, 0) && EntryAt(mem, 0) == Bucket
      requires pi in mem && pi == PiIdx(i) && EntryAt(mem, i) == Free && NoEmptyPageBut(pi)
      modifies this`mem
      ensures Valid(mem, 0, 0)
      ensures forall j: nat :: EntryAt(mem, j) == if j == i then NotMine else EntryAt(old(mem), j)
      ensures next.Page? ==> next.d in mem && mem[next.d].PdIdx() == next.d
      ensures PiOff(i + 1) != 0 ==> !stop && next == Page(pi) && NoEmptyPageBut(pi)
      ensures PiOff(i + 1) == 0 ==> NoEmptyPage(mem)
                                    && (if PiIdx(i + 1) in mem then !stop && next == Page(PiIdx(i + 1)) else stop)
    {
      Facts(mem, 0, 0, Page(pi));
      if mem[pi].base[PiOff(i)] != NotMine {
        UnmarkPage(pi, i);
      }
      next, stop := Page(pi), false;
      if PiOff(i + 1) == 0 {
        next := LeavePage(pi);
        stop := next.Null? || mem[next.d].PdIdx() != PiIdx(i + 1);
      } else {
        Facts(mem, 0, 0, next);
      }
    }

    lemma SamePage(i: nat)
      ensures PiOff(i + 1) != 0 ==> PiIdx(i + 1) == PiIdx(i)
    {
    }

    /** The entries [index, lidx] go, from directory page `start` on. */
    method UnmapEntries(start: nat, index: nat, lidx: nat) returns (pi: Ptr)
      requires Valid(mem, 0, 0) && NoEmptyPage(mem) && EntryAt(mem, 0) == Bucket
      requires start in mem && start == PiIdx(index) && index <= lidx
      requires forall j: nat :: index <= j <= lidx ==> EntryAt(mem, j) == Free
      modifies this`mem
      ensures Valid(mem, 0, 0) && (pi.Page? ==> pi.d in mem && mem[pi.d].PdIdx() == pi.d)
      ensures forall j: nat :: EntryAt(mem, j) == if index <= j <= lidx then NotMine else EntryAt(old(mem), j)
      ensures if PiOff(lidx + 1) == 0 then NoEmptyPage(mem)
              else NoEmptyPageBut(PiIdx(lidx + 1)) && pi == Page(PiIdx(lidx + 1))
    {
      hide Valid, PiIdx, PiOff, Dirnum;
      pi := Page(start);
      Facts(mem, 0, 0, pi);
      var i := index;
      while i <= lidx
        invariant index <= i <= lidx + 1 && Valid(mem, 0, 0)
        invariant forall j: nat :: EntryAt(mem, j) == if index <= j < i then NotMine else EntryAt(old(mem), j)
        invariant if PiOff(i) == 0 then NoEmptyPage(mem) else NoEmptyPageBut(PiIdx(i))
        invariant i <= lidx || PiOff(i) != 0 ==> pi == Page(PiIdx(i))
        invariant pi.Page? ==> pi.d in mem && mem[pi.d].PdIdx() == pi.d
      {
        assert EntryAt(mem, i) == Free;
        SamePage(i);
        var stop;
        pi, stop := UnmapPage(pi.d, i);
        assert i < lidx ==> EntryAt(mem, i + 1) == Free;
        i := i + 1;
        if stop { break; }
      }
    }

    /**
     Give the pages [index, lidx] of a free run back: their entries go, and with them every directory
     page that is left without an entry.
     */
    method Unmap(from: nat, index: nat, lidx: nat)
      requires Valid(mem, 0, 0) && NoEmptyPage(mem) && EntryAt(mem, 0) == Bucket
      requires from in mem && from <= PiIdx(index) && index <= lidx
      requires forall j: nat :: index <= j <= lidx ==> EntryAt(mem, j) == Free
      modifies this`mem
      ensures Valid(mem, 0, 0) && NoEmptyPage(mem)
      ensures forall j: nat :: EntryAt(mem, j) == if index <= j <= lidx then NotMine else EntryAt(old(mem), j)
    {
      var pidx := PiIdx(index);
      assert EntryAt(mem, index) == Free;
      var pi := WalkTo(from, pidx, 0, 0);
      Facts(mem, 0, 0, pi);
      if pi.Page? && mem[pi.d].PdIdx() == pidx {
        pi := UnmapEntries(pi.d, index, lidx);
        if pi.Page? && mem[pi.d].PdOff() == 0 {
          Facts(mem, 0, 0, pi);
          pi := LeavePage(pi.d);
        }
      }
    }

    /**
     Give back all but the first `keep` of the `size` pages of the run that starts at `page`.  When
     nothing stays of the run, last_dir may be left without its page, and the caller drops it.
     */
    method UnmapTail(pdir: nat, page: nat, keep: nat, size: nat)
      requires Valid(mem, 0, 0) && NoEmptyPage(mem) && EntryAt(mem, 0) == Bucket && CachesLive()
      requires pdir == PiIdx(page) && lastDir == Page(pdir) && keep < size
      requires forall i: nat :: page <= i < page + size ==> EntryAt(mem, i) == Free
      modifies this
      ensures Valid(mem, 0, 0) && NoEmptyPage(mem)
      ensures forall i: nat :: EntryAt(mem, i) == if page + keep <= i < page + size
                                                  then NotMine else EntryAt(old(mem), i)
      ensures prevDir.Null? || Live(mem, prevDir)
      ensures lastDir == old(lastDir) && (0 < keep ==> Live(mem, lastDir))
    {
      ghost var mem0 := mem;
      var index, lidx := page + keep, page + size - 1;
      var pidx := PiIdx(index);
      if prevDir.Page? { Facts(mem, 0, 0, prevDir); }
      if prevDir.Page? && mem[prevDir.d].PdIdx() >= pidx {
        prevDir := Null;
      }
      Unmap(pdir, index, lidx);
      if prevDir.Page? {
        StillThere(mem0, mem, prevDir.d);
      }
      assert 0 < keep ==> EntryAt(mem, page) == Free;
    }
  }

  /** A directory page none of whose entries changes stays on the list. */
  lemma StillThere(mem: Memory, m: Memory, d: nat)
    requires Valid(mem, 0, 0) && NoEmptyPage(mem) && d in mem
    requires forall i: nat :: PiIdx(i) == d ==> EntryAt(m, i) == EntryAt(mem, i)
    ensures d in m
  {
    Facts(mem, 0, 0, Page(d));
    OwnedNone(mem[d].base);
    var k: nat :| k < PDI_MOD && mem[d].base[k] != NotMine;
    assert PiIdx(d * 508 + k) == d && PiOff(d * 508 + k) == k;
    assert EntryAt(m, d * 508 + k) != NotMine;
  }

  /** Directory page 0 always owns its buckets. */
  lemma PageZeroOwns(mem: Memory)
    requires Valid(mem, 0, 0) && EntryAt(mem, 0) == Bucket
    ensures 0 in mem && 0 < Owned(mem[0].base)
  {
    assert PiIdx(0) == 0 && PiOff(0) == 0;
    OwnedNone(mem[0].base);
  }

  /** The entry that pd[PI_OFF(e)] names after the walk over a block that ends before page e. */
  ghost function BehindSlot(mem: Memory, e: nat): nat
    requires 0 < e
  {
    if PiIdx(e) in mem then e else PiIdx(e - 1) * 508 + PiOff(e)
  }

  ghost predicate SameNumbers(m1: Memory, m2: Memory) {
    m1.Keys == m2.Keys && forall d :: d in m1 ==> m1[d].dirnum == m2[d].dirnum
  }
}
