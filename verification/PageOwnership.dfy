/**
 Who owns which page.  The page directory, the free list and the blocks handed out describe the same
 pages from three sides; Agrees says that they tell the same story, and the lemmas say which changes
 keep it so.
 */
module PageOwnership {
  import opened FreeRuns
  import opened PageDirectory

  /** Blocks handed out: the first page and the number of pages asked for. */
  type Blocks = map<nat, nat>

  /** Those of them that are pages of chunks, with the addresses of their pginfos. */
  type Pginfos = map<nat, nat>

  /** Pages a block of `size` pages takes up, with its guard page. */
  function Extent(size: nat, guard: bool): nat { if guard then size + 1 else size }

  /** The entries of a block at `index`: FIRST, FOLLOW for the rest of it, FIRST for a guard page. */
  function BlockEntry(index: nat, size: nat, j: nat): Entry {
    if index < j < index + size then Follow else First
  }

  /** The entry of page i in block p; a page of chunks has its pginfo instead of FIRST. */
  function EntryIn(live: Blocks, chunked: Pginfos, p: nat, i: nat): Entry
    requires p in live
  {
    if i == p && p in chunked then Info(chunked[p]) else BlockEntry(p, live[p], i)
  }

  ghost predicate TakesUp(live: Blocks, guard: bool, p: nat, i: nat) {
    p in live && p <= i < p + Extent(live[p], guard)
  }

  ghost predicate InSomeBlock(live: Blocks, guard: bool, i: nat) {
    exists p :: TakesUp(live, guard, p, i)
  }

  /** No two blocks share a page, guard pages included. */
  ghost predicate Apart(live: Blocks, guard: bool) {
    && (forall p :: p in live ==> 0 < live[p])
    && (forall p, q :: p in live && q in live && p < q ==> p + Extent(live[p], guard) <= q)
  }

  /**
   Every page is owned once at most, and its entry says by whom: a bucket, a free run, or a block, at
   its place in the block.
   */
  ghost predicate Agrees(mem: Memory, runs: seq<Run>, live: Blocks, chunked: Pginfos, guard: bool) {
    && Apart(live, guard)
    && (forall p :: p in chunked ==> p in live && live[p] == 1)
    && (forall i: nat :: i < RESERVED ==> EntryAt(mem, i) == Bucket)
    && (forall i: nat :: Covers(runs, i) ==> EntryAt(mem, i) == Free)
    && (forall p: nat, i: nat {:trigger TakesUp(live, guard, p, i)} ::
          TakesUp(live, guard, p, i) ==> EntryAt(mem, i) == EntryIn(live, chunked, p, i))
    && (forall i: nat :: EntryAt(mem, i) != NotMine
                     ==> i < RESERVED || Covers(runs, i) || InSomeBlock(live, guard, i))
  }

  /** The page is the guard page of a block. */
  ghost predicate GuardPage(live: Blocks, guard: bool, g: nat) {
    guard && exists p: nat :: p in live && g == p + live[p]
  }

  /** A block that takes up the page right behind another block starts there. */
  lemma StartsBehind(live: Blocks, guard: bool, p: nat, q: nat, e: nat)
    requires Apart(live, guard) && p in live && e == p + Extent(live[p], guard) && TakesUp(live, guard, q, e)
    ensures q == e
  {
  }

  lemma BehindGuard(mem: Memory, runs: seq<Run>, live: Blocks, chunked: Pginfos, guard: bool, p: nat)
    requires Agrees(mem, runs, live, chunked, guard) && guard && p in live
    ensures EntryAt(mem, p + live[p] + 1) != Follow
  {
    var e := p + live[p] + 1;
    if InSomeBlock(live, guard, e) {
      var q: nat :| TakesUp(live, guard, q, e);
      StartsBehind(live, guard, p, q, e);
      assert EntryAt(mem, e) == EntryIn(live, chunked, q, e);
    }
  }

  /** A FIRST entry is where a block starts, or a guard page's; pages of chunks have their pginfos. */
  lemma FirstIff(mem: Memory, runs: seq<Run>, live: Blocks, chunked: Pginfos, guard: bool, i: nat)
    requires Agrees(mem, runs, live, chunked, guard)
    ensures EntryAt(mem, i) == First <==> (i in live && i !in chunked) || GuardPage(live, guard, i)
    ensures EntryAt(mem, i).Info? <==> i in chunked
    ensures i in chunked ==> EntryAt(mem, i) == Info(chunked[i])
    ensures EntryAt(mem, i) == Bucket <==> i < RESERVED
    ensures GuardPage(live, guard, i) ==> i !in live && EntryAt(mem, i + 1) != Follow
  {
    if i in live { assert TakesUp(live, guard, i, i); }
    if GuardPage(live, guard, i) {
      var p: nat :| p in live && i == p + live[p];
      assert TakesUp(live, guard, p, i);
      BehindGuard(mem, runs, live, chunked, guard, p);
    }
    if InSomeBlock(live, guard, i) {
      var p :| TakesUp(live, guard, p, i);
      assert EntryAt(mem, i) == EntryIn(live, chunked, p, i);
    }
  }

  /** All entries: the buckets' places, the pages of free runs, and of each block its first, its others and its guard. */
  lemma EntriesAre(mem: Memory, runs: seq<Run>, live: Blocks, chunked: Pginfos, guard: bool, i: nat)
    requires Agrees(mem, runs, live, chunked, guard)
    ensures EntryAt(mem, i) == Bucket <==> i < 12
    ensures EntryAt(mem, i) == Free <==> exists k :: 0 <= k < |runs| && runs[k].page <= i < runs[k].page + runs[k].size
    ensures EntryAt(mem, i) == Follow <==> exists p: nat :: p in live && p < i < p + live[p]
    ensures EntryAt(mem, i) == First <==> (i in live && i !in chunked) || (guard && exists p: nat :: p in live && i == p + live[p])
    ensures forall a :: EntryAt(mem, i) == Info(a) <==> i in chunked && chunked[i] == a
  {
    FirstIff(mem, runs, live, chunked, guard, i);
    assert Covers(runs, i) <==> exists k :: 0 <= k < |runs| && runs[k].page <= i < runs[k].page + runs[k].size;
    forall p: nat | p in live && p < i < p + live[p] ensures EntryAt(mem, i) == Follow {
      assert TakesUp(live, guard, p, i);
    }
    if EntryAt(mem, i) == Follow || EntryAt(mem, i) == Free {
      InBlockOrFree(mem, runs, live, chunked, guard, i);
    }
  }

  lemma InBlockOrFree(mem: Memory, runs: seq<Run>, live: Blocks, chunked: Pginfos, guard: bool, i: nat)
    requires Agrees(mem, runs, live, chunked, guard)
    ensures EntryAt(mem, i) == Follow ==> exists p: nat :: p in live && p < i < p + live[p]
    ensures EntryAt(mem, i) == Free ==> Covers(runs, i)
  {
    if InSomeBlock(live, guard, i) {
      var p :| TakesUp(live, guard, p, i);
      assert EntryAt(mem, i) == EntryIn(live, chunked, p, i);
    }
  }

  /**
   What free_pages leaves when it takes guard page g for a block of one page and marks it free, with the
   entry behind it: the block has lost its guard page, a block right behind cannot be freed any more,
   and no free list fits the directory.
   */
  lemma GuardFreed(mem: Memory, runs: seq<Run>, live: Blocks, chunked: Pginfos, guard: bool, g: nat, mem': Memory)
    requires Agrees(mem, runs, live, chunked, guard) && GuardPage(live, guard, g)
    requires EntryAt(mem', g) == Free && (PiIdx(g + 1) in mem ==> EntryAt(mem', g + 1) == Free)
    ensures forall rs :: !Agrees(mem', rs, live, chunked, guard)
    ensures g + 1 in live ==> EntryAt(mem', g + 1) == Free
  {
    var p: nat :| p in live && g == p + live[p];
    assert TakesUp(live, guard, p, g) && BlockEntry(p, live[p], g) == First;
    FirstIff(mem, runs, live, chunked, guard, g + 1);
  }

  /** A page that is free, nobody's or a bucket is in no block. */
  lemma NotTaken(mem: Memory, runs: seq<Run>, live: Blocks, chunked: Pginfos, guard: bool, q: nat, i: nat)
    requires Agrees(mem, runs, live, chunked, guard)
    requires EntryAt(mem, i) == Free || EntryAt(mem, i) == NotMine || EntryAt(mem, i) == Bucket
    ensures !TakesUp(live, guard, q, i)
  {
  }

  /** The pages of a new block are in no other block. */
  lemma NewBlockApart(mem: Memory, runs: seq<Run>, live: Blocks, chunked: Pginfos, guard: bool, p: nat, n: nat)
    requires Agrees(mem, runs, live, chunked, guard) && 0 < n
    requires forall i: nat :: p <= i < p + Extent(n, guard)
                          ==> EntryAt(mem, i) == Free || EntryAt(mem, i) == NotMine
    ensures p !in live && Apart(live[p := n], guard)
  {
    NotTaken(mem, runs, live, chunked, guard, p, p);
    forall q | q in live && q != p
      ensures q < p ==> q + Extent(live[q], guard) <= p
      ensures p < q ==> p + Extent(n, guard) <= q
    {
      NotTaken(mem, runs, live, chunked, guard, q, p);
      if p < q && q < p + Extent(n, guard) { NotTaken(mem, runs, live, chunked, guard, q, q); }
    }
  }

  lemma AllocAgrees(mem: Memory, runs: seq<Run>, live: Blocks, chunked: Pginfos, guard: bool,
                    p: nat, n: nat, mem': Memory, runs': seq<Run>)
    requires Agrees(mem, runs, live, chunked, guard) && 0 < n
    requires forall i: nat :: p <= i < p + Extent(n, guard)
                          ==> EntryAt(mem, i) == Free || EntryAt(mem, i) == NotMine
    requires forall i: nat :: EntryAt(mem', i) == if p <= i < p + Extent(n, guard)
                                                  then BlockEntry(p, n, i) else EntryAt(mem, i)
    requires forall i: nat :: Covers(runs', i) <==> Covers(runs, i) && !(p <= i < p + Extent(n, guard))
    ensures p !in live && Agrees(mem', runs', live[p := n], chunked, guard)
  {
    NewBlockApart(mem, runs, live, chunked, guard, p, n);
    var live' := live[p := n];
    forall q: nat, i: nat | TakesUp(live', guard, q, i)
      ensures EntryAt(mem', i) == EntryIn(live', chunked, q, i)
    {
      if q != p {
        assert TakesUp(live, guard, q, i);
      }
    }
    forall i: nat | EntryAt(mem', i) != NotMine
      ensures i < RESERVED || Covers(runs', i) || InSomeBlock(live', guard, i)
    {
      if p <= i < p + Extent(n, guard) {
        assert TakesUp(live', guard, p, i);
      } else if InSomeBlock(live, guard, i) {
        var q :| TakesUp(live, guard, q, i);
        assert TakesUp(live', guard, q, i);
      }
    }
    forall i: nat | i < RESERVED ensures EntryAt(mem', i) == Bucket {
      assert EntryAt(mem, i) == Bucket;
    }
  }

  lemma FreeAgrees(mem: Memory, runs: seq<Run>, live: Blocks, chunked: Pginfos, guard: bool,
                   p: nat, mem': Memory, runs': seq<Run>)
    requires Agrees(mem, runs, live, chunked, guard) && p in live && p !in chunked
    requires forall i: nat :: EntryAt(mem', i) == if p <= i < p + Extent(live[p], guard)
                                                  then Free else EntryAt(mem, i)
    requires forall i: nat :: Covers(runs', i) <==> Covers(runs, i) || p <= i < p + Extent(live[p], guard)
    ensures Agrees(mem', runs', live - {p}, chunked, guard)
  {
    var live' := live - {p};
    forall q: nat, i: nat | TakesUp(live', guard, q, i)
      ensures EntryAt(mem', i) == EntryIn(live', chunked, q, i)
    {
      assert TakesUp(live, guard, q, i);
    }
    forall i: nat | EntryAt(mem', i) != NotMine
      ensures i < RESERVED || Covers(runs', i) || InSomeBlock(live', guard, i)
    {
      if InSomeBlock(live, guard, i) && !(p <= i < p + Extent(live[p], guard)) {
        var q :| TakesUp(live, guard, q, i);
        assert TakesUp(live', guard, q, i);
      }
    }
    forall i: nat | i < RESERVED ensures EntryAt(mem', i) == Bucket {
      assert EntryAt(mem, i) == Bucket;
      NotTaken(mem, runs, live, chunked, guard, p, i);
    }
  }

  lemma UnmapAgrees(mem: Memory, runs: seq<Run>, live: Blocks, chunked: Pginfos, guard: bool,
                    a: nat, b: nat, mem': Memory, runs': seq<Run>)
    requires Agrees(mem, runs, live, chunked, guard)
    requires forall i: nat :: a <= i < b ==> EntryAt(mem, i) == Free
    requires forall i: nat :: EntryAt(mem', i) == if a <= i < b then NotMine else EntryAt(mem, i)
    requires forall i: nat :: Covers(runs', i) <==> Covers(runs, i) && !(a <= i < b)
    ensures Agrees(mem', runs', live, chunked, guard)
  {
    forall q: nat, i: nat | TakesUp(live, guard, q, i)
      ensures EntryAt(mem', i) == EntryIn(live, chunked, q, i)
    {
    }
    forall i: nat | i < RESERVED ensures EntryAt(mem', i) == Bucket {
      assert EntryAt(mem, i) == Bucket;
    }
    forall i: nat | Covers(runs', i) ensures EntryAt(mem', i) == Free {
      assert Covers(runs, i);
    }
  }

  /** A page's entry becomes its pginfo's address, or FIRST again. */
  lemma InfoAgrees(mem: Memory, runs: seq<Run>, live: Blocks, chunked: Pginfos, guard: bool,
                   p: nat, mem': Memory, chunked': Pginfos)
    requires Agrees(mem, runs, live, chunked, guard) && p in live && live[p] == 1
    requires chunked' - {p} == chunked - {p}
    requires forall i: nat :: EntryAt(mem', i) == if i == p then EntryIn(live, chunked', p, p) else EntryAt(mem, i)
    ensures Agrees(mem', runs, live, chunked', guard)
  {
    assert TakesUp(live, guard, p, p);
    forall q | q in chunked' ensures q in live && live[q] == 1 {
      assert q != p ==> q in chunked' - {p} && q in chunked;
    }
    forall q: nat, i: nat | TakesUp(live, guard, q, i)
      ensures EntryAt(mem', i) == EntryIn(live, chunked', q, i)
    {
      SameBlock(live, guard, p, q, i);
      assert q != p ==> (q in chunked' <==> q in chunked' - {p}) && (q in chunked <==> q in chunked - {p});
    }
    forall i: nat | i < RESERVED ensures EntryAt(mem', i) == Bucket {
      assert EntryAt(mem, i) == Bucket;
    }
  }

  lemma SameBlock(live: Blocks, guard: bool, p: nat, q: nat, i: nat)
    requires Apart(live, guard) && p in live && TakesUp(live, guard, q, i)
    ensures i == p ==> q == p
  {
  }

  // ---------- malloc_used ----------

  ghost function SomeBlock(live: Blocks): (p: nat)
    requires live != map[]
    ensures p in live
  {
    var p :| p in live; p
  }

  /** The pages of all blocks together, guard pages not counted. */
  ghost function Used(live: Blocks): nat
    decreases |live|
  {
    if live == map[] then 0 else var p := SomeBlock(live); live[p] + Used(live - {p})
  }

  lemma {:induction false} UsedWithout(live: Blocks, p: nat)
    requires p in live
    ensures Used(live) == live[p] + Used(live - {p})
    decreases |live|
  {
    var q := SomeBlock(live);
    if q != p {
      UsedWithout(live - {q}, p);
      UsedWithout(live - {p}, q);
      assert live - {q} - {p} == live - {p} - {q};
    }
  }

  lemma UsedWith(live: Blocks, p: nat, n: nat)
    requires p !in live
    ensures Used(live[p := n]) == Used(live) + n
  {
    UsedWithout(live[p := n], p);
    assert live[p := n] - {p} == live;
  }
}
