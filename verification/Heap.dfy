/**
 The page layer and the chunk layer together: malloc_bytes gets its pages from malloc_pages and the memory
 for its pginfos from itself, and free_bytes gives both back.
 */
module Heaps {
  import opened Links
  import opened FreeRuns
  import opened PageDirectory
  import opened PageOwnership
  import opened PageAllocator
  import opened ChunkBits
  import opened ChunkPages
  import opened ChunkLayer
  import opened ChunkAllocator
  import opened HeapThings

  // ---------- the code ----------

  /** What the system gives one round of malloc_bytes: rand(), a place for a page, and what memory holds there. */
  datatype Env = Env(rand: nat, kernel: nat, found: seq<bool>)

  /**
   How deep malloc_bytes calls itself: a page of the smallest chunks holds its own pginfo, that of a page
   of larger ones is such a small chunk, and that of the page for malloc(0) a large one.
   */
  function Level(j: nat): (l: nat)
    ensures 1 <= l <= 3
  {
    if j == 0 then 3 else if j >= 7 then 2 else 1
  }
  function Levels(size: nat): (l: nat)
    ensures 1 <= l <= 3
  {
    if size == 0 then 3 else if size > 64 then 2 else 1
  }

  lemma LevelOfBucket(size: nat, j: nat)
    requires size == 0 <==> j == 0
    requires j != 0 ==> 4 <= j < BUCKETS && size <= ChunkSize(j) && (4 < j ==> ChunkSize(j - 1) < size)
    ensures Level(j) == Levels(size)
  {
  }

  lemma LevelOfPginfo(j: nat)
    requires j == 0 || 4 <= j < BUCKETS
    ensures InPage(j) <==> Level(j) == 1
    ensures !InPage(j) ==> 0 < AdminLen(j) <= 2048 && Levels(AdminLen(j)) < Level(j)
  {
  }

  /** n is the least of 16, 32, ... 2048 that holds the size. */
  predicate LeastChunk(n: nat, size: nat) {
    n in {16, 32, 64, 128, 256, 512, 1024, 2048} && size <= n && (n == 16 || n < 2 * size)
  }

  lemma LeastIsLeast(n: nat, m: nat, size: nat)
    requires LeastChunk(n, size) && m in {16, 32, 64, 128, 256, 512, 1024, 2048} && size <= m
    ensures n <= m
  {
  }

  class Heap {
    const al: Allocator
    const ch: Chunks

    ghost function Now(): State
      reads al, ch
    {
      State(al.live, al.chunked, ch.infos)
    }

    ghost predicate Inv()
      reads al, al.dir, al.fl, ch
    {
      al.Inv() && ch.Inv() && Composed(Now(), al.guard)
    }

    constructor (cache: nat, guard: bool)
      requires 0 < cache
      ensures Inv() && fresh(al) && fresh(al.dir) && fresh(al.fl) && fresh(ch)
      ensures Now() == State(map[], map[], map[]) && al.guard == guard
    {
      al := new Allocator(cache, guard);
      ch := new Chunks();
    }

    /** Apart, and behind the reserved entries. */
    lemma LivePages()
      requires al.Inv()
      ensures Apart(al.live, al.guard) && forall p :: p in al.live ==> RESERVED <= p
    {
      forall p | p in al.live ensures RESERVED <= p {
        assert TakesUp(al.live, al.guard, p, p);
      }
    }

    /** The pages mmap would give are nobody's, and not the same ones. */
    ghost predicate KernelsOk(env: seq<Env>)
      reads al, al.dir
    {
      && (forall k :: 0 <= k < |env| ==> |env[k].found| == 4096)
      && (forall k, i: nat :: 0 <= k < |env| && env[k].kernel <= i < env[k].kernel + Extent(1, al.guard)
                          ==> EntryAt(al.dir.mem, i) == NotMine)
      && (forall k, m :: 0 <= k < m < |env| ==>
            || env[k].kernel + Extent(1, al.guard) <= env[m].kernel
            || env[m].kernel + Extent(1, al.guard) <= env[k].kernel)
    }

    /** malloc_pages, for any number of pages. */
    method NewBlock(n: nat, kernel: nat) returns (p: nat)
      requires Inv() && 0 < n
      requires forall i: nat :: kernel <= i < kernel + Extent(n, al.guard) ==> EntryAt(al.dir.mem, i) == NotMine
      modifies al, al.dir, al.fl
      ensures Inv() && RESERVED <= p && p !in old(al.live) && p !in al.chunked
      ensures Now() == State(old(al.live)[p := n], old(al.chunked), ch.infos)
      ensures Alive(Now(), Block(p)) && !Alive(old(Now()), Block(p)) && OthersStay(old(Now()), Now(), Block(p))
      ensures User(Now(), Block(p)) && forall u :: u != Block(p) ==> (User(Now(), u) <==> User(old(Now()), u))
      ensures p == kernel || forall i: nat :: p <= i < p + Extent(n, al.guard) ==> EntryAt(old(al.dir.mem), i) == Free
      ensures forall i: nat :: !(p <= i < p + Extent(n, al.guard)) ==> EntryAt(al.dir.mem, i) == EntryAt(old(al.dir.mem), i)
    {
      hide Alive, User, Span, Composed, Allocator.Inv, Chunks.Inv, OthersStay, EntryAt;
      ghost var s := Now();
      p := al.MallocPages(n, kernel);
      LivePages();
      assert p in al.live;
      BlockComes(s, al.guard, p, n, Now());
    }

    lemma OtherKernels(env: seq<Env>, mem0: Memory, p: nat)
      requires 0 < |env| && (forall k :: 0 <= k < |env| ==> |env[k].found| == 4096)
      requires forall k, i: nat :: 0 <= k < |env| && env[k].kernel <= i < env[k].kernel + Extent(1, al.guard)
                               ==> EntryAt(mem0, i) == NotMine
      requires forall k, m :: 0 <= k < m < |env| ==>
                 || env[k].kernel + Extent(1, al.guard) <= env[m].kernel
                 || env[m].kernel + Extent(1, al.guard) <= env[k].kernel
      requires p == env[0].kernel || forall i: nat :: p <= i < p + Extent(1, al.guard) ==> EntryAt(mem0, i) == Free
      requires forall i: nat :: !(p <= i < p + Extent(1, al.guard)) ==> EntryAt(al.dir.mem, i) == EntryAt(mem0, i)
      ensures KernelsOk(env[1..])
    {
      forall k, i: nat | 0 <= k < |env[1..]| && env[1..][k].kernel <= i < env[1..][k].kernel + Extent(1, al.guard)
        ensures EntryAt(al.dir.mem, i) == NotMine
      {
        assert env[1..][k] == env[k + 1] && EntryAt(mem0, i) == NotMine;
      }
    }

    /** malloc_make_chunks, with malloc_pages for the page and malloc_bytes for the pginfo. */
    method MakePage(j: nat, env: seq<Env>) returns (ghost bp: nat)
      requires Inv() && (j == 0 || 4 <= j < BUCKETS) && ch.buckets[j] == Nil
      requires Level(j) <= |env| && KernelsOk(env)
      modifies al, al.dir, al.fl, ch
      decreases Level(j), 0
      ensures Inv() && Prepared(old(Now()), Now())
      ensures ch.buckets[j] == To(bp) && bp in ch.infos && bp !in old(ch.infos)
      ensures BucketOf(ch.infos[bp]) == j && KeepsFound(ch.infos[bp], env[0].found)
      ensures forall k: nat :: !InUse(ch.infos[bp], k)
      ensures forall b :: 0 <= b < BUCKETS && b != j && Level(b) >= Level(j) ==> ch.buckets[b] == old(ch.buckets)[b]
    {
      hide Allocator.Inv, Chunks.Inv, Alive, User, Span, Composed, Grown, Prepared, OthersStay, KeepsFound, InUse, PageOk, EntryAt,
        StayBut, UsersBut;
      ghost var s := Now();
      var p := NewBlock(1, env[0].kernel);
      ghost var s1 := Now();
      FreshPage(s1, al.guard, p);
      LevelOfPginfo(j);
      var bpAt := Addr(p);
      ghost var held := Block(p);
      if !InPage(j) {
        OtherKernels(env, old(al.dir.mem), p);
        ghost var i;
        ghost var b;
        bpAt, b, i := MallocBytes(AdminLen(j), env[1..]);
        held := Chunk(b, i);
        GrownUser(s1, Now(), held);
        HeldIsNew(s1, Now(), held);
      }
      bp := bpAt;
      ghost var s2 := Now();
      BlockStill(s1, s2, p, held);
      NoInfoThere(s2, bp);
      AddPage(j, p, bpAt, env[0].found, held);
      PageMade(s, s1, s2, Now(), p, bp, held, InPage(j));
    }

    /** Block p becomes a page of chunks for bucket j, with its pginfo at bp. */
    method AddPage(j: nat, p: nat, bp: nat, found: seq<bool>, ghost held: Thing)
      requires Inv() && (j == 0 || 4 <= j < BUCKETS) && ch.buckets[j] == Nil && |found| == 4096
      requires Alive(Now(), Block(p)) && RESERVED <= p && al.live[p] == 1 && bp !in ch.infos
      requires if InPage(j) then bp == Addr(p)
               else User(Now(), held) && held.Chunk? && Span(Now(), held).0 == bp
                    && AdminLen(j) <= ChunkSize(ch.infos[held.a].shift)
      modifies al, al.dir, ch
      ensures Inv() && !Alive(Now(), Block(p)) && ch.buckets[j] == To(bp)
      ensures bp in ch.infos && BucketOf(ch.infos[bp]) == j && KeepsFound(ch.infos[bp], found)
      ensures (forall k: nat :: !InUse(ch.infos[bp], k)) && ch.infos.Keys == old(ch.infos).Keys + {bp}
      ensures forall b :: 0 <= b < BUCKETS && b != j ==> ch.buckets[b] == old(ch.buckets)[b]
      ensures StayBut(old(Now()), Now(), Block(p), Pginfo(bp)) && UsersBut(old(Now()), Now(), p, InPage(j), held)
    {
      hide Allocator.Inv, Chunks.Inv, Alive, User, Span, Composed, KeepsFound, InUse, PageOk, EntryAt, PagesOk, AdminLen, StayBut, UsersBut;
      ghost var s := Now();
      FreshPage(s, al.guard, p);
      AliveBlock(s, p);
      ch.MakeChunks(j, Addr(p), bp, found);
      ch.HasPages();
      al.SetInfo(p, bp);
      PlaceFor(s, p, bp, ch.infos[bp], held, j);
      PageComes(s, al.guard, p, bp, ch.infos[bp], held, Now());
    }

    lemma AliveBlock(s: State, p: nat)
      requires Alive(s, Block(p))
      ensures p in s.live && p !in s.chunked
    {
    }

    lemma GrownUser(s: State, s': State, t: Thing)
      requires Grown(s, s', t)
      ensures User(s', t) && (t.Chunk? ==> Span(s', t).0 !in s'.infos)
    {
    }

    lemma HeldIsNew(s: State, s': State, t: Thing)
      requires Composed(s, al.guard) && Composed(s', al.guard) && Grown(s, s', t) && t.Chunk?
      ensures Span(s', t).0 !in s.infos
    {
      hide Composed, PageOk, InUse;
      var c := Span(s', t).0;
      ChunkHasStart(s', t.a, t.i);
      if c in s.infos {
        InfoOf(s, c);
        InfoAlive(s, c);
        NoOverlap(s', al.guard, t, InfoThing(s, c), c);
      }
    }

    lemma InfoOf(s: State, c: nat)
      requires Composed(s, al.guard) && c in s.infos
      ensures InfoPlaced(s.infos, c)
    {
    }

    lemma BlockStill(s1: State, s2: State, p: nat, held: Thing)
      requires Alive(s1, Block(p)) && s1.live[p] == 1 && (s2 == s1 || Grown(s1, s2, held))
      ensures Alive(s2, Block(p)) && s2.live[p] == 1
    {
    }

    lemma PlaceFor(s: State, p: nat, bp: nat, q: PgInfo, held: Thing, j: nat)
      requires PageOk(q) && BucketOf(q) == j && RESERVED <= p
      requires if InPage(j) then bp == Addr(p)
               else User(s, held) && held.Chunk? && Span(s, held).0 == bp && AdminLen(j) <= ChunkSize(s.infos[held.a].shift)
      ensures HasPlace(s, p, bp, q, held)
    {
    }

    /** malloc_bytes. */
    method MallocBytes(size: nat, env: seq<Env>) returns (ptr: nat, ghost a: nat, ghost i: nat)
      requires Inv() && size <= 2048 && Levels(size) <= |env| && KernelsOk(env)
      modifies al, al.dir, al.fl, ch
      decreases Levels(size), 1
      ensures Inv() && Grown(old(Now()), Now(), Chunk(a, i)) && Span(Now(), Chunk(a, i)).0 == ptr
      ensures LeastChunk(Span(Now(), Chunk(a, i)).1 - ptr, size)
      ensures a in ch.infos && size <= ChunkSize(ch.infos[a].shift)
      ensures ptr == ch.infos[a].page + i * (Span(Now(), Chunk(a, i)).1 - ptr)
      ensures ch.infos[a].page % 4096 == 0 && (ch.infos[a].size == 0 <==> size == 0)
      ensures a in old(ch.infos) ==>
                && 0 < old(ch.infos)[a].free
                && IsNthSet(old(ch.infos)[a].bits, if al.guard then env[0].rand % old(ch.infos)[a].free else 0, i)
      ensures a !in old(ch.infos) ==>
                (forall k: nat :: InUse(ch.infos[a], k) <==> k == i) && KeepsFound(ch.infos[a], env[0].found)
      ensures forall b :: 0 <= b < BUCKETS && Level(b) > Levels(size) ==> ch.buckets[b] == old(ch.buckets)[b]
    {
      hide Allocator.Inv, Chunks.Inv, Alive, User, Span, Composed, Grown, Prepared, OthersStay, KeepsFound, InUse, PageOk, EntryAt, IsNthSet, BucketOf, ChunkSize, Level, Levels,
        LeastChunk;
      ghost var s := Now();
      var j := ch.BucketFor(size);
      LevelOfBucket(size, j);
      PreparedSelf(s);
      if ch.buckets[j] == Nil {
        ghost var bp := MakePage(j, env);
      }
      ghost var before := ch.infos;
      ptr, a, i := TakeOne(j, env[0].rand, s);
      GrownUser(s, Now(), Chunk(a, i));
      UserAlive(Now(), Chunk(a, i));
      SizeOfBucket(Now(), a, i, j, size);
    }

    /** Take a chunk of bucket j; s is the state before a page was made for it. */
    method TakeOne(j: nat, rand: nat, ghost s: State) returns (ptr: nat, ghost a: nat, ghost i: nat)
      requires Inv() && Prepared(s, Now()) && j < BUCKETS && ch.buckets[j].To?
      modifies ch
      ensures Inv() && Grown(s, Now(), Chunk(a, i)) && Span(Now(), Chunk(a, i)).0 == ptr
      ensures a in ch.infos && a in old(ch.infos) && To(a) == old(ch.buckets)[j]
      ensures PageOk(ch.infos[a]) && PageOk(old(ch.infos)[a]) && BucketOf(ch.infos[a]) == j && InUse(ch.infos[a], i)
      ensures forall k: nat :: k != i ==> (InUse(ch.infos[a], k) <==> InUse(old(ch.infos)[a], k))
      ensures forall found :: KeepsFound(old(ch.infos)[a], found) ==> KeepsFound(ch.infos[a], found)
      ensures 0 < old(ch.infos)[a].free
      ensures IsNthSet(old(ch.infos)[a].bits, if al.guard then rand % old(ch.infos)[a].free else 0, i)
      ensures forall b :: 0 <= b < BUCKETS && b != j ==> ch.buckets[b] == old(ch.buckets)[b]
    {
      hide Allocator.Inv, Chunks.Inv, Alive, User, Span, Composed, Grown, Prepared, KeepsFound, InUse, PageOk, EntryAt,
        IsNthSet, BucketOf, PagesOk, Behind;
      ghost var s1 := Now();
      ch.HasPages();
      var at, k;
      ptr, at, k := ch.TakeChunk(j, al.guard, rand);
      a, i := at, k;
      ch.HasPages();
      Taken(s, s1, Now(), a, i);
      SpanOfChunk(Now(), a, i);
      forall found | KeepsFound(s1.infos[a], found) ensures KeepsFound(ch.infos[a], found) {
        NewInfoOk(s1, Now(), a, found);
      }
    }

    lemma Taken(s: State, s1: State, s2: State, a: nat, i: nat)
      requires Composed(s1, al.guard) && Prepared(s, s1) && s2.live == s1.live && s2.chunked == s1.chunked
      requires PagesOk(s1.infos) && PagesOk(s2.infos) && s2.infos.Keys == s1.infos.Keys && a in s1.infos
      requires s2.infos[a].(bits := [], free := 0, next := Nil) == s1.infos[a].(bits := [], free := 0, next := Nil)
      requires forall b :: b in s2.infos && b != a ==> s2.infos[b] == s1.infos[b]
      requires forall k: nat :: k != i ==> (InUse(s2.infos[a], k) <==> InUse(s1.infos[a], k))
      requires !InUse(s1.infos[a], i) && InUse(s2.infos[a], i)
      ensures Composed(s2, al.guard) && Grown(s, s2, Chunk(a, i))
    {
      hide Composed, PageOk, InUse, Alive, User, Span, Prepared, Grown, OthersStay, PagesOk;
      TakenDiffers(s1.infos, s2.infos, a, i);
      ChunkComes(s1, al.guard, a, i, s2);
      PreparedGrown(s, s1, s2, Chunk(a, i));
    }

    lemma SizeOfBucket(s: State, a: nat, i: nat, j: nat, size: nat)
      requires Alive(s, Chunk(a, i)) && BucketOf(s.infos[a]) == j && (size == 0 <==> j == 0)
      requires j != 0 ==> 4 <= j < BUCKETS && size <= ChunkSize(j) && (4 < j ==> ChunkSize(j - 1) < size)
      ensures LeastChunk(Span(s, Chunk(a, i)).1 - Span(s, Chunk(a, i)).0, size)
      ensures Span(s, Chunk(a, i)).0 == s.infos[a].page + i * (Span(s, Chunk(a, i)).1 - Span(s, Chunk(a, i)).0)
      ensures size <= ChunkSize(s.infos[a].shift)
      ensures s.infos[a].page % 4096 == 0 && (s.infos[a].size == 0 <==> size == 0)
    {
      hide InUse, CountTo, AdminLen;
      var k := if j == 0 then 4 else j;
      assert s.infos[a].shift == k;
      Powers(k);
    }

    lemma Powers(k: nat)
      requires 4 <= k < BUCKETS
      ensures ChunkSize(k) in {16, 32, 64, 128, 256, 512, 1024, 2048} && (k == 4 <==> ChunkSize(k) == 16)
      ensures 4 < k ==> ChunkSize(k) == 2 * ChunkSize(k - 1)
    {
    }

    lemma NoInfoThere(s: State, a: nat)
      requires a !in s.infos
      ensures !Alive(s, Pginfo(a))
    {
    }

    lemma SpanOfChunk(s: State, a: nat, i: nat)
      requires a in s.infos && PageOk(s.infos[a]) && InUse(s.infos[a], i)
      ensures Span(s, Chunk(a, i)).0 == ChunkAt(s.infos[a], i)
    {
    }

    lemma NewInfoOk(s1: State, s2: State, a: nat, found: seq<bool>)
      requires a in s1.infos && a in s2.infos && PageOk(s1.infos[a]) && PageOk(s2.infos[a])
      requires s2.infos[a].(bits := [], free := 0, next := Nil) == s1.infos[a].(bits := [], free := 0, next := Nil)
      requires Behind(s1.infos[a]) == Behind(s2.infos[a]) && KeepsFound(s1.infos[a], found)
      ensures KeepsFound(s2.infos[a], found)
    {
      hide PageOk;
      assert s2.infos[a].(bits := [], free := 0, next := Nil).shift == s2.infos[a].shift;
      KeepsFoundOn(s1.infos[a], s2.infos[a], found);
    }

    /** imalloc: small sizes get a chunk, others pages, from where `kernel` says when none are cached. */
    method Imalloc(size: nat, env: seq<Env>, kernel: nat) returns (ptr: nat, ghost t: Thing)
      requires Inv()
      requires size <= 2048 ==> Levels(size) <= |env| && KernelsOk(env)
      requires size > 2048 ==> forall i: nat :: kernel <= i < kernel + Extent((size + 4095) / 4096, al.guard)
                                            ==> EntryAt(al.dir.mem, i) == NotMine
      modifies al, al.dir, al.fl, ch
      ensures Inv() && Grown(old(Now()), Now(), t) && Span(Now(), t).0 == ptr && ptr + size <= Span(Now(), t).1
      ensures if size <= 2048 then
                && t.Chunk? && LeastChunk(Span(Now(), t).1 - ptr, size) && ptr % (Span(Now(), t).1 - ptr) == 0
                && t.a in ch.infos && (ch.infos[t.a].size == 0 <==> size == 0)
              else
                t.Block? && ptr % 4096 == 0 && (Span(Now(), t).1 - ptr) % 4096 == 0 && Span(Now(), t).1 - ptr < size + 4096
    {
      hide Allocator.Inv, Chunks.Inv, User, Composed, OthersStay, EntryAt, KernelsOk, Levels, IsNthSet, KeepsFound, InUse, PageOk;
      ghost var s := Now();
      if size <= 2048 {
        ghost var a, i;
        ptr, a, i := MallocBytes(size, env);
        t := Chunk(a, i);
        GrownUser(s, Now(), t);
        Aligned(ch.infos[a].page, i, Span(Now(), t).1 - ptr, size);
      } else {
        var p := NewBlock((size + 4095) / 4096, kernel);
        ptr := Addr(p);
        t := Block(p);
        PreparedSelf(s);
        PreparedGrown(s, s, Now(), t);
      }
    }

    lemma Aligned(page: nat, i: nat, n: nat, size: nat)
      requires page % 4096 == 0 && LeastChunk(n, size)
      ensures (page + i * n) % n == 0
    {
      var k, m := page / 4096, 4096 / n;
      assert m * n == 4096;
      TimesSum(k, m, i, n);
      ModIs(page + i * n, k * m + i, 0, n);
    }

    /**
     ifree, for a pointer to a block or chunk of the program's.  `spare` are the places of the records that
     the pages freed may need.
     */
    method Ifree(ptr: nat, ghost t: Thing, spare: seq<nat>)
      requires Inv() && User(Now(), t) && Span(Now(), t).0 == ptr
      requires |ch.infos| < |spare| && Distinct(spare) && forall x :: x in spare ==> x !in al.fl.mem
      modifies al, al.dir, al.fl, ch
      decreases |ch.infos|, 1
      ensures Inv() && Shrunk(old(Now()), Now(), t)
      ensures forall x :: x in al.fl.mem ==> x in old(al.fl.mem) || x in spare
    {
      hide Allocator.Inv, Chunks.Inv, Alive, User, Span, Composed, Shrunk, InUse, PageOk, EntryAt, Distinct, FreedTo,
        GuardPage, PageOf, PiIdx;
      ghost var s := Now();
      HomeOfPointer(s, al.guard, t, ptr);
      al.Freeable(PageOf(ptr));
      var r := al.FreePages(PageOf(ptr), spare[0]);
      if r.OfChunks? {
        assert t.Chunk? && r.a == t.a;
        FreeChunk(ptr, r.a, t, spare);
      } else {
        assert t.Block?;
        BlockFreed(s, Now(), t.p);
      }
    }

    /** free_bytes, with the page and the pginfo given back when the page has no chunk in use any more. */
    method FreeChunk(ptr: nat, a: nat, ghost t: Thing, spare: seq<nat>)
      requires Inv() && User(Now(), t) && t.Chunk? && t.a == a && Span(Now(), t).0 == ptr
      requires |ch.infos| < |spare| && Distinct(spare) && forall x :: x in spare ==> x !in al.fl.mem
      modifies al, al.dir, al.fl, ch
      decreases |ch.infos|, 0
      ensures Inv() && Shrunk(old(Now()), Now(), t)
      ensures forall x :: x in al.fl.mem ==> x in old(al.fl.mem) || x in spare
    {
      hide Allocator.Inv, Chunks.Inv, Alive, User, Span, Composed, Shrunk, InUse, PageOk, EntryAt, Distinct, PagesOk, SameUse;
      ghost var s := Now();
      HomeOfPointer(s, al.guard, t, ptr);
      ch.HasPages();
      ChunkPointer(s.infos[a], t.i, ptr);
      var r;
      ghost var k;
      r, k := ch.FreeBytes(ptr, a);
      ch.HasPages();
      if r.PageReleased? {
        LostPage(s, a, t.i, ch.infos);
        PageFreed(r.page, a, t, spare, s);
      } else {
        ChunkFreed(s, Now(), a, t.i);
      }
    }

    /** The page a, without chunks in use, is given back; s is the state before its last chunk was freed. */
    method PageFreed(page: nat, a: nat, ghost t: Thing, spare: seq<nat>, ghost s: State)
      requires al.Inv() && ch.Inv() && Composed(s, al.guard) && User(s, t) && t.Chunk? && t.a == a
      requires a in s.infos && page == s.infos[a].page && s.live == al.live && s.chunked == al.chunked
      requires PageLost(s, a, t.i, PageOf(page), State(al.live, al.chunked - {PageOf(page)}, ch.infos))
      requires |ch.infos| + 1 < |spare| && Distinct(spare) && forall x :: x in spare ==> x !in al.fl.mem
      modifies al, al.dir, al.fl, ch
      decreases |ch.infos|, 2
      ensures Inv() && Shrunk(s, Now(), t)
      ensures forall x :: x in al.fl.mem ==> x in old(al.fl.mem) || x in spare
    {
      hide Allocator.Inv, Chunks.Inv, Alive, User, Span, Composed, Shrunk, InUse, PageOk, EntryAt, PagesOk, PageLost, OwnPage,
        OthersStay, GuardPage, PageOf;
      var p := PageOf(page);
      ch.HasPages();
      InfoOf(s, a);
      HomeOfInfo(s, a);
      al.ClearInfo(p);
      PageGoes(s, al.guard, a, t.i, p, Now());
      ghost var s2, held := Now(), InfoThing(s, a);
      OwnIff(s, s2, t, a, p);
      if page != a {
        SpareRest(spare);
        Ifree(a, held, spare[1..]);
      }
      ghost var s3 := Now();
      StillBlock(s2, s3, p, held);
      al.Freeable(p);
      var r := al.FreePages(p, spare[0]);
      LiveAgain();
      BlockGoes(s3, al.guard, p, Now());
      PageUnmade(s, s2, s3, Now(), t, p, a, held, page == a);
    }

    lemma LiveAgain()
      requires al.Inv()
      ensures Apart(al.live, al.guard)
    {
      LivePages();
    }

    lemma SpareRest(spare: seq<nat>)
      requires Distinct(spare) && 0 < |spare|
      ensures Distinct(spare[1..]) && spare[0] !in spare[1..] && forall x :: x in spare[1..] ==> x in spare
    {
    }

    lemma HomeOfInfo(s: State, a: nat)
      requires Composed(s, al.guard) && a in s.infos
      ensures PageOf(s.infos[a].page) in s.chunked && s.chunked[PageOf(s.infos[a].page)] == a
    {
    }

    lemma StillBlock(s: State, s': State, p: nat, held: Thing)
      requires User(s, Block(p)) && held != Block(p) && (s' == s || Shrunk(s, s', held))
      ensures Alive(s', Block(p)) && p in s'.live && p !in s'.chunked
    {
    }

    /** The comparison of addresses tells whether the pginfo is in its page; if not, its chunk is there to be freed. */
    lemma OwnIff(s: State, s2: State, t: Thing, a: nat, p: nat)
      requires Composed(s, al.guard) && Composed(s2, al.guard) && User(s, t) && a in s.infos && InfoPlaced(s.infos, a)
      requires Alive(s2, Block(p)) && !Alive(s, Block(p)) && p == PageOf(s.infos[a].page)
      requires forall u :: u != Block(p) && u != t && u != Pginfo(a) ==> (Alive(s2, u) <==> Alive(s, u)) && Span(s2, u) == Span(s, u)
      requires forall u :: User(s2, u) <==> u == Block(p) || (User(s, u) && u != t)
                                            || (u == InfoThing(s, a) && !OwnPage(s.infos[a]))
      ensures OwnPage(s.infos[a]) <==> s.infos[a].page == a
      ensures InfoThing(s, a) != Block(p) && User(s2, Block(p)) && !User(s, InfoThing(s, a)) && t != Block(p)
      ensures !OwnPage(s.infos[a]) ==> InfoThing(s, a).Chunk? && User(s2, InfoThing(s, a)) && Span(s2, InfoThing(s, a)).0 == a
    {
      hide Composed, PageOk, InUse;
      InfoAlive(s, a);
      var u := InfoThing(s, a);
      if !OwnPage(s.infos[a]) {
        assert User(s2, u) && Alive(s2, u);
        if s.infos[a].page == a {
          PageStart(s, a, p);
          BlockStart(s2, p);
          ChunkHasStart(s2, u.a, u.i);
          NoOverlap(s2, al.guard, u, Block(p), a);
        }
      }
    }

    lemma BlockStart(s: State, p: nat)
      requires Composed(s, al.guard) && Alive(s, Block(p))
      ensures HasByte(s, Block(p), Addr(p))
    {
    }

    lemma PageStart(s: State, a: nat, p: nat)
      requires Composed(s, al.guard) && a in s.infos && p == PageOf(s.infos[a].page) && RESERVED <= p
      ensures Addr(p) == s.infos[a].page
    {
    }

    /** The chunk number that free_bytes finds. */
    lemma ChunkPointer(p: PgInfo, i: nat, ptr: nat)
      requires PageOk(p) && InUse(p, i) && ptr == ChunkAt(p, i)
      ensures p.page <= ptr < p.page + 4096 && (ptr - p.page) / ChunkSize(p.shift) == i
      ensures forall k: nat :: k < Header(p) ==> ptr != ChunkAt(p, k)
    {
      ChunkInPage(p, i);
      var c := ChunkSize(p.shift);
      assert (i * c) / c == i;
      forall k: nat | k < Header(p) ensures ptr != ChunkAt(p, k) {
        Spaced(k + 1, i, c);
        Spaced(k, 0, c);
      }
    }

    lemma ChunkFreed(s: State, s': State, a: nat, i: nat)
      requires Composed(s, al.guard) && User(s, Chunk(a, i)) && s'.live == s.live && s'.chunked == s.chunked
      requires PagesOk(s.infos) && PagesOk(s'.infos) && s'.infos.Keys == s.infos.Keys && a in s.infos
      requires forall b :: b in s'.infos ==> b in s.infos && SameShape(s.infos[b], s'.infos[b])
      requires SameUse(s.infos, s'.infos, a, i) && !InUse(s'.infos[a], i)
      ensures Composed(s', al.guard) && Shrunk(s, s', Chunk(a, i))
    {
      hide Composed, InUse, Alive, User, Span;
      ChunkGoes(s, al.guard, a, i, s');
    }

    lemma OtherUse(f: Infos, g: Infos, a: nat, i: nat, b: nat, k: nat)
      requires PagesOk(f) && PagesOk(g) && b in f && b in g && b != a && SameUse(f, g, a, i)
      ensures InUse(g[b], k) <==> InUse(f[b], k)
    {
    }

    lemma LostPage(s: State, a: nat, i: nat, g: Infos)
      requires PagesOk(s.infos) && PagesOk(g) && a in s.infos && g.Keys == s.infos.Keys - {a}
      requires forall b :: b in g ==> b in s.infos && SameShape(s.infos[b], g[b])
      requires SameUse(s.infos, g, a, i) && forall k: nat :: InUse(s.infos[a], k) <==> k == i
      ensures PageLost(s, a, i, PageOf(s.infos[a].page), State(s.live, s.chunked - {PageOf(s.infos[a].page)}, g))
      ensures |g| + 1 == |s.infos|
    {
      hide InUse, PageOk, SameShape, Behind, PageOf, SameUse;
      assert s.infos.Keys == g.Keys + {a};
      forall b, k: nat | b in g ensures InUse(g[b], k) <==> InUse(s.infos[b], k) {
        OtherUse(s.infos, g, a, i, b, k);
      }
    }

    lemma BlockFreed(s: State, s': State, p: nat)
      requires Composed(s, al.guard) && User(s, Block(p)) && s' == State(s.live - {p}, s.chunked, s.infos)
      ensures Composed(s', al.guard) && Shrunk(s, s', Block(p))
    {
      hide PagesOk, AllPlaced, PagesLinked, PageOk, InUse;
      BlockGoes(s, al.guard, p, s');
    }
  }
}
