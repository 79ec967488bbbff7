/** The chunk layer: pages of chunks are made, their chunks are handed out and freed, and the pages leave. */
module ChunkAllocator {
  import opened ChunkBits
  import opened ChunkPages
  import opened ChunkLayer
  import opened Links

  datatype FreeChunk = Kept | PageReleased(page: nat) | ModifiedPointer | AlreadyFree

  class Chunks {
    /** The pginfo records, by address, and page_dir[0..12). */
    var infos: Infos
    var buckets: seq<Link>
    ghost var lists: seq<seq<nat>>

    ghost predicate Inv()
      reads this
      ensures Inv() ==> |buckets| == BUCKETS
    {
      Sound(infos, buckets, lists)
    }

    lemma HasPages()
      requires Inv()
      ensures PagesOk(infos) && forall a :: a in infos ==> PageOk(infos[a])
    {
    }

    constructor ()
      ensures Inv() && infos == map[]
    {
      infos, buckets, lists := map[], seq(BUCKETS, _ => Nil), seq(BUCKETS, _ => []);
    }

    /**
     malloc_make_chunks, with the page from malloc_pages and the place of its pginfo given, and what
     is in memory at the bitmap's place.
     */
    method MakeChunks(j: nat, page: nat, bp: nat, found: seq<bool>)
      requires Inv() && (j == 0 || 4 <= j < BUCKETS) && buckets[j] == Nil && Words(j) * 64 <= |found|
      requires page % 4096 == 0 && bp !in infos && forall a :: a in infos ==> infos[a].page != page
      modifies this
      ensures Inv() && buckets[j] == To(bp) && infos.Keys == old(infos).Keys + {bp}
      ensures infos[bp].page == page && BucketOf(infos[bp]) == j && infos[bp].free == infos[bp].total
      ensures forall i: nat :: !InUse(infos[bp], i)
      ensures KeepsFound(infos[bp], found)
      ensures forall a :: a in old(infos) ==> infos[a] == old(infos)[a]
      ensures forall b :: 0 <= b < BUCKETS && b != j ==> buckets[b] == old(buckets)[b]
    {
      assert Bucketed(infos, buckets[j], lists[j], j);
      var p := NewPage(j, page, buckets[j], found);
      ghost var m := infos[bp := p];
      assert NextIs(m, [bp], 0);
      forall a ensures a in [bp] <==> OnBucket(m, j, a) {
        assert OnBucket(infos, j, a) <==> a in lists[j];
      }
      PagesOkAgain(infos, m, bp);
      SoundAgain(infos, buckets, lists, m, To(bp), [bp], j, bp);
      infos := infos[bp := p];
      buckets, lists := buckets[j := To(bp)], lists[j := [bp]];
    }

    /** The bucket for a size: 0 for no bytes, else the exponent of the least power of two above. */
    method BucketFor(size0: nat) returns (j: nat)
      requires size0 <= 2048
      ensures size0 == 0 <==> j == 0
      ensures j != 0 ==> 4 <= j < BUCKETS && size0 <= ChunkSize(j) && (4 < j ==> ChunkSize(j - 1) < size0)
    {
      var size := if size0 != 0 && size0 < 16 then 16 else size0;
      if size == 0 {
        j := 0;
      } else {
        j := 1;
        var ii := (size - 1) / 2;
        while ii != 0
          invariant 1 <= j && ii == Shifted(size - 1, j) && Shifted(size - 1, j - 1) != 0
          decreases ii
        {
          j := j + 1;
          ii := ii / 2;
        }
        ShiftedOut(size - 1, j);
      }
    }

    /** The free chunk of page p to hand out. */
    method PickChunk(p: PgInfo, guard: bool, rand: nat) returns (i: nat, q: PgInfo)
      requires PageOk(p) && 0 < p.free
      ensures i < PerPage(p.shift) && p.bits[i] && IsNthSet(p.bits, Skip(guard, rand, p.free), i)
      ensures q == p.(bits := p.bits[i := false], free := p.free - 1) && PageOk(q) && PageOk(q.(next := Nil))
      ensures !InUse(p, i) && InUse(q, i) && InUse(q.(next := Nil), i) && Behind(q) == Behind(p)
      ensures forall m: nat :: m != i ==> (InUse(q, m) <==> InUse(p, m)) && (InUse(q.(next := Nil), m) <==> InUse(p, m))
    {
      var lp, k := FindChunk(p.bits, Skip(guard, rand, p.free), PerPage(p.shift));
      i := lp * 64 + k;
      q := p.(bits := p.bits[i := false], free := p.free - 1);
      TakeBit(p, i);
      PageOkNext(q, q.(next := Nil));
    }

    /** Take a free chunk from the first page of bucket j. */
    method TakeChunk(j: nat, guard: bool, rand: nat) returns (ptr: nat, a: nat, i: nat)
      requires Inv() && j < BUCKETS && buckets[j].To?
      modifies this
      ensures Inv() && a in infos && infos.Keys == old(infos).Keys && To(a) == old(buckets)[j]
      ensures BucketOf(infos[a]) == j && 0 < old(infos)[a].free
      ensures infos[a].(bits := [], free := 0, next := Nil) == old(infos)[a].(bits := [], free := 0, next := Nil)
      ensures IsNthSet(old(infos)[a].bits, Skip(guard, rand, old(infos)[a].free), i)
      ensures !InUse(old(infos)[a], i) && InUse(infos[a], i) && ptr == ChunkAt(infos[a], i)
      ensures forall k: nat :: k != i ==> (InUse(infos[a], k) <==> InUse(old(infos)[a], k))
      ensures Behind(infos[a]) == Behind(old(infos)[a])
      ensures forall b :: b in infos && b != a ==> infos[b] == old(infos)[b]
      ensures forall b :: 0 <= b < BUCKETS && b != j ==> buckets[b] == old(buckets)[b]
    {
      hide PagesOk, AllBucketed, IsNthSet, InUse, PageOk, ChunkSize;
      HasBuckets(infos, buckets, lists);
      a := buckets[j].a;
      FirstOnBucket(infos, buckets, lists, j);
      var p := infos[a];
      var q;
      i, q := PickChunk(p, guard, rand);
      ptr := ChunkAt(p, i);
      StoreFirst(j, a, q);
    }

    /** Page a, the first of bucket j, becomes q; without a free chunk it leaves the list. */
    method StoreFirst(j: nat, a: nat, q: PgInfo)
      requires Inv() && j < BUCKETS && buckets[j] == To(a) && OnBucket(infos, j, a)
      requires PageOk(q) && q.next == infos[a].next && q.page == infos[a].page && BucketOf(q) == j
      modifies this
      ensures Inv()
      ensures infos == old(infos)[a := if q.free == 0 then q.(next := Nil) else q]
      ensures forall b :: 0 <= b < BUCKETS && b != j ==> buckets[b] == old(buckets)[b]
    {
      if q.free == 0 {
        FullPage(infos, buckets, lists, j, a, q);
        infos := infos[a := q.(next := Nil)];
        buckets, lists := buckets[j := q.next], lists[j := Remove(lists[j], 0)];
      } else {
        StillOnList(infos, buckets, lists, j, a, q);
        infos := infos[a := q];
      }
    }

    /** Page a gets its first free chunk back: it goes onto its bucket's list. */
    method InsertPage(a: nat, q: PgInfo, j: nat)
      requires Inv() && a in infos && infos[a].free == 0 && j == BucketOf(infos[a]) == BucketOf(q) && j < BUCKETS
      requires PageOk(q) && 0 < q.free && q.page == infos[a].page
      modifies this
      ensures Inv() && infos.Keys == old(infos).Keys && infos[a].(next := Nil) == q.(next := Nil)
      ensures forall b :: b in infos && b != a ==> infos[b].(next := Nil) == old(infos)[b].(next := Nil)
    {
      assert Bucketed(infos, buckets[j], lists[j], j);
      var mp, k := FindSpot(infos, buckets[j], lists[j], q.page);
      OntoBucket(infos, buckets[j], lists[j], j, k, a, q);
      var m := Onto(infos, buckets[j], mp, a, q);
      PageOkNext(q, m[a]);
      PagesOkAgain(infos, m, a);
      SoundAgain(infos, buckets, lists, m, SetHead(buckets[j], mp, To(a)), Insert(lists[j], k, a), j, a);
      infos := m;
      buckets, lists := buckets[j := SetHead(buckets[j], mp, To(a))], lists[j := Insert(lists[j], k, a)];
    }

    /** Page a has all its chunks back: it leaves its bucket's list, and its pginfo goes. */
    method ReleasePage(a: nat, j: nat)
      requires Inv() && OnBucket(infos, j, a) && j < BUCKETS
      modifies this
      ensures Inv() && infos.Keys == old(infos).Keys - {a}
      ensures forall b :: b in infos ==> infos[b].(next := Nil) == old(infos)[b].(next := Nil)
    {
      assert Bucketed(infos, buckets[j], lists[j], j);
      var mp, k := FindPage(infos, buckets[j], lists[j], a);
      OffBucket(infos, buckets[j], lists[j], j, k);
      var m, head := OffMemory(infos, mp, a), SetHead(buckets[j], mp, infos[a].next);
      PagesOkAgain(infos, m, a);
      SoundAgain(infos, buckets, lists, m, head, Remove(lists[j], k), j, a);
      infos := m;
      buckets, lists := buckets[j := head], lists[j := Remove(lists[j], k)];
    }

    /**
     free_bytes.  ptr lies in page a, whose pginfo the page directory gave, and is not the start of a
     chunk that the page's header takes up (see HeaderFreed).  A chunk in use becomes free, and a page
     is released exactly when that was the only one; a pointer that is not to a chunk, or to a free one,
     changes nothing.
     */
    method FreeBytes(ptr: nat, a: nat) returns (r: FreeChunk, ghost i: nat)
      requires Inv() && a in infos && infos[a].page <= ptr < infos[a].page + 4096
      requires forall k: nat :: k < Header(infos[a]) ==> ptr != ChunkAt(infos[a], k)
      modifies this
      ensures Inv() && i == (ptr - old(infos)[a].page) / ChunkSize(old(infos)[a].shift)
      ensures i < PerPage(old(infos)[a].shift) && (r == ModifiedPointer <==> ptr != ChunkAt(old(infos)[a], i))
      ensures r == AlreadyFree <==> ptr == ChunkAt(old(infos)[a], i) && !InUse(old(infos)[a], i)
      ensures r == ModifiedPointer || r == AlreadyFree ==> infos == old(infos) && buckets == old(buckets)
      ensures r == Kept ==> infos.Keys == old(infos).Keys && !InUse(infos[a], i) && InUse(old(infos)[a], i)
      ensures r.PageReleased? ==> infos.Keys == old(infos).Keys - {a} && r.page == old(infos)[a].page
      ensures forall b :: b in infos ==> b in old(infos) && SameShape(old(infos)[b], infos[b])
      ensures r.PageReleased? <==> ptr == ChunkAt(old(infos)[a], i) && forall k: nat :: InUse(old(infos)[a], k) <==> k == i
      ensures SameUse(old(infos), infos, a, i)
    {
      var p := infos[a];
      var cs := ChunkSize(p.shift);
      i := (ptr - p.page) / cs;
      InPageIndex(p, ptr);
      if ptr % cs != 0 {
        return ModifiedPointer, i;
      }
      if p.bits[(ptr - p.page) / cs] {
        return AlreadyFree, i;
      }
      r := GiveBack(a, (ptr - p.page) / cs);
    }

    /** Chunk i of page a, which is in use, becomes free. */
    method GiveBack(a: nat, i: nat) returns (r: FreeChunk)
      requires Inv() && a in infos && InUse(infos[a], i)
      modifies this
      ensures Inv() && (r == Kept || r == PageReleased(old(infos)[a].page))
      ensures r == Kept ==> infos.Keys == old(infos).Keys && !InUse(infos[a], i)
      ensures r != Kept ==> infos.Keys == old(infos).Keys - {a}
      ensures r != Kept <==> forall k: nat :: InUse(old(infos)[a], k) <==> k == i
      ensures forall b :: b in infos ==> b in old(infos) && SameShape(old(infos)[b], infos[b])
      ensures SameUse(old(infos), infos, a, i)
    {
      ghost var before := infos;
      var p := infos[a];
      GiveBit(p, i);
      var q := p.(bits := p.bits[i := true], free := p.free + 1);
      r := StoreFreed(a, q, if p.size != 0 then p.shift else 0);
      OnlyOneInUse(p, i);
      ShapesBut(before, infos, a, q);
      SameUseBut(before, infos, a, i);
    }

    /** Page a has got a chunk back and becomes q. */
    method StoreFreed(a: nat, q: PgInfo, j: nat) returns (r: FreeChunk)
      requires Inv() && a in infos && j == BucketOf(infos[a]) == BucketOf(q) && j < BUCKETS
      requires PageOk(q) && q.free == infos[a].free + 1 && q.page == infos[a].page && q.next == infos[a].next
      modifies this
      ensures Inv() && r == if q.free != 1 && q.free == q.total then PageReleased(q.page) else Kept
      ensures r == Kept ==> infos.Keys == old(infos).Keys && infos[a].(next := Nil) == q.(next := Nil)
      ensures r != Kept ==> infos.Keys == old(infos).Keys - {a}
      ensures forall b :: b in infos && b != a ==> infos[b].(next := Nil) == old(infos)[b].(next := Nil)
    {
      if q.free == 1 {
        InsertPage(a, q, j);
        return Kept;
      }
      StillOnList(infos, buckets, lists, j, a, q);
      infos := infos[a := q];
      if q.free != q.total {
        return Kept;
      }
      ReleasePage(a, j);
      return PageReleased(q.page);
    }
  }

  lemma ShapesBut(m1: Infos, m2: Infos, a: nat, q: PgInfo)
    requires forall b :: b in m2 && b != a ==> b in m1 && m2[b].(next := Nil) == m1[b].(next := Nil)
    requires a in m2 ==> a in m1 && m2[a].(next := Nil) == q.(next := Nil) && SameShape(m1[a], q)
    ensures forall b :: b in m2 ==> b in m1 && SameShape(m1[b], m2[b])
  {
    forall b | b in m2 ensures b in m1 && SameShape(m1[b], m2[b]) {
      if b == a {
        assert m2[b] == q.(next := m2[b].next);
      } else {
        assert m2[b] == m1[b].(next := m2[b].next);
      }
    }
  }

  lemma ModIs(x: nat, q: nat, r: nat, c: nat)
    requires r < c && x == q * c + r
    ensures x % c == r
  {
    var d := q - x / c;
    assert x == (x / c) * c + x % c;
    assert d * c == x % c - r;
    Multiples(d, c);
  }

  lemma Multiples(d: int, c: nat)
    ensures d >= 1 ==> d * c >= c
    ensures d <= -1 ==> d * c + c <= 0
  {
    if d >= 1 { assert d * c == c + (d - 1) * c; }
  }

  /** The chunk number of an address in the page, and when the address is the chunk's. */
  lemma InPageIndex(p: PgInfo, ptr: nat)
    requires PageOk(p) && p.page <= ptr < p.page + 4096
    ensures var i := (ptr - p.page) / ChunkSize(p.shift);
            0 <= i < PerPage(p.shift) && (ptr % ChunkSize(p.shift) == 0 <==> ptr == ChunkAt(p, i))
  {
    ChunksFillPage(p.shift);
    IndexInPage(p.page, p.page / 4096, ptr, ChunkSize(p.shift), PerPage(p.shift));
  }

  lemma IndexInPage(page: nat, t: nat, ptr: nat, c: nat, n: nat)
    requires 0 < c && n * c == 4096 && page == t * 4096 && page <= ptr < page + 4096
    ensures var i := (ptr - page) / c;
            0 <= i < n && (ptr % c == 0 <==> ptr == page + i * c)
  {
    var d := ptr - page;
    var i, r := d / c, d % c;
    assert d == i * c + r;
    TimesSum(t, n, i, c);
    ModIs(ptr, t * n + i, r, c);
    Spaced(n, i, c);
  }

  lemma TimesSum(t: nat, n: nat, i: nat, c: nat)
    ensures (t * n + i) * c == t * (n * c) + i * c
  {
  }

  /** One more free chunk makes all of them free exactly when only that one was in use. */
  lemma OnlyOneInUse(p: PgInfo, i: nat)
    requires PageOk(p) && InUse(p, i)
    ensures p.free + 1 == p.total <==> forall k: nat :: InUse(p, k) <==> k == i
  {
    var n := PerPage(p.shift);
    GiveBit(p, i);
    if forall k: nat :: InUse(p, k) <==> k == i {
      var b := p.bits[i := true];
      forall m | 0 <= m < n ensures b[m] == (Header(p) <= m) {
        assert m != i ==> !InUse(p, m);
      }
      CountRange(b, Header(p), n, n);
      CountToUpdate(p.bits, i, true, n);
    } else {
      var k: nat :| InUse(p, k) && k != i;
      GiveBit(p.(bits := p.bits[i := true], free := p.free + 1), k);
    }
  }

  /** The random walk's length: only with guard pages. */
  function Skip(guard: bool, rand: nat, free: nat): (r: nat)
    ensures 0 < free ==> r < free
  {
    if guard && 0 < free then rand % free else 0
  }

  // ---------- counting shifts ----------

  function Pow2(k: nat): (p: nat)
    ensures 0 < p
  {
    if k == 0 then 1 else 2 * Pow2(k - 1)
  }

  /** x >> k */
  function Shifted(x: nat, k: nat): nat { if k == 0 then x else Shifted(x, k - 1) / 2 }

  lemma {:induction false} ShiftedBounds(x: nat, k: nat)
    ensures Shifted(x, k) * Pow2(k) <= x < (Shifted(x, k) + 1) * Pow2(k)
  {
    if k != 0 {
      ShiftedBounds(x, k - 1);
      HalfBounds(x, Shifted(x, k - 1), Pow2(k - 1));
    }
  }

  lemma HalfBounds(x: nat, y: nat, p: nat)
    requires y * p <= x < (y + 1) * p
    ensures (y / 2) * (2 * p) <= x < (y / 2 + 1) * (2 * p)
  {
    var h := y / 2;
    if y == 2 * h {
      assert h * (2 * p) == y * p;
      assert (h + 1) * (2 * p) == (y + 1) * p + p;
    } else {
      assert y == 2 * h + 1;
      assert h * (2 * p) == y * p - p;
      assert (h + 1) * (2 * p) == (y + 1) * p;
    }
  }

  lemma {:induction false} Pow2Grows(j: nat, k: nat)
    requires j <= k
    ensures Pow2(j) <= Pow2(k)
  {
    if j < k { Pow2Grows(j, k - 1); }
  }

  lemma Pow2Values()
    ensures Pow2(3) == 8 && Pow2(4) == 16 && Pow2(5) == 32 && Pow2(6) == 64 && Pow2(7) == 128
    ensures Pow2(8) == 256 && Pow2(9) == 512 && Pow2(10) == 1024 && Pow2(11) == 2048
  {
    assert Pow2(3) == 8;
    assert Pow2(5) == 32;
    assert Pow2(7) == 128;
    assert Pow2(9) == 512;
  }

  /** The shift that makes x vanish tells its chunk size. */
  lemma ShiftedOut(x: nat, j: nat)
    requires 15 <= x <= 2047 && 1 <= j && Shifted(x, j) == 0 && Shifted(x, j - 1) != 0
    ensures 4 <= j < BUCKETS && x < ChunkSize(j) && (4 < j ==> ChunkSize(j - 1) <= x)
  {
    ShiftedBounds(x, j);
    ShiftedBounds(x, j - 1);
    assert Pow2(j - 1) <= Shifted(x, j - 1) * Pow2(j - 1);
    Pow2Values();
    if j < 4 { Pow2Grows(j, 3); }
    if 12 <= j { Pow2Grows(11, j - 1); }
  }
}
