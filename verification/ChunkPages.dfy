/**
 Pages cut into chunks of one size, and the bucket lists of those pages that have a free chunk.
 Addresses are byte addresses; a struct pginfo is named by its own address.
 */
module ChunkPages {
  import opened ChunkBits
  import opened Links

  /** A struct pginfo. */
  datatype PgInfo = PgInfo(next: Link, page: nat, size: nat, shift: nat, free: nat, total: nat, bits: seq<bool>)

  type Infos = map<nat, PgInfo>

  const BUCKETS: nat := 12

  // ---------- sizes ----------

  /** 1 << shift, for the shifts that occur */
  function ChunkSize(shift: nat): nat
    requires 4 <= shift < BUCKETS
  {
    match shift
    case 4 => 16 case 5 => 32 case 6 => 64 case 7 => 128
    case 8 => 256 case 9 => 512 case 10 => 1024 case _ => 2048
  }

  /** malloc_pagesize >> shift */
  function PerPage(shift: nat): nat
    requires 4 <= shift < BUCKETS
  {
    match shift
    case 4 => 256 case 5 => 128 case 6 => 64 case 7 => 32
    case 8 => 16 case 9 => 8 case 10 => 4 case _ => 2
  }

  /** The shift of the chunks in bucket j: malloc(0) has its bucket 0, with chunks of the minimum size. */
  function ShiftOf(j: nat): nat { if j == 0 then 4 else j }

  /** Words of the bitmap for bucket j. */
  function Words(j: nat): nat
    requires j == 0 || 4 <= j < BUCKETS
  {
    if j == 0 then 64 else (PerPage(j) + 63) / 64
  }

  /** Length of the admin structure of a page for bucket j. */
  function AdminLen(j: nat): nat
    requires j == 0 || 4 <= j < BUCKETS
  {
    24 + 8 * Words(j)
  }

  /** Not more than two chunks are wasted on the admin structure; else it goes elsewhere. */
  predicate InPage(j: nat)
    requires j == 0 || 4 <= j < BUCKETS
  {
    j != 0 && ChunkSize(j) <= AdminLen(j) + AdminLen(j)
  }

  // ---------- one page ----------

  function BucketOf(p: PgInfo): nat { if p.size == 0 then 0 else p.shift }

  /** The first chunks of a page that hold its own pginfo and are never handed out. */
  function Header(p: PgInfo): int
    requires 4 <= p.shift < BUCKETS
  {
    PerPage(p.shift) - p.total
  }

  /**
   free counts the set bits of the chunks, and a header chunk's bit is never set.  What is behind the
   bit of the last chunk was in memory when the page was made, and is nobody's.
   */
  ghost predicate PageOk(p: PgInfo) {
    && 4 <= p.shift < BUCKETS && p.page % 4096 == 0
    && (p.size == 0 ==> p.shift == 4) && (p.size != 0 ==> p.size == ChunkSize(p.shift))
    && |p.bits| % 64 == 0 && PerPage(p.shift) <= |p.bits|
    && 2 <= p.total <= PerPage(p.shift)
    && (forall i :: 0 <= i < Header(p) ==> !p.bits[i])
    && p.free == CountTo(p.bits, PerPage(p.shift)) <= p.total
    && (if InPage(BucketOf(p))
        then (Header(p) - 1) * ChunkSize(p.shift) < AdminLen(BucketOf(p)) <= Header(p) * ChunkSize(p.shift)
        else Header(p) == 0)
  }

  /** In numbers: how many chunks of which size a page has, and how many its own pginfo takes from it. */
  lemma ChunksOf(p: PgInfo)
    requires PageOk(p)
    ensures p.size in {0, 16, 32, 64, 128, 256, 512, 1024, 2048}
    ensures ChunkSize(p.shift) == if p.size == 0 then 16 else p.size
    ensures p.total == match p.size
                       case 0 => 256 case 16 => 252 case 32 => 126 case 64 => 63
                       case _ => 4096 / p.size
    ensures Header(p) == match p.size case 16 => 4 case 32 => 2 case 64 => 1 case _ => 0
  {
    hide CountTo;
  }

  /** The bits behind the last chunk's. */
  function Behind(p: PgInfo): seq<bool>
    requires 4 <= p.shift < BUCKETS && PerPage(p.shift) <= |p.bits|
  {
    p.bits[PerPage(p.shift)..]
  }

  /** The bits behind the last chunk's are as they were found in memory. */
  ghost predicate KeepsFound(p: PgInfo, found: seq<bool>) {
    && 4 <= p.shift < BUCKETS && |p.bits| <= |found|
    && forall k :: PerPage(p.shift) <= k < |p.bits| ==> p.bits[k] == found[k]
  }

  lemma KeepsFoundOn(p: PgInfo, q: PgInfo, found: seq<bool>)
    requires PageOk(p) && PageOk(q) && p.shift == q.shift && Behind(p) == Behind(q) && KeepsFound(p, found)
    ensures KeepsFound(q, found)
  {
    hide ChunkSize, AdminLen, CountTo;
    var n := PerPage(p.shift);
    assert |p.bits| == n + |Behind(p)| && |q.bits| == n + |Behind(q)|;
    forall k | n <= k < |q.bits| ensures q.bits[k] == found[k] {
      assert Behind(q)[k - n] == Behind(p)[k - n];
    }
  }

  /** free is the number of all set bits exactly when the memory behind the last chunk's bit was clear. */
  lemma FreeIsCountIff(p: PgInfo)
    requires PageOk(p)
    ensures p.free == Count(p.bits) <==> forall i :: 0 <= i < |Behind(p)| ==> !Behind(p)[i]
  {
    var n := PerPage(p.shift);
    CountedAllIff(p.bits, n);
    if forall i :: 0 <= i < |Behind(p)| ==> !Behind(p)[i] {
      forall i | n <= i < |p.bits| ensures !p.bits[i] { assert !Behind(p)[i - n]; }
    }
  }

  /** Chunk i of the page is in use. */
  ghost predicate InUse(p: PgInfo, i: nat)
    requires PageOk(p)
  {
    Header(p) <= i < PerPage(p.shift) && !p.bits[i]
  }

  /** The address of chunk i. */
  function ChunkAt(p: PgInfo, i: nat): nat
    requires 4 <= p.shift < BUCKETS
  {
    p.page + i * ChunkSize(p.shift)
  }

  /** The bytes chunk i takes up. */
  predicate InChunk(p: PgInfo, i: nat, x: nat)
    requires 4 <= p.shift < BUCKETS
  {
    ChunkAt(p, i) <= x < ChunkAt(p, i) + ChunkSize(p.shift)
  }

  lemma ChunksFillPage(shift: nat)
    requires 4 <= shift < BUCKETS
    ensures PerPage(shift) * ChunkSize(shift) == 4096
  {
  }

  /** Chunks do not overlap, within a page and across pages, and stay inside their page. */
  lemma ChunksApart(p: PgInfo, i: nat, q: PgInfo, k: nat, x: nat)
    requires PageOk(p) && PageOk(q) && i < PerPage(p.shift) && k < PerPage(q.shift)
    requires InChunk(p, i, x) && InChunk(q, k, x)
    ensures p.page <= x < p.page + 4096
    ensures p.page == q.page
    ensures p == q ==> i == k
  {
    hide PageOk, InChunk, PerPage;
    InItsPage(p, i, x);
    InItsPage(q, k, x);
    SamePage(p.page, q.page, x);
    if p == q { OneOfPage(p, i, k, x); }
  }

  lemma OneOfPage(p: PgInfo, i: nat, k: nat, x: nat)
    requires PageOk(p) && InChunk(p, i, x) && InChunk(p, k, x)
    ensures i == k
  {
    hide ChunkSize, PerPage, Count, AdminLen;
    OneChunk(i, k, ChunkSize(p.shift), x - p.page);
  }

  lemma InItsPage(p: PgInfo, i: nat, x: nat)
    requires PageOk(p) && i < PerPage(p.shift) && InChunk(p, i, x)
    ensures p.page <= x < p.page + 4096 && p.page % 4096 == 0
  {
    hide ChunkSize, Count, AdminLen;
    ChunkInPage(p, i);
  }

  lemma OneChunk(i: nat, k: nat, c: nat, x: int)
    requires i * c <= x < i * c + c && k * c <= x < k * c + c
    ensures i == k
  {
    Spaced(i + 1, k, c);
    Spaced(k + 1, i, c);
    Spaced(i, k, c);
    Spaced(k, i, c);
  }

  lemma SamePage(a: nat, b: nat, x: nat)
    requires a % 4096 == 0 && b % 4096 == 0 && a <= x < a + 4096 && b <= x < b + 4096
    ensures a == b
  {
  }

  lemma Spaced(i: nat, k: nat, c: nat)
    ensures i <= k ==> i * c <= k * c
    ensures (i + 1) * c == i * c + c
  {
    if i <= k { assert k * c == i * c + (k - i) * c; }
  }

  lemma ChunkInPage(p: PgInfo, i: nat)
    requires 4 <= p.shift < BUCKETS && i < PerPage(p.shift)
    ensures ChunkAt(p, i) + ChunkSize(p.shift) <= p.page + 4096
  {
    ChunksFillPage(p.shift);
    Spaced(i + 1, PerPage(p.shift), ChunkSize(p.shift));
    Spaced(i, 0, ChunkSize(p.shift));
  }

  /** A chunk that is handed out lies behind the admin structure when that is in the page. */
  lemma ChunkBehindHeader(p: PgInfo, i: nat)
    requires PageOk(p) && InUse(p, i) && InPage(BucketOf(p))
    ensures p.page + AdminLen(BucketOf(p)) <= ChunkAt(p, i)
  {
    assert Header(p) * ChunkSize(p.shift) <= i * ChunkSize(p.shift);
  }

  /**
   A pointer to the start of a header chunk passes both checks of free_bytes: it is aligned, and the
   chunk's bit is not set.  Its bit is set then, so that the next search of the page finds a chunk that
   overlaps the pginfo; and a page with just one chunk in use is taken for empty.
   */
  lemma HeaderFreed(p: PgInfo, i: nat)
    requires PageOk(p) && i < Header(p)
    ensures !p.bits[i]
    ensures p.page <= ChunkAt(p, i) < p.page + AdminLen(BucketOf(p))
    ensures var q := p.(bits := p.bits[i := true], free := p.free + 1);
            && !PageOk(q) && q.free == CountTo(q.bits, PerPage(p.shift)) && IsNthSet(q.bits, 0, i)
            && forall k: nat :: Header(p) <= k < PerPage(p.shift) ==> q.bits[k] == p.bits[k]
  {
    var q := p.(bits := p.bits[i := true], free := p.free + 1);
    assert Header(q) == Header(p) && q.bits[i];
    CountToUpdate(p.bits, i, true, PerPage(p.shift));
    CountToGap(p.bits[i := true], 0, i);
    Spaced(i, Header(p) - 1, ChunkSize(p.shift));
    Spaced(0, i, ChunkSize(p.shift));
  }

  // ---------- making a page: malloc_make_chunks ----------

  /**
   Set the first k bits of the bitmap found in memory, a word at a time while that is possible.  A last
   word that is not full gets its bits one by one, and keeps what it had behind them.
   */
  method FillBits(found: seq<bool>, k: nat) returns (bits: seq<bool>)
    requires k <= |found| && |found| % 64 == 0
    ensures |bits| == |found| && forall i :: 0 <= i < |bits| ==> bits[i] == (i < k || found[i])
  {
    bits := found;
    var i := 0;
    while k - i >= 64
      invariant 0 <= i <= k && i % 64 == 0 && |bits| == |found|
      invariant forall m :: 0 <= m < |bits| ==> bits[m] == (m < i || found[m])
    {
      bits := bits[..i] + seq(64, _ => true) + bits[i + 64..];
      i := i + 64;
    }
    while i < k
      invariant 0 <= i <= k && |bits| == |found|
      invariant forall m :: 0 <= m < |bits| ==> bits[m] == (m < i || found[m])
    {
      bits := bits[i := true];
      i := i + 1;
    }
  }

  /** Mark the chunks the pginfo at the start of the page stole; `i` is their number. */
  method StealHeader(bits0: seq<bool>, k: nat, l: nat, size: nat) returns (bits: seq<bool>, i: nat)
    requires 0 < size && l <= k * size && k <= |bits0|
    requires forall m :: 0 <= m < k ==> bits0[m]
    ensures |bits| == |bits0| && forall m :: 0 <= m < |bits| ==> bits[m] == (i <= m && bits0[m])
    ensures l <= i * size && (0 < i ==> (i - 1) * size < l) && i <= k
  {
    bits, i := bits0, 0;
    var left: int := l;
    while left > 0
      invariant i <= k && |bits| == |bits0| && left == l - i * size
      invariant 0 < i ==> (i - 1) * size < l
      invariant forall m :: 0 <= m < |bits| ==> bits[m] == (i <= m && bits0[m])
      decreases left
    {
      Spaced(i, 0, size);
      Spaced(k, i, size);
      bits := bits[i := false];
      i := i + 1;
      left := left - size;
    }
  }

  /**
   A new page of chunks for bucket j; its pginfo is in the page itself or at address bp, where the
   bitmap's memory holds what was found there.
   */
  method NewPage(j: nat, page: nat, next: Link, found: seq<bool>) returns (p: PgInfo)
    requires (j == 0 || 4 <= j < BUCKETS) && page % 4096 == 0 && Words(j) * 64 <= |found|
    ensures PageOk(p) && p.page == page && p.next == next && BucketOf(p) == j && p.shift == ShiftOf(j)
    ensures p.free == p.total && forall i: nat :: !InUse(p, i)
    ensures |p.bits| == Words(j) * 64 && KeepsFound(p, found)
  {
    var shift := ShiftOf(j);
    var k := PerPage(shift);
    var bits := FillBits(found[..Words(j) * 64], k);
    var h := 0;
    if InPage(j) {
      bits, h := StealHeader(bits, k, AdminLen(j), ChunkSize(j));
    }
    CountRange(bits, h, k, k);
    p := PgInfo(next, page, if j == 0 then 0 else ChunkSize(j), shift, k - h, k - h, bits);
  }

  lemma {:induction false} CountRange(bits: seq<bool>, h: nat, k: nat, m: nat)
    requires h <= k <= |bits| && m <= k
    requires forall i :: 0 <= i < k ==> bits[i] == (h <= i)
    ensures CountTo(bits, m) == if m <= h then 0 else m - h
  {
    if m != 0 { CountRange(bits, h, k, m - 1); }
  }

  /**
   For example: 32 bytes that a program filled with 0xff and freed become the pginfo of a page of
   32 chunks.  It counts 32 free chunks, while its bitmap has 64 set bits.
   */
  lemma StaleBits()
    ensures var p := PgInfo(Nil, 4096, 128, 7, 32, 32, seq(64, _ => true));
            PageOk(p) && Behind(p) == seq(64, _ => true)[32..] && p.free == 32 && Count(p.bits) == 64
  {
    var ones := seq(64, _ => true);
    CountAllSet(ones, 32);
    CountAllSet(ones, 64);
  }

  /** Handing out free chunk i keeps the page in order and takes one off the count. */
  lemma TakeBit(p: PgInfo, i: nat)
    requires PageOk(p) && i < PerPage(p.shift) && p.bits[i]
    ensures 0 < p.free
    ensures var q := p.(bits := p.bits[i := false], free := p.free - 1);
            PageOk(q) && Header(p) <= i && InUse(q, i) && !InUse(p, i) && Behind(q) == Behind(p)
            && forall m: nat :: m != i ==> (InUse(q, m) <==> InUse(p, m))
  {
    CountToUpdate(p.bits, i, false, PerPage(p.shift));
    CountToMonotone(p.bits, i + 1, PerPage(p.shift));
  }

  /** Freeing chunk i in use puts one on the count. */
  lemma GiveBit(p: PgInfo, i: nat)
    requires PageOk(p) && InUse(p, i)
    ensures p.free < p.total
    ensures var q := p.(bits := p.bits[i := true], free := p.free + 1);
            PageOk(q) && !InUse(q, i) && Behind(q) == Behind(p)
            && forall m: nat :: m != i ==> (InUse(q, m) <==> InUse(p, m))
  {
    var n := PerPage(p.shift);
    CountToUpdate(p.bits, i, true, n);
    CountBound(p.bits[i := true], Header(p), n);
  }

  lemma {:induction false} CountBound(bits: seq<bool>, h: nat, m: nat)
    requires m <= |bits| && forall i :: 0 <= i < h && i < |bits| ==> !bits[i]
    ensures CountTo(bits, m) <= if m <= h then 0 else m - h
  {
    if m != 0 { CountBound(bits, h, m - 1); }
  }
}
