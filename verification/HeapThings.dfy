/**
 What is in memory: blocks, chunks and pginfos.  The page layer's and the chunk layer's views of it fit
 together, no two things overlap, and each step of an operation adds or takes away what it should.
 */
module HeapThings {
  import opened Links
  import opened PageDirectory
  import opened PageOwnership
  import opened ChunkPages
  import opened ChunkLayer

  /** index2ptr and ptr2index */
  function Addr(p: nat): nat
    requires RESERVED <= p
  {
    (p - 12) * 4096
  }
  function PageOf(x: nat): nat { x / 4096 + 12 }

  /** Live blocks, the pages of chunks among them, and the pginfos of these. */
  datatype State = State(live: Blocks, chunked: Pginfos, infos: Infos)

  /** The page holds its own pginfo. */
  ghost predicate OwnPage(p: PgInfo) {
    4 <= p.shift < BUCKETS && InPage(BucketOf(p))
  }

  /** Chunk i of page b, which is in use, holds pginfo a. */
  ghost predicate Holds(f: Infos, b: nat, i: nat, a: nat) {
    && b in f && a in f && PageOk(f[b]) && PageOk(f[a])
    && InUse(f[b], i) && a == ChunkAt(f[b], i) && AdminLen(BucketOf(f[a])) <= ChunkSize(f[b].shift)
  }

  /** Pginfo a is at the start of its page, or in a chunk. */
  ghost predicate InfoPlaced(f: Infos, a: nat) {
    && a in f && PageOk(f[a])
    && if OwnPage(f[a]) then a == f[a].page else exists b, i :: Holds(f, b, i, a)
  }

  ghost predicate PagesLinked(s: State) {
    && (forall p :: p in s.live ==> RESERVED <= p)
    && (forall p :: p in s.chunked ==>
          && p in s.live && s.live[p] == 1
          && s.chunked[p] in s.infos && s.infos[s.chunked[p]].page == Addr(p))
    && (forall a :: a in s.infos ==>
          PageOf(s.infos[a].page) in s.chunked && s.chunked[PageOf(s.infos[a].page)] == a)
  }

  ghost predicate AllPlaced(f: Infos) {
    forall a {:trigger InfoPlaced(f, a)} :: a in f ==> InfoPlaced(f, a)
  }

  /** The directory's pages of chunks are those of the pginfos, and each pginfo has its memory. */
  ghost predicate Composed(s: State, guard: bool) {
    Apart(s.live, guard) && PagesOk(s.infos) && PagesLinked(s) && AllPlaced(s.infos)
  }

  // ---------- what is in memory ----------

  /** A block of pages, a chunk, or a pginfo at the start of its page. */
  datatype Thing = Block(p: nat) | Chunk(a: nat, i: nat) | Pginfo(a: nat)

  ghost predicate Alive(s: State, t: Thing) {
    match t
    case Block(p) => p in s.live && p !in s.chunked && RESERVED <= p
    case Chunk(a, i) => a in s.infos && PageOk(s.infos[a]) && InUse(s.infos[a], i)
    case Pginfo(a) => a in s.infos && PageOk(s.infos[a]) && OwnPage(s.infos[a])
  }

  /** Its first byte, and the one behind its last. */
  ghost function Span(s: State, t: Thing): (nat, nat) {
    if !Alive(s, t) then (0, 0)
    else
      match t
      case Block(p) => (Addr(p), Addr(p) + s.live[p] * 4096)
      case Chunk(a, i) => (ChunkAt(s.infos[a], i), ChunkAt(s.infos[a], i) + ChunkSize(s.infos[a].shift))
      case Pginfo(a) => (s.infos[a].page, s.infos[a].page + AdminLen(BucketOf(s.infos[a])))
  }

  ghost predicate HasByte(s: State, t: Thing, x: nat) {
    Span(s, t).0 <= x < Span(s, t).1
  }

  /** It is the program's: a block or a chunk, but not one that holds a pginfo. */
  ghost predicate User(s: State, t: Thing) {
    Alive(s, t) && !t.Pginfo? && (t.Chunk? ==> Span(s, t).0 !in s.infos)
  }

  /** The first page of the block that it is, or is in. */
  ghost function Home(s: State, t: Thing): nat
    requires Alive(s, t)
  {
    match t
    case Block(p) => p
    case Chunk(a, _) => PageOf(s.infos[a].page)
    case Pginfo(a) => PageOf(s.infos[a].page)
  }

  lemma BlockPages(p: nat, n: nat, x: nat)
    requires RESERVED <= p && Addr(p) <= x < Addr(p) + n * 4096
    ensures p <= PageOf(x) < p + n
  {
  }

  lemma HeaderInPage(p: PgInfo)
    requires PageOk(p) && OwnPage(p)
    ensures AdminLen(BucketOf(p)) <= 4096
  {
  }

  lemma ByteAtHome(s: State, guard: bool, t: Thing, x: nat)
    requires Composed(s, guard) && Alive(s, t) && HasByte(s, t, x)
    ensures Home(s, t) in s.live && Home(s, t) <= PageOf(x) < Home(s, t) + s.live[Home(s, t)]
    ensures !t.Block? ==> Home(s, t) in s.chunked && s.chunked[Home(s, t)] == t.a
  {
    match t
    case Block(p) => BlockPages(p, s.live[p], x);
    case Chunk(a, i) =>
      InItsPage(s.infos[a], i, x);
      InOnePage(s.infos[a].page, x);
    case Pginfo(a) =>
      HeaderInPage(s.infos[a]);
      InOnePage(s.infos[a].page, x);
  }

  lemma InOnePage(page: nat, x: nat)
    requires page % 4096 == 0 && page <= x < page + 4096
    ensures PageOf(x) == PageOf(page)
  {
  }

  lemma OneBlock(live: Blocks, guard: bool, p: nat, q: nat, k: nat)
    requires Apart(live, guard) && p in live && q in live && p <= k < p + live[p] && q <= k < q + live[q]
    ensures p == q
  {
  }

  /** No two live things share a byte: blocks, chunks and pginfos never overlap. */
  lemma NoOverlap(s: State, guard: bool, t: Thing, u: Thing, x: nat)
    requires Composed(s, guard) && Alive(s, t) && Alive(s, u) && HasByte(s, t, x) && HasByte(s, u, x)
    ensures t == u
  {
    hide PageOk, InUse, InChunk, PageOf, AdminLen, ChunkSize;
    ByteAtHome(s, guard, t, x);
    ByteAtHome(s, guard, u, x);
    OneBlock(s.live, guard, Home(s, t), Home(s, u), PageOf(x));
    if !t.Block? && !u.Block? {
      assert t.a == u.a;
      OnPage(s.infos[t.a], s, t, u, x);
    }
  }

  lemma OnPage(p: PgInfo, s: State, t: Thing, u: Thing, x: nat)
    requires Alive(s, t) && Alive(s, u) && HasByte(s, t, x) && HasByte(s, u, x)
    requires !t.Block? && !u.Block? && t.a == u.a && p == s.infos[t.a]
    ensures t == u
  {
    hide ChunkSize, AdminLen;
    if t.Chunk? && u.Chunk? { ChunksApart(p, t.i, p, u.i, x); }
    if t.Chunk? && u.Pginfo? { ChunkBehindHeader(p, t.i); }
    if t.Pginfo? && u.Chunk? { ChunkBehindHeader(p, u.i); }
  }

  // ---------- single steps ----------

  /** The same things, but for t, which may have come or gone; the others have their bytes still. */
  ghost predicate OthersStay(s: State, s': State, t: Thing) {
    forall u {:trigger Alive(s, u)} {:trigger Alive(s', u)} ::
      u != t ==> (Alive(s', u) <==> Alive(s, u)) && Span(s', u) == Span(s, u)
  }

  /** Who is the program's, when no pginfo came or went. */
  lemma SameUsers(s: State, s': State, t: Thing)
    requires OthersStay(s, s', t) && s'.infos.Keys == s.infos.Keys
    ensures forall u :: u != t ==> (User(s', u) <==> User(s, u))
  {
    hide Alive, Span;
  }

  lemma BlockSame(s: State, s': State, u: Thing)
    requires s'.infos == s.infos
    requires u.Block? ==> (u.p in s.live <==> u.p in s'.live) && (u.p in s.live ==> s'.live[u.p] == s.live[u.p])
    requires u.Block? ==> (u.p in s.chunked <==> u.p in s'.chunked)
    ensures (Alive(s', u) <==> Alive(s, u)) && Span(s', u) == Span(s, u)
  {
  }

  /** malloc_pages: a new block. */
  lemma BlockComes(s: State, guard: bool, p: nat, n: nat, s': State)
    requires Composed(s, guard) && p !in s.live && RESERVED <= p && Apart(s'.live, guard)
    requires s' == State(s.live[p := n], s.chunked, s.infos)
    ensures Composed(s', guard) && Alive(s', Block(p)) && !Alive(s, Block(p)) && OthersStay(s, s', Block(p))
    ensures User(s', Block(p)) && forall u :: u != Block(p) ==> (User(s', u) <==> User(s, u))
  {
    hide PagesOk, AllPlaced, PageOk, InUse;
    assert p !in s.chunked;
    forall u | u != Block(p) ensures (Alive(s', u) <==> Alive(s, u)) && Span(s', u) == Span(s, u) {
      BlockSame(s, s', u);
    }
    SameUsers(s, s', Block(p));
  }

  /** free_pages: it goes. */
  lemma BlockGoes(s: State, guard: bool, p: nat, s': State)
    requires Composed(s, guard) && Alive(s, Block(p)) && Apart(s'.live, guard)
    requires s' == State(s.live - {p}, s.chunked, s.infos)
    ensures Composed(s', guard) && !Alive(s', Block(p)) && OthersStay(s, s', Block(p))
    ensures forall u :: u != Block(p) ==> (User(s', u) <==> User(s, u))
  {
    hide PagesOk, AllPlaced, PageOk, InUse;
    assert p !in s.chunked;
    forall u | u != Block(p) ensures (Alive(s', u) <==> Alive(s, u)) && Span(s', u) == Span(s, u) {
      BlockSame(s, s', u);
    }
    SameUsers(s, s', Block(p));
  }

  // ---------- chunks come and go ----------

  /** Page b is in both, with the same chunks. */
  ghost predicate SamePage(f: Infos, g: Infos, b: nat) {
    b in f && b in g && SameShape(f[b], g[b]) && PageOk(f[b]) && PageOk(g[b])
  }

  lemma HoldsStill(f: Infos, g: Infos, b: nat, i: nat, a: nat)
    requires Holds(f, b, i, a) && SamePage(f, g, b) && SamePage(f, g, a) && InUse(g[b], i)
    ensures Holds(g, b, i, a)
  {
    hide PageOk, InUse;
  }

  /** A pginfo stays in its place while its chunk is in use. */
  lemma PlacedStill(f: Infos, g: Infos, a: nat)
    requires InfoPlaced(f, a) && SamePage(f, g, a)
    requires forall b, i :: Holds(f, b, i, a) ==> SamePage(f, g, b) && InUse(g[b], i)
    ensures InfoPlaced(g, a)
  {
    hide InUse;
    if !OwnPage(f[a]) {
      var b, i :| Holds(f, b, i, a);
      HoldsStill(f, g, b, i, a);
    }
  }

  /** The bytes of a thing on a page that is in both. */
  lemma SameSpan(s: State, s': State, u: Thing)
    requires !u.Block? && SamePage(s.infos, s'.infos, u.a)
    requires u.Chunk? ==> (InUse(s.infos[u.a], u.i) <==> InUse(s'.infos[u.a], u.i))
    ensures (Alive(s', u) <==> Alive(s, u)) && Span(s', u) == Span(s, u)
  {
    hide PageOk, InUse;
  }

  /** Only the use of chunk i of page a differs. */
  ghost predicate UseDiffers(f: Infos, g: Infos, a: nat, i: nat) {
    && g.Keys == f.Keys && a in f
    && (forall b :: b in f ==> SamePage(f, g, b))
    && (forall b, k: nat {:trigger InUse(g[b], k)} {:trigger InUse(f[b], k)} ::
          b in f && (b != a || k != i) ==> (InUse(g[b], k) <==> InUse(f[b], k)))
  }

  lemma LinkedPages(s: State, s': State)
    requires PagesLinked(s) && s'.live == s.live && s'.chunked == s.chunked && s'.infos.Keys == s.infos.Keys
    requires forall b :: b in s.infos ==> SamePage(s.infos, s'.infos, b)
    ensures PagesLinked(s')
  {
    hide PageOk;
  }

  lemma OthersStayChunk(s: State, s': State, a: nat, i: nat)
    requires s'.live == s.live && s'.chunked == s.chunked && UseDiffers(s.infos, s'.infos, a, i)
    ensures OthersStay(s, s', Chunk(a, i))
  {
    hide PageOk, InUse, Alive, Span;
    forall u | u != Chunk(a, i) ensures (Alive(s', u) <==> Alive(s, u)) && Span(s', u) == Span(s, u) {
      if !u.Block? && u.a in s.infos {
        SameSpan(s, s', u);
      } else {
        NotOnPage(s, s', u);
      }
    }
  }

  lemma NotOnPage(s: State, s': State, u: Thing)
    requires s'.live == s.live && s'.chunked == s.chunked
    requires u.Block? || (u.a !in s.infos && u.a !in s'.infos)
    ensures (Alive(s', u) <==> Alive(s, u)) && Span(s', u) == Span(s, u)
  {
  }

  /** The chunk of a pginfo is alive and begins where the pginfo is. */
  lemma HeldAlive(s: State, b: nat, i: nat, a: nat)
    requires Holds(s.infos, b, i, a)
    ensures Alive(s, Chunk(b, i)) && Span(s, Chunk(b, i)).0 == a && HasByte(s, Chunk(b, i), a)
  {
  }

  /** malloc_bytes: a new chunk, which holds no pginfo. */
  lemma ChunkComes(s: State, guard: bool, a: nat, i: nat, s': State)
    requires Composed(s, guard) && s'.live == s.live && s'.chunked == s.chunked && PagesOk(s'.infos)
    requires UseDiffers(s.infos, s'.infos, a, i) && !InUse(s.infos[a], i) && InUse(s'.infos[a], i)
    ensures Composed(s', guard) && Alive(s', Chunk(a, i)) && !Alive(s, Chunk(a, i)) && OthersStay(s, s', Chunk(a, i))
    ensures User(s', Chunk(a, i)) && forall u :: u != Chunk(a, i) ==> (User(s', u) <==> User(s, u))
  {
    hide PageOk, InUse, PagesLinked, Apart, PagesOk;
    LinkedPages(s, s');
    forall c | c in s'.infos ensures InfoPlaced(s'.infos, c) {
      assert InfoPlaced(s.infos, c);
      PlacedStill(s.infos, s'.infos, c);
    }
    OthersStayChunk(s, s', a, i);
    SameUsers(s, s', Chunk(a, i));
    NewHoldsNothing(s, guard, a, i, s');
  }

  lemma NewHoldsNothing(s: State, guard: bool, a: nat, i: nat, s': State)
    requires AllPlaced(s.infos) && Composed(s', guard) && s'.infos.Keys == s.infos.Keys
    requires !Alive(s, Chunk(a, i)) && Alive(s', Chunk(a, i)) && OthersStay(s, s', Chunk(a, i))
    ensures Span(s', Chunk(a, i)).0 !in s'.infos
  {
    hide Composed, OthersStay;
    var c := Span(s', Chunk(a, i)).0;
    ChunkHasStart(s', a, i);
    if c in s'.infos {
      assert InfoPlaced(s.infos, c);
      InfoAlive(s, c);
      var u := InfoThing(s, c);
      assert u != Chunk(a, i);
      assert Alive(s', u) && Span(s', u) == Span(s, u) by { StaysWhenOther(s, s', Chunk(a, i), u); }
      NoOverlap(s', guard, Chunk(a, i), u, c);
    }
  }

  lemma StaysWhenOther(s: State, s': State, t: Thing, u: Thing)
    requires OthersStay(s, s', t) && u != t
    ensures (Alive(s', u) <==> Alive(s, u)) && Span(s', u) == Span(s, u)
  {
    assert Alive(s, u) || !Alive(s, u);
  }

  lemma ChunkHasStart(s: State, a: nat, i: nat)
    requires Alive(s, Chunk(a, i))
    ensures HasByte(s, Chunk(a, i), Span(s, Chunk(a, i)).0)
  {
  }

  /** The thing at whose start a pginfo is: it itself in its page, or its chunk. */
  ghost function InfoThing(s: State, a: nat): (u: Thing)
    requires InfoPlaced(s.infos, a)
  {
    if OwnPage(s.infos[a]) then Pginfo(a)
    else
      var b, i :| Holds(s.infos, b, i, a);
      Chunk(b, i)
  }

  lemma InfoAlive(s: State, a: nat)
    requires InfoPlaced(s.infos, a)
    ensures Alive(s, InfoThing(s, a)) && HasByte(s, InfoThing(s, a), a) && Span(s, InfoThing(s, a)).0 == a
  {
    var u := InfoThing(s, a);
    if u.Chunk? { HeldAlive(s, u.a, u.i, a); }
  }

  /** free_bytes: a chunk of the program's goes. */
  lemma ChunkGoes(s: State, guard: bool, a: nat, i: nat, s': State)
    requires Composed(s, guard) && s'.live == s.live && s'.chunked == s.chunked && PagesOk(s'.infos)
    requires UseDiffers(s.infos, s'.infos, a, i) && User(s, Chunk(a, i)) && !InUse(s'.infos[a], i)
    ensures Composed(s', guard) && !Alive(s', Chunk(a, i)) && OthersStay(s, s', Chunk(a, i))
    ensures forall u :: u != Chunk(a, i) ==> (User(s', u) <==> User(s, u))
  {
    hide PageOk, InUse, PagesLinked, Apart, PagesOk;
    LinkedPages(s, s');
    forall c | c in s'.infos ensures InfoPlaced(s'.infos, c) {
      assert InfoPlaced(s.infos, c);
      forall b, k | Holds(s.infos, b, k, c) ensures SamePage(s.infos, s'.infos, b) && InUse(s'.infos[b], k) {
        HeldAlive(s, b, k, c);
        HeldInUse(s.infos, b, k, c);
      }
      PlacedStill(s.infos, s'.infos, c);
    }
    OthersStayChunk(s, s', a, i);
    SameUsers(s, s', Chunk(a, i));
  }

  lemma HeldInUse(f: Infos, b: nat, i: nat, a: nat)
    requires Holds(f, b, i, a)
    ensures InUse(f[b], i)
  {
  }

  // ---------- pages of chunks come and go ----------

  /** Pginfo bp has its memory: the page itself, or the chunk `held` of the program's, which is its from now on. */
  ghost predicate HasPlace(s: State, p: nat, bp: nat, q: PgInfo, held: Thing)
    requires PageOk(q)
  {
    if OwnPage(q) then RESERVED <= p && bp == Addr(p)
    else User(s, held) && held.Chunk? && Span(s, held).0 == bp && AdminLen(BucketOf(q)) <= ChunkSize(s.infos[held.a].shift)
  }

  /** Everything but t and t2 stays, or stays away. */
  ghost predicate StayBut(s: State, s': State, t: Thing, t2: Thing) {
    forall u {:trigger Alive(s, u)} {:trigger Alive(s', u)} ::
      u != t && u != t2 ==> (Alive(s', u) <==> Alive(s, u)) && Span(s', u) == Span(s, u)
  }

  /** The program has what it had but for block p, and for the chunk `held` when there is one. */
  ghost predicate UsersBut(s: State, s': State, p: nat, own: bool, held: Thing) {
    forall u :: User(s', u) <==> User(s, u) && u != Block(p) && (own || u != held)
  }

  /** malloc_make_chunks: block p becomes a page of chunks with pginfo q at bp. */
  lemma PageComes(s: State, guard: bool, p: nat, bp: nat, q: PgInfo, held: Thing, s': State)
    requires Composed(s, guard) && Alive(s, Block(p)) && s.live[p] == 1 && bp !in s.infos
    requires PageOk(q) && q.page == Addr(p) && (forall k: nat :: !InUse(q, k)) && HasPlace(s, p, bp, q, held)
    requires s' == State(s.live, s.chunked[p := bp], s.infos[bp := q]) && PagesOk(s'.infos)
    ensures Composed(s', guard) && !Alive(s', Block(p))
    ensures StayBut(s, s', Block(p), Pginfo(bp)) && UsersBut(s, s', p, OwnPage(q), held)
  {
    hide PageOk, InUse, Apart, PagesOk;
    PagesWith(s, p, bp, q, s');
    PlacedWith(s, p, bp, q, held, s');
    forall u | u != Block(p) && u != Pginfo(bp) ensures (Alive(s', u) <==> Alive(s, u)) && Span(s', u) == Span(s, u) {
      StaysWith(s, p, bp, q, s', u);
    }
    forall u ensures User(s', u) <==> User(s, u) && u != Block(p) && (OwnPage(q) || u != held) {
      UsersWith(s, guard, p, bp, q, held, s', u);
    }
  }

  lemma PagesWith(s: State, p: nat, bp: nat, q: PgInfo, s': State)
    requires PagesLinked(s) && Alive(s, Block(p)) && s.live[p] == 1 && bp !in s.infos && q.page == Addr(p)
    requires s' == State(s.live, s.chunked[p := bp], s.infos[bp := q])
    ensures PagesLinked(s')
  {
    assert PageOf(Addr(p)) == p;
    forall a | a in s'.infos ensures PageOf(s'.infos[a].page) in s'.chunked && s'.chunked[PageOf(s'.infos[a].page)] == a {
      if a != bp { assert PageOf(s.infos[a].page) in s.chunked; }
    }
  }

  lemma PlacedWith(s: State, p: nat, bp: nat, q: PgInfo, held: Thing, s': State)
    requires AllPlaced(s.infos) && bp !in s.infos && PagesOk(s'.infos) && s'.infos == s.infos[bp := q]
    requires PageOk(q) && RESERVED <= p && q.page == Addr(p) && HasPlace(s, p, bp, q, held)
    ensures AllPlaced(s'.infos)
  {
    hide InUse;
    forall c | c in s'.infos ensures InfoPlaced(s'.infos, c) {
      if c == bp {
        if !OwnPage(q) { assert Holds(s'.infos, held.a, held.i, bp); }
      } else {
        assert InfoPlaced(s.infos, c);
        forall b, k | Holds(s.infos, b, k, c) ensures SamePage(s.infos, s'.infos, b) && InUse(s'.infos[b], k) {}
        PlacedStill(s.infos, s'.infos, c);
      }
    }
  }

  lemma StaysWith(s: State, p: nat, bp: nat, q: PgInfo, s': State, u: Thing)
    requires bp !in s.infos && u != Block(p) && u != Pginfo(bp) && PageOk(q) && (forall k: nat :: !InUse(q, k))
    requires s' == State(s.live, s.chunked[p := bp], s.infos[bp := q])
    ensures (Alive(s', u) <==> Alive(s, u)) && Span(s', u) == Span(s, u)
  {
    hide PageOk, InUse;
  }

  lemma UsersWith(s: State, guard: bool, p: nat, bp: nat, q: PgInfo, held: Thing, s': State, u: Thing)
    requires Composed(s, guard) && Alive(s, Block(p)) && s.live[p] == 1 && bp !in s.infos && PageOk(q) && HasPlace(s, p, bp, q, held)
    requires s' == State(s.live, s.chunked[p := bp], s.infos[bp := q]) && !Alive(s', Block(p))
    requires u != Block(p) && u != Pginfo(bp) ==> (Alive(s', u) <==> Alive(s, u)) && Span(s', u) == Span(s, u)
    ensures User(s', u) <==> User(s, u) && u != Block(p) && (OwnPage(q) || u != held)
  {
    hide PageOk, InUse, Composed, OwnPage;
    if u.Chunk? && Alive(s, u) && Span(s, u).0 == bp {
      ChunkHasStart(s, u.a, u.i);
      if OwnPage(q) {
        assert HasByte(s, Block(p), bp);
        NoOverlap(s, guard, u, Block(p), bp);
      } else {
        ChunkHasStart(s, held.a, held.i);
        NoOverlap(s, guard, u, held, bp);
      }
    }
  }

  /** The page of chunk i of page a loses its pginfo with that chunk, the only one in use. */
  ghost predicate PageLost(s: State, a: nat, i: nat, p: nat, s': State) {
    && a in s.infos && p == PageOf(s.infos[a].page) && PageOk(s.infos[a])
    && (forall k: nat :: InUse(s.infos[a], k) <==> k == i)
    && s'.live == s.live && s'.chunked == s.chunked - {p} && s'.infos.Keys == s.infos.Keys - {a}
    && (forall b :: b in s'.infos ==> SamePage(s.infos, s'.infos, b))
    && (forall b, k: nat {:trigger InUse(s'.infos[b], k)} {:trigger InUse(s.infos[b], k)} ::
          b in s'.infos ==> (InUse(s'.infos[b], k) <==> InUse(s.infos[b], k)))
  }

  /** free_bytes: a page without chunks in use becomes a block, and the chunk of its pginfo is the program's. */
  lemma PageGoes(s: State, guard: bool, a: nat, i: nat, p: nat, s': State)
    requires Composed(s, guard) && User(s, Chunk(a, i)) && PageLost(s, a, i, p, s') && PagesOk(s'.infos)
    ensures Composed(s', guard) && Alive(s', Block(p)) && !Alive(s, Block(p)) && s.live[p] == 1
    ensures !Alive(s', Chunk(a, i)) && !Alive(s', Pginfo(a)) && InfoPlaced(s.infos, a)
    ensures forall u :: u != Block(p) && u != Chunk(a, i) && u != Pginfo(a) ==>
                        (Alive(s', u) <==> Alive(s, u)) && Span(s', u) == Span(s, u)
    ensures forall u :: User(s', u) <==> u == Block(p) || (User(s, u) && u != Chunk(a, i))
                                         || (u == InfoThing(s, a) && !OwnPage(s.infos[a]))
  {
    hide PageOk, InUse, Apart, PagesOk;
    assert InfoPlaced(s.infos, a);
    PagesWithout(s, a, i, p, s');
    PlacedWithout(s, a, i, p, s');
    forall u | u != Block(p) && u != Chunk(a, i) && u != Pginfo(a)
      ensures (Alive(s', u) <==> Alive(s, u)) && Span(s', u) == Span(s, u)
    {
      StaysWithout(s, a, i, p, s', u);
    }
    forall u
      ensures User(s', u) <==> u == Block(p) || (User(s, u) && u != Chunk(a, i))
                               || (u == InfoThing(s, a) && !OwnPage(s.infos[a]))
    {
      UsersWithout(s, guard, a, i, p, s', u);
    }
  }

  lemma PagesWithout(s: State, a: nat, i: nat, p: nat, s': State)
    requires PagesLinked(s) && PageLost(s, a, i, p, s')
    ensures PagesLinked(s') && p in s.chunked && s.chunked[p] == a && p in s.live && s.live[p] == 1 && RESERVED <= p
  {
    hide PageOk, InUse;
    forall b | b in s'.infos ensures PageOf(s'.infos[b].page) in s'.chunked && s'.chunked[PageOf(s'.infos[b].page)] == b {
      assert SamePage(s.infos, s'.infos, b) && b != a;
    }
    forall q | q in s'.chunked ensures s'.chunked[q] in s'.infos && s'.infos[s'.chunked[q]].page == Addr(q) {
      assert s.chunked[q] in s.infos && s.infos[s.chunked[q]].page == Addr(q) && PageOf(Addr(q)) == q;
    }
  }

  lemma PlacedWithout(s: State, a: nat, i: nat, p: nat, s': State)
    requires AllPlaced(s.infos) && User(s, Chunk(a, i)) && PageLost(s, a, i, p, s')
    ensures AllPlaced(s'.infos)
  {
    hide PageOk, InUse;
    forall c | c in s'.infos ensures InfoPlaced(s'.infos, c) {
      assert InfoPlaced(s.infos, c);
      forall b, k | Holds(s.infos, b, k, c) ensures SamePage(s.infos, s'.infos, b) && InUse(s'.infos[b], k) {
        HeldAlive(s, b, k, c);
        HeldInUse(s.infos, b, k, c);
      }
      PlacedStill(s.infos, s'.infos, c);
    }
  }

  lemma StaysWithout(s: State, a: nat, i: nat, p: nat, s': State, u: Thing)
    requires PageLost(s, a, i, p, s') && u != Block(p) && u != Chunk(a, i) && u != Pginfo(a)
    ensures (Alive(s', u) <==> Alive(s, u)) && Span(s', u) == Span(s, u)
  {
    hide PageOk, InUse;
    if !u.Block? {
      if u.a in s'.infos { SameSpan(s, s', u); }
    }
  }

  lemma UsersWithout(s: State, guard: bool, a: nat, i: nat, p: nat, s': State, u: Thing)
    requires Composed(s, guard) && User(s, Chunk(a, i)) && PageLost(s, a, i, p, s') && InfoPlaced(s.infos, a)
    requires p in s.live && RESERVED <= p
    requires u != Block(p) && u != Chunk(a, i) && u != Pginfo(a) ==> (Alive(s', u) <==> Alive(s, u)) && Span(s', u) == Span(s, u)
    ensures User(s', u) <==> u == Block(p) || (User(s, u) && u != Chunk(a, i))
                             || (u == InfoThing(s, a) && !OwnPage(s.infos[a]))
  {
    hide PageOk, InUse, Composed, OwnPage;
    InfoAlive(s, a);
    if u.Chunk? && Alive(s, u) && Span(s, u).0 == a {
      ChunkHasStart(s, u.a, u.i);
      NoOverlap(s, guard, u, InfoThing(s, a), a);
    }
  }

  // ---------- whole operations ----------

  /** One thing more is the program's, and everything is where it was. */
  ghost predicate Grown(s: State, s': State, t: Thing) {
    && User(s', t) && !Alive(s, t)
    && (forall u {:trigger Alive(s, u)} {:trigger Alive(s', u)} ::
          Alive(s, u) ==> Alive(s', u) && Span(s', u) == Span(s, u))
    && (forall u :: u != t ==> (User(s', u) <==> User(s, u)))
  }

  /** One thing less is, and everything that is left is where it was. */
  ghost predicate Shrunk(s: State, s': State, t: Thing) {
    && User(s, t) && !Alive(s', t)
    && (forall u {:trigger Alive(s, u)} {:trigger Alive(s', u)} ::
          Alive(s', u) ==> Alive(s, u) && Span(s', u) == Span(s, u))
    && (forall u :: u != t ==> (User(s', u) <==> User(s, u)))
  }

  /** New memory has no byte of anything that was in memory before. */
  lemma NewIsApart(s: State, guard: bool, t: Thing, s': State, u: Thing, x: nat)
    requires Composed(s', guard) && Grown(s, s', t) && Alive(s, u) && HasByte(s, u, x)
    ensures Alive(s', u) && HasByte(s', u, x) && !HasByte(s', t, x)
  {
    hide Composed, Alive, Span;
    UserAlive(s', t);
    if HasByte(s', t, x) { NoOverlap(s', guard, t, u, x); }
  }

  /** Allocating and freeing again leaves the program what it had, where it was. */
  lemma FreeUndoesMalloc(s: State, s1: State, s2: State, t: Thing)
    requires Grown(s, s1, t) && Shrunk(s1, s2, t)
    ensures forall u :: User(s2, u) <==> User(s, u)
    ensures forall u :: User(s, u) ==> Span(s2, u) == Span(s, u)
  {
    hide Span, Alive, User;
    UserAlive(s, t);
    UserAlive(s2, t);
    forall u | User(s, u) ensures Span(s2, u) == Span(s, u) {
      UserAlive(s, u);
      UserAlive(s2, u);
    }
  }

  /** The program has what it had. */
  ghost predicate Prepared(s: State, s': State) {
    && (forall u {:trigger Alive(s, u)} {:trigger Alive(s', u)} ::
          Alive(s, u) ==> Alive(s', u) && Span(s', u) == Span(s, u))
    && (forall u :: User(s', u) <==> User(s, u))
  }

  lemma PreparedSelf(s: State)
    ensures Prepared(s, s)
  {
  }

  lemma PreparedGrown(s: State, s1: State, s': State, t: Thing)
    requires Prepared(s, s1) && OthersStay(s1, s', t) && User(s', t) && !Alive(s1, t)
    requires forall u :: u != t ==> (User(s', u) <==> User(s1, u))
    ensures Grown(s, s', t)
  {
    hide Alive, User, Span;
  }

  /** A page from malloc_pages, maybe a chunk for its pginfo, and the page is made one of chunks. */
  lemma PageMade(s: State, s1: State, s2: State, s3: State, p: nat, bp: nat, held: Thing, own: bool)
    requires !Alive(s, Block(p)) && OthersStay(s, s1, Block(p)) && !Alive(s2, Pginfo(bp))
    requires forall u :: u != Block(p) ==> (User(s1, u) <==> User(s, u))
    requires if own then s2 == s1 else held.Chunk? && Grown(s1, s2, held)
    requires StayBut(s2, s3, Block(p), Pginfo(bp)) && UsersBut(s2, s3, p, own, held)
    ensures Prepared(s, s3)
  {
    hide Span, Alive, User;
    forall u | Alive(s, u) ensures Alive(s3, u) && Span(s3, u) == Span(s, u) {
      assert u != Block(p) && Alive(s1, u);
      assert Alive(s2, u);
      assert u != Pginfo(bp);
    }
    forall u ensures User(s3, u) <==> User(s, u) {
      UserAlive(s, Block(p));
      if !own { UserAlive(s1, held); }
    }
  }

  lemma UserAlive(s: State, u: Thing)
    ensures User(s, u) ==> Alive(s, u)
  {
  }

  /** A page whose last chunk was freed: the chunk, the memory of the pginfo and the page go. */
  lemma PageUnmade(s: State, s2: State, s3: State, s': State, t: Thing, p: nat, a: nat, held: Thing, own: bool)
    requires User(s, t) && !Alive(s, Block(p)) && !Alive(s2, t) && !Alive(s2, Pginfo(a)) && t != Block(p)
    requires forall u {:trigger Alive(s2, u)} {:trigger Alive(s, u)} ::
               u != Block(p) && u != t && u != Pginfo(a) ==> (Alive(s2, u) <==> Alive(s, u)) && Span(s2, u) == Span(s, u)
    requires forall u :: User(s2, u) <==> u == Block(p) || (User(s, u) && u != t) || (u == held && !own)
    requires if own then s3 == s2 else held.Chunk? && !User(s, held) && Shrunk(s2, s3, held)
    requires !Alive(s', Block(p)) && OthersStay(s3, s', Block(p))
    requires forall u :: u != Block(p) ==> (User(s', u) <==> User(s3, u))
    ensures Shrunk(s, s', t)
  {
    hide Span, Alive, User;
    forall u | Alive(s', u) ensures Alive(s, u) && Span(s', u) == Span(s, u) {
      assert u != Block(p) && Alive(s3, u);
      assert Alive(s2, u);
    }
    forall u | u != t ensures User(s', u) <==> User(s, u) {
      UserAlive(s, Block(p));
      UserAlive(s', Block(p));
      UserAlive(s3, held);
    }
    assert Alive(s3, t) ==> Alive(s2, t);
    assert Alive(s', t) ==> Alive(s3, t);
  }

  /** Nothing is where a fresh block is, not even a pginfo. */
  lemma FreshPage(s: State, guard: bool, p: nat)
    requires Composed(s, guard) && Alive(s, Block(p))
    ensures Addr(p) !in s.infos && forall a :: a in s.infos ==> s.infos[a].page != Addr(p)
  {
    hide PageOk, InUse, Apart, PagesOk, AllPlaced;
    assert PageOf(Addr(p)) == p;
    if Addr(p) in s.infos { BlockIsApart(s, guard, p, Addr(p)); }
  }

  lemma BlockIsApart(s: State, guard: bool, p: nat, a: nat)
    requires Composed(s, guard) && Alive(s, Block(p)) && a in s.infos
    ensures InfoPlaced(s.infos, a) && a != Addr(p)
  {
    hide PageOk, InUse;
    assert InfoPlaced(s.infos, a);
    InfoAlive(s, a);
    if a == Addr(p) {
      assert HasByte(s, Block(p), a);
      NoOverlap(s, guard, InfoThing(s, a), Block(p), a);
    }
  }

  /** ifree finds the block or the page of chunks from the pointer. */
  lemma HomeOfPointer(s: State, guard: bool, t: Thing, ptr: nat)
    requires Composed(s, guard) && User(s, t) && Span(s, t).0 == ptr
    ensures RESERVED <= PageOf(ptr) && !t.Pginfo?
    ensures match t
            case Block(p) => PageOf(ptr) == p && p in s.live && p !in s.chunked
            case Chunk(a, i) =>
              && PageOf(ptr) in s.chunked && s.chunked[PageOf(ptr)] == a && PageOf(ptr) in s.live
              && a in s.infos && PageOk(s.infos[a]) && InUse(s.infos[a], i) && ptr == ChunkAt(s.infos[a], i)
              && PageOf(s.infos[a].page) == PageOf(ptr)
  {
    if t.Chunk? {
      ChunkHasStart(s, t.a, t.i);
      ByteAtHome(s, guard, t, ptr);
    }
  }

  lemma TakenDiffers(f: Infos, g: Infos, a: nat, i: nat)
    requires PagesOk(f) && PagesOk(g) && g.Keys == f.Keys && a in f
    requires g[a].(bits := [], free := 0, next := Nil) == f[a].(bits := [], free := 0, next := Nil)
    requires forall b :: b in g && b != a ==> g[b] == f[b]
    requires forall k: nat :: k != i ==> (InUse(g[a], k) <==> InUse(f[a], k))
    ensures UseDiffers(f, g, a, i)
  {
    hide PageOk, InUse;
    var t := g[a].(bits := [], free := 0, next := Nil);
    assert t.page == g[a].page && t.size == g[a].size && t.shift == g[a].shift && t.total == g[a].total;
  }
}
