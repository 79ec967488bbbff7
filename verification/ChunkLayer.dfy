/**
 malloc_bytes and free_bytes: a page with a free chunk is on the bucket list of its chunk size, and
 leaves it when its last chunk is handed out or when all its chunks are free again.
 */
module ChunkLayer {
  import opened ChunkPages
  import opened Links

  // ---------- the bucket lists ----------

  ghost predicate NextIs(infos: Infos, list: seq<nat>, k: nat)
    requires k < |list|
  {
    list[k] in infos && infos[list[k]].next == LinkAt(list, k + 1)
  }

  ghost predicate ListOk(infos: Infos, head: Link, list: seq<nat>) {
    && head == LinkAt(list, 0) && Distinct(list)
    && (forall k {:trigger NextIs(infos, list, k)} :: 0 <= k < |list| ==> NextIs(infos, list, k))
  }

  /** The page belongs on bucket list j: its chunks are of that size and one is free. */
  predicate OnBucket(infos: Infos, j: nat, a: nat) {
    a in infos && BucketOf(infos[a]) == j && 0 < infos[a].free
  }

  /** Bucket list j holds exactly the pages of bucket j that have a free chunk. */
  ghost predicate Bucketed(infos: Infos, head: Link, list: seq<nat>, j: nat) {
    ListOk(infos, head, list) && forall a {:trigger OnBucket(infos, j, a)} :: a in list <==> OnBucket(infos, j, a)
  }

  ghost predicate PagesOk(infos: Infos) {
    && (forall a :: a in infos ==> PageOk(infos[a]))
    && (forall a, b :: a in infos && b in infos && a != b ==> infos[a].page != infos[b].page)
  }

  ghost predicate AllBucketed(infos: Infos, buckets: seq<Link>, lists: seq<seq<nat>>) {
    && |buckets| == |lists| == BUCKETS
    && forall j {:trigger Bucketed(infos, buckets[j], lists[j], j)} ::
         0 <= j < BUCKETS ==> Bucketed(infos, buckets[j], lists[j], j)
  }

  lemma HasBuckets(infos: Infos, buckets: seq<Link>, lists: seq<seq<nat>>)
    requires AllBucketed(infos, buckets, lists)
    ensures |buckets| == |lists| == BUCKETS
  {
  }

  lemma ListedNext(infos: Infos, head: Link, list: seq<nat>, k: nat)
    requires ListOk(infos, head, list) && k < |list|
    ensures list[k] in infos && infos[list[k]].next == LinkAt(list, k + 1)
  {
    assert NextIs(infos, list, k);
  }

  /** Where the link to list[k] is kept: in the bucket or in the record before. */
  datatype Slot = Head | NextOf(a: nat)

  function SlotAt(list: seq<nat>, k: nat): Slot
    requires k <= |list|
  {
    if k == 0 then Head else NextOf(list[k - 1])
  }

  /** *mp = link */
  function SetHead(head: Link, mp: Slot, link: Link): Link { if mp == Head then link else head }
  function SetNext(infos: Infos, mp: Slot, link: Link): Infos {
    if mp.NextOf? && mp.a in infos then infos[mp.a := infos[mp.a].(next := link)] else infos
  }
  /** *mp */
  function Deref(infos: Infos, head: Link, mp: Slot): Link {
    if mp == Head then head else if mp.a in infos then infos[mp.a].next else Nil
  }

  /** The pages agree but for their next links. */
  ghost predicate SameButNext(m1: Infos, m2: Infos) {
    m1.Keys == m2.Keys && forall a :: a in m1 ==> m1[a].(next := Nil) == m2[a].(next := Nil)
  }

  /** info->next = *mp; *mp = info: page a goes in before list[k]. */
  lemma InsertOk(infos: Infos, head: Link, list: seq<nat>, k: nat, a: nat)
    requires ListOk(infos, head, list) && k <= |list| && a in infos && a !in list
    ensures var mp := SlotAt(list, k);
            var m := SetNext(infos[a := infos[a].(next := Deref(infos, head, mp))], mp, To(a));
            && SameButNext(infos, m)
            && ListOk(m, SetHead(head, mp, To(a)), Insert(list, k, a))
            && (forall b :: b in infos && b != a && b !in list ==> m[b] == infos[b])
  {
    var mp := SlotAt(list, k);
    if k < |list| { ListedNext(infos, head, list, k); }
    if 0 < k { ListedNext(infos, head, list, k - 1); }
    var m := SetNext(infos[a := infos[a].(next := Deref(infos, head, mp))], mp, To(a));
    var t := Insert(list, k, a);
    forall i | 0 <= i < |t| ensures NextIs(m, t, i) {
      if i < k { ListedNext(infos, head, list, i); assert t[i] == list[i]; }
      if i > k { ListedNext(infos, head, list, i - 1); assert t[i] == list[i - 1]; }
      assert i + 1 < k ==> t[i + 1] == list[i + 1];
      assert k <= i < |list| ==> t[i + 1] == list[i];
    }
  }

  /** *mp = info->next: page list[k] goes. */
  lemma RemoveOk(infos: Infos, head: Link, list: seq<nat>, k: nat)
    requires ListOk(infos, head, list) && k < |list|
    ensures list[k] in infos
    ensures var mp := SlotAt(list, k);
            var m := SetNext(infos, mp, infos[list[k]].next);
            && SameButNext(infos, m)
            && ListOk(m, SetHead(head, mp, infos[list[k]].next), Remove(list, k))
            && (forall b :: b in infos && b !in list ==> m[b] == infos[b])
            && m[list[k]] == infos[list[k]]
  {
    var mp := SlotAt(list, k);
    ListedNext(infos, head, list, k);
    if 0 < k { ListedNext(infos, head, list, k - 1); }
    var m := SetNext(infos, mp, infos[list[k]].next);
    var t := Remove(list, k);
    forall i | 0 <= i < |t| ensures NextIs(m, t, i) {
      if i < k { ListedNext(infos, head, list, i); assert t[i] == list[i]; }
      if i >= k { ListedNext(infos, head, list, i + 1); assert t[i] == list[i + 1]; }
      assert i + 1 < k ==> t[i + 1] == list[i + 1];
      assert k <= i + 1 < |t| ==> t[i + 1] == list[i + 2];
    }
  }

  /** A list does not notice changes to other pages, nor to its own pages' bits. */
  lemma BucketedSame(infos: Infos, m: Infos, head: Link, list: seq<nat>, j: nat)
    requires Bucketed(infos, head, list, j)
    requires forall b :: b in list && b in infos ==> b in m && m[b].next == infos[b].next
    requires forall b {:trigger OnBucket(m, j, b)} :: OnBucket(m, j, b) <==> OnBucket(infos, j, b)
    ensures Bucketed(m, head, list, j)
  {
    forall k | 0 <= k < |list| ensures NextIs(m, list, k) {
      ListedNext(infos, head, list, k);
    }
    forall a ensures a in list <==> OnBucket(m, j, a) {
      assert OnBucket(m, j, a) <==> OnBucket(infos, j, a);
    }
  }

  /** The other bucket lists, when only page a of bucket j and links of bucket j change. */
  lemma OthersSame(infos: Infos, m: Infos, buckets: seq<Link>, lists: seq<seq<nat>>, j: nat, a: nat, i: nat)
    requires AllBucketed(infos, buckets, lists) && j < BUCKETS && i < BUCKETS && i != j
    requires a in infos ==> BucketOf(infos[a]) == j
    requires a in m ==> BucketOf(m[a]) == j
    requires forall b :: b != a ==> (b in m <==> b in infos)
    requires forall b :: b in m && b != a ==> m[b].(next := Nil) == infos[b].(next := Nil)
    requires forall b :: b in m && b != a && BucketOf(infos[b]) != j ==> m[b] == infos[b]
    ensures Bucketed(m, buckets[i], lists[i], i)
  {
    assert Bucketed(infos, buckets[i], lists[i], i);
    forall b | b in lists[i] ensures b in infos && b in m && m[b].next == infos[b].next {
      assert OnBucket(infos, i, b);
    }
    forall b ensures OnBucket(m, i, b) <==> OnBucket(infos, i, b) {
    }
    BucketedSame(infos, m, buckets[i], lists[i], i);
  }

  // ---------- the order of a bucket list ----------

  ghost function PagesOf(infos: Infos, list: seq<nat>): (ps: seq<nat>)
    ensures |ps| == |list| && forall k :: 0 <= k < |list| && list[k] in infos ==> ps[k] == infos[list[k]].page
  {
    seq(|list|, k requires 0 <= k < |list| => if list[k] in infos then infos[list[k]].page else 0)
  }

  /** The place the insertion loop stops at, on a list with these pages. */
  function InsertSpot(ps: seq<nat>, x: nat, from: nat := 0): (k: nat)
    requires from <= |ps|
    ensures from <= k <= |ps|
    decreases |ps| - from
  {
    if from + 1 < |ps| && ps[from + 1] < x then InsertSpot(ps, x, from + 1) else from
  }

  ghost predicate Ascending(ps: seq<nat>) {
    forall i, k :: 0 <= i < k < |ps| ==> ps[i] < ps[k]
  }

  lemma {:induction false} InsertSpotIs(ps: seq<nat>, x: nat, from: nat)
    requires from <= |ps|
    ensures var k := InsertSpot(ps, x, from);
            (from < k ==> k < |ps| && ps[k] < x) && (k + 1 < |ps| ==> x <= ps[k + 1])
    decreases |ps| - from
  {
    if from + 1 < |ps| && ps[from + 1] < x { InsertSpotIs(ps, x, from + 1); }
  }

  /**
   "Insert in address order" does not keep the order: the loop looks one page ahead and then inserts
   before the page it stands at.  The order is kept exactly when the new page goes to the front of its
   list, that is when the list is empty or the new page is below its first one.
   */
  lemma OrderKeptIff(ps: seq<nat>, x: nat)
    requires Ascending(ps) && x !in ps
    ensures Ascending(Insert(ps, InsertSpot(ps, x), x)) <==> ps == [] || x < ps[0]
  {
    var k := InsertSpot(ps, x);
    InsertSpotIs(ps, x, 0);
    var t := Insert(ps, k, x);
    if ps != [] {
      if k == 0 {
        assert t[0] == x && t[1] == ps[0];
        assert forall i :: 0 < i < |t| ==> t[i] == ps[i - 1];
      } else {
        assert t[k] == x && t[k + 1] == ps[k];
        assert ps[0] <= ps[k];
      }
    }
  }

  /** For example: the second of two pages that become non-full in address order goes in front. */
  lemma OrderNotKept()
    ensures Ascending([4096]) && Insert([4096], InsertSpot([4096], 8192), 8192) == [8192, 4096]
    ensures !Ascending([8192, 4096])
  {
    assert InsertSpot([4096], 8192) == 0;
    assert [8192, 4096][0] > [8192, 4096][1];
  }

  /** Find the slot for a page that became non-full. */
  method FindSpot(infos: Infos, head: Link, ghost list: seq<nat>, page: nat) returns (mp: Slot, ghost k: nat)
    requires ListOk(infos, head, list)
    ensures k == InsertSpot(PagesOf(infos, list), page) && k <= |list| && mp == SlotAt(list, k)
  {
    ghost var ps := PagesOf(infos, list);
    mp := Head;
    k := 0;
    var cur := head;
    if cur.To? { ListedNext(infos, head, list, 0); }
    if 1 < |list| { ListedNext(infos, head, list, 1); }
    while cur.To? && infos[cur.a].next.To? && infos[infos[cur.a].next.a].page < page
      invariant k <= |list| && mp == SlotAt(list, k) && cur == LinkAt(list, k)
      invariant k < |list| ==> cur.a in infos && infos[cur.a].next == LinkAt(list, k + 1)
      invariant k + 1 < |list| ==> list[k + 1] in infos
      invariant InsertSpot(ps, page, k) == InsertSpot(ps, page)
      decreases |list| - k
    {
      mp := NextOf(cur.a);
      cur := infos[cur.a].next;
      k := k + 1;
      ListedNext(infos, head, list, k);
      if k + 1 < |list| { ListedNext(infos, head, list, k + 1); }
    }
  }

  /** Find the slot that holds page a. */
  method FindPage(infos: Infos, head: Link, ghost list: seq<nat>, a: nat) returns (mp: Slot, ghost k: nat)
    requires ListOk(infos, head, list) && a in list
    ensures k < |list| && list[k] == a && mp == SlotAt(list, k)
  {
    mp := Head;
    k := 0;
    var cur := head;
    while cur != To(a)
      invariant k <= |list| && mp == SlotAt(list, k) && cur == LinkAt(list, k)
      invariant a !in list[..k]
      decreases |list| - k
    {
      assert a in list[k..] by { assert list == list[..k] + list[k..]; }
      ListedNext(infos, head, list, k);
      mp := NextOf(cur.a);
      cur := infos[cur.a].next;
      k := k + 1;
    }
    assert a in list[k..] by { assert list == list[..k] + list[k..]; }
  }

  // ---------- whole bucket updates ----------

  ghost predicate Sound(infos: Infos, buckets: seq<Link>, lists: seq<seq<nat>>) {
    PagesOk(infos) && AllBucketed(infos, buckets, lists)
  }

  /** Every bucket is in order again when bucket j is and the rest only saw changes in bucket j. */
  lemma SoundAgain(infos: Infos, buckets: seq<Link>, lists: seq<seq<nat>>, m: Infos,
                   head: Link, list: seq<nat>, j: nat, a: nat)
    requires AllBucketed(infos, buckets, lists) && j < BUCKETS && PagesOk(m)
    requires a in infos ==> BucketOf(infos[a]) == j
    requires a in m ==> BucketOf(m[a]) == j
    requires forall b :: b != a ==> (b in m <==> b in infos)
    requires forall b :: b in m && b != a ==> m[b].(next := Nil) == infos[b].(next := Nil)
    requires forall b :: b in m && b != a && BucketOf(infos[b]) != j ==> m[b] == infos[b]
    requires Bucketed(m, head, list, j)
    ensures Sound(m, buckets[j := head], lists[j := list])
  {
    var bs, ls := buckets[j := head], lists[j := list];
    forall i | 0 <= i < BUCKETS ensures Bucketed(m, bs[i], ls[i], i) {
      if i != j { OthersSame(infos, m, buckets, lists, j, a, i); }
    }
  }

  lemma PageOkNext(p: PgInfo, q: PgInfo)
    requires PageOk(p) && q.(next := Nil) == p.(next := Nil)
    ensures PageOk(q)
  {
    assert q == p.(next := q.next);
  }

  /** The pages are in order when all agree with ordered ones but for links, except page a. */
  lemma PagesOkAgain(infos: Infos, m: Infos, a: nat)
    requires PagesOk(infos)
    requires forall b :: b in m && b != a ==> b in infos && m[b].(next := Nil) == infos[b].(next := Nil)
    requires a in m ==> PageOk(m[a]) && forall b :: b in infos && b != a ==> infos[b].page != m[a].page
    ensures PagesOk(m)
  {
    forall b | b in m ensures PageOk(m[b]) {
      if b != a { PageOkNext(infos[b], m[b]); }
    }
  }

  /** The pages are where they were, with chunks of the same size. */
  predicate SameShape(p: PgInfo, q: PgInfo) {
    p.page == q.page && p.size == q.size && p.shift == q.shift && p.total == q.total
  }

  /** The chunks in use agree, except for chunk i of page a, and so do the bits behind the last chunks. */
  ghost predicate SameUse(m1: Infos, m2: Infos, a: nat, i: nat) {
    && (forall b, k: nat :: b in m1 && b in m2 && (b != a || k != i) && PageOk(m1[b]) && PageOk(m2[b])
                       ==> (InUse(m1[b], k) <==> InUse(m2[b], k)))
    && (forall b :: b in m1 && b in m2 && PageOk(m1[b]) && PageOk(m2[b]) ==> Behind(m1[b]) == Behind(m2[b]))
  }

  /** Page a of bucket j has a changed bitmap and a free chunk still: its list stays as it is. */
  lemma StillOnList(infos: Infos, buckets: seq<Link>, lists: seq<seq<nat>>, j: nat, a: nat, q: PgInfo)
    requires Sound(infos, buckets, lists) && j < BUCKETS && OnBucket(infos, j, a)
    requires PageOk(q) && 0 < q.free && q.next == infos[a].next && q.page == infos[a].page && BucketOf(q) == j
    ensures Sound(infos[a := q], buckets, lists)
  {
    var m := infos[a := q];
    PagesOkAgain(infos, m, a);
    assert Bucketed(infos, buckets[j], lists[j], j);
    BucketedSame(infos, m, buckets[j], lists[j], j);
    SoundAgain(infos, buckets, lists, m, buckets[j], lists[j], j, a);
    assert buckets[j := buckets[j]] == buckets && lists[j := lists[j]] == lists;
  }

  lemma RestListed(infos: Infos, head: Link, list: seq<nat>, a: nat, q: PgInfo)
    requires ListOk(infos, head, list) && head == To(a)
    ensures 0 < |list| && list[0] == a && a in infos
    ensures ListOk(infos[a := q], infos[a].next, Remove(list, 0))
  {
    ListedNext(infos, head, list, 0);
    var m, t := infos[a := q], Remove(list, 0);
    forall k | 0 <= k < |t| ensures NextIs(m, t, k) {
      ListedNext(infos, head, list, k + 1);
      assert t[k] == list[k + 1];
      assert k + 1 < |t| ==> t[k + 1] == list[k + 2];
    }
  }

  /** Page a, the first of bucket j, has no free chunk left: it leaves the list. */
  lemma FullPage(infos: Infos, buckets: seq<Link>, lists: seq<seq<nat>>, j: nat, a: nat, q: PgInfo)
    requires Sound(infos, buckets, lists) && j < BUCKETS && buckets[j] == To(a) && a in infos
    requires PageOk(q) && q.free == 0 && q.next == infos[a].next && q.page == infos[a].page && BucketOf(q) == j
    ensures 0 < |lists[j]|
    ensures Sound(infos[a := q.(next := Nil)], buckets[j := q.next], lists[j := Remove(lists[j], 0)])
  {
    var m := infos[a := q.(next := Nil)];
    assert Bucketed(infos, buckets[j], lists[j], j);
    FullBucket(infos, buckets[j], lists[j], j, a, q.(next := Nil));
    PageOkNext(q, q.(next := Nil));
    PagesOkAgain(infos, m, a);
    SoundAgain(infos, buckets, lists, m, q.next, Remove(lists[j], 0), j, a);
  }

  lemma FullBucket(infos: Infos, head: Link, list: seq<nat>, j: nat, a: nat, q: PgInfo)
    requires Bucketed(infos, head, list, j) && head == To(a) && a in infos && q.free == 0
    ensures 0 < |list| && BucketOf(infos[a]) == j
    ensures Bucketed(infos[a := q], infos[a].next, Remove(list, 0), j)
  {
    var m := infos[a := q];
    RestListed(infos, head, list, a, q);
    assert OnBucket(infos, j, list[0]);
    forall b ensures b in Remove(list, 0) <==> OnBucket(m, j, b) {
      InRest(list, b);
      assert OnBucket(infos, j, b) <==> b in list;
    }
  }

  lemma InRest(list: seq<nat>, b: nat)
    requires 0 < |list| && Distinct(list)
    ensures b in Remove(list, 0) <==> b in list && b != list[0]
  {
    if b in list && b != list[0] {
      var k :| 0 <= k < |list| && list[k] == b;
      assert Remove(list, 0)[k - 1] == b;
    }
  }

  lemma InInserted(list: seq<nat>, k: nat, a: nat, b: nat)
    requires k <= |list|
    ensures b in Insert(list, k, a) <==> b in list || b == a
  {
    var t := Insert(list, k, a);
    assert t[k] == a;
    if b in list {
      var i :| 0 <= i < |list| && list[i] == b;
      assert t[if i < k then i else i + 1] == b;
    }
  }

  lemma InRemoved(list: seq<nat>, k: nat, b: nat)
    requires k < |list| && Distinct(list)
    ensures b in Remove(list, k) <==> b in list && b != list[k]
  {
    if b in list && b != list[k] {
      var i :| 0 <= i < |list| && list[i] == b;
      assert Remove(list, k)[if i < k then i else i - 1] == b;
    }
  }

  /** Page a, in its new state q with a first free chunk, goes onto its list. */
  function Onto(infos: Infos, head: Link, mp: Slot, a: nat, q: PgInfo): Infos {
    SetNext(infos[a := q.(next := Deref(infos, head, mp))], mp, To(a))
  }

  lemma OntoBucket(infos: Infos, head: Link, list: seq<nat>, j: nat, k: nat, a: nat, q: PgInfo)
    requires Bucketed(infos, head, list, j) && k <= |list| && a in infos && infos[a].free == 0
    requires 0 < q.free && BucketOf(q) == j
    ensures var mp := SlotAt(list, k);
            var m := Onto(infos, head, mp, a, q);
            && m.Keys == infos.Keys && m[a].(next := Nil) == q.(next := Nil)
            && (forall b :: b in infos && b != a ==> m[b].(next := Nil) == infos[b].(next := Nil))
            && (forall b :: b in infos && b != a && BucketOf(infos[b]) != j ==> m[b] == infos[b])
            && Bucketed(m, SetHead(head, mp, To(a)), Insert(list, k, a), j)
  {
    assert a !in list by { assert a in list <==> OnBucket(infos, j, a); }
    var mp := SlotAt(list, k);
    var m0 := infos[a := q];
    forall i | 0 <= i < |list| ensures NextIs(m0, list, i) {
      ListedNext(infos, head, list, i);
    }
    assert Deref(infos, head, mp) == Deref(m0, head, mp);
    InsertOk(m0, head, list, k, a);
    var m := Onto(infos, head, mp, a, q);
    assert m == SetNext(m0[a := m0[a].(next := Deref(m0, head, mp))], mp, To(a));
    forall b | b in infos && b != a && BucketOf(infos[b]) != j ensures m[b] == infos[b] {
      assert b in list <==> OnBucket(infos, j, b);
    }
    forall b ensures b in Insert(list, k, a) <==> OnBucket(m, j, b) {
      InInserted(list, k, a, b);
      assert OnBucket(infos, j, b) <==> b in list;
      if b in infos && b != a { assert m0[b].(next := Nil) == m[b].(next := Nil); }
    }
  }

  /** Page list[k], whose chunks are all free again, leaves its list and memory. */
  function OffMemory(infos: Infos, mp: Slot, a: nat): Infos
    requires a in infos
  {
    SetNext(infos, mp, infos[a].next) - {a}
  }

  lemma OffBucket(infos: Infos, head: Link, list: seq<nat>, j: nat, k: nat)
    requires Bucketed(infos, head, list, j) && k < |list|
    ensures list[k] in infos && BucketOf(infos[list[k]]) == j
    ensures var a, mp := list[k], SlotAt(list, k);
            var m := OffMemory(infos, mp, a);
            && m.Keys == infos.Keys - {a}
            && (forall b :: b in m ==> m[b].(next := Nil) == infos[b].(next := Nil))
            && (forall b :: b in m && BucketOf(infos[b]) != j ==> m[b] == infos[b])
            && Bucketed(m, SetHead(head, mp, infos[a].next), Remove(list, k), j)
  {
    var a, mp := list[k], SlotAt(list, k);
    assert OnBucket(infos, j, a);
    RemoveOk(infos, head, list, k);
    var m1 := SetNext(infos, mp, infos[a].next);
    var m, t := OffMemory(infos, mp, a), Remove(list, k);
    InRemoved(list, k, a);
    forall i | 0 <= i < |t| ensures NextIs(m, t, i) {
      ListedNext(m1, SetHead(head, mp, infos[a].next), t, i);
      assert t[i] in t;
    }
    forall b | b in m && BucketOf(infos[b]) != j ensures m[b] == infos[b] {
      assert b in list <==> OnBucket(infos, j, b);
    }
    forall b ensures b in t <==> OnBucket(m, j, b) {
      InRemoved(list, k, b);
      assert OnBucket(infos, j, b) <==> b in list;
      if b in infos { assert m1[b].(next := Nil) == infos[b].(next := Nil); }
    }
  }

  /** The first page of a bucket's list is one of that bucket with a free chunk. */
  lemma FirstOnBucket(infos: Infos, buckets: seq<Link>, lists: seq<seq<nat>>, j: nat)
    requires Sound(infos, buckets, lists) && j < BUCKETS && buckets[j].To?
    ensures OnBucket(infos, j, buckets[j].a) && PageOk(infos[buckets[j].a])
    ensures 0 < infos[buckets[j].a].free && BucketOf(infos[buckets[j].a]) == j
  {
    assert Bucketed(infos, buckets[j], lists[j], j);
    ListedNext(infos, buckets[j], lists[j], 0);
    assert lists[j][0] in lists[j];
  }

  lemma SameUseBut(m1: Infos, m2: Infos, a: nat, i: nat)
    requires forall b :: b in m1 && b in m2 && b != a ==> m1[b].(next := Nil) == m2[b].(next := Nil)
    requires a in m1 && a in m2 && PageOk(m1[a]) && PageOk(m2[a])
             ==> (forall k: nat :: k != i ==> (InUse(m1[a], k) <==> InUse(m2[a], k)))
                 && Behind(m1[a]) == Behind(m2[a])
    ensures SameUse(m1, m2, a, i)
  {
    forall b | b in m1 && b in m2 && PageOk(m1[b]) && PageOk(m2[b]) ensures Behind(m1[b]) == Behind(m2[b]) {
      if b != a { assert m1[b].(next := Nil) == m2[b].(next := Nil); }
    }
    forall b, k: nat | b in m1 && b in m2 && (b != a || k != i) && PageOk(m1[b]) && PageOk(m2[b])
      ensures InUse(m1[b], k) <==> InUse(m2[b], k)
    {
      if b != a { assert m1[b].(next := Nil) == m2[b].(next := Nil); }
    }
  }
}
