/**
 The page directory of the allocator: a list of directory pages, sorted by index, each holding one
 entry for each of PDI_MOD consecutive memory pages, and a two-place cache of recently used pages.
 A directory page packs its index and the number of entries it owns into one number, `dirnum`.
 */
module PageDirectory {

  // A directory page has room for 512 pointers, of which 508 are entries and the rest its struct
  // pdinfo: 512 is what dirnum is divided by (PD_IDX, PD_OFF) and 508 is pdi_mod (PI_IDX, PI_OFF).
  // These functions hold the literals, so that the verifier divides by a constant.

  /** pdi_mod */
  const PDI_MOD: nat := 508

  /** PI_IDX: the directory page of memory page i */
  function PiIdx(i: nat): nat { i / 508 }
  /** PI_OFF: the place of memory page i in its directory page */
  function PiOff(i: nat): (k: nat)
    ensures k < PDI_MOD
  {
    i % 508
  }
  /** PD_IDX */
  function PdIdxOf(dirnum: nat): nat { dirnum / 512 }
  /** PD_OFF */
  function PdOffOf(dirnum: nat): nat { dirnum % 512 }
  /** The dirnum of a directory page with index d that owns k entries. */
  function Dirnum(d: nat, k: nat): nat { d * 512 + k }

  /** Entries at the start of page 0 that hold the chunk buckets instead of memory pages. */
  const RESERVED: nat := 12

  /** Info(a) is the entry of a page of chunks whose struct pginfo is at address a. */
  datatype Entry = NotMine | Free | First | Follow | Bucket | Info(a: nat)

  // ---------- counting owned entries ----------

  function Owned(s: seq<Entry>): (n: nat)
    ensures n <= |s|
  {
    if s == [] then 0 else Owned(s[..|s| - 1]) + (if s[|s| - 1] == NotMine then 0 else 1)
  }

  lemma {:induction false} OwnedUpdate(s: seq<Entry>, k: nat, e: Entry)
    requires k < |s|
    ensures Owned(s[k := e])
         == Owned(s) - (if s[k] == NotMine then 0 else 1) + (if e == NotMine then 0 else 1)
    decreases |s|
  {
    var n := |s| - 1;
    if k == n {
      assert s[k := e][..n] == s[..n];
    } else {
      OwnedUpdate(s[..n], k, e);
      assert s[k := e][..n] == s[..n][k := e];
    }
  }

  lemma {:induction false} OwnedNone(s: seq<Entry>)
    ensures Owned(s) == 0 <==> forall k :: 0 <= k < |s| ==> s[k] == NotMine
  {
    if s != [] {
      OwnedNone(s[..|s| - 1]);
      assert forall k :: 0 <= k < |s| - 1 ==> s[k] == s[..|s| - 1][k];
    }
  }

  lemma {:induction false} OwnedPrefix(s: seq<Entry>, n: nat)
    requires n <= |s| && forall k :: 0 <= k < |s| ==> (s[k] == NotMine <==> n <= k)
    ensures Owned(s) == n
  {
    if s != [] {
      OwnedPrefix(s[..|s| - 1], if n == |s| then n - 1 else n);
    }
  }

  lemma {:induction false} OwnedGap(s: seq<Entry>, a: nat, k: nat)
    requires a + k <= |s| && forall j :: a <= j < a + k ==> s[j] == NotMine
    ensures Owned(s) + k <= |s|
    decreases |s|
  {
    if k != 0 {
      OwnedGap(s[..|s| - 1], a, if a + k == |s| then k - 1 else k);
    }
  }

  /** How many of the pages [lo, hi) have their entry in directory page d. */
  function Overlap(d: nat, lo: nat, hi: nat): (n: nat)
    ensures n <= PDI_MOD
  {
    var a := if lo < d * 508 then d * 508 else lo;
    var b := if hi < d * 508 + 508 then hi else d * 508 + 508;
    if a < b then b - a else 0
  }

  // ---------- the distance heuristic of the lookup ----------

  function U64(x: int): nat { x % 0x1_0000_0000_0000_0000 }

  /**
   The condition that picks between the two cached pages, grouped as C groups it: `?:` binds weaker
   than `<`, so the comparison is the condition of the second `?:` and not between the distances.
   */
  function PickLast(last: nat, prev: nat, target: nat): bool {
    (if last > target then U64(last - target)
     else if U64(target - last) < (if prev > target then 1 else 0) then U64(prev - target)
     else U64(target - prev)) != 0
  }

  predicate LastIsNearer(last: nat, prev: nat, target: nat) {
    (if last > target then last - target else target - last)
    < (if prev > target then prev - target else target - prev)
  }

  /** So the heuristic always picks last_dir, for all 64-bit indices, also when prev_dir is nearer. */
  lemma PickLastAlways(last: nat, prev: nat, target: nat)
    requires last < 0x1_0000_0000_0000_0000 && prev < 0x1_0000_0000_0000_0000
    requires target < 0x1_0000_0000_0000_0000
    requires last != target && prev != target
    ensures PickLast(last, prev, target)
    ensures PickLast(10, 1, 2) && !LastIsNearer(10, 1, 2)
  {
  }

  // ---------- the directory pages in memory ----------

  datatype Ptr = Null | Page(d: nat)

  /** A directory page: its entries and, behind them, its struct pdinfo. */
  datatype PdInfo = PdInfo(base: seq<Entry>, prev: Ptr, next: Ptr, dirnum: nat) {
    function PdIdx(): nat { PdIdxOf(dirnum) }
    function PdOff(): nat { PdOffOf(dirnum) }
  }

  /**
   The mapped directory pages.  A page is named by the index it was made for, so a pointer to a page
   that has been unmapped is a name without a page.
   */
  type Memory = map<nat, PdInfo>

  ghost predicate Live(mem: Memory, p: Ptr) { p.Page? && p.d in mem }

  /** Page d's successor is the page with the least index above d, and points back at it. */
  ghost predicate NextOk(mem: Memory, d: nat)
    requires d in mem
  {
    match mem[d].next
    case Null => forall e :: e in mem ==> e <= d
    case Page(n) => n in mem && d < n && mem[n].prev == Page(d) && forall e :: e in mem ==> e <= d || n <= e
  }

  /** Page d's predecessor points at it; only page 0 has none. */
  ghost predicate PrevOk(mem: Memory, d: nat)
    requires d in mem
  {
    match mem[d].prev
    case Null => d == 0
    case Page(p) => p in mem && p < d && mem[p].next == Page(d)
  }

  /**
   dirnum is the page's index and the number of entries it owns, pages [lo, hi) counted as owned
   already; the number never spills into the index.
   */
  ghost predicate Counted(mem: Memory, d: nat, lo: nat, hi: nat)
    requires d in mem
  {
    && |mem[d].base| == PDI_MOD
    && mem[d].dirnum == Dirnum(d, Owned(mem[d].base) + Overlap(d, lo, hi))
    && Owned(mem[d].base) + Overlap(d, lo, hi) <= PDI_MOD
  }

  ghost predicate Linked(mem: Memory) {
    && 0 in mem
    && (forall d {:trigger NextOk(mem, d)} :: d in mem ==> NextOk(mem, d))
    && (forall d {:trigger PrevOk(mem, d)} :: d in mem ==> PrevOk(mem, d))
  }

  ghost predicate AllCounted(mem: Memory, lo: nat, hi: nat) {
    forall d {:trigger Counted(mem, d, lo, hi)} :: d in mem ==> Counted(mem, d, lo, hi)
  }

  /**
   The directory list is doubly linked and strictly increasing with page 0 at its head, and counts
   its entries.
   */
  ghost predicate Valid(mem: Memory, lo: nat, hi: nat) {
    Linked(mem) && AllCounted(mem, lo, hi)
  }

  ghost predicate NoEmptyPage(mem: Memory) {
    forall d :: d in mem ==> mem[d].dirnum > Dirnum(d, 0)
  }

  /** The entry of memory page i, whether or not its directory page exists. */
  ghost function EntryAt(mem: Memory, i: nat): Entry {
    if PiIdx(i) in mem && |mem[PiIdx(i)].base| == PDI_MOD then mem[PiIdx(i)].base[PiOff(i)] else NotMine
  }

  /** Page 508 d + k has entry k of directory page d, and only that: 508 pointers of 8 bytes and 32 bytes of pdinfo make a page. */
  lemma EntryPlaces(mem: Memory, lo: nat, hi: nat, d: nat, k: nat)
    requires Valid(mem, lo, hi) && k < 508
    ensures d in mem ==> 8 * |mem[d].base| + 32 == 4096 && EntryAt(mem, 508 * d + k) == mem[d].base[k]
    ensures d !in mem ==> EntryAt(mem, 508 * d + k) == NotMine
    ensures forall i: nat :: PiIdx(i) == d && PiOff(i) == k <==> i == 508 * d + k
  {
    if d in mem { assert Counted(mem, d, lo, hi); }
    assert PiIdx(508 * d + k) == d && PiOff(508 * d + k) == k;
  }

  /** The greatest directory page whose index is not above d: what a scan from the head would give. */
  ghost predicate IsFloor(mem: Memory, p: nat, d: nat) {
    p in mem && p <= d && forall e :: e in mem ==> e <= p || d < e
  }

  lemma DirnumParts(d: nat, k: nat)
    requires k <= PDI_MOD
    ensures PdIdxOf(Dirnum(d, k)) == d && PdOffOf(Dirnum(d, k)) == k
  {
  }

  /** A live page has its neighbours and its dirnum in order. */
  lemma Facts(mem: Memory, lo: nat, hi: nat, p: Ptr)
    requires Valid(mem, lo, hi) && Live(mem, p)
    ensures NextOk(mem, p.d) && PrevOk(mem, p.d) && Counted(mem, p.d, lo, hi)
    ensures mem[p.d].PdIdx() == p.d
    ensures mem[p.d].PdOff() == Owned(mem[p.d].base) + Overlap(p.d, lo, hi)
  {
    assert NextOk(mem, p.d) && PrevOk(mem, p.d) && Counted(mem, p.d, lo, hi);
    DirnumParts(p.d, Owned(mem[p.d].base) + Overlap(p.d, lo, hi));
  }

  function NewPage(d: nat, prev: Ptr, next: Ptr): PdInfo {
    PdInfo(seq(PDI_MOD, _ => NotMine), prev, next, Dirnum(d, 0))
  }

  /** A new page d with no entries, linked in behind page p. */
  function Inserted(mem: Memory, p: nat, d: nat): Memory
    requires p in mem && p != d && (mem[p].next.Page? ==> mem[p].next.d in mem)
  {
    var n := mem[p].next;
    var m := mem[d := NewPage(d, Page(p), n)];
    var m := if n.Page? then m[n.d := m[n.d].(prev := Page(d))] else m;
    m[p := m[p].(next := Page(d))]
  }

  lemma InsertedFields(mem: Memory, p: nat, d: nat)
    requires IsFloor(mem, p, d) && p != d
    requires mem[p].next.Page? ==> mem[p].next.d in mem && p < mem[p].next.d && d != mem[p].next.d
    ensures var m := Inserted(mem, p, d);
            && m.Keys == mem.Keys + {d}
            && m[d] == NewPage(d, Page(p), mem[p].next)
            && m[p].next == Page(d)
            && (forall e :: e in mem ==> m[e].dirnum == mem[e].dirnum && m[e].base == mem[e].base)
            && (forall e :: e in mem && e != p ==> m[e].next == mem[e].next)
            && (forall e :: e in mem && mem[p].next != Page(e) ==> m[e].prev == mem[e].prev)
            && (mem[p].next.Page? ==> m[mem[p].next.d].prev == Page(d))
  {
  }

  lemma InsertedNext(mem: Memory, p: nat, d: nat, m: Memory, e: nat)
    requires IsFloor(mem, p, d) && p != d && NextOk(mem, p) && d !in mem
    requires m == Inserted(mem, p, d)
    requires e in mem ==> NextOk(mem, e)
    requires e in mem || e == d
    ensures e in m && NextOk(m, e)
  {
    InsertedFields(mem, p, d);
  }

  lemma InsertedPrev(mem: Memory, p: nat, d: nat, m: Memory, e: nat)
    requires IsFloor(mem, p, d) && p != d && NextOk(mem, p) && d !in mem
    requires m == Inserted(mem, p, d)
    requires e in mem ==> PrevOk(mem, e)
    requires e in mem || e == d
    ensures e in m && PrevOk(m, e)
  {
    InsertedFields(mem, p, d);
  }

  lemma InsertedLinked(mem: Memory, p: nat, d: nat)
    requires Linked(mem) && IsFloor(mem, p, d) && p != d
    ensures NextOk(mem, p) && Linked(Inserted(mem, p, d))
  {
    assert NextOk(mem, p);
    InsertedFields(mem, p, d);
    var m := Inserted(mem, p, d);
    forall e | e in m ensures NextOk(m, e) {
      assert e in mem ==> NextOk(mem, e);
      InsertedNext(mem, p, d, m, e);
    }
    forall e | e in m ensures PrevOk(m, e) {
      assert e in mem ==> PrevOk(mem, e);
      InsertedPrev(mem, p, d, m, e);
    }
  }

  lemma InsertedEntries(mem: Memory, p: nat, d: nat)
    requires IsFloor(mem, p, d) && p != d && NextOk(mem, p)
    ensures SameEntries(mem, Inserted(mem, p, d))
  {
    InsertedFields(mem, p, d);
  }

  lemma InsertedCounted(mem: Memory, p: nat, d: nat, lo: nat, hi: nat)
    requires AllCounted(mem, lo, hi) && Overlap(d, lo, hi) == 0
    requires IsFloor(mem, p, d) && p != d && NextOk(mem, p)
    ensures AllCounted(Inserted(mem, p, d), lo, hi)
  {
    InsertedFields(mem, p, d);
    var m := Inserted(mem, p, d);
    OwnedNone(m[d].base);
    forall e | e in m ensures Counted(m, e, lo, hi) {
      assert e in mem ==> Counted(mem, e, lo, hi);
    }
  }

  ghost predicate SameEntries(m1: Memory, m2: Memory) {
    forall i: nat :: EntryAt(m1, i) == EntryAt(m2, i)
  }

  // ---------- unlinking a directory page ----------

  function Dropped(mem: Memory, d: nat): Memory
    requires d in mem
    requires mem[d].prev.Page? ==> mem[d].prev.d in mem
    requires mem[d].next.Page? ==> mem[d].next.d in mem
  {
    var p, n := mem[d].prev, mem[d].next;
    var m := if p.Page? then mem[p.d := mem[p.d].(next := n)] else mem;
    var m := if n.Page? then m[n.d := m[n.d].(prev := p)] else m;
    m - {d}
  }

  lemma DroppedFields(mem: Memory, d: nat)
    requires d in mem && NextOk(mem, d) && PrevOk(mem, d)
    ensures var m := Dropped(mem, d);
            && m.Keys == mem.Keys - {d}
            && (forall e :: e in m ==> m[e].dirnum == mem[e].dirnum && m[e].base == mem[e].base)
            && (forall e :: e in m && Page(e) != mem[d].prev ==> m[e].next == mem[e].next)
            && (forall e :: e in m && Page(e) != mem[d].next ==> m[e].prev == mem[e].prev)
            && (mem[d].prev.Page? ==> mem[d].prev.d in m && m[mem[d].prev.d].next == mem[d].next)
            && (mem[d].next.Page? ==> mem[d].next.d in m && m[mem[d].next.d].prev == mem[d].prev)
  {
  }

  lemma DroppedNext(mem: Memory, d: nat, m: Memory, e: nat)
    requires d in mem && NextOk(mem, d) && PrevOk(mem, d) && m == Dropped(mem, d)
    requires e in mem && e != d && NextOk(mem, e)
    ensures e in m && NextOk(m, e)
  {
    DroppedFields(mem, d);
  }

  lemma DroppedPrev(mem: Memory, d: nat, m: Memory, e: nat)
    requires d in mem && d != 0 && NextOk(mem, d) && PrevOk(mem, d) && m == Dropped(mem, d)
    requires e in mem && e != d && PrevOk(mem, e)
    ensures e in m && PrevOk(m, e)
  {
    DroppedFields(mem, d);
  }

  lemma DroppedLinked(mem: Memory, d: nat)
    requires Linked(mem) && d in mem && d != 0
    ensures NextOk(mem, d) && PrevOk(mem, d) && Linked(Dropped(mem, d))
  {
    assert NextOk(mem, d) && PrevOk(mem, d);
    DroppedFields(mem, d);
    var m := Dropped(mem, d);
    forall e | e in m ensures NextOk(m, e) {
      assert NextOk(mem, e);
      DroppedNext(mem, d, m, e);
    }
    forall e | e in m ensures PrevOk(m, e) {
      assert PrevOk(mem, e);
      DroppedPrev(mem, d, m, e);
    }
  }

  lemma DroppedRest(mem: Memory, d: nat, lo: nat, hi: nat)
    requires AllCounted(mem, lo, hi) && d in mem && NextOk(mem, d) && PrevOk(mem, d)
    requires Owned(mem[d].base) == 0
    ensures AllCounted(Dropped(mem, d), lo, hi)
    ensures SameEntries(mem, Dropped(mem, d))
  {
    DroppedFields(mem, d);
    OwnedNone(mem[d].base);
    var m := Dropped(mem, d);
    forall e | e in m ensures Counted(m, e, lo, hi) {
      assert Counted(mem, e, lo, hi);
    }
  }

  // ---------- updates that leave the links alone ----------

  ghost predicate SameLinks(m1: Memory, m2: Memory) {
    m1.Keys == m2.Keys && forall d :: d in m1 ==> m1[d].next == m2[d].next && m1[d].prev == m2[d].prev
  }

  lemma SameLinksLinked(mem: Memory, m: Memory)
    requires Linked(mem) && SameLinks(mem, m)
    ensures Linked(m)
  {
    forall e | e in m ensures NextOk(m, e) { assert NextOk(mem, e); }
    forall e | e in m ensures PrevOk(m, e) { assert PrevOk(mem, e); }
  }

  function SetEntry(mem: Memory, i: nat, e: Entry, dirnum: nat): Memory
    requires PiIdx(i) in mem && |mem[PiIdx(i)].base| == PDI_MOD
  {
    var d := PiIdx(i);
    mem[d := mem[d].(base := mem[d].base[PiOff(i) := e], dirnum := dirnum)]
  }

  lemma SetEntryIs(mem: Memory, i: nat, e: Entry, dirnum: nat)
    requires PiIdx(i) in mem && |mem[PiIdx(i)].base| == PDI_MOD
    ensures var m := SetEntry(mem, i, e, dirnum);
            SameLinks(mem, m) && forall j: nat :: EntryAt(m, j) == if j == i then e else EntryAt(mem, j)
  {
    forall j: nat | PiIdx(j) == PiIdx(i) && j != i ensures PiOff(j) != PiOff(i) {
    }
  }

  /** Counts when entry i goes from s to e and dirnum follows, with page i no longer pending if `mark`. */
  lemma SetEntryCounted(mem: Memory, i: nat, e: Entry, dirnum: nat, lo: nat, hi: nat, lo': nat)
    requires AllCounted(mem, lo, hi) && PiIdx(i) in mem && |mem[PiIdx(i)].base| == PDI_MOD
    requires dirnum == mem[PiIdx(i)].dirnum + (if e == NotMine then 0 else 1)
                       - (if EntryAt(mem, i) == NotMine then 0 else 1) - (if lo' == lo then 0 else 1)
    requires lo' == lo || (lo == i < hi && lo' == i + 1 && EntryAt(mem, i) == NotMine && e != NotMine)
    requires EntryAt(mem, i) == NotMine && e != NotMine ==> lo' != lo
    ensures AllCounted(SetEntry(mem, i, e, dirnum), lo', hi)
  {
    var d := PiIdx(i);
    var m := SetEntry(mem, i, e, dirnum);
    OwnedUpdate(mem[d].base, PiOff(i), e);
    assert Counted(mem, d, lo, hi);
    forall c | c in m ensures Counted(m, c, lo', hi) {
      assert Counted(mem, c, lo, hi);
    }
  }

  /** map_pages counts c more pages of page d, the next ones after [lo, hi). */
  function AddCount(mem: Memory, d: nat, c: nat): Memory
    requires d in mem
  {
    mem[d := mem[d].(dirnum := mem[d].dirnum + c)]
  }

  /** Pages that are nobody's yet leave room in the count of their directory page. */
  lemma PendingRoom(mem: Memory, d: nat, lo: nat, hi: nat)
    requires d in mem && |mem[d].base| == PDI_MOD
    requires forall i: nat :: lo <= i < hi ==> EntryAt(mem, i) == NotMine
    ensures Owned(mem[d].base) + Overlap(d, lo, hi) <= PDI_MOD
  {
    var a := if lo < d * 508 then 0 else lo - d * 508;
    var n := Overlap(d, lo, hi);
    if n != 0 {
      forall j | a <= j < a + n ensures mem[d].base[j] == NotMine {
        assert PiIdx(d * 508 + j) == d && PiOff(d * 508 + j) == j;
        assert EntryAt(mem, d * 508 + j) == NotMine;
      }
      OwnedGap(mem[d].base, a, n);
    }
  }

  /** Pending pages grow by pages of page d only. */
  lemma OverlapGrows(c: nat, d: nat, lo: nat, hi: nat, hi': nat)
    requires lo <= hi <= hi' <= (d + 1) * 508
    requires lo == hi ==> d == PiIdx(lo)
    requires lo < hi ==> hi == d * 508
    ensures Overlap(c, lo, hi') == Overlap(c, lo, hi) + (if c == d then hi' - hi else 0)
  {
  }

  lemma AddCountValid(mem: Memory, d: nat, lo: nat, hi: nat, hi': nat)
    requires Valid(mem, lo, hi) && d in mem
    requires lo <= hi <= hi' <= (d + 1) * 508
    requires lo == hi ==> d == PiIdx(lo)
    requires lo < hi ==> hi == d * 508
    requires forall i: nat :: lo <= i < hi' ==> EntryAt(mem, i) == NotMine
    ensures var m := AddCount(mem, d, hi' - hi);
            Valid(m, lo, hi') && SameEntries(mem, m) && SameLinks(mem, m)
  {
    var m := AddCount(mem, d, hi' - hi);
    SameLinksLinked(mem, m);
    forall c | c in m ensures Counted(m, c, lo, hi') {
      assert Counted(mem, c, lo, hi);
      OverlapGrows(c, d, lo, hi, hi');
      if c == d { PendingRoom(mem, d, lo, hi'); }
    }
  }

  /** With nothing pending, it does not matter where nothing starts. */
  lemma EmptyPending(mem: Memory, a: nat, b: nat)
    requires Valid(mem, a, a)
    ensures Valid(mem, b, b)
  {
    forall d | d in mem ensures Counted(mem, d, b, b) {
      assert Counted(mem, d, a, a);
    }
  }
}
