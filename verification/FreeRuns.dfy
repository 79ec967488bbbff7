/**
 The list of free page runs of the page allocator, as a value: a sequence of runs in the order
 the list links them.  Addresses are page numbers and sizes are counted in pages.

 The functions here say what one call does to the list; the class FreeList does it with links.
 */
module FreeRuns {

  datatype Run = Run(page: nat, size: nat) {
    function End(): nat { page + size }
    predicate Has(x: nat) { page <= x < End() }
  }

  /** Address-sorted, no empty run, and a gap between any two runs: two runs that touch are one. */
  ghost predicate Canonical(rs: seq<Run>) {
    && (forall i :: 0 <= i < |rs| ==> 0 < rs[i].size)
    && (forall i, j :: 0 <= i < j < |rs| ==> rs[i].End() < rs[j].page)
  }

  ghost predicate Covers(rs: seq<Run>, x: nat) {
    exists i :: 0 <= i < |rs| && rs[i].Has(x)
  }

  ghost predicate DisjointFrom(rs: seq<Run>, r: Run) {
    forall x: nat :: r.Has(x) ==> !Covers(rs, x)
  }

  /** The pages in the first k runs. */
  function SumTo(rs: seq<Run>, k: nat): nat
    requires k <= |rs|
  {
    if k == 0 then 0 else SumTo(rs, k - 1) + rs[k - 1].size
  }

  function Total(rs: seq<Run>): nat { SumTo(rs, |rs|) }

  // ---------- lists put together from pieces ----------

  lemma {:induction false} SumOfConcat(a: seq<Run>, b: seq<Run>, k: nat)
    requires k <= |a| + |b|
    ensures SumTo(a + b, k) == if k <= |a| then SumTo(a, k) else Total(a) + SumTo(b, k - |a|)
    decreases k
  {
    if k != 0 {
      SumOfConcat(a, b, k - 1);
    }
  }

  lemma TotalJoined(a: seq<Run>, r: Run, b: seq<Run>)
    ensures Total(a + [r] + b) == Total(a) + r.size + Total(b)
  {
    SumOfConcat(a + [r], b, |a| + 1 + |b|);
    SumOfConcat(a, [r], |a| + 1);
    assert SumTo([r], 1) == SumTo([r], 0) + r.size;
  }

  lemma TotalOfConcat(a: seq<Run>, b: seq<Run>)
    ensures Total(a + b) == Total(a) + Total(b)
  {
    SumOfConcat(a, b, |a| + |b|);
  }

  lemma CoversConcat(a: seq<Run>, b: seq<Run>, x: nat)
    ensures Covers(a + b, x) <==> Covers(a, x) || Covers(b, x)
  {
    if Covers(a, x) {
      var i :| 0 <= i < |a| && a[i].Has(x);
      assert (a + b)[i].Has(x);
    }
    if Covers(b, x) {
      var i :| 0 <= i < |b| && b[i].Has(x);
      assert (a + b)[|a| + i].Has(x);
    }
  }

  lemma CoversJoined(a: seq<Run>, r: Run, b: seq<Run>, x: nat)
    ensures Covers(a + [r] + b, x) <==> Covers(a, x) || r.Has(x) || Covers(b, x)
  {
    CoversConcat(a + [r], b, x);
    CoversConcat(a, [r], x);
    assert [r][0] == r;
  }

  /** The list is cut into three pieces around run k. */
  lemma CutAt(rs: seq<Run>, k: nat)
    requires k < |rs|
    ensures rs == rs[..k] + [rs[k]] + rs[k + 1..]
  {
  }

  lemma TotalCut(rs: seq<Run>, k: nat)
    requires k < |rs|
    ensures Total(rs) == Total(rs[..k]) + rs[k].size + Total(rs[k + 1..])
  {
    CutAt(rs, k);
    TotalJoined(rs[..k], rs[k], rs[k + 1..]);
  }

  lemma CoversCut(rs: seq<Run>, k: nat, x: nat)
    requires k < |rs|
    ensures Covers(rs, x) <==> Covers(rs[..k], x) || rs[k].Has(x) || Covers(rs[k + 1..], x)
  {
    CutAt(rs, k);
    CoversJoined(rs[..k], rs[k], rs[k + 1..], x);
  }

  /** Everything in a ends below `lo`, everything in b starts above `hi`. */
  ghost predicate Below(a: seq<Run>, lo: nat) {
    forall i :: 0 <= i < |a| ==> a[i].End() < lo
  }
  ghost predicate Above(b: seq<Run>, hi: nat) {
    forall i :: 0 <= i < |b| ==> hi < b[i].page
  }

  lemma JoinedCanonical(a: seq<Run>, r: Run, b: seq<Run>)
    requires Canonical(a) && Canonical(b) && 0 < r.size
    requires Below(a, r.page) && Above(b, r.End())
    ensures Canonical(a + [r] + b)
  {
    var t := a + [r] + b;
    forall i, j | 0 <= i < j < |t| ensures t[i].End() < t[j].page {
      if j == |a| {
        assert t[i] == a[i];
      } else if i == |a| {
        assert t[j] == b[j - |a| - 1];
      } else if i < |a| < j {
        assert t[i] == a[i] && t[j] == b[j - |a| - 1];
      }
    }
  }

  lemma BothCanonical(a: seq<Run>, b: seq<Run>, mid: nat)
    requires Canonical(a) && Canonical(b) && Below(a, mid) && Above(b, mid)
    ensures Canonical(a + b)
  {
    var t := a + b;
    forall i, j | 0 <= i < j < |t| ensures t[i].End() < t[j].page {
      if i < |a| <= j {
        assert t[i] == a[i] && t[j] == b[j - |a|];
      }
    }
  }

  lemma PiecesCanonical(rs: seq<Run>, k: nat, m: nat)
    requires Canonical(rs) && k < m <= |rs|
    ensures Canonical(rs[..k]) && Canonical(rs[m..])
    ensures Below(rs[..k], rs[k].page) && Above(rs[m..], rs[m - 1].End())
  {
  }

  // ---------- taking pages: the scan of malloc_pages ----------

  /** First fit: the index of the first run that is large enough, or |rs|. */
  function FirstFit(rs: seq<Run>, size: nat, from: nat := 0): (k: nat)
    requires from <= |rs|
    ensures from <= k <= |rs|
    ensures k < |rs| ==> size <= rs[k].size
    ensures forall i :: from <= i < k ==> rs[i].size < size
    decreases |rs| - from
  {
    if from == |rs| || size <= rs[from].size then from else FirstFit(rs, size, from + 1)
  }

  /** Run k gives up its first `size` pages. */
  function TakeFrom(rs: seq<Run>, k: nat, size: nat): seq<Run>
    requires k < |rs| && size <= rs[k].size
  {
    if rs[k].size == size then rs[..k] + rs[k + 1..]
    else rs[k := Run(rs[k].page + size, rs[k].size - size)]
  }

  /** Taking pages keeps the list canonical and removes exactly the pages that were taken. */
  lemma TakeFromSound(rs: seq<Run>, k: nat, size: nat)
    requires Canonical(rs)
    requires k < |rs| && 0 < size <= rs[k].size
    ensures Canonical(TakeFrom(rs, k, size))
    ensures Total(TakeFrom(rs, k, size)) == Total(rs) - size
    ensures forall x: nat :: Covers(TakeFrom(rs, k, size), x)
                        <==> Covers(rs, x) && !Run(rs[k].page, size).Has(x)
  {
    var r := Run(rs[k].page + size, rs[k].size - size);
    ShrunkCanonical(rs, k, r);
    ShrunkTotal(rs, k, r);
    forall x: nat ensures Covers(ShrunkTo(rs, k, r), x) <==> Covers(rs, x) && !Run(rs[k].page, size).Has(x) {
      ShrunkCovers(rs, k, r, x);
    }
  }

  /** What becomes of the list when run k shrinks to r, or goes when r is empty. */
  function ShrunkTo(rs: seq<Run>, k: nat, r: Run): seq<Run>
    requires k < |rs|
  {
    if r.size == 0 then rs[..k] + rs[k + 1..] else rs[k := r]
  }

  lemma ShrunkTotal(rs: seq<Run>, k: nat, r: Run)
    requires k < |rs|
    ensures Total(ShrunkTo(rs, k, r)) == Total(rs) - rs[k].size + r.size
  {
    TotalCut(rs, k);
    if r.size == 0 {
      TotalOfConcat(rs[..k], rs[k + 1..]);
    } else {
      assert rs[k := r] == rs[..k] + [r] + rs[k + 1..];
      TotalJoined(rs[..k], r, rs[k + 1..]);
    }
  }

  lemma ShrunkCovers(rs: seq<Run>, k: nat, r: Run, x: nat)
    requires Canonical(rs) && k < |rs|
    requires rs[k].page <= r.page && r.End() <= rs[k].End()
    ensures Covers(ShrunkTo(rs, k, r), x) <==> Covers(rs, x) && (rs[k].Has(x) ==> r.Has(x))
  {
    CoversCut(rs, k, x);
    if r.size == 0 {
      CoversConcat(rs[..k], rs[k + 1..], x);
    } else {
      assert rs[k := r] == rs[..k] + [r] + rs[k + 1..];
      CoversJoined(rs[..k], r, rs[k + 1..], x);
    }
  }

  lemma ShrunkCanonical(rs: seq<Run>, k: nat, r: Run)
    requires Canonical(rs) && k < |rs|
    requires rs[k].page <= r.page && r.End() <= rs[k].End()
    ensures Canonical(ShrunkTo(rs, k, r))
  {
    PiecesCanonical(rs, k, k + 1);
    if r.size == 0 {
      BothCanonical(rs[..k], rs[k + 1..], rs[k].page);
    } else {
      assert rs[k := r] == rs[..k] + [r] + rs[k + 1..];
      JoinedCanonical(rs[..k], r, rs[k + 1..]);
    }
  }

  // ---------- giving pages back: free_pages ----------

  /** Where the race ahead stops: at the first run whose end is not below ptr, or at the last run. */
  function Spot(rs: seq<Run>, ptr: nat, from: nat := 0): (k: nat)
    requires from < |rs|
    ensures from <= k < |rs|
    ensures forall i :: from <= i < k ==> rs[i].End() < ptr
    ensures ptr <= rs[k].End() || k + 1 == |rs|
    decreases |rs| - from
  {
    if rs[from].End() < ptr && from + 1 < |rs| then Spot(rs, ptr, from + 1) else from
  }

  /** The first k runs end below ptr. */
  ghost predicate EndBelow(rs: seq<Run>, k: nat, ptr: nat)
    requires k <= |rs|
  {
    k == 0 || (rs[k - 1].End() < ptr && EndBelow(rs, k - 1, ptr))
  }

  lemma {:induction false} EndBelowAt(rs: seq<Run>, k: nat, ptr: nat, i: nat)
    requires i < k <= |rs| && EndBelow(rs, k, ptr)
    ensures rs[i].End() < ptr
  {
    if i != k - 1 { EndBelowAt(rs, k - 1, ptr, i); }
  }

  lemma SpotIs(rs: seq<Run>, ptr: nat, k: nat)
    requires k < |rs| && EndBelow(rs, k, ptr)
    requires ptr <= rs[k].End() || k + 1 == |rs|
    ensures Spot(rs, ptr) == k
  {
    var m := Spot(rs, ptr);
    if m < k { EndBelowAt(rs, k, ptr, m); }
  }

  /**
   The list after the freed pages went in: `at` is the index of the run that now holds them,
   `cached` is the code's cachesize, `isNew` tells that they are a run of their own, and `swallowed`
   is the size of the following run when it was collapsed into this one (0 otherwise).
   */
  datatype Placement =
    | Placed(runs: seq<Run>, at: nat, cached: int, isNew: bool, swallowed: nat)
    | Destroyed

  /** Run k grows over the freed pages that follow it. */
  function Appended(rs: seq<Run>, k: nat, f: Run): seq<Run>
    requires k < |rs|
  {
    rs[k := Run(rs[k].page, rs[k].size + f.size)]
  }

  /** Run k grows over the freed pages that follow it and over the next run. */
  function Collapsed(rs: seq<Run>, k: nat, f: Run): seq<Run>
    requires k + 1 < |rs|
  {
    rs[..k] + [Run(rs[k].page, rs[k].size + f.size + rs[k + 1].size)] + rs[k + 2..]
  }

  lemma CollapsedFromAppended(rs: seq<Run>, k: nat, f: Run)
    requires k + 1 < |rs|
    ensures var g := Appended(rs, k, f);
            Collapsed(rs, k, f) == g[..k] + [Run(g[k].page, g[k].size + g[k + 1].size)] + g[k + 2..]
  {
  }

  /** Run k grows over the freed pages that precede it. */
  function Prepended(rs: seq<Run>, k: nat, f: Run): seq<Run>
    requires k < |rs|
  {
    rs[k := Run(f.page, f.size + rs[k].size)]
  }

  function PlaceAt(rs: seq<Run>, k: nat, f: Run): Placement
    requires k < |rs|
  {
    if f.End() < rs[k].page then
      Placed(rs[..k] + [f] + rs[k..], k, Total(rs), true, 0)
    else if rs[k].End() == f.page then
      if k + 1 < |rs| && rs[k + 1].page == f.End() then
        Placed(Collapsed(rs, k, f), k, Total(rs) - rs[k].size, false, rs[k + 1].size)
      else
        Placed(Appended(rs, k, f), k, Total(rs) - rs[k].size, false, 0)
    else if rs[k].page == f.End() then
      Placed(Prepended(rs, k, f), k, Total(rs) - rs[k].size, false, 0)
    else if k + 1 == |rs| then
      Placed(rs + [f], k + 1, Total(rs), true, 0)
    else
      Destroyed
  }

  function Place(rs: seq<Run>, f: Run): Placement {
    if rs == [] then Placed([f], 0, 0, true, 0) else PlaceAt(rs, Spot(rs, f.page), f)
  }

  /** The run at index `at` keeps its first `keep` pages; a run left without pages leaves the list. */
  function Trim(rs: seq<Run>, at: nat, keep: nat): seq<Run>
    requires at < |rs|
  {
    if rs[at].size <= keep then rs
    else if keep == 0 then rs[..at] + rs[at + 1..]
    else rs[at := Run(rs[at].page, keep)]
  }

  /** The list without its runs k to m, with a run r in their place that holds them and f. */
  lemma Rejoined(rs: seq<Run>, k: nat, m: nat, r: Run, f: Run)
    requires Canonical(rs) && k <= m <= |rs|
    requires 0 < r.size && Below(rs[..k], r.page) && Above(rs[m..], r.End())
    requires forall x: nat :: r.Has(x) <==> f.Has(x) || Covers(rs[k..m], x)
    ensures Canonical(rs[..k] + [r] + rs[m..])
    ensures forall x: nat :: Covers(rs[..k] + [r] + rs[m..], x) <==> Covers(rs, x) || f.Has(x)
  {
    JoinedCanonical(rs[..k], r, rs[m..]);
    forall x: nat ensures Covers(rs[..k] + [r] + rs[m..], x) <==> Covers(rs, x) || f.Has(x) {
      CoversJoined(rs[..k], r, rs[m..], x);
      CoversPieces(rs, k, m, x);
    }
  }

  lemma CoversPieces(rs: seq<Run>, k: nat, m: nat, x: nat)
    requires k <= m <= |rs|
    ensures Covers(rs, x) <==> Covers(rs[..k], x) || Covers(rs[k..m], x) || Covers(rs[m..], x)
  {
    CoversConcat(rs[..k], rs[k..m], x);
    CoversConcat(rs[..k] + rs[k..m], rs[m..], x);
    assert rs[..k] + rs[k..m] + rs[m..] == rs;
  }

  lemma AboveFrom(rs: seq<Run>, m: nat, hi: nat)
    requires Canonical(rs) && m <= |rs|
    requires m < |rs| ==> hi < rs[m].page
    ensures Above(rs[m..], hi)
  {
    forall i | 0 <= i < |rs[m..]| ensures hi < rs[m..][i].page {
      assert rs[m..][i] == rs[m + i];
    }
  }

  lemma CoversOne(rs: seq<Run>, k: nat, x: nat)
    requires k < |rs|
    ensures Covers(rs[k..k + 1], x) <==> rs[k].Has(x)
  {
    assert rs[k..k + 1] == [rs[k]];
    assert [rs[k]][0] == rs[k];
  }

  lemma CoversTwo(rs: seq<Run>, k: nat, x: nat)
    requires k + 1 < |rs|
    ensures Covers(rs[k..k + 2], x) <==> rs[k].Has(x) || rs[k + 1].Has(x)
  {
    assert rs[k..k + 2] == [rs[k], rs[k + 1]];
    assert [rs[k], rs[k + 1]][0] == rs[k] && [rs[k], rs[k + 1]][1] == rs[k + 1];
  }

  /** A run that does not start above freed pages off the list, nor ends at their start, ends below. */
  lemma RunApart(rs: seq<Run>, k: nat, f: Run)
    requires Canonical(rs) && k < |rs| && 0 < f.size && DisjointFrom(rs, f)
    ensures rs[k].End() <= f.page || f.End() <= rs[k].page
  {
    if f.page < rs[k].End() && rs[k].page < f.End() {
      var x := if f.page < rs[k].page then rs[k].page else f.page;
      assert rs[k].Has(x) && f.Has(x);
      assert Covers(rs, x);
    }
  }

  /** New list t: canonical, with the pages of rs and the freed pages f, run `at` holding all of f. */
  ghost predicate Holds(rs: seq<Run>, f: Run, t: seq<Run>, at: nat) {
    && Canonical(t)
    && (forall x: nat :: Covers(t, x) <==> Covers(rs, x) || f.Has(x))
    && at < |t| && t[at].page <= f.page && f.End() <= t[at].End()
    && Total(t) == Total(rs) + f.size
  }

  lemma CollapseHolds(rs: seq<Run>, k: nat, f: Run)
    requires Canonical(rs) && 0 < f.size && k + 1 < |rs|
    requires rs[k].End() == f.page && rs[k + 1].page == f.End()
    ensures Holds(rs, f, Collapsed(rs, k, f), k)
  {
    var r := Run(rs[k].page, rs[k].size + f.size + rs[k + 1].size);
    AboveFrom(rs, k + 2, r.End());
    forall x: nat ensures r.Has(x) <==> f.Has(x) || Covers(rs[k..k + 2], x) {
      CoversTwo(rs, k, x);
    }
    assert Below(rs[..k], r.page);
    Rejoined(rs, k, k + 2, r, f);
    CollapseTotal(rs, k, f);
    assert Collapsed(rs, k, f) == rs[..k] + [r] + rs[k + 2..];
  }

  lemma CollapseTotal(rs: seq<Run>, k: nat, f: Run)
    requires k + 1 < |rs|
    ensures Total(Collapsed(rs, k, f)) == Total(rs) + f.size
  {
    var r := Run(rs[k].page, rs[k].size + f.size + rs[k + 1].size);
    TotalCut(rs, k);
    TotalCut(rs[k + 1..], 0);
    assert rs[k + 1..][..0] == [] && rs[k + 1..][1..] == rs[k + 2..];
    TotalJoined(rs[..k], r, rs[k + 2..]);
  }

  /** Run k grows into r, over the freed pages on one of its sides. */
  lemma WidenHolds(rs: seq<Run>, k: nat, r: Run, f: Run)
    requires Canonical(rs) && 0 < f.size && k < |rs|
    requires (r == Run(rs[k].page, rs[k].size + f.size) && rs[k].End() == f.page)
          || (r == Run(f.page, f.size + rs[k].size) && rs[k].page == f.End())
    requires Below(rs[..k], r.page) && (k + 1 < |rs| ==> r.End() < rs[k + 1].page)
    ensures Holds(rs, f, rs[k := r], k)
  {
    AboveFrom(rs, k + 1, r.End());
    forall x: nat ensures r.Has(x) <==> f.Has(x) || Covers(rs[k..k + 1], x) {
      CoversOne(rs, k, x);
    }
    Rejoined(rs, k, k + 1, r, f);
    assert rs[k := r] == rs[..k] + [r] + rs[k + 1..];
    ShrunkTotal(rs, k, r);
  }

  lemma InsertHolds(rs: seq<Run>, k: nat, f: Run)
    requires Canonical(rs) && 0 < f.size && k <= |rs|
    requires Below(rs[..k], f.page) && (k < |rs| ==> f.End() < rs[k].page)
    ensures Holds(rs, f, rs[..k] + [f] + rs[k..], k)
  {
    AboveFrom(rs, k, f.End());
    Rejoined(rs, k, k, f, f);
    TotalJoined(rs[..k], f, rs[k..]);
    TotalOfConcat(rs[..k], rs[k..]);
    assert rs == rs[..k] + rs[k..];
  }

  lemma PlaceAtHolds(rs: seq<Run>, k: nat, f: Run)
    requires Canonical(rs) && 0 < f.size && k < |rs|
    requires Below(rs[..k], f.page)
    requires f.page <= rs[k].End() || k + 1 == |rs|
    requires rs[k].End() <= f.page || f.End() <= rs[k].page
    requires k + 1 < |rs| ==> f.End() <= rs[k + 1].page || rs[k + 1].End() <= f.page
    ensures PlaceAt(rs, k, f).Placed?
    ensures var p := PlaceAt(rs, k, f); Holds(rs, f, p.runs, p.at)
  {
    if f.End() < rs[k].page {
      InsertHolds(rs, k, f);
    } else if rs[k].End() == f.page {
      if k + 1 < |rs| && rs[k + 1].page == f.End() {
        CollapseHolds(rs, k, f);
      } else {
        WidenHolds(rs, k, Run(rs[k].page, rs[k].size + f.size), f);
      }
    } else if rs[k].page == f.End() {
      WidenHolds(rs, k, Run(f.page, f.size + rs[k].size), f);
    } else {
      forall i | 0 <= i < |rs[..|rs|]| ensures rs[..|rs|][i].End() < f.page {
      }
      InsertHolds(rs, |rs|, f);
      assert rs[..|rs|] + [f] + rs[|rs|..] == rs + [f];
    }
  }

  /**
   Freed pages that are not on the list go in: the branch for a destroyed list is out of reach, the
   list stays canonical, holds exactly the old pages and the freed ones, and one run holds all of
   the freed pages.
   */
  lemma PlaceSound(rs: seq<Run>, f: Run)
    requires Canonical(rs) && 0 < f.size && DisjointFrom(rs, f)
    ensures Place(rs, f).Placed?
    ensures var p := Place(rs, f); Holds(rs, f, p.runs, p.at)
  {
    if rs == [] {
      InsertHolds(rs, 0, f);
      assert rs[..0] + [f] + rs[0..] == [f];
    } else {
      var k := Spot(rs, f.page);
      RunApart(rs, k, f);
      if k + 1 < |rs| { RunApart(rs, k + 1, f); }
      PlaceAtHolds(rs, k, f);
    }
  }

  lemma PlaceAtCached(rs: seq<Run>, k: nat, f: Run)
    requires k < |rs| && PlaceAt(rs, k, f).Placed?
    ensures var p := PlaceAt(rs, k, f);
            && p.at < |p.runs|
            && p.cached == Total(rs) + f.size + p.swallowed - p.runs[p.at].size
            && (if p.isNew then p.cached == Total(rs) && p.swallowed == 0
                else p.cached == Total(rs) - rs[k].size)
  {
  }

  /** What cachesize counts. */
  lemma PlaceCached(rs: seq<Run>, f: Run)
    requires Canonical(rs) && 0 < f.size && DisjointFrom(rs, f)
    ensures Place(rs, f).Placed?
    ensures var p := Place(rs, f);
            && p.at < |p.runs|
            && 0 <= p.cached == Total(rs) + f.size + p.swallowed - p.runs[p.at].size
            && (if p.isNew then p.cached == Total(rs) && p.swallowed == 0
                else p.cached < Total(rs))
  {
    PlaceSound(rs, f);
    if rs != [] {
      var k := Spot(rs, f.page);
      PlaceAtCached(rs, k, f);
      TotalCut(rs, k);
    }
  }

  /** Trimming keeps the list canonical and gives up exactly the tail of one run. */
  lemma TrimSound(rs: seq<Run>, at: nat, keep: nat)
    requires Canonical(rs) && at < |rs|
    ensures Canonical(Trim(rs, at, keep))
    ensures Total(Trim(rs, at, keep))
         == Total(rs) - (if rs[at].size <= keep then 0 else rs[at].size - keep)
    ensures forall x: nat :: Covers(Trim(rs, at, keep), x)
                        <==> Covers(rs, x) && !(rs[at].page + keep <= x < rs[at].End())
  {
    if keep < rs[at].size {
      var r := Run(rs[at].page, keep);
      assert Trim(rs, at, keep) == ShrunkTo(rs, at, r);
      ShrunkCanonical(rs, at, r);
      ShrunkTotal(rs, at, r);
      forall x: nat ensures Covers(ShrunkTo(rs, at, r), x)
                       <==> Covers(rs, x) && !(rs[at].page + keep <= x < rs[at].End()) {
        ShrunkCovers(rs, at, r, x);
      }
    }
  }

  lemma TrimmedTotal(rs: seq<Run>, at: nat, keep: nat)
    requires at < |rs|
    ensures Total(rs) - Total(Trim(rs, at, keep)) == if rs[at].size <= keep then 0 else rs[at].size - keep
  {
    if keep < rs[at].size {
      assert Trim(rs, at, keep) == ShrunkTo(rs, at, Run(rs[at].page, keep));
      ShrunkTotal(rs, at, Run(rs[at].page, keep));
    }
  }

  /** What free_pages leaves on the list when at most `cache` pages may stay cached. */
  function Settled(p: Placement, cache: nat): seq<Run>
    requires p.Placed? && p.at < |p.runs| && p.cached <= cache
  {
    Trim(p.runs, p.at, cache - p.cached)
  }

  /**
   The cache bound, exactly.  cache - cachesize never goes below zero; the list never ends up above
   the bound; nothing is given back while everything fits; and what stays is the whole bound except
   in the collapse branch, where the swallowed run was counted twice and its size is given back too.
   */
  lemma SettledTotal(rs: seq<Run>, f: Run, cache: nat)
    requires Canonical(rs) && 0 < f.size && DisjointFrom(rs, f)
    requires Total(rs) <= cache
    ensures var p := Place(rs, f);
            && p.Placed? && p.at < |p.runs| && 0 <= p.cached <= cache
            && Canonical(Settled(p, cache))
            && Total(Settled(p, cache))
               == (if Total(rs) + f.size + p.swallowed <= cache then Total(rs) + f.size
                   else cache - p.swallowed)
  {
    PlaceSound(rs, f);
    PlaceCached(rs, f);
    TrimTotal(Place(rs, f), Total(rs), f.size, cache);
  }

  lemma TrimTotal(p: Placement, before: nat, size: nat, cache: nat)
    requires p.Placed? && Canonical(p.runs) && p.at < |p.runs|
    requires Total(p.runs) == before + size && p.cached <= before <= cache
    requires p.cached == before + size + p.swallowed - p.runs[p.at].size
    ensures Canonical(Settled(p, cache))
    ensures Total(Settled(p, cache))
         == if before + size + p.swallowed <= cache then before + size else cache - p.swallowed
  {
    TrimSound(p.runs, p.at, cache - p.cached);
  }

  /** free_pages of the pages f takes the list rs to the list t. */
  ghost predicate FreedTo(rs: seq<Run>, f: Run, cache: nat, t: seq<Run>) {
    var p := Place(rs, f);
    p.Placed? && p.at < |p.runs| && 0 <= p.cached <= cache && t == Settled(p, cache)
  }

  lemma CachedFits(rs: seq<Run>, f: Run, cache: nat)
    requires Canonical(rs) && 0 < f.size && DisjointFrom(rs, f)
    requires Total(rs) <= cache
    ensures var p := Place(rs, f); p.Placed? && p.at < |p.runs| && 0 <= p.cached <= cache
  {
    SettledTotal(rs, f, cache);
  }

  lemma FreedFits(rs: seq<Run>, f: Run, cache: nat, p: Placement, t: seq<Run>)
    requires Canonical(rs) && 0 < f.size && DisjointFrom(rs, f)
    requires Total(rs) <= cache
    requires p == Place(rs, f) && p.Placed? && p.at < |p.runs| && 0 <= p.cached <= cache
    requires t == Trim(p.runs, p.at, cache - p.cached)
    ensures Canonical(t) && Total(t) <= cache && FreedTo(rs, f, cache, t)
  {
    hide Canonical, Total, Place, Trim, DisjointFrom;
    SettledTotal(rs, f, cache);
  }

  /** Taking a run of its own off the list again gives the list there was before. */
  lemma NewRunRemoved(rs: seq<Run>, f: Run)
    requires Place(rs, f).Placed? && Place(rs, f).isNew
    ensures var p := Place(rs, f);
            && p.at < |p.runs| && p.runs[p.at] == f
            && p.runs[..p.at] + p.runs[p.at + 1..] == rs
  {
  }

  /** A run ends where the freed pages begin, or begins where they end. */
  ghost predicate Touched(rs: seq<Run>, f: Run) {
    exists k :: 0 <= k < |rs| && (rs[k].End() == f.page || rs[k].page == f.End())
  }

  /** The freed pages become a run of their own exactly when they touch none. */
  lemma NewIff(rs: seq<Run>, f: Run)
    requires Canonical(rs) && 0 < f.size && DisjointFrom(rs, f)
    ensures Place(rs, f).Placed? && (Place(rs, f).isNew <==> !Touched(rs, f))
  {
    PlaceSound(rs, f);
    if rs != [] {
      var k := Spot(rs, f.page);
      RunApart(rs, k, f);
      forall i | 0 <= i < |rs| && i != k ensures rs[i].End() != f.page && (rs[i].page == f.End() ==> rs[k].End() == f.page) {
        assert i < k ==> rs[i].End() < rs[k].page;
        assert k < i ==> rs[k].End() < rs[i].page;
      }
    }
  }

  /** A run is trimmed to nothing exactly when the cache was full and the freed pages touched no run. */
  lemma EmptiedRunIsNew(rs: seq<Run>, f: Run, cache: nat)
    requires Canonical(rs) && 0 < f.size && DisjointFrom(rs, f)
    requires Total(rs) <= cache
    ensures var p := Place(rs, f);
            && p.Placed? && p.at < |p.runs| && p.cached <= cache
            && (p.cached == cache <==> Total(rs) == cache && !Touched(rs, f))
            && (p.cached == cache ==> Settled(p, cache) == rs)
  {
    PlaceSound(rs, f);
    PlaceCached(rs, f);
    NewIff(rs, f);
    if Place(rs, f).isNew {
      NewRunRemoved(rs, f);
    }
  }

  /** For example: with four pages in a cache of four, two pages apart from them all go back at once. */
  lemma EmptiedRun()
    ensures var rs, f := [Run(20, 4)], Run(30, 2);
            Place(rs, f) == Placed([Run(20, 4), Run(30, 2)], 1, 4, true, 0) && Settled(Place(rs, f), 4) == rs
  {
    var rs, f := [Run(20, 4)], Run(30, 2);
    assert Spot(rs, 30) == 0;
    assert Total(rs) == SumTo(rs, 1) == SumTo(rs, 0) + 4;
    assert rs + [f] == [Run(20, 4), Run(30, 2)];
  }

  // ---------- the list is determined by the pages on it ----------

  lemma FirstIsLeast(b: seq<Run>, x: nat)
    requires Canonical(b) && Covers(b, x)
    ensures 0 < |b| && b[0].page <= x
  {
    var j :| 0 <= j < |b| && b[j].Has(x);
    assert 0 < j ==> b[0].End() < b[j].page;
  }

  lemma FirstHasItsPage(a: seq<Run>, x: nat)
    requires Canonical(a) && 0 < |a| && a[0].Has(x)
    ensures Covers(a, x)
  {
  }

  /** The page behind the first run is on no run. */
  lemma FirstEnds(b: seq<Run>)
    requires Canonical(b) && 0 < |b|
    ensures !Covers(b, b[0].End())
  {
    forall j | 0 <= j < |b| ensures !b[j].Has(b[0].End()) {
      assert 0 < j ==> b[0].End() < b[j].page;
    }
  }

  lemma SameFirst(a: seq<Run>, b: seq<Run>)
    requires Canonical(a) && Canonical(b) && 0 < |a|
    requires forall x: nat :: Covers(a, x) <==> Covers(b, x)
    ensures 0 < |b| && b[0].page <= a[0].page
    ensures b[0].page == a[0].page ==> a[0].size <= b[0].size
  {
    FirstHasItsPage(a, a[0].page);
    FirstIsLeast(b, a[0].page);
    if b[0].page == a[0].page && b[0].size < a[0].size {
      FirstHasItsPage(a, b[0].End());
      FirstEnds(b);
    }
  }

  lemma CoversTail(a: seq<Run>, x: nat)
    requires Canonical(a) && 0 < |a|
    ensures Covers(a[1..], x) <==> Covers(a, x) && !a[0].Has(x)
  {
    assert a == [a[0]] + a[1..];
    CoversConcat([a[0]], a[1..], x);
    assert [a[0]][0] == a[0];
  }

  /**
   Two canonical lists with the same pages are the same list of runs.  So after any history of
   allocations and releases the free list is a function of the set of free pages: the order in which
   pages came back, and the branches they came back through, leave no trace.
   */
  lemma {:induction false} CanonicalIsUnique(a: seq<Run>, b: seq<Run>)
    requires Canonical(a) && Canonical(b)
    requires forall x: nat :: Covers(a, x) <==> Covers(b, x)
    ensures a == b
    decreases |a|
  {
    if a == [] {
      if b != [] {
        FirstHasItsPage(b, b[0].page);
      }
    } else {
      SameFirst(a, b);
      SameFirst(b, a);
      forall x: nat ensures Covers(a[1..], x) <==> Covers(b[1..], x) {
        CoversTail(a, x);
        CoversTail(b, x);
      }
      CanonicalIsUnique(a[1..], b[1..]);
      assert a == [a[0]] + a[1..] && b == [b[0]] + b[1..];
    }
  }
}
