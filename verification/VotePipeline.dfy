/**
 The evaluation of DeepCoFFEA: in each window, an exit flow gets a vote from a Tor flow when their
 similarity reaches the Tor flow's threshold, an order statistic of its similarities; a pair with enough
 votes over all windows is taken for correlated.  Similarities are reals.
 */
module VotePipeline {

  // ---------- thresholds ----------

  predicate Descending(s: seq<real>) {
    forall i, j :: 0 <= i < j < |s| ==> s[i] >= s[j]
  }

  function InsertDown(s: seq<real>, x: real): seq<real> {
    if s == [] || x >= s[0] then [x] + s else [s[0]] + InsertDown(s[1..], x)
  }

  /** temp.sort(reverse=True) */
  function SortDown(s: seq<real>): seq<real> {
    if s == [] then [] else InsertDown(SortDown(s[1..]), s[0])
  }

  lemma PutFirst(x: real, s: seq<real>)
    requires Descending(s) && (s == [] || x >= s[0])
    ensures Descending([x] + s)
  {
    forall i, j | 0 <= i < j < |s| + 1 ensures ([x] + s)[i] >= ([x] + s)[j] {
      if i == 0 && j > 1 { assert s[0] >= s[j - 1]; }
    }
  }

  lemma {:induction false} InsertDownSorts(s: seq<real>, x: real)
    requires Descending(s)
    ensures Descending(InsertDown(s, x)) && |InsertDown(s, x)| == |s| + 1
    ensures InsertDown(s, x)[0] == x || (s != [] && InsertDown(s, x)[0] == s[0])
  {
    if s == [] || x >= s[0] {
      PutFirst(x, s);
    } else {
      InsertDownSorts(s[1..], x);
      PutFirst(s[0], InsertDown(s[1..], x));
    }
  }

  lemma {:induction false} SortDownSorts(s: seq<real>)
    ensures Descending(SortDown(s)) && |SortDown(s)| == |s|
  {
    if s != [] {
      SortDownSorts(s[1..]);
      InsertDownSorts(SortDown(s[1..]), s[0]);
    }
  }

  /** int((len - 1) * (thres_seed / 100)) */
  function CutPoint(length: nat, seed: real): (c: nat)
    requires 0 < length && 0.0 <= seed <= 100.0
    ensures c < length
  {
    CutInRange(length, seed);
    var share := seed / 100.0;
    ((length - 1) as real * share).Floor as nat
  }

  lemma CutInRange(length: nat, seed: real)
    requires 0 < length && 0.0 <= seed <= 100.0
    ensures var share := seed / 100.0; 0 <= ((length - 1) as real * share).Floor < length
  {
    var n, share := (length - 1) as real, seed / 100.0;
    TimesShare(n, share);
    FloorClimbs(n * share, n);
    FloorClimbs(0.0, n * share);
  }

  lemma FloorClimbs(x: real, y: real)
    requires x <= y
    ensures x.Floor <= y.Floor
  {
  }

  lemma TimesShare(n: real, share: real)
    requires 0.0 <= n && 0.0 <= share <= 1.0
    ensures 0.0 <= n * share <= n
  {
  }

  lemma CutClimbs(length: nat, seed1: real, seed2: real)
    requires 0 < length && 0.0 <= seed1 <= seed2 <= 100.0
    ensures CutPoint(length, seed1) <= CutPoint(length, seed2)
  {
    var n := (length - 1) as real;
    var share1, share2 := seed1 / 100.0, seed2 / 100.0;
    assert n * share1 <= n * share2;
    FloorClimbs(n * share1, n * share2);
  }

  function Threshold(sims: seq<real>, seed: real): real
    requires 0 < |sims| && 0.0 <= seed <= 100.0
  {
    SortDownSorts(sims);
    SortDown(sims)[CutPoint(|sims|, seed)]
  }

  /** A larger seed never raises a threshold. */
  lemma ThresholdFalls(sims: seq<real>, seed1: real, seed2: real)
    requires 0 < |sims| && 0.0 <= seed1 <= seed2 <= 100.0
    ensures Threshold(sims, seed2) <= Threshold(sims, seed1)
  {
    SortDownSorts(sims);
    CutClimbs(|sims|, seed1, seed2);
  }

  function CountIf(s: seq<real>, f: real -> bool): nat {
    if s == [] then 0 else (if f(s[0]) then 1 else 0) + CountIf(s[1..], f)
  }

  lemma PlacesNext(s: seq<real>, x: real, f: real -> bool)
    ensures |set k | 0 <= k < |s + [x]| && f((s + [x])[k])| == |set k | 0 <= k < |s| && f(s[k])| + if f(x) then 1 else 0
  {
    var t := s + [x];
    var a, b := set k | 0 <= k < |s| && f(s[k]), set k | 0 <= k < |t| && f(t[k]);
    assert |s| !in a;
    assert b == if f(x) then a + {|s|} else a;
  }

  lemma {:induction false} CountIfIs(s: seq<real>, f: real -> bool)
    ensures CountIf(s, f) == |set k | 0 <= k < |s| && f(s[k])|
    decreases |s|
  {
    if s != [] {
      var n := |s| - 1;
      CountIfIs(s[..n], f);
      PlacesNext(s[..n], s[n], f);
      CountIfLast(s[..n], s[n], f);
      assert s == s[..n] + [s[n]];
    }
  }

  lemma {:induction false} CountIfLast(s: seq<real>, x: real, f: real -> bool)
    ensures CountIf(s + [x], f) == CountIf(s, f) + if f(x) then 1 else 0
  {
    if s == [] {
      assert s + [x] == [x];
    } else {
      assert (s + [x])[1..] == s[1..] + [x];
      CountIfLast(s[1..], x, f);
    }
  }

  lemma {:induction false} InsertDownCounts(s: seq<real>, x: real, f: real -> bool)
    ensures CountIf(InsertDown(s, x), f) == CountIf(s, f) + if f(x) then 1 else 0
  {
    if s == [] || x >= s[0] {
      assert ([x] + s)[1..] == s;
    } else {
      InsertDownCounts(s[1..], x, f);
      assert ([s[0]] + InsertDown(s[1..], x))[1..] == InsertDown(s[1..], x);
    }
  }

  /** Sorting changes no count. */
  lemma {:induction false} SortDownCounts(s: seq<real>, f: real -> bool)
    ensures CountIf(SortDown(s), f) == CountIf(s, f)
  {
    if s != [] {
      SortDownCounts(s[1..], f);
      InsertDownCounts(SortDown(s[1..]), s[0], f);
    }
  }

  lemma {:induction false} CountBounds(s: seq<real>, k: nat, f: real -> bool)
    requires k <= |s|
    ensures (forall i :: 0 <= i < k ==> f(s[i])) ==> CountIf(s, f) >= k
    ensures (forall i :: k <= i < |s| ==> !f(s[i])) ==> CountIf(s, f) <= k
  {
    if s != [] {
      var t := s[1..];
      CountBounds(t, if k == 0 then 0 else k - 1, f);
      assert (forall i :: 0 <= i < k ==> f(s[i])) ==> forall i :: 0 <= i < k - 1 ==> f(t[i]) by {
        assert forall i :: 0 <= i < |t| ==> t[i] == s[i + 1];
      }
      assert (forall i :: k <= i < |s| ==> !f(s[i])) ==> forall i :: (if k == 0 then 0 else k - 1) <= i < |t| ==> !f(t[i]) by {
        assert forall i :: 0 <= i < |t| ==> t[i] == s[i + 1];
      }
    }
  }

  lemma CutIs(length: nat, seed: real)
    requires 0 < length && 0.0 <= seed <= 100.0
    ensures 100.0 * CutPoint(length, seed) as real <= (length - 1) as real * seed < 100.0 * (CutPoint(length, seed) + 1) as real
  {
    var n, share := (length - 1) as real, seed / 100.0;
    var x := n * share;
    assert 100.0 * x == n * seed;
    assert x.Floor as real <= x < x.Floor as real + 1.0;
  }

  lemma {:induction false} InsertDownKeeps(s: seq<real>, x: real, y: real)
    requires y in InsertDown(s, x)
    ensures y == x || y in s
  {
    if s != [] && x < s[0] && y != s[0] { InsertDownKeeps(s[1..], x, y); }
  }

  lemma {:induction false} SortDownKeeps(s: seq<real>, x: real)
    requires x in SortDown(s)
    ensures x in s
  {
    if s != [] {
      InsertDownKeeps(SortDown(s[1..]), s[0], x);
      if x != s[0] { SortDownKeeps(s[1..], x); }
    }
  }

  lemma AboveAt(sims: seq<real>, c: nat)
    requires |SortDown(sims)| == |sims| && c < |sims|
    ensures |set k | 0 <= k < |sims| && sims[k] > SortDown(sims)[c]| <= c < |set k | 0 <= k < |sims| && sims[k] >= SortDown(sims)[c]|
  {
    hide CountIf, SortDown;
    var s := SortDown(sims);
    var t := s[c];
    var above, reach := (x: real) => x > t, (x: real) => x >= t;
    SortDownSorts(sims);
    SortDownCounts(sims, above);
    SortDownCounts(sims, reach);
    CountBounds(s, c, above);
    CountBounds(s, c + 1, reach);
    CountIfIs(sims, above);
    CountIfIs(sims, reach);
    assert (set k | 0 <= k < |sims| && sims[k] > t) == (set k | 0 <= k < |sims| && above(sims[k]));
    assert (set k | 0 <= k < |sims| && sims[k] >= t) == (set k | 0 <= k < |sims| && reach(sims[k]));
  }

  /** A similarity such that the seed's share lies between the number of those above it and of those that reach it. */
  predicate RankOk(sims: seq<real>, seed: real, t: real) {
    && t in sims
    && 100.0 * |set k | 0 <= k < |sims| && sims[k] > t| as real <= (|sims| - 1) as real * seed
    && (|sims| - 1) as real * seed < 100.0 * |set k | 0 <= k < |sims| && sims[k] >= t| as real
  }

  /**
   The threshold of a Tor flow is the similarity of the rank that the seed asks for: the seed's share of
   all but one of them lies between the number of those above it and the number of those that reach it.
   */
  lemma ThresholdRank(sims: seq<real>, seed: real)
    requires 0 < |sims| && 0.0 <= seed <= 100.0
    ensures var t := Threshold(sims, seed);
            && RankOk(sims, seed, t) && t in sims
            && 100.0 * |set k | 0 <= k < |sims| && sims[k] > t| as real <= (|sims| - 1) as real * seed
            && (|sims| - 1) as real * seed < 100.0 * |set k | 0 <= k < |sims| && sims[k] >= t| as real
  {
    hide SortDown, CutPoint;
    SortDownSorts(sims);
    SortDownKeeps(sims, Threshold(sims, seed));
    AboveAt(sims, CutPoint(|sims|, seed));
    CutIs(|sims|, seed);
  }

  // ---------- votes ----------

  type Table = seq<seq<real>>

  /** An n by n table of similarities. */
  predicate Square(t: Table, n: nat) {
    |t| == n && forall i :: 0 <= i < n ==> |t[i]| == n
  }

  predicate AllSquare(ts: seq<Table>, n: nat) {
    forall w :: 0 <= w < |ts| ==> Square(ts[w], n)
  }

  /** In how many of the first k windows exit flow j gets a vote from Tor flow i. */
  function Votes(ts: seq<Table>, n: nat, seed: real, i: nat, j: nat, k: nat): nat
    requires AllSquare(ts, n) && i < n && j < n && k <= |ts| && 0.0 <= seed <= 100.0
  {
    if k == 0 then 0
    else Votes(ts, n, seed, i, j, k - 1) + if ts[k - 1][i][j] >= Threshold(ts[k - 1][i], seed) then 1 else 0
  }

  lemma {:induction false} VotesAre(ts: seq<Table>, n: nat, seed: real, i: nat, j: nat, k: nat)
    requires AllSquare(ts, n) && i < n && j < n && k <= |ts| && 0.0 <= seed <= 100.0
    ensures Votes(ts, n, seed, i, j, k) == |set w: nat | w < k && ts[w][i][j] >= Threshold(ts[w][i], seed)|
  {
    hide Threshold;
    var s := set w: nat | w < k && ts[w][i][j] >= Threshold(ts[w][i], seed);
    if k != 0 {
      VotesAre(ts, n, seed, i, j, k - 1);
      var t := set w: nat | w < k - 1 && ts[w][i][j] >= Threshold(ts[w][i], seed);
      assert k - 1 !in t;
      assert s == if ts[k - 1][i][j] >= Threshold(ts[k - 1][i], seed) then t + {k - 1} else t;
    }
  }

  lemma {:induction false} VotesClimb(ts: seq<Table>, n: nat, seed1: real, seed2: real, i: nat, j: nat, k: nat)
    requires AllSquare(ts, n) && i < n && j < n && k <= |ts| && 0.0 <= seed1 <= seed2 <= 100.0
    ensures Votes(ts, n, seed1, i, j, k) <= Votes(ts, n, seed2, i, j, k)
  {
    if k != 0 {
      VotesClimb(ts, n, seed1, seed2, i, j, k - 1);
      ThresholdFalls(ts[k - 1][i], seed1, seed2);
    }
  }

  /** The votes of all pairs after the first k windows. */
  function VoteTable(ts: seq<Table>, n: nat, seed: real, k: nat): (t: seq<seq<nat>>)
    requires AllSquare(ts, n) && k <= |ts| && 0.0 <= seed <= 100.0
    ensures |t| == n && forall i :: 0 <= i < n ==> |t[i]| == n
  {
    seq(n, i requires 0 <= i < n => seq(n, j requires 0 <= j < n => Votes(ts, n, seed, i, j, k)))
  }

  // ---------- the four counts ----------

  /** Pairs on the diagonal and off it, with enough votes and without. */
  datatype Counts = Counts(tp: nat, fp: nat, tn: nat, fn: nat)

  function Add(c: Counts, d: Counts): Counts {
    Counts(c.tp + d.tp, c.fp + d.fp, c.tn + d.tn, c.fn + d.fn)
  }

  function One(diagonal: bool, votes: nat, need: int): Counts {
    if diagonal then
      if votes >= need then Counts(1, 0, 0, 0) else Counts(0, 0, 0, 1)
    else
      if votes >= need then Counts(0, 1, 0, 0) else Counts(0, 0, 1, 0)
  }

  /** The first m pairs of Tor flow i. */
  function CountRow(row: seq<nat>, i: nat, need: int, m: nat): Counts
    requires m <= |row|
  {
    if m == 0 then Counts(0, 0, 0, 0) else Add(CountRow(row, i, need, m - 1), One(i == m - 1, row[m - 1], need))
  }

  predicate Rows(v: seq<seq<nat>>, n: nat) {
    |v| == n && forall i :: 0 <= i < n ==> |v[i]| == n
  }

  /** The first m Tor flows. */
  function CountRows(v: seq<seq<nat>>, n: nat, need: int, m: nat): Counts
    requires Rows(v, n) && m <= n
  {
    if m == 0 then Counts(0, 0, 0, 0) else Add(CountRows(v, n, need, m - 1), CountRow(v[m - 1], m - 1, need, n))
  }

  /** What the evaluation arrives at. */
  function Evaluate(ts: seq<Table>, n: nat, seed: real, need: int): Counts
    requires AllSquare(ts, n) && 0.0 <= seed <= 100.0
  {
    CountRows(VoteTable(ts, n, seed, |ts|), n, need, n)
  }

  /** The other flows' pairs with enough votes among the first m of a row. */
  ghost function OthersOf(row: seq<nat>, i: nat, need: int, m: nat): set<nat>
    requires m <= |row|
  {
    set j: nat | j < m && j != i && row[j] >= need
  }

  lemma {:induction false} RowIs(row: seq<nat>, i: nat, need: int, m: nat)
    requires m <= |row|
    ensures CountRow(row, i, need, m).tp == if i < m && row[i] >= need then 1 else 0
    ensures CountRow(row, i, need, m).fp == |OthersOf(row, i, need, m)|
  {
    var s := OthersOf(row, i, need, m);
    if m != 0 {
      RowIs(row, i, need, m - 1);
      var t := OthersOf(row, i, need, m - 1);
      assert m - 1 !in t;
      assert s == if m - 1 != i && row[m - 1] >= need then t + {m - 1} else t;
    }
  }

  ghost function Paired(i: nat, s: set<nat>): set<(nat, nat)> { set j | j in s :: (i, j) }

  lemma {:induction false} PairsOf(i: nat, s: set<nat>)
    ensures |Paired(i, s)| == |s|
  {
    var p := Paired(i, s);
    if s != {} {
      var k: nat :| k in s;
      var q := Paired(i, s - {k});
      PairsOf(i, s - {k});
      assert p == q + {(i, k)} && (i, k) !in q;
    }
  }

  /** The diagonal pairs with enough votes among the first m rows, and the others. */
  ghost function Own(v: seq<seq<nat>>, n: nat, need: int, m: nat): set<nat>
    requires Rows(v, n) && m <= n
  {
    set i: nat | i < m && v[i][i] >= need
  }
  ghost function Others(v: seq<seq<nat>>, n: nat, need: int, m: nat): set<(nat, nat)>
    requires Rows(v, n) && m <= n
  {
    set i: nat, j: nat | i < m && j < n && i != j && v[i][j] >= need :: (i, j)
  }

  lemma OwnNext(v: seq<seq<nat>>, n: nat, need: int, m: nat)
    requires Rows(v, n) && 0 < m <= n
    ensures |Own(v, n, need, m)| == |Own(v, n, need, m - 1)| + if v[m - 1][m - 1] >= need then 1 else 0
  {
    var c := Own(v, n, need, m - 1);
    assert m - 1 !in c;
    assert Own(v, n, need, m) == if v[m - 1][m - 1] >= need then c + {m - 1} else c;
  }

  lemma OthersNext(v: seq<seq<nat>>, n: nat, need: int, m: nat)
    requires Rows(v, n) && 0 < m <= n
    ensures |Others(v, n, need, m)| == |Others(v, n, need, m - 1)| + |OthersOf(v[m - 1], m - 1, need, n)|
  {
    var d, row := Others(v, n, need, m - 1), OthersOf(v[m - 1], m - 1, need, n);
    var e := Paired(m - 1, row);
    PairsOf(m - 1, row);
    forall p: (nat, nat) ensures p in Others(v, n, need, m) <==> p in d + e {
      assert p == (p.0, p.1);
      assert p in Others(v, n, need, m) <==> p.0 < m && p.1 < n && p.0 != p.1 && v[p.0][p.1] >= need;
      assert p in d <==> p.0 < m - 1 && p.1 < n && p.0 != p.1 && v[p.0][p.1] >= need;
      assert p in e <==> p.0 == m - 1 && p.1 in row;
    }
    assert Others(v, n, need, m) == d + e;
    assert d !! e;
  }

  lemma {:induction false} RowsAre(v: seq<seq<nat>>, n: nat, need: int, m: nat)
    requires Rows(v, n) && m <= n
    ensures CountRows(v, n, need, m).tp == |Own(v, n, need, m)|
    ensures CountRows(v, n, need, m).fp == |Others(v, n, need, m)|
  {
    if m == 0 {
      assert Own(v, n, need, 0) == {} && Others(v, n, need, 0) == {};
    } else {
      hide Own, Others, OthersOf, CountRow;
      RowsAre(v, n, need, m - 1);
      RowIs(v[m - 1], m - 1, need, n);
      OwnNext(v, n, need, m);
      OthersNext(v, n, need, m);
    }
  }

  /** The positives are the pairs with at least as many votes as needed: a flow's own, and those of two flows. */
  lemma PositivesAre(ts: seq<Table>, n: nat, seed: real, need: int, own: set<nat>, others: set<(nat, nat)>)
    requires AllSquare(ts, n) && 0.0 <= seed <= 100.0
    requires forall i: nat :: i in own <==> i < n && Votes(ts, n, seed, i, i, |ts|) >= need
    requires forall i: nat, j: nat :: (i, j) in others <==> i < n && j < n && i != j && Votes(ts, n, seed, i, j, |ts|) >= need
    ensures Evaluate(ts, n, seed, need).tp == |own| && Evaluate(ts, n, seed, need).fp == |others|
  {
    hide Votes, CountRows;
    var v := VoteTable(ts, n, seed, |ts|);
    RowsAre(v, n, need, n);
    assert own == Own(v, n, need, n);
    forall p: (nat, nat) ensures p in others <==> p in Others(v, n, need, n) {
      assert p == (p.0, p.1);
    }
    assert others == Others(v, n, need, n);
  }

  lemma {:induction false} RowClimbs(r1: seq<nat>, r2: seq<nat>, i: nat, need1: int, need2: int, m: nat)
    requires m <= |r1| == |r2| && need2 <= need1 && forall j :: 0 <= j < m ==> r1[j] <= r2[j]
    ensures CountRow(r1, i, need1, m).tp <= CountRow(r2, i, need2, m).tp
    ensures CountRow(r1, i, need1, m).fp <= CountRow(r2, i, need2, m).fp
  {
    if m != 0 { RowClimbs(r1, r2, i, need1, need2, m - 1); }
  }

  lemma {:induction false} RowsClimb(v1: seq<seq<nat>>, v2: seq<seq<nat>>, n: nat, need1: int, need2: int, m: nat)
    requires Rows(v1, n) && Rows(v2, n) && m <= n && need2 <= need1
    requires forall i, j :: 0 <= i < n && 0 <= j < n ==> v1[i][j] <= v2[i][j]
    ensures CountRows(v1, n, need1, m).tp <= CountRows(v2, n, need2, m).tp
    ensures CountRows(v1, n, need1, m).fp <= CountRows(v2, n, need2, m).fp
  {
    if m != 0 {
      RowsClimb(v1, v2, n, need1, need2, m - 1);
      RowClimbs(v1[m - 1], v2[m - 1], m - 1, need1, need2, n);
    }
  }

  /**
   A larger seed or a lower requirement never lowers the true or the false positives, whatever the
   similarities are and however many windows there are.
   */
  lemma PositivesClimb(ts: seq<Table>, n: nat, seed1: real, seed2: real, need1: int, need2: int)
    requires AllSquare(ts, n) && 0.0 <= seed1 <= seed2 <= 100.0 && need2 <= need1
    ensures Evaluate(ts, n, seed1, need1).tp <= Evaluate(ts, n, seed2, need2).tp
    ensures Evaluate(ts, n, seed1, need1).fp <= Evaluate(ts, n, seed2, need2).fp
  {
    var v1, v2 := VoteTable(ts, n, seed1, |ts|), VoteTable(ts, n, seed2, |ts|);
    forall i, j | 0 <= i < n && 0 <= j < n ensures v1[i][j] <= v2[i][j] {
      VotesClimb(ts, n, seed1, seed2, i, j, |ts|);
    }
    RowsClimb(v1, v2, n, need1, need2, n);
  }

  lemma {:induction false} RowTotals(row: seq<nat>, i: nat, need: int, m: nat)
    requires m <= |row|
    ensures var c := CountRow(row, i, need, m);
            c.tp + c.fn == (if i < m then 1 else 0) && c.fp + c.tn == m - (if i < m then 1 else 0)
  {
    if m != 0 { RowTotals(row, i, need, m - 1); }
  }

  lemma {:induction false} RowsTotals(v: seq<seq<nat>>, n: nat, need: int, m: nat)
    requires Rows(v, n) && m <= n
    ensures var c := CountRows(v, n, need, m); c.tp + c.fn == m && c.fp + c.tn == m * (n - 1)
  {
    if m != 0 {
      RowsTotals(v, n, need, m - 1);
      RowTotals(v[m - 1], m - 1, need, n);
      OneMore(m, n - 1);
    }
  }

  lemma OneMore(m: nat, k: int)
    requires 0 < m
    ensures m * k == (m - 1) * k + k
  {
  }

  /** Each Tor flow is counted once with its own exit flow, and once with each other one. */
  lemma Totals(ts: seq<Table>, n: nat, seed: real, need: int)
    requires AllSquare(ts, n) && 0.0 <= seed <= 100.0
    ensures var c := Evaluate(ts, n, seed, need); c.tp + c.fn == n && c.fp + c.tn == n * (n - 1)
  {
    RowsTotals(VoteTable(ts, n, seed, |ts|), n, need, n);
  }

  // ---------- the code ----------

  /** threshold_finder */
  method ThresholdFinder(table: Table, n: nat, seed: real) returns (thresholds: seq<real>)
    requires Square(table, n) && 0.0 <= seed <= 100.0
    ensures |thresholds| == n && forall i :: 0 <= i < n ==> thresholds[i] == Threshold(table[i], seed)
    ensures forall i :: 0 <= i < n ==> RankOk(table[i], seed, thresholds[i])
  {
    hide RankOk, CutPoint;
    thresholds := [];
    for i := 0 to n
      invariant |thresholds| == i && forall k :: 0 <= k < i ==> thresholds[k] == Threshold(table[k], seed)
    {
      SortDownSorts(table[i]);
      var temp := SortDown(table[i]);
      thresholds := thresholds + [temp[CutPoint(|table[i]|, seed)]];
    }
    forall i | 0 <= i < n ensures RankOk(table[i], seed, thresholds[i]) { ThresholdRank(table[i], seed); }
  }

  /** The place of a pair in the list of votes, which is the table row by row. */
  function Cell(n: nat, i: nat, j: nat): nat { i * n + j }

  lemma CellInTable(n: nat, i: nat, j: nat)
    requires i < n && j < n
    ensures Cell(n, i, j) < n * n
  {
    AtLeast(i + 1, n, n);
  }

  lemma AtLeast(a: nat, b: nat, c: nat)
    requires a <= b
    ensures a * c <= b * c
  {
  }

  lemma CellsDiffer(n: nat, i: nat, j: nat, k: nat, l: nat)
    requires j < n && l < n && Cell(n, i, j) == Cell(n, k, l)
    ensures i == k && j == l
  {
    if i < k { AtLeast(i + 1, k, n); }
    if k < i { AtLeast(k + 1, i, n); }
  }

  ghost predicate Flat(votes: seq<nat>, v: seq<seq<nat>>, n: nat) {
    && Rows(v, n) && |votes| == n * n
    && forall i: nat, j: nat {:trigger Cell(n, i, j)} :: i < n && j < n
         ==> Cell(n, i, j) < n * n && votes[Cell(n, i, j)] == v[i][j]
  }

  function SetCell(v: seq<seq<nat>>, i: nat, j: nat, x: nat): seq<seq<nat>>
    requires i < |v| && j < |v[i]|
  {
    var row: seq<nat> := v[i][j := x];
    v[i := row]
  }

  /** One vote more for a pair. */
  lemma FlatNext(votes: seq<nat>, v: seq<seq<nat>>, n: nat, i: nat, j: nat, x: nat)
    requires Flat(votes, v, n) && i < n && j < n
    ensures Cell(n, i, j) < |votes|
    ensures Flat(votes[Cell(n, i, j) := x], SetCell(v, i, j, x), n)
  {
    CellInTable(n, i, j);
    var c, w := Cell(n, i, j), SetCell(v, i, j, x);
    forall k: nat, l: nat | k < n && l < n
      ensures Cell(n, k, l) < n * n && votes[c := x][Cell(n, k, l)] == w[k][l]
    {
      CellInTable(n, k, l);
      if Cell(n, k, l) == c { CellsDiffer(n, i, j, k, l); }
    }
  }

  /** ini_cosine_output: no votes yet. */
  method NoVotes(n: nat, ghost v: seq<seq<nat>>) returns (votes: seq<nat>)
    requires Rows(v, n) && forall i, j :: 0 <= i < n && 0 <= j < n ==> v[i][j] == 0
    ensures Flat(votes, v, n)
  {
    votes := [];
    for k := 0 to n * n
      invariant |votes| == k && forall m :: 0 <= m < k ==> votes[m] == 0
    {
      votes := votes + [0];
    }
    forall i: nat, j: nat | i < n && j < n ensures Cell(n, i, j) < n * n {
      CellInTable(n, i, j);
    }
  }

  /** The votes of one window added to those of the windows before. */
  ghost predicate Added(v0: seq<seq<nat>>, v: seq<seq<nat>>, table: Table, thresholds: seq<real>, n: nat, i: nat, j: nat)
    requires Rows(v0, n) && Rows(v, n) && Square(table, n) && |thresholds| == n
  {
    forall k, l :: 0 <= k < n && 0 <= l < n ==>
      v[k][l] == v0[k][l] + if (k < i || (k == i && l < j)) && table[k][l] >= thresholds[k] then 1 else 0
  }

  /** The first loops of Cosine_Similarity_eval. */
  method AddVotes(votes0: seq<nat>, table: Table, thresholds: seq<real>, n: nat, ghost v0: seq<seq<nat>>)
      returns (votes: seq<nat>, ghost v: seq<seq<nat>>)
    requires Flat(votes0, v0, n) && Square(table, n) && |thresholds| == n
    ensures Flat(votes, v, n) && Added(v0, v, table, thresholds, n, n, 0)
  {
    votes, v := votes0, v0;
    for i := 0 to n
      invariant Flat(votes, v, n) && Added(v0, v, table, thresholds, n, i, 0)
    {
      votes, v := AddRow(votes, table, thresholds, n, i, v, v0);
    }
  }

  method AddRow(votes0: seq<nat>, table: Table, thresholds: seq<real>, n: nat, i: nat,
                ghost v1: seq<seq<nat>>, ghost v0: seq<seq<nat>>)
      returns (votes: seq<nat>, ghost v: seq<seq<nat>>)
    requires Flat(votes0, v1, n) && Rows(v0, n) && Square(table, n) && |thresholds| == n && i < n
    requires Added(v0, v1, table, thresholds, n, i, 0)
    ensures Flat(votes, v, n) && Added(v0, v, table, thresholds, n, i + 1, 0)
  {
    hide Flat, Cell;
    votes, v := votes0, v1;
    FlatRows(votes, v, n);
    var t, constantNum := thresholds[i], i * n;
    for j := 0 to n
      invariant Flat(votes, v, n) && Rows(v, n) && Added(v0, v, table, thresholds, n, i, j)
    {
      FlatCell(votes, v, n, i, j);
      if table[i][j] >= t {
        FlatNext(votes, v, n, i, j, v[i][j] + 1);
        v := SetCell(v, i, j, v[i][j] + 1);
        votes := votes[constantNum + j := votes[constantNum + j] + 1];
      }
    }
  }

  lemma FlatRows(votes: seq<nat>, v: seq<seq<nat>>, n: nat)
    requires Flat(votes, v, n)
    ensures Rows(v, n)
  {
  }

  lemma FlatCell(votes: seq<nat>, v: seq<seq<nat>>, n: nat, i: nat, j: nat)
    requires Flat(votes, v, n) && i < n && j < n
    ensures i * n + j < |votes| && Rows(v, n) && votes[i * n + j] == v[i][j] && Cell(n, i, j) == i * n + j
  {
    assert Cell(n, i, j) == i * n + j;
  }

  /** The counting loops for the last window. */
  method CountPairs(votes: seq<nat>, n: nat, need: int, ghost v: seq<seq<nat>>) returns (c: Counts)
    requires Flat(votes, v, n)
    ensures c == CountRows(v, n, need, n)
  {
    c := Counts(0, 0, 0, 0);
    FlatRows(votes, v, n);
    for i := 0 to n
      invariant c == CountRows(v, n, need, i)
    {
      var row := CountOne(votes, n, need, i, v);
      c := Add(c, row);
    }
  }

  method CountOne(votes: seq<nat>, n: nat, need: int, i: nat, ghost v: seq<seq<nat>>) returns (c: Counts)
    requires Flat(votes, v, n) && i < n
    ensures c == CountRow(v[i], i, need, n)
  {
    hide Flat, Cell;
    c := Counts(0, 0, 0, 0);
    FlatRows(votes, v, n);
    for j := 0 to n
      invariant c == CountRow(v[i], i, need, j)
    {
      FlatCell(votes, v, n, i, j);
      var ones := votes[i * n + j];
      if i == j && ones >= need { c := c.(tp := c.tp + 1); }
      if i == j && ones < need { c := c.(fn := c.fn + 1); }
      if i != j && ones >= need { c := c.(fp := c.fp + 1); }
      if i != j && ones < need { c := c.(tn := c.tn + 1); }
    }
  }

  lemma VoteTableNext(ts: seq<Table>, n: nat, seed: real, k: nat, v: seq<seq<nat>>, thresholds: seq<real>)
    requires AllSquare(ts, n) && k < |ts| && 0.0 <= seed <= 100.0 && Rows(v, n) && |thresholds| == n
    requires forall i :: 0 <= i < n ==> thresholds[i] == Threshold(ts[k][i], seed)
    requires Added(VoteTable(ts, n, seed, k), v, ts[k], thresholds, n, n, 0)
    ensures v == VoteTable(ts, n, seed, k + 1)
  {
    forall i | 0 <= i < n ensures v[i] == VoteTable(ts, n, seed, k + 1)[i] {}
  }

  /** The loop over the windows: thresholds, votes, and at the end the counts. */
  method Pipeline(ts: seq<Table>, n: nat, seed: real, need: int) returns (c: Counts)
    requires AllSquare(ts, n) && 0.0 <= seed <= 100.0
    ensures c == Evaluate(ts, n, seed, need)
  {
    hide Flat, Threshold, Added;
    ghost var v := VoteTable(ts, n, seed, 0);
    var votes := NoVotes(n, v);
    for k := 0 to |ts|
      invariant v == VoteTable(ts, n, seed, k) && Flat(votes, v, n)
    {
      var thresholds := ThresholdFinder(ts[k], n, seed);
      votes, v := AddVotes(votes, ts[k], thresholds, n, v);
      FlatRows(votes, v, n);
      VoteTableNext(ts, n, seed, k, v, thresholds);
    }
    c := CountPairs(votes, n, need, v);
  }
}
