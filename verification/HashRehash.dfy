/**
 Moving the elements of a hash table to a longer bucket table, in HT_GROW's two ways: into a fresh
 table, and inside the enlarged old one.  The first is seen as moves within one long table, the old
 buckets followed by the new ones, so that both are made of the same moves.
 */
module HashRehash {
  import opened Links
  import opened HashChains
  import opened HashTables

  // ---------- one move ----------

  function Popped(chains: seq<seq<nat>>, b: nat, k: nat): seq<seq<nat>>
    requires b < |chains| && k < |chains[b]|
  {
    chains[b := Spliced(chains[b], k, [], k + 1)]
  }
  function Pushed(chains: seq<seq<nat>>, b: nat, e: nat): seq<seq<nat>>
    requires b < |chains|
  {
    chains[b := Spliced(chains[b], 0, [e], 0)]
  }

  /** Elements that are on no chain are left alone. */
  ghost predicate OthersKept(m0: Elements, c0: seq<seq<nat>>, m: Elements) {
    forall x :: x in m0 && !Has(c0, x) ==> x in m && m[x] == m0[x]
  }

  /** The same elements on the chains, with the same hashes and keys. */
  ghost predicate Kept(m0: Elements, c0: seq<seq<nat>>, m: Elements, c: seq<seq<nat>>) {
    && SameButNext(m0, m) && |c0| == |c| && Size(c0) == Size(c)
    && (forall x :: Has(c, x) <==> Has(c0, x))
    && OthersKept(m0, c0, m)
  }

  lemma Unlinked(mem: Elements, table: seq<Link>, chains: seq<seq<nat>>, b: nat, k: nat, e: nat,
                 p: Slot, c1: seq<seq<nat>>)
    requires Forest(mem, table, chains) && b < |chains| && k < |chains[b]| && e == chains[b][k]
    requires p == SlotAt(b, chains[b], k) && c1 == Popped(chains, b, k)
    ensures e in mem && mem[e].next == LinkAt(chains[b], k + 1)
    ensures var m1 := WriteMem(mem, p, mem[e].next);
            && Forest(m1, WriteTable(table, p, mem[e].next), c1) && SameButNext(mem, m1)
    ensures Size(c1) + 1 == Size(chains) && (forall x :: Has(c1, x) <==> Has(chains, x) && x != e)
    ensures Has(chains, e) && OthersKept(mem, chains, WriteMem(mem, p, mem[e].next))
  {
    if 0 < k { AtPlace(mem, table, chains, b, k - 1); }
    AtPlace(mem, table, chains, b, k);
    SpliceForest(mem, table, chains, b, k, [], k + 1);
    SizeSplice(chains, b, k, [], k + 1);
    DroppedHas(chains, b, k);
  }

  /** The element's link is set to the bucket's first element, then the bucket to the element. */
  lemma Linked(m1: Elements, t1: seq<Link>, c1: seq<seq<nat>>, b: nat, e: nat, m2: Elements, c2: seq<seq<nat>>)
    requires Forest(m1, t1, c1) && b < |c1| && e in m1 && !Has(c1, e)
    requires m2 == m1[e := m1[e].(next := t1[b])] && c2 == Pushed(c1, b, e)
    ensures Forest(m2, t1[b := To(e)], c2) && SameButNext(m1, m2)
    ensures Size(c2) == Size(c1) + 1 && (forall x :: Has(c2, x) <==> Has(c1, x) || x == e)
  {
    assert ChainOk(m1, t1[b], c1[b]);
    OutsideForest(m1, m2, t1, c1);
    SpliceForest(m2, t1, c1, b, 0, [e], 0);
    SizeSplice(c1, b, 0, [e], 0);
    AddedHas(c1, b, 0, e);
  }

  /** Both steps: the element at place k of bucket b goes to the front of another bucket. */
  lemma Moved(mem: Elements, table: seq<Link>, chains: seq<seq<nat>>, b: nat, k: nat, to: nat, e: nat, p: Slot,
              m1: Elements, t1: seq<Link>, m2: Elements, c2: seq<seq<nat>>)
    requires Forest(mem, table, chains) && b < |chains| && to < |chains| && b != to
    requires k < |chains[b]| && e == chains[b][k] && p == SlotAt(b, chains[b], k) && e in mem
    requires m1 == WriteMem(mem, p, mem[e].next) && t1 == WriteTable(table, p, mem[e].next)
    requires e in m1 && m2 == m1[e := m1[e].(next := t1[to])] && c2 == Pushed(Popped(chains, b, k), to, e)
    ensures Forest(m2, t1[to := To(e)], c2) && Kept(mem, chains, m2, c2)
    ensures c2[b] == chains[b][..k] + chains[b][k + 1..]
  {
    var c1 := Popped(chains, b, k);
    Unlinked(mem, table, chains, b, k, e, p, c1);
    Linked(m1, t1, c1, to, e, m2, c2);
    MovedOthers(mem, chains, m1, m2, e);
  }

  lemma MovedOthers(mem: Elements, chains: seq<seq<nat>>, m1: Elements, m2: Elements, e: nat)
    requires OthersKept(mem, chains, m1) && Has(chains, e) && e in m1 && e in m2 && m2 == m1[e := m2[e]]
    ensures OthersKept(mem, chains, m2)
  {
  }

  // ---------- where elements belong ----------

  /** The elements of chain c belong into bucket `home` of a table of the given length. */
  ghost predicate Placed(mem: Elements, chain: seq<nat>, home: nat, length: nat)
    requires 0 < length
  {
    forall e :: e in chain ==> e in mem && BucketNum(mem[e].hash, length) == home
  }

  /** Elements in their places, in arithmetic: hash and bucket differ by a multiple of the length. */
  lemma PlacedIs(mem: Elements, chains: seq<seq<nat>>)
    requires forall b :: 0 <= b < |chains| ==> Placed(mem, chains[b], b, |chains|)
    ensures forall b, e {:trigger e in chains[b]} :: 0 <= b < |chains| && e in chains[b]
              ==> e in mem && (mem[e].hash - b) % |chains| == 0
  {
    forall b, e | 0 <= b < |chains| && e in chains[b] ensures e in mem && (mem[e].hash - b) % |chains| == 0 {
      assert Placed(mem, chains[b], b, |chains|);
      BucketNumIs(mem[e].hash, |chains|, b);
    }
  }

  lemma MovedPlaced(mem: Elements, m2: Elements, chains: seq<seq<nat>>, b: nat, k: nat, to: nat, e: nat,
                    c2: seq<seq<nat>>, c: nat, home: nat, length: nat)
    requires b < |chains| && to < |chains| && b != to && k < |chains[b]| && e in mem && SameButNext(mem, m2)
    requires c2 == Pushed(Popped(chains, b, k), to, e) && c < |chains| && 0 < length
    requires Placed(mem, chains[c], home, length) && (c == to ==> BucketNum(mem[e].hash, length) == home)
    ensures Placed(m2, c2[c], home, length)
  {
  }

  // ---------- longer tables ----------

  function Nils(n: nat): seq<Link> { seq(n, _ => Nil) }
  function Empties(n: nat): seq<seq<nat>> { seq(n, _ => []) }

  lemma {:induction false} SizeToShift(chains: seq<seq<nat>>, n: nat, k: nat)
    requires n + k <= |chains|
    ensures SizeTo(chains, n + k) == SizeTo(chains, n) + SizeTo(chains[n..], k)
  {
    if k != 0 { SizeToShift(chains, n, k - 1); }
  }

  lemma {:induction false} SizeToPrefix(chains: seq<seq<nat>>, more: seq<seq<nat>>, k: nat)
    requires k <= |chains|
    ensures SizeTo(chains + more, k) == SizeTo(chains, k)
  {
    if k != 0 { SizeToPrefix(chains, more, k - 1); }
  }

  /** Empty buckets behind the others change nothing. */
  lemma Extended(mem: Elements, table: seq<Link>, chains: seq<seq<nat>>, n: nat)
    requires Forest(mem, table, chains)
    ensures Forest(mem, table + Nils(n), chains + Empties(n))
    ensures Size(chains + Empties(n)) == Size(chains)
    ensures forall x :: Has(chains + Empties(n), x) <==> Has(chains, x)
  {
    var t, cs := table + Nils(n), chains + Empties(n);
    forall b | 0 <= b < |cs| ensures ChainOk(mem, t[b], cs[b]) {
      if b < |chains| { assert ChainOk(mem, table[b], chains[b]); }
    }
    forall x ensures Has(cs, x) <==> Has(chains, x) {
      if Has(chains, x) {
        var b :| 0 <= b < |chains| && x in chains[b];
        assert x in cs[b];
      }
      if Has(cs, x) {
        var b :| 0 <= b < |cs| && x in cs[b];
        assert x in chains[b];
      }
    }
    SizeToShift(cs, |chains|, n);
    SizeToPrefix(chains, Empties(n), |chains|);
    assert cs[|chains|..] == Empties(n);
    SizeToEmpty(Empties(n), n);
  }

  /** Empty buckets in front of the others may be left off. */
  lemma Shortened(mem: Elements, old_: seq<Link>, table: seq<Link>, chains: seq<seq<nat>>)
    requires Forest(mem, old_ + table, chains) && forall b :: 0 <= b < |old_| ==> chains[b] == []
    ensures Forest(mem, table, chains[|old_|..]) && Size(chains[|old_|..]) == Size(chains)
    ensures forall x :: Has(chains[|old_|..], x) <==> Has(chains, x)
  {
    var n, cs := |old_|, chains[|old_|..];
    forall b | 0 <= b < |cs| ensures ChainOk(mem, table[b], cs[b]) {
      assert ChainOk(mem, (old_ + table)[n + b], chains[n + b]);
    }
    forall b, c, e | 0 <= b < |cs| && 0 <= c < |cs| && e in cs[b] && e in cs[c] ensures b == c {
      assert e in chains[n + b] && e in chains[n + c];
    }
    forall x ensures Has(cs, x) <==> Has(chains, x) {
      if Has(chains, x) {
        var b :| 0 <= b < |chains| && x in chains[b];
        assert x in cs[b - n];
      }
      if Has(cs, x) {
        var b :| 0 <= b < |cs| && x in cs[b];
        assert x in chains[n + b];
      }
    }
    SizeToShift(chains, n, |cs|);
    SizeToEmpty(chains, n);
  }

  // ---------- in place ----------

  /** Which buckets hold only elements that belong there: those before `b` and those added. */
  ghost predicate PlacedBut(mem: Elements, chains: seq<seq<nat>>, b: nat, oldLen: nat) {
    forall c {:trigger chains[c]} :: 0 <= c < |chains| && (c < b || oldLen <= c) ==> Placed(mem, chains[c], c, |chains|)
  }

  lemma PlacedButMoved(mem: Elements, m2: Elements, chains: seq<seq<nat>>, b: nat, k: nat, to: nat, e: nat,
                       c2: seq<seq<nat>>, upto: nat, oldLen: nat)
    requires b < |chains| && to < |chains| && b != to && k < |chains[b]| && e in mem && SameButNext(mem, m2)
    requires c2 == Pushed(Popped(chains, b, k), to, e)
    requires to == BucketNum(mem[e].hash, |chains|) && PlacedBut(mem, chains, upto, oldLen)
    ensures PlacedBut(m2, c2, upto, oldLen)
  {
    forall c | 0 <= c < |c2| && (c < upto || oldLen <= c) ensures Placed(m2, c2[c], c, |c2|) {
      assert Placed(mem, chains[c], c, |chains|);
      MovedPlaced(mem, m2, chains, b, k, to, e, c2, c, c, |chains|);
    }
  }

  lemma KeptTrans(m0: Elements, c0: seq<seq<nat>>, m1: Elements, c1: seq<seq<nat>>, m2: Elements, c2: seq<seq<nat>>)
    requires Kept(m0, c0, m1, c1) && Kept(m1, c1, m2, c2)
    ensures Kept(m0, c0, m2, c2)
  {
  }

  /** The chain of bucket b: elements that belong elsewhere are pushed there, even to buckets still to come. */
  method RehashBucket(t: array<Link>, mem0: Elements, b: nat, oldLen: nat, ghost chains0: seq<seq<nat>>)
      returns (mem: Elements, ghost chains: seq<seq<nat>>)
    requires b < oldLen <= t.Length && Forest(mem0, t[..], chains0) && PlacedBut(mem0, chains0, b, oldLen)
    modifies t
    ensures Forest(mem, t[..], chains) && Kept(mem0, chains0, mem, chains) && PlacedBut(mem, chains, b + 1, oldLen)
  {
    mem, chains := mem0, chains0;
    var p, e := Bucket(b), t[b];
    ghost var k := 0;
    assert ChainOk(mem, t[..][b], chains[b]);
    while e.To?
      invariant Forest(mem, t[..], chains) && Kept(mem0, chains0, mem, chains) && PlacedBut(mem, chains, b, oldLen)
      invariant k <= |chains[b]| && p == SlotAt(b, chains[b], k) && e == LinkAt(chains[b], k)
      invariant Placed(mem, chains[b][..k], b, t.Length)
      decreases |chains[b]| - k
    {
      AtPlace(mem, t[..], chains, b, k);
      var b2 := BucketNum(mem[e.a].hash, t.Length);
      if b2 == b {
        p, e, k := NextOf(e.a), mem[e.a].next, k + 1;
      } else {
        ghost var m, c := mem, chains;
        mem, chains := MoveTo(t, mem, p, e.a, b2, b, k, chains);
        KeptTrans(mem0, chains0, m, c, mem, chains);
        PlacedButMoved(m, mem, c, b, k, b2, e.a, chains, b, oldLen);
        assert chains[b][..k] == c[b][..k];
        e := LinkOf(t, mem, p, b, k, chains);
      }
    }
    AllPlaced(mem, chains, b, oldLen, k);
  }

  lemma AllPlaced(mem: Elements, chains: seq<seq<nat>>, b: nat, oldLen: nat, k: nat)
    requires b < |chains| && PlacedBut(mem, chains, b, oldLen)
    requires k == |chains[b]| && Placed(mem, chains[b][..k], b, |chains|)
    ensures PlacedBut(mem, chains, b + 1, oldLen)
  {
    assert chains[b][..k] == chains[b];
  }

  /** *p, read again after the move. */
  method LinkOf(t: array<Link>, mem: Elements, p: Slot, ghost b: nat, ghost k: nat, ghost chains: seq<seq<nat>>) returns (e: Link)
    requires Forest(mem, t[..], chains) && b < |chains| && k <= |chains[b]| && p == SlotAt(b, chains[b], k)
    ensures e == LinkAt(chains[b], k)
  {
    assert ChainOk(mem, t[..][b], chains[b]);
    if 0 < k { Here(mem, t[..][b], chains[b], k - 1); }
    match p
    case Bucket(i) => e := t[i];
    case NextOf(a) => e := mem[a].next;
  }

  /** *pE = e->next; e->next = new_table[b2]; new_table[b2] = e; */
  method MoveTo(t: array<Link>, mem0: Elements, p: Slot, e: nat, b2: nat, ghost b: nat, ghost k: nat, ghost chains0: seq<seq<nat>>)
      returns (mem: Elements, ghost chains: seq<seq<nat>>)
    requires Forest(mem0, t[..], chains0) && b < |chains0| && b2 < t.Length && b2 != b
    requires k < |chains0[b]| && e == chains0[b][k] && p == SlotAt(b, chains0[b], k) && e in mem0
    modifies t
    ensures Forest(mem, t[..], chains) && Kept(mem0, chains0, mem, chains)
    ensures chains == Pushed(Popped(chains0, b, k), b2, e) && chains[b] == chains0[b][..k] + chains0[b][k + 1..]
  {
    ghost var table := t[..];
    ghost var m1, t1 := WriteMem(mem0, p, mem0[e].next), WriteTable(table, p, mem0[e].next);
    Unlinked(mem0, table, chains0, b, k, e, p, Popped(chains0, b, k));
    if 0 < k { AtPlace(mem0, table, chains0, b, k - 1); }
    mem := mem0;
    match p {
      case Bucket(i) => t[i] := mem[e].next;
      case NextOf(a) => mem := mem[a := mem[a].(next := mem[e].next)];
    }
    assert mem == m1 && t[..] == t1;
    mem := mem[e := mem[e].(next := t[b2])];
    t[b2] := To(e);
    assert t[..] == t1[b2 := To(e)];
    chains := Pushed(Popped(chains0, b, k), b2, e);
    Moved(mem0, table, chains0, b, k, b2, e, p, m1, t1, mem, chains);
  }

  /** The in-place branch, from the table with its new buckets cleared on. */
  method RehashInPlace(t: array<Link>, mem0: Elements, oldLen: nat, ghost chains0: seq<seq<nat>>)
      returns (mem: Elements, ghost chains: seq<seq<nat>>)
    requires oldLen <= t.Length && Forest(mem0, t[..], chains0)
    requires forall c :: oldLen <= c < t.Length ==> chains0[c] == []
    modifies t
    ensures Forest(mem, t[..], chains) && Kept(mem0, chains0, mem, chains)
    ensures forall b :: 0 <= b < |chains| ==> Placed(mem, chains[b], b, |chains|)
    ensures |chains| == t.Length
    ensures forall b, e {:trigger e in chains[b]} :: 0 <= b < t.Length && e in chains[b]
              ==> e in mem && (mem[e].hash - b) % t.Length == 0
  {
    mem, chains := mem0, chains0;
    var b := 0;
    while b < oldLen
      invariant 0 <= b <= oldLen
      invariant Forest(mem, t[..], chains) && Kept(mem0, chains0, mem, chains) && PlacedBut(mem, chains, b, oldLen)
    {
      ghost var m, c := mem, chains;
      mem, chains := RehashBucket(t, mem, b, oldLen, chains);
      KeptTrans(mem0, chains0, m, c, mem, chains);
      b := b + 1;
    }
    PlacedIs(mem, chains);
  }

  // ---------- into a fresh table ----------

  /** The buckets of the fresh table, which follow the n old ones, hold only elements that belong there. */
  ghost predicate FreshPlaced(mem: Elements, chains: seq<seq<nat>>, n: nat) {
    forall c {:trigger chains[c]} :: n <= c < |chains| ==> Placed(mem, chains[c], c - n, |chains| - n)
  }

  lemma FreshMoved(mem: Elements, m2: Elements, chains: seq<seq<nat>>, b: nat, n: nat, e: nat, b2: nat, c2: seq<seq<nat>>)
    requires b < n && n + b2 < |chains| && 0 < |chains[b]| && e in mem && SameButNext(mem, m2)
    requires c2 == Pushed(Popped(chains, b, 0), n + b2, e)
    requires b2 == BucketNum(mem[e].hash, |chains| - n) && FreshPlaced(mem, chains, n)
    ensures FreshPlaced(m2, c2, n)
  {
    forall c | n <= c < |c2| ensures Placed(m2, c2[c], c - n, |c2| - n) {
      assert Placed(mem, chains[c], c - n, |chains| - n);
      MovedPlaced(mem, m2, chains, b, 0, n + b2, e, c2, c, c - n, |chains| - n);
    }
  }

  /** The inner loop of the fresh-table branch: the chain of old bucket b, element by element. */
  method EmptyBucket(t: array<Link>, mem0: Elements, b: nat, head: Link, ghost heads0: seq<Link>, ghost chains0: seq<seq<nat>>)
      returns (mem: Elements, ghost heads: seq<Link>, ghost chains: seq<seq<nat>>)
    requires b < |heads0| && heads0[b] == head && Forest(mem0, heads0 + t[..], chains0) && 0 < t.Length
    requires FreshPlaced(mem0, chains0, |heads0|)
    modifies t
    ensures |heads| == |heads0| && Forest(mem, heads + t[..], chains) && Kept(mem0, chains0, mem, chains)
    ensures FreshPlaced(mem, chains, |heads|) && chains[b] == []
    ensures forall c :: 0 <= c < |heads| && c != b ==> chains[c] == chains0[c] && heads[c] == heads0[c]
  {
    hide FreshPlaced, Disjoint;
    mem, heads, chains := mem0, heads0, chains0;
    var elm := head;
    ghost var n := |heads0|;
    while elm.To?
      invariant |heads| == n && elm == heads[b] && Forest(mem, heads + t[..], chains) && Kept(mem0, chains0, mem, chains)
      invariant FreshPlaced(mem, chains, n)
      invariant forall c :: 0 <= c < n && c != b ==> chains[c] == chains0[c] && heads[c] == heads0[c]
      decreases |chains[b]|
    {
      ghost var m, c := mem, chains;
      assert ChainOk(mem, (heads + t[..])[b], chains[b]);
      AtPlace(mem, heads + t[..], chains, b, 0);
      var next := mem[elm.a].next;
      var b2 := BucketNum(mem[elm.a].hash, t.Length);
      mem, heads, chains := PushFresh(t, mem, elm.a, b2, b, heads, chains);
      KeptTrans(mem0, chains0, m, c, mem, chains);
      FreshMoved(m, mem, c, b, n, elm.a, b2, chains);
      elm := next;
    }
    assert ChainOk(mem, (heads + t[..])[b], chains[b]);
  }

  /** elm->next = new_table[b2]; new_table[b2] = elm; the old bucket now counts as starting at elm's old link. */
  method PushFresh(t: array<Link>, mem0: Elements, e: nat, b2: nat, ghost b: nat, ghost heads0: seq<Link>, ghost chains0: seq<seq<nat>>)
      returns (mem: Elements, ghost heads: seq<Link>, ghost chains: seq<seq<nat>>)
    requires Forest(mem0, heads0 + t[..], chains0) && b < |heads0| && b2 < t.Length
    requires 0 < |chains0[b]| && e == chains0[b][0] && e in mem0
    modifies t
    ensures heads == heads0[b := mem0[e].next]
    ensures Forest(mem, heads + t[..], chains) && Kept(mem0, chains0, mem, chains)
    ensures chains == Pushed(Popped(chains0, b, 0), |heads0| + b2, e) && chains[b] == chains0[b][1..]
  {
    ghost var table := heads0 + t[..];
    heads := heads0[b := mem0[e].next];
    ghost var t1 := WriteTable(table, Bucket(b), mem0[e].next);
    assert t1 == heads + t[..];
    mem := mem0[e := mem0[e].(next := t[b2])];
    t[b2] := To(e);
    assert heads + t[..] == t1[|heads0| + b2 := To(e)];
    chains := Pushed(Popped(chains0, b, 0), |heads0| + b2, e);
    Moved(mem0, table, chains0, b, 0, |heads0| + b2, e, Bucket(b), mem0, t1, mem, chains);
  }

  /** The fresh-table branch, from the cleared new table on. */
  method RehashFresh(old_: array<Link>, t: array<Link>, mem0: Elements, ghost chains0: seq<seq<nat>>)
      returns (mem: Elements, ghost chains: seq<seq<nat>>)
    requires old_ != t && 0 < t.Length && Forest(mem0, old_[..] + t[..], chains0)
    requires forall c :: old_.Length <= c < |chains0| ==> chains0[c] == []
    modifies t
    ensures |chains| == t.Length && Forest(mem, t[..], chains) && SameButNext(mem0, mem)
    ensures Size(chains) == Size(chains0) && (forall x :: Has(chains, x) <==> Has(chains0, x))
    ensures OthersKept(mem0, chains0, mem)
    ensures forall b :: 0 <= b < |chains| ==> Placed(mem, chains[b], b, |chains|)
    ensures forall b, e {:trigger e in chains[b]} :: 0 <= b < t.Length && e in chains[b]
              ==> e in mem && (mem[e].hash - b) % t.Length == 0
  {
    mem := mem0;
    ghost var cs, heads := chains0, old_[..];
    var b := 0;
    while b < old_.Length
      invariant 0 <= b <= old_.Length == |heads|
      invariant Forest(mem, heads + t[..], cs) && Kept(mem0, chains0, mem, cs) && FreshPlaced(mem, cs, |heads|)
      invariant forall c :: 0 <= c < b ==> cs[c] == []
      invariant forall c :: b <= c < |heads| ==> heads[c] == old_[c]
    {
      ghost var m, c := mem, cs;
      mem, heads, cs := EmptyBucket(t, mem, b, old_[b], heads, cs);
      KeptTrans(mem0, chains0, m, c, mem, cs);
      b := b + 1;
    }
    Shortened(mem, heads, t[..], cs);
    chains := cs[|heads|..];
    forall b | 0 <= b < |chains| ensures Placed(mem, chains[b], b, |chains|) {
      assert Placed(mem, cs[|heads| + b], b, |chains|);
    }
    PlacedIs(mem, chains);
  }

  // ---------- the two ways agree ----------

  /** However the elements got there: placed elements of the same set fill the buckets the same way. */
  lemma SameBuckets(m1: Elements, c1: seq<seq<nat>>, m2: Elements, c2: seq<seq<nat>>, b: nat, e: nat)
    requires SameButNext(m1, m2) && |c1| == |c2| && b < |c1|
    requires forall b :: 0 <= b < |c1| ==> Placed(m1, c1[b], b, |c1|) && Placed(m2, c2[b], b, |c2|)
    requires forall x :: Has(c1, x) <==> Has(c2, x)
    ensures e in c1[b] <==> e in c2[b]
  {
    if e in c1[b] {
      assert Has(c1, e);
      var c :| 0 <= c < |c2| && e in c2[c];
      assert Placed(m1, c1[b], b, |c1|) && Placed(m2, c2[c], c, |c2|);
    }
    if e in c2[b] {
      assert Has(c2, e);
      var c :| 0 <= c < |c1| && e in c1[c];
      assert Placed(m2, c2[b], b, |c2|) && Placed(m1, c1[c], c, |c1|);
    }
  }
}
