/**
 The links of Tor's lists and tail queues.  An element has a pointer to the next element and the address
 of the pointer that points to it: the head's first pointer or the next pointer of the element before.
 */
module QueueLinks {
  import opened Links

  /** The address of a next pointer. */
  datatype Loc = First | NextOf(a: nat)

  datatype Entry = Entry(next: Link, prev: Loc)

  type Entries = map<nat, Entry>

  /** Where the link to place k is kept; for k == |s| this is the final, null link. */
  function LocAt(s: seq<nat>, k: nat): Loc
    requires k <= |s|
  {
    if k == 0 then First else NextOf(s[k - 1])
  }

  ghost predicate EntryOk(mem: Entries, s: seq<nat>, k: nat)
    requires k < |s|
  {
    s[k] in mem && mem[s[k]] == Entry(LinkAt(s, k + 1), LocAt(s, k))
  }

  /** The links from first on go through the elements of s, and each points back to its link. */
  ghost predicate Linked(mem: Entries, first: Link, s: seq<nat>) {
    && first == LinkAt(s, 0)
    && Distinct(s)
    && (forall k {:trigger EntryOk(mem, s, k)} :: 0 <= k < |s| ==> EntryOk(mem, s, k))
  }

  lemma Here(mem: Entries, first: Link, s: seq<nat>, k: nat)
    requires Linked(mem, first, s) && k < |s|
    ensures s[k] in mem && mem[s[k]] == Entry(LinkAt(s, k + 1), LocAt(s, k))
  {
    assert EntryOk(mem, s, k);
  }

  /** *loc */
  function Deref(mem: Entries, first: Link, loc: Loc): Link {
    match loc
    case First => first
    case NextOf(a) => if a in mem then mem[a].next else Nil
  }

  /** *loc = link, as the head and the elements see it. */
  function SetFirst(first: Link, loc: Loc, link: Link): Link {
    if loc.First? then link else first
  }
  function SetNext(mem: Entries, loc: Loc, link: Link): Entries {
    if loc.NextOf? && loc.a in mem then mem[loc.a := mem[loc.a].(next := link)] else mem
  }
  function SetPrev(mem: Entries, link: Link, loc: Loc): Entries {
    if link.To? && link.a in mem then mem[link.a := mem[link.a].(prev := loc)] else mem
  }

  // ---------- the three changes ----------

  /** e goes between a link at prev and the element next. */
  function Joined(mem: Entries, e: nat, next: Link, prev: Loc): Entries {
    SetPrev(SetNext(mem[e := Entry(next, prev)], prev, To(e)), next, NextOf(e))
  }

  lemma InsertOk(mem: Entries, first: Link, s: seq<nat>, k: nat, e: nat, m: Entries, t: seq<nat>)
    requires Linked(mem, first, s) && k <= |s| && e !in s
    requires m == Joined(mem, e, LinkAt(s, k), LocAt(s, k)) && t == Insert(s, k, e)
    ensures Linked(m, SetFirst(first, LocAt(s, k), To(e)), t)
    ensures LocAt(t, |t|) == if k == |s| then NextOf(e) else LocAt(s, |s|)
  {
    if 0 < k { Here(mem, first, s, k - 1); }
    if k < |s| { Here(mem, first, s, k); }
    forall j | 0 <= j < |t| ensures EntryOk(m, t, j) {
      if j < k {
        Here(mem, first, s, j);
      } else if j > k {
        Here(mem, first, s, j - 1);
      }
    }
  }

  lemma RemoveOk(mem: Entries, first: Link, s: seq<nat>, k: nat, m: Entries, t: seq<nat>)
    requires Linked(mem, first, s) && k < |s| && t == Remove(s, k)
    requires m == SetNext(SetPrev(mem, LinkAt(s, k + 1), LocAt(s, k)), LocAt(s, k), LinkAt(s, k + 1))
    ensures Linked(m, SetFirst(first, LocAt(s, k), LinkAt(s, k + 1)), t)
    ensures LocAt(t, |t|) == if k + 1 == |s| then LocAt(s, k) else LocAt(s, |s|)
  {
    if 0 < k { Here(mem, first, s, k - 1); }
    if k + 1 < |s| { Here(mem, first, s, k + 1); }
    forall j | 0 <= j < |t| ensures EntryOk(m, t, j) {
      if j < k {
        Here(mem, first, s, j);
      } else {
        Here(mem, first, s, j + 1);
      }
    }
  }

  lemma ReplaceOk(mem: Entries, first: Link, s: seq<nat>, k: nat, e: nat, m: Entries, t: seq<nat>)
    requires Linked(mem, first, s) && k < |s| && e !in s
    requires m == Joined(mem, e, LinkAt(s, k + 1), LocAt(s, k)) && t == s[k := e]
    ensures Linked(m, SetFirst(first, LocAt(s, k), To(e)), t)
    ensures LocAt(t, |t|) == if k + 1 == |s| then NextOf(e) else LocAt(s, |s|)
  {
    if 0 < k { Here(mem, first, s, k - 1); }
    if k + 1 < |s| { Here(mem, first, s, k + 1); }
    forall j | 0 <= j < |t| ensures EntryOk(m, t, j) {
      if j != k { Here(mem, first, s, j); }
    }
  }

  // ---------- walks ----------

  /** The FOREACH loops. */
  method WalkForward(mem: Entries, first: Link, ghost s: seq<nat>) returns (w: seq<nat>)
    requires Linked(mem, first, s)
    ensures w == s
  {
    w := [];
    var cur := first;
    while cur.To?
      invariant |w| <= |s| && w == s[..|w|] && cur == LinkAt(s, |w|)
      decreases |s| - |w|
    {
      Here(mem, first, s, |w|);
      w := w + [cur.a];
      cur := mem[cur.a].next;
    }
  }
}
