/**
 The tail queue on these links.  Its head also has the address of the final next
 pointer, and finds the last element, and each element's predecessor, by reading that address as the
 address of a head: of a pair of a next pointer and an address of a next pointer.
 */
module TailQueues {
  import opened Links
  import opened QueueLinks

  /** The second word of what starts at loc: tqh_last of the head or tqe_prev of an element. */
  function SecondWord(mem: Entries, last: Loc, loc: Loc): Loc {
    match loc
    case First => last
    case NextOf(a) => if a in mem then mem[a].prev else First
  }

  /** TAILQ_LAST and TAILQ_PREV are this for tqh_last and for the element's tqe_prev. */
  function Before(mem: Entries, first: Link, last: Loc, loc: Loc): Link {
    Deref(mem, first, SecondWord(mem, last, loc))
  }

  ghost predicate Queue(mem: Entries, first: Link, last: Loc, s: seq<nat>) {
    Linked(mem, first, s) && last == LocAt(s, |s|)
  }

  /** The last link is null, and it is where tqh_last points, in the empty queue, too. */
  lemma LastLink(mem: Entries, first: Link, last: Loc, s: seq<nat>)
    requires Queue(mem, first, last, s)
    ensures Deref(mem, first, last) == Nil
  {
    if s != [] { Here(mem, first, s, |s| - 1); }
  }

  /** The cast finds the element before place k; before the first, it finds the null link at the end. */
  lemma BeforeIs(mem: Entries, first: Link, last: Loc, s: seq<nat>, k: nat)
    requires Queue(mem, first, last, s) && k <= |s|
    ensures Before(mem, first, last, LocAt(s, k)) == if k == 0 then Nil else To(s[k - 1])
  {
    LastLink(mem, first, last, s);
    if 0 < k { Here(mem, first, s, k - 1); }
    if 1 < k { Here(mem, first, s, k - 2); }
  }

  function Reversed(s: seq<nat>): seq<nat> {
    seq(|s|, i requires 0 <= i < |s| => s[|s| - 1 - i])
  }

  /** TAILQ_FOREACH_REVERSE */
  method WalkBackward(mem: Entries, first: Link, last: Loc, ghost s: seq<nat>) returns (w: seq<nat>)
    requires Queue(mem, first, last, s)
    ensures w == Reversed(s)
  {
    w := [];
    BeforeIs(mem, first, last, s, |s|);
    var cur := Before(mem, first, last, last);
    while cur.To?
      invariant |w| <= |s| && w == Reversed(s)[..|w|]
      invariant cur == if |w| == |s| then Nil else To(s[|s| - 1 - |w|])
      decreases |s| - |w|
    {
      Here(mem, first, s, |s| - 1 - |w|);
      BeforeIs(mem, first, last, s, |s| - 1 - |w|);
      w := w + [cur.a];
      cur := Before(mem, first, last, mem[cur.a].prev);
    }
  }

  class TailQueue {
    var mem: Entries
    /** tqh_first and tqh_last */
    var first: Link
    var last: Loc
    ghost var s: seq<nat>

    ghost predicate Valid()
      reads this
    {
      Queue(mem, first, last, s)
    }

    /** TAILQ_INIT */
    constructor (mem: Entries)
      ensures Valid() && s == [] && this.mem == mem
    {
      this.mem, first, last, s := mem, Nil, First, [];
    }

    /** *loc = link */
    method Store(loc: Loc, link: Link)
      requires loc.NextOf? ==> loc.a in mem
      modifies this`mem, this`first
      ensures mem == SetNext(old(mem), loc, link) && first == SetFirst(old(first), loc, link)
    {
      match loc
      case First => first := link;
      case NextOf(a) => mem := mem[a := mem[a].(next := link)];
    }

    method InsertHead(elm: nat)
      requires Valid() && elm !in s
      modifies this
      ensures Valid() && s == [elm] + old(s)
    {
      ghost var m0, f0 := mem, first;
      if first.To? { Here(mem, first, s, 0); }
      mem := mem[elm := Entry(first, First)];
      if first != Nil {
        mem := mem[first.a := mem[first.a].(prev := NextOf(elm))];
      } else {
        last := NextOf(elm);
      }
      first := To(elm);
      InsertOk(m0, f0, s, 0, elm, mem, Insert(s, 0, elm));
      s := Insert(s, 0, elm);
    }

    method InsertTail(elm: nat)
      requires Valid() && elm !in s
      modifies this
      ensures Valid() && s == old(s) + [elm]
    {
      ghost var m0, f0 := mem, first;
      if s != [] { Here(mem, first, s, |s| - 1); }
      mem := mem[elm := Entry(Nil, last)];
      Store(last, To(elm));
      last := NextOf(elm);
      InsertOk(m0, f0, s, |s|, elm, mem, Insert(s, |s|, elm));
      s := Insert(s, |s|, elm);
    }

    method InsertAfter(listelm: nat, elm: nat, ghost k: nat)
      requires Valid() && elm !in s && k < |s| && s[k] == listelm
      modifies this
      ensures Valid() && s == Insert(old(s), k + 1, elm)
    {
      ghost var m0 := mem;
      Here(mem, first, s, k);
      if k + 1 < |s| { Here(mem, first, s, k + 1); }
      var next := mem[listelm].next;
      mem := mem[elm := Entry(next, NextOf(listelm))];
      if next != Nil {
        mem := mem[next.a := mem[next.a].(prev := NextOf(elm))];
      } else {
        last := NextOf(elm);
      }
      mem := mem[listelm := mem[listelm].(next := To(elm))];
      InsertOk(m0, first, s, k + 1, elm, mem, Insert(s, k + 1, elm));
      s := Insert(s, k + 1, elm);
    }

    /** The head is not named: it changes through the address in listelm when listelm is the first element. */
    method InsertBefore(listelm: nat, elm: nat, ghost k: nat)
      requires Valid() && elm !in s && k < |s| && s[k] == listelm
      modifies this`mem, this`first, this`s
      ensures Valid() && s == Insert(old(s), k, elm)
    {
      ghost var m0, f0 := mem, first;
      Here(mem, first, s, k);
      if 0 < k { Here(mem, first, s, k - 1); }
      var prev := mem[listelm].prev;
      mem := mem[elm := Entry(To(listelm), prev)];
      Store(prev, To(elm));
      mem := mem[listelm := mem[listelm].(prev := NextOf(elm))];
      InsertOk(m0, f0, s, k, elm, mem, Insert(s, k, elm));
      s := Insert(s, k, elm);
    }

    method Remove(elm: nat, ghost k: nat)
      requires Valid() && k < |s| && s[k] == elm
      modifies this
      ensures Valid() && s == Links.Remove(old(s), k)
    {
      ghost var m0, f0 := mem, first;
      Here(mem, first, s, k);
      if 0 < k { Here(mem, first, s, k - 1); }
      if k + 1 < |s| { Here(mem, first, s, k + 1); }
      var next, prev := mem[elm].next, mem[elm].prev;
      if next != Nil {
        mem := mem[next.a := mem[next.a].(prev := prev)];
      } else {
        last := prev;
      }
      Store(prev, next);
      RemoveOk(m0, f0, s, k, mem, Links.Remove(s, k));
      s := Links.Remove(s, k);
    }

    method Replace(elm: nat, elm2: nat, ghost k: nat)
      requires Valid() && k < |s| && s[k] == elm && elm2 !in s
      modifies this
      ensures Valid() && s == old(s)[k := elm2]
    {
      ghost var m0, f0 := mem, first;
      Here(mem, first, s, k);
      if 0 < k { Here(mem, first, s, k - 1); }
      if k + 1 < |s| { Here(mem, first, s, k + 1); }
      var next, prev := mem[elm].next, mem[elm].prev;
      mem := mem[elm2 := Entry(next, prev)];
      if next != Nil {
        mem := mem[next.a := mem[next.a].(prev := NextOf(elm2))];
      } else {
        last := NextOf(elm2);
      }
      Store(prev, To(elm2));
      ReplaceOk(m0, f0, s, k, elm2, mem, s[k := elm2]);
      s := s[k := elm2];
    }

    /** The forward walk, the walk by LAST and PREV read backwards, and the sequence are the same. */
    method Walks() returns (forward: seq<nat>, backward: seq<nat>)
      requires Valid()
      ensures forward == s && Reversed(backward) == s
    {
      forward := WalkForward(mem, first, s);
      backward := WalkBackward(mem, first, last, s);
    }
  }
}
