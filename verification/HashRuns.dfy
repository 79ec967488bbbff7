/**
 Whole runs over a hash table: whatever insertions, replacements, removals, searches and walks a program
 does, the answers are those of a map, and the representation stays in order.
 */
module HashRuns {
  import opened Links
  import opened HashChains
  import opened HashPrimes
  import opened HashTables
  import opened HashRehash
  import opened HashTableOps
  import opened HashWalk
  import opened HashIteration

  /** The walks remove the elements that `remove` says, from the visits so far and the current element. */
  datatype Op =
    | Insert(e: nat) | Replace(e: nat) | Remove(e: nat) | Find(e: nat)
    | Sweep(remove: (seq<nat>, nat) -> bool) | Foreach(remove: (seq<nat>, nat) -> bool)

  /** A walk answers with what it visited, and with those removed elements whose hte_next is not NULL. */
  datatype Answer = Got(link: Link) | Visited(order: seq<nat>, linked: set<nat>)

  /** What a table stands for: a map, and the elements outside that have a link left over. */
  datatype State = State(view: map<nat, nat>, left: set<nat>)

  function Lookup(view: map<nat, nat>, key: nat): Link {
    if key in view then To(view[key]) else Nil
  }

  function KeyOf(keys: map<nat, nat>, e: nat): nat { if e in keys then keys[e] else 0 }

  ghost function Next(s: State, op: Op, keys: map<nat, nat>, a: Answer): State {
    match op
    case Insert(e) => State(s.view[KeyOf(keys, e) := e], s.left - {e})
    case Replace(e) => State(s.view[KeyOf(keys, e) := e], s.left - {e})
    case Remove(e) => State(s.view - {KeyOf(keys, e)}, s.left)
    case Find(_) => s
    case Sweep(f) => Walked(s, f, a)
    case Foreach(f) => Walked(s, f, a)
  }

  ghost function Walked(s: State, f: (seq<nat>, nat) -> bool, a: Answer): State {
    if a.Got? then s
    else State(map k | k in s.view && s.view[k] in Staying(a.order, |a.order|, f) :: s.view[k], s.left + a.linked)
  }

  /** The answer is one that the map allows: a walk may go in any order, but visits each element once. */
  ghost predicate Right(s: State, op: Op, keys: map<nat, nat>, a: Answer) {
    match op
    case Insert(_) => a == Got(Nil)
    case Replace(e) => a == Got(Lookup(s.view, KeyOf(keys, e)))
    case Remove(e) => a == Got(Lookup(s.view, KeyOf(keys, e)))
    case Find(e) => a == Got(Lookup(s.view, KeyOf(keys, e)))
    case Sweep(f) => WalkRight(s, f, a)
    case Foreach(f) => WalkRight(s, f, a)
  }

  ghost predicate WalkRight(s: State, f: (seq<nat>, nat) -> bool, a: Answer) {
    && a.Visited? && Distinct(a.order) && (forall x :: x in a.order <==> x in s.view.Values)
    && forall x :: x in a.linked ==> x in a.order && x !in Staying(a.order, |a.order|, f)
  }

  /**
   Elements are inserted only when nothing matches them.  They replace others, or go in with no link
   left over (see LinkMustBeNull); they do not replace themselves.
   */
  predicate Allowed(s: State, op: Op, keys: map<nat, nat>) {
    match op
    case Insert(e) => e in keys && keys[e] !in s.view
    case Replace(e) => e in keys && Lookup(s.view, keys[e]) != To(e) && (keys[e] in s.view || e !in s.left)
    case Remove(e) => e in keys
    case Find(e) => e in keys
    case _ => true
  }

  // ---------- one operation ----------

  ghost function LeftOver(mem: Elements, chains: seq<seq<nat>>): set<nat> {
    set x | x in mem && !Has(chains, x) && mem[x].next != Nil
  }

  ghost function StateOf(ht: HashTable): State
    reads ht
  {
    State(ht.view, LeftOver(ht.mem, ht.chains))
  }

  ghost function KeysOf(mem: Elements): map<nat, nat> { map e | e in mem :: mem[e].key }

  lemma KeysSame(m0: Elements, m: Elements)
    requires SameKeys(m0, m)
    ensures KeysOf(m0) == KeysOf(m)
  {
  }

  /** Element e was probed and then maybe linked in; r left, with its link cleared. */
  lemma LeftAfter(m0: Elements, c0: seq<seq<nat>>, m: Elements, c: seq<seq<nat>>, e: nat, r: Link, linkedIn: bool)
    requires SameKeys(m0, m) && OthersBut(m0, c0, m, e)
    requires forall x :: Has(c, x) <==> (Has(c0, x) && To(x) != r) || (linkedIn && x == e)
    requires r.To? ==> r.a in m && m[r.a].next == Nil
    requires !linkedIn && !Has(c0, e) && e in m0 && e in m ==> m[e].next == m0[e].next
    ensures LeftOver(m, c) == LeftOver(m0, c0) - if linkedIn then {e} else {}
  {
  }

  /** Everything a run keeps. */
  ghost predicate InOrder(ht: HashTable)
    reads ht, ht.table
  {
    ht.Valid() && ht.InLadder()
  }

  lemma OnChainMeansViewed(ht: HashTable, e: nat)
    requires ht.Valid() && e in ht.mem
    ensures Has(ht.chains, e) ==> Lookup(ht.view, ht.mem[e].key) == To(e)
    ensures Lookup(ht.view, ht.mem[e].key) == To(e) ==> Has(ht.chains, e)
  {
    hide TableOk;
    if Has(ht.chains, e) { FoundAt(ht.mem, ht.table[..], ht.chains, ht.view, ht.h, e); }
    if ht.mem[e].key in ht.view { ViewedAt(ht.mem, ht.table[..], ht.chains, ht.view, ht.h, ht.mem[e].key); }
  }

  lemma LeftAt(mem: Elements, chains: seq<seq<nat>>, e: nat)
    requires e in mem && e !in LeftOver(mem, chains)
    ensures Has(chains, e) || mem[e].next == Nil
  {
  }

  lemma HashOnly(m0: Elements, chains: seq<seq<nat>>, m: Elements, e: nat)
    requires e in m0 && e in m && m[e].next == m0[e].next && m[e].key == m0[e].key && m == m0[e := m[e]]
    ensures SameKeys(m0, m) && LeftOver(m, chains) == LeftOver(m0, chains)
  {
  }

  lemma FewerEntries(v0: map<nat, nat>, v: map<nat, nat>)
    requires forall k :: k in v ==> k in v0
    ensures |v| <= |v0|
  {
    SubsetSize(v.Keys, v0.Keys);
  }

  lemma {:induction false} SubsetSize(a: set<nat>, b: set<nat>)
    requires a <= b
    ensures |a| <= |b|
  {
    if a != {} {
      var x :| x in a;
      SubsetSize(a - {x}, b - {x});
    }
  }

  method ReplaceOne(ht: HashTable, e: nat, fresh_: bool) returns (r: Link)
    requires InOrder(ht) && e in ht.mem && !Has(ht.chains, e)
    requires ht.mem[e].key in ht.view || e !in LeftOver(ht.mem, ht.chains)
    modifies ht, ht.table
    ensures InOrder(ht) && (ht.table == old(ht.table) || fresh(ht.table)) && SameKeys(old(ht.mem), ht.mem)
    ensures ht.view == old(ht.view)[old(ht.mem)[e].key := e] && r == Lookup(old(ht.view), old(ht.mem)[e].key)
    ensures LeftOver(ht.mem, ht.chains) == old(LeftOver(ht.mem, ht.chains)) - {e}
    ensures ht.primeIdx <= old(ht.primeIdx) + 1
  {
    hide TableOk, SizesOk, LastLimit, Has, OthersBut, LeftOver, SameKeys;
    ghost var m0, c0 := ht.mem, ht.chains;
    if ht.mem[e].key !in ht.view { LeftAt(m0, c0, e); }
    ht.RoomToGrow(fresh_, !fresh_);
    r := ht.Replace(e, fresh_, !fresh_);
    LeftAfter(m0, c0, ht.mem, ht.chains, e, r, true);
  }

  /** An operation with an element; fresh_ says which of the two ways a growth of the table takes. */
  method DoElement(ht: HashTable, op: Op, fresh_: bool, ghost keys: map<nat, nat>) returns (r: Link)
    requires !op.Sweep? && !op.Foreach?
    requires InOrder(ht) && keys == KeysOf(ht.mem) && Allowed(StateOf(ht), op, keys)
    modifies ht, ht.table
    ensures InOrder(ht) && (ht.table == old(ht.table) || fresh(ht.table)) && KeysOf(ht.mem) == keys
    ensures StateOf(ht) == Next(old(StateOf(ht)), op, keys, Got(r)) && Right(old(StateOf(ht)), op, keys, Got(r))
    ensures ht.primeIdx <= old(ht.primeIdx) + 1
  {
    hide TableOk, SizesOk, LastLimit, Has, OthersBut, LeftOver, SameKeys;
    ghost var m0, c0 := ht.mem, ht.chains;
    OnChainMeansViewed(ht, op.e);
    ht.RoomToGrow(fresh_, !fresh_);
    match op {
      case Insert(e) =>
        ht.Insert(e, fresh_, !fresh_);
        r := Nil;
        LeftAfter(m0, c0, ht.mem, ht.chains, e, r, true);
      case Replace(e) =>
        r := ReplaceOne(ht, e, fresh_);
      case Remove(e) =>
        r := ht.Remove(e);
        FewerEntries(old(ht.view), ht.view);
        LeftAfter(m0, c0, ht.mem, ht.chains, e, r, false);
      case Find(e) =>
        r := ht.Find(e);
        HashOnly(m0, c0, ht.mem, e);
    }
    KeysSame(m0, ht.mem);
  }

  // ---------- walks ----------

  lemma ValuesOnChains(mem: Elements, table: seq<Link>, chains: seq<seq<nat>>, view: map<nat, nat>, h: nat -> nat)
    requires TableOk(mem, table, chains, view, h)
    ensures Forest(mem, table, chains) && forall x :: Has(chains, x) <==> x in view.Values
  {
    forall x | Has(chains, x) ensures x in view.Values {
      FoundAt(mem, table, chains, view, h, x);
    }
  }

  lemma WalkedView(v0: map<nat, nat>, v: map<nat, nat>, chains: seq<seq<nat>>, staying: seq<nat>)
    requires Narrowed(v0, v, chains) && forall x :: Has(chains, x) <==> x in staying
    ensures v == map k | k in v0 && v0[k] in staying :: v0[k]
  {
  }

  lemma WalkedLeft(m0: Elements, c0: seq<seq<nat>>, m: Elements, c: seq<seq<nat>>,
                   visited: seq<nat>, staying: seq<nat>, linked: set<nat>)
    requires m0.Keys == m.Keys && OthersKept(m0, c0, m)
    requires (forall x :: Has(c0, x) <==> x in visited) && (forall x :: Has(c, x) <==> x in staying)
    requires forall x :: x in staying ==> x in visited
    requires linked == set x | x in visited && x !in staying && x in m && m[x].next != Nil
    ensures LeftOver(m, c) == LeftOver(m0, c0) + linked
  {
  }

  lemma {:induction false} StayingVisited(visited: seq<nat>, i: nat, f: (seq<nat>, nat) -> bool)
    requires i <= |visited|
    ensures forall x :: x in Staying(visited, i, f) ==> x in visited
  {
    if i != 0 { StayingVisited(visited, i - 1, f); }
  }

  method DoWalk(ht: HashTable, op: Op, ghost keys: map<nat, nat>) returns (a: Answer)
    requires op.Sweep? || op.Foreach?
    requires InOrder(ht) && keys == KeysOf(ht.mem)
    modifies ht, ht.table
    ensures InOrder(ht) && ht.table == old(ht.table) && KeysOf(ht.mem) == keys
    ensures StateOf(ht) == Next(old(StateOf(ht)), op, keys, a) && Right(old(StateOf(ht)), op, keys, a)
    ensures ht.primeIdx == old(ht.primeIdx)
  {
    hide TableOk, SizesOk, LastLimit, LeftOver, Narrowed, Order, SameButNext, OthersKept, Staying, Walked, WalkRight, KeysOf;
    ghost var m0, t0, c0, v0 := ht.mem, ht.table[..], ht.chains, ht.view;
    var visited;
    match op {
      case Sweep(f) => visited := HashIteration.Sweep(ht, f);
      case Foreach(f) => visited := ForeachFn(ht, f);
    }
    a := Visited(visited, LinkedOf(ht.mem, visited, op.remove));
    WalkDone(m0, t0, c0, v0, ht.mem, ht.table[..], ht.chains, ht.view, ht.h, visited, op.remove);
  }

  /** Those of the visited elements that left and have a link still. */
  function LinkedOf(mem: Elements, visited: seq<nat>, f: (seq<nat>, nat) -> bool): set<nat> {
    set x | x in visited && x !in Staying(visited, |visited|, f) && x in mem && mem[x].next != Nil
  }

  lemma WalkDone(m0: Elements, t0: seq<Link>, c0: seq<seq<nat>>, v0: map<nat, nat>, m: Elements, t: seq<Link>,
                 c: seq<seq<nat>>, v: map<nat, nat>, h: nat -> nat, visited: seq<nat>, f: (seq<nat>, nat) -> bool)
    requires TableOk(m0, t0, c0, v0, h) && TableOk(m, t, c, v, h)
    requires SameButNext(m0, m) && OthersKept(m0, c0, m) && Narrowed(v0, v, c)
    requires visited == Order(c0) && Order(c) == Staying(visited, |visited|, f)
    ensures State(v, LeftOver(m, c)) == Walked(State(v0, LeftOver(m0, c0)), f, Visited(visited, LinkedOf(m, visited, f)))
    ensures WalkRight(State(v0, LeftOver(m0, c0)), f, Visited(visited, LinkedOf(m, visited, f)))
    ensures |v| <= |v0| && KeysOf(m) == KeysOf(m0)
  {
    hide TableOk, Has, LeftOver, Order, Staying;
    ValuesOnChains(m0, t0, c0, v0, h);
    ValuesOnChains(m, t, c, v, h);
    OrderOnce(m0, t0, c0);
    OrderOnce(m, t, c);
    StayingVisited(visited, |visited|, f);
    var staying := Staying(visited, |visited|, f);
    WalkedView(v0, v, c, staying);
    FewerEntries(v0, v);
    WalkedLeft(m0, c0, m, c, visited, staying, LinkedOf(m, visited, f));
  }

  // ---------- runs ----------

  method Do(ht: HashTable, op: Op, fresh_: bool, ghost keys: map<nat, nat>) returns (a: Answer)
    requires InOrder(ht) && keys == KeysOf(ht.mem) && Allowed(StateOf(ht), op, keys)
    modifies ht, ht.table
    ensures InOrder(ht) && (ht.table == old(ht.table) || fresh(ht.table)) && KeysOf(ht.mem) == keys
    ensures StateOf(ht) == Next(old(StateOf(ht)), op, keys, a) && Right(old(StateOf(ht)), op, keys, a)
    ensures ht.primeIdx <= old(ht.primeIdx) + 1
  {
    hide Right, Next, Allowed, InOrder;
    if op.Sweep? || op.Foreach? {
      a := DoWalk(ht, op, keys);
    } else {
      var r := DoElement(ht, op, fresh_, keys);
      a := Got(r);
    }
  }

  /** HT_REP_IS_BAD_ finds fault exactly when there are more entries than the longest table is for. */
  method Check(ht: HashTable) returns (bad: nat)
    requires InOrder(ht)
    ensures bad == 0 <==> |ht.view| <= 241591913
  {
    hide TableOk, RepOk;
    Basics(ht.mem, ht.table[..], ht.chains, ht.view, ht.h);
    RepOkIff(ht.mem, ht.table[..], ht.chains, ht.view, ht.h, ht.nEntries, ht.loadLimit, ht.primeIdx);
    Ladder(N_PRIMES - 1);
    FirstAndLast();
    if ht.primeIdx >= 0 { LimitsClimb(ht.primeIdx as nat, N_PRIMES - 1); }
    bad := RepIsBad(ht.mem, ht.table[..], ht.nEntries, ht.loadLimit, ht.primeIdx, ht.h, ht.chains);
  }

  /** What a program has made of the table when it got these answers. */
  ghost function StateAfter(s: State, program: seq<Answer> -> Op, keys: map<nat, nat>, answers: seq<Answer>): State {
    if answers == [] then s
    else
      var before := answers[..|answers| - 1];
      Next(StateAfter(s, program, keys, before), program(before), keys, answers[|answers| - 1])
  }

  /** They are answers a map would give. */
  ghost predicate AnswersRight(s: State, program: seq<Answer> -> Op, keys: map<nat, nat>, answers: seq<Answer>) {
    answers != [] ==>
      var before := answers[..|answers| - 1];
      && AnswersRight(s, program, keys, before)
      && Right(StateAfter(s, program, keys, before), program(before), keys, answers[|answers| - 1])
  }

  /** The program keeps to what is allowed for n operations, whatever right answers it gets. */
  ghost predicate KeepsRules(s: State, program: seq<Answer> -> Op, keys: map<nat, nat>, n: nat) {
    forall answers :: |answers| < n && AnswersRight(s, program, keys, answers)
                  ==> Allowed(StateAfter(s, program, keys, answers), program(answers), keys)
  }

  lemma OneMore(s: State, program: seq<Answer> -> Op, keys: map<nat, nat>, answers: seq<Answer>, a: Answer)
    requires AnswersRight(s, program, keys, answers) && Right(StateAfter(s, program, keys, answers), program(answers), keys, a)
    ensures AnswersRight(s, program, keys, answers + [a])
    ensures StateAfter(s, program, keys, answers + [a]) == Next(StateAfter(s, program, keys, answers), program(answers), keys, a)
  {
    assert (answers + [a])[..|answers|] == answers;
  }

  /**
   A program of n operations, each chosen from the answers before it: the answers are those of a map, the
   representation stays in order, and what HT_REP_IS_BAD_ says after each operation depends only on the
   number of entries.  HT_GROW never reads behind its table of lengths.
   */
  method Run(ht: HashTable, program: seq<Answer> -> Op, n: nat, ways: seq<bool>, ghost keys: map<nat, nat>)
      returns (answers: seq<Answer>, checks: seq<nat>)
    requires InOrder(ht) && keys == KeysOf(ht.mem) && |ways| == n && KeepsRules(StateOf(ht), program, keys, n)
    modifies ht, ht.table
    ensures InOrder(ht) && |answers| == |checks| == n && AnswersRight(old(StateOf(ht)), program, keys, answers)
    ensures StateOf(ht) == StateAfter(old(StateOf(ht)), program, keys, answers)
    ensures forall i :: 0 <= i < n ==>
              (checks[i] == 0 <==> |StateAfter(old(StateOf(ht)), program, keys, answers[..i + 1]).view| <= 241591913)
  {
    hide InOrder, LastLimit, Allowed, Right, Next, StateAfter, AnswersRight, LeftOver;
    answers, checks := [], [];
    ghost var s := StateOf(ht);
    NoneYet(s, program, keys);
    while |answers| < n
      invariant InOrder(ht) && (ht.table == old(ht.table) || fresh(ht.table)) && KeysOf(ht.mem) == keys
      invariant |answers| == |checks| <= n && AnswersRight(s, program, keys, answers)
      invariant StateOf(ht) == StateAfter(s, program, keys, answers)
      invariant forall i :: 0 <= i < |answers| ==>
                  (checks[i] == 0 <==> |StateAfter(s, program, keys, answers[..i + 1]).view| <= 241591913)
      decreases n - |answers|
    {
      var a := Do(ht, program(answers), ways[|answers|], keys);
      OneMore(s, program, keys, answers, a);
      ghost var before := answers;
      answers := answers + [a];
      assert answers[..|before| + 1] == answers;
      forall i | 0 <= i < |before|
        ensures checks[i] == 0 <==> |StateAfter(s, program, keys, answers[..i + 1]).view| <= 241591913
      {
        assert answers[..i + 1] == before[..i + 1];
      }
      var bad := Check(ht);
      checks := checks + [bad];
    }
  }

  lemma NoneYet(s: State, program: seq<Answer> -> Op, keys: map<nat, nat>)
    ensures AnswersRight(s, program, keys, []) && StateAfter(s, program, keys, []) == s
  {
  }
}
