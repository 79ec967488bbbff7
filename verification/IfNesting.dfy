/**
 Conditional directives: what it means that they are well nested, by a grammar, and by the stack machine
 that the annotator runs; and which #if a line belongs to, by counting.
 */
module IfNesting {

  /** A line of the file: an #if with its expression, one of the other directives, or anything else. */
  datatype Kind = Other | If(expr: string) | Elif | Else | Endif

  // ---------- the grammar ----------

  /** A part of a file that is complete in itself. */
  datatype Items = Nothing | Text(rest: Items) | Cond(expr: string, arms: Arms, rest: Items)
  /** What follows an #if line: its body, further arms, #else last if at all, and the #endif. */
  datatype Arms =
    | LastArm(body: Items)
    | ElifArm(body: Items, more: Arms)
    | ElseArm(body: Items, last: Items)

  function Flatten(t: Items): seq<Kind> {
    match t
    case Nothing => []
    case Text(rest) => [Other] + Flatten(rest)
    case Cond(expr, arms, rest) => [If(expr)] + FlattenArms(arms) + Flatten(rest)
  }
  function FlattenArms(a: Arms): seq<Kind> {
    match a
    case LastArm(body) => Flatten(body) + [Endif]
    case ElifArm(body, more) => Flatten(body) + [Elif] + FlattenArms(more)
    case ElseArm(body, last) => Flatten(body) + [Else] + Flatten(last) + [Endif]
  }

  ghost predicate WellNested(ks: seq<Kind>) {
    exists t :: ks == Flatten(t)
  }

  // ---------- the machine ----------

  /** The state: for each open #if, the innermost first, whether its #else has been seen. */
  function Accepts(open: seq<bool>, ks: seq<Kind>): bool
    decreases |ks|
  {
    if ks == [] then open == []
    else
      match ks[0]
      case Other => Accepts(open, ks[1..])
      case If(_) => Accepts([false] + open, ks[1..])
      case Elif => open != [] && !open[0] && Accepts(open, ks[1..])
      case Else => open != [] && !open[0] && Accepts([true] + open[1..], ks[1..])
      case Endif => open != [] && Accepts(open[1..], ks[1..])
  }

  lemma First(x: Kind, rest: seq<Kind>)
    ensures ([x] + rest)[0] == x && ([x] + rest)[1..] == rest
  {
  }

  /** Complete parts leave the machine where it was. */
  lemma {:induction false} AcceptsItems(open: seq<bool>, t: Items, ks: seq<Kind>)
    ensures Accepts(open, Flatten(t) + ks) == Accepts(open, ks)
    decreases t
  {
    match t
    case Nothing => assert [] + ks == ks;
    case Text(rest) =>
      assert Flatten(t) + ks == [Other] + (Flatten(rest) + ks);
      AcceptsItems(open, rest, ks);
    case Cond(expr, arms, rest) =>
      assert Flatten(t) + ks == [If(expr)] + (FlattenArms(arms) + (Flatten(rest) + ks));
      AcceptsArms(open, arms, Flatten(rest) + ks);
      AcceptsItems(open, rest, ks);
  }

  lemma {:induction false} AcceptsArms(open: seq<bool>, a: Arms, ks: seq<Kind>)
    ensures Accepts([false] + open, FlattenArms(a) + ks) == Accepts(open, ks)
    decreases a
  {
    match a
    case LastArm(body) =>
      assert FlattenArms(a) + ks == Flatten(body) + ([Endif] + ks);
      AcceptsItems([false] + open, body, [Endif] + ks);
      First(Endif, ks);
      assert ([false] + open)[1..] == open;
    case ElifArm(body, more) =>
      assert FlattenArms(a) + ks == Flatten(body) + ([Elif] + (FlattenArms(more) + ks));
      AcceptsItems([false] + open, body, [Elif] + (FlattenArms(more) + ks));
      First(Elif, FlattenArms(more) + ks);
      AcceptsArms(open, more, ks);
    case ElseArm(body, last) =>
      var tail := Flatten(last) + ([Endif] + ks);
      assert FlattenArms(a) + ks == Flatten(body) + ([Else] + tail);
      AcceptsItems([false] + open, body, [Else] + tail);
      First(Else, tail);
      assert [true] + ([false] + open)[1..] == [true] + open;
      AcceptsItems([true] + open, last, [Endif] + ks);
      First(Endif, ks);
      assert ([true] + open)[1..] == open;
  }

  /** The lines that close the open #ifs, each with what the grammar wants there, and then a complete part. */
  datatype Closing = End(t: Items) | OfIf(arms: Arms, more: Closing) | OfElse(last: Items, more: Closing)

  function FlattenClosing(c: Closing): seq<Kind> {
    match c
    case End(t) => Flatten(t)
    case OfIf(arms, more) => FlattenArms(arms) + FlattenClosing(more)
    case OfElse(last, more) => Flatten(last) + [Endif] + FlattenClosing(more)
  }

  predicate Closes(open: seq<bool>, c: Closing)
    decreases c
  {
    match c
    case End(_) => open == []
    case OfIf(_, more) => open != [] && !open[0] && Closes(open[1..], more)
    case OfElse(_, more) => open != [] && open[0] && Closes(open[1..], more)
  }

  /** The part that the next line belongs to. */
  function NextPart(c: Closing): Items {
    match c
    case End(t) => t
    case OfIf(arms, _) => arms.body
    case OfElse(last, _) => last
  }
  function WithNextPart(c: Closing, t: Items): Closing {
    match c
    case End(_) => End(t)
    case OfIf(arms, more) => OfIf(arms.(body := t), more)
    case OfElse(_, more) => OfElse(t, more)
  }

  /** What is put in front of the next part is put in front of everything. */
  lemma PutInFront(c: Closing, t: Items, p: seq<Kind>)
    requires Flatten(t) == p + Flatten(NextPart(c))
    ensures FlattenClosing(WithNextPart(c, t)) == p + FlattenClosing(c)
  {
    match c
    case End(_) =>
    case OfIf(arms, more) =>
      PutInFrontOfArms(arms, t, p);
      assert (p + FlattenArms(arms)) + FlattenClosing(more) == p + (FlattenArms(arms) + FlattenClosing(more));
    case OfElse(last, more) =>
      assert (p + Flatten(last)) + [Endif] + FlattenClosing(more) == p + (Flatten(last) + [Endif] + FlattenClosing(more));
  }

  lemma PutInFrontOfArms(arms: Arms, t: Items, p: seq<Kind>)
    requires Flatten(t) == p + Flatten(arms.body)
    ensures FlattenArms(arms.(body := t)) == p + FlattenArms(arms)
  {
    var b := Flatten(arms.body);
    match arms
    case LastArm(_) => assert (p + b) + [Endif] == p + (b + [Endif]);
    case ElifArm(_, more) => assert (p + b) + [Elif] + FlattenArms(more) == p + (b + [Elif] + FlattenArms(more));
    case ElseArm(_, last) => assert (p + b) + [Else] + Flatten(last) + [Endif] == p + (b + [Else] + Flatten(last) + [Endif]);
  }

  lemma StillCloses(open: seq<bool>, c: Closing, t: Items)
    requires Closes(open, c)
    ensures Closes(open, WithNextPart(c, t))
  {
  }

  /** The lines of a conditional, up to its #endif, before what closes the rest. */
  lemma CondInFront(expr: string, arms: Arms, more: Closing)
    ensures FlattenClosing(WithNextPart(more, Cond(expr, arms, NextPart(more))))
         == [If(expr)] + FlattenClosing(OfIf(arms, more))
  {
    var p := [If(expr)] + FlattenArms(arms);
    PutInFront(more, Cond(expr, arms, NextPart(more)), p);
    assert p + FlattenClosing(more) == [If(expr)] + (FlattenArms(arms) + FlattenClosing(more));
  }

  /** An arm or an end of one in front of what closes the rest. */
  lemma ArmInFront(arms: Arms, last: Items, more: Closing)
    ensures FlattenClosing(OfIf(ElifArm(Nothing, arms), more)) == [Elif] + FlattenClosing(OfIf(arms, more))
    ensures FlattenClosing(OfIf(ElseArm(Nothing, last), more)) == [Else] + FlattenClosing(OfElse(last, more))
    ensures FlattenClosing(OfIf(LastArm(Nothing), more)) == [Endif] + FlattenClosing(more)
    ensures FlattenClosing(OfElse(Nothing, more)) == [Endif] + FlattenClosing(more)
  {
    assert FlattenArms(ElifArm(Nothing, arms)) == [Elif] + FlattenArms(arms);
    assert FlattenArms(ElseArm(Nothing, last)) == [Else] + Flatten(last) + [Endif];
    assert FlattenArms(LastArm(Nothing)) == [Endif];
  }

  /** What the machine accepts closes what is open. */
  lemma {:induction false} AcceptedCloses(open: seq<bool>, ks: seq<Kind>) returns (c: Closing)
    requires Accepts(open, ks)
    ensures Closes(open, c) && FlattenClosing(c) == ks
    decreases |ks|
  {
    hide Flatten, FlattenArms;
    if ks == [] {
      return NoLines();
    }
    assert ks == [ks[0]] + ks[1..];
    match ks[0]
    case Other =>
      c := AcceptedCloses(open, ks[1..]);
      TextInFront(c);
      StillCloses(open, c, Text(NextPart(c)));
      return WithNextPart(c, Text(NextPart(c)));
    case If(expr) =>
      c := AcceptedCloses([false] + open, ks[1..]);
      assert ([false] + open)[1..] == open;
      CondInFront(expr, c.arms, c.more);
      StillCloses(open, c.more, Cond(expr, c.arms, NextPart(c.more)));
      return WithNextPart(c.more, Cond(expr, c.arms, NextPart(c.more)));
    case Elif =>
      c := AcceptedCloses(open, ks[1..]);
      ArmInFront(c.arms, Nothing, c.more);
      return OfIf(ElifArm(Nothing, c.arms), c.more);
    case Else =>
      c := AcceptedCloses([true] + open[1..], ks[1..]);
      assert ([true] + open[1..])[1..] == open[1..];
      ArmInFront(LastArm(Nothing), c.last, c.more);
      return OfIf(ElseArm(Nothing, c.last), c.more);
    case Endif =>
      c := AcceptedCloses(open[1..], ks[1..]);
      ArmInFront(LastArm(Nothing), Nothing, c);
      return if open[0] then OfElse(Nothing, c) else OfIf(LastArm(Nothing), c);
  }

  function NoLines(): (c: Closing)
    ensures FlattenClosing(c) == [] && c.End?
  {
    End(Nothing)
  }

  lemma TextInFront(c: Closing)
    ensures FlattenClosing(WithNextPart(c, Text(NextPart(c)))) == [Other] + FlattenClosing(c)
  {
    PutInFront(c, Text(NextPart(c)), [Other]);
  }

  /** The machine accepts exactly the well nested files. */
  lemma AcceptsIffWellNested(ks: seq<Kind>)
    ensures Accepts([], ks) <==> WellNested(ks)
  {
    if Accepts([], ks) {
      var c := AcceptedCloses([], ks);
      assert ks == Flatten(c.t);
    }
    if WellNested(ks) {
      var t :| ks == Flatten(t);
      AcceptsItems([], t, []);
      assert Flatten(t) + [] == ks;
    }
  }

  // ---------- which #if a line belongs to ----------

  /** The #ifs among the first i lines, less the #endifs. */
  function Depth(ks: seq<Kind>, i: nat): int
    requires i <= |ks|
  {
    if i == 0 then 0
    else Depth(ks, i - 1) + if ks[i - 1].If? then 1 else if ks[i - 1].Endif? then -1 else 0
  }

  /** Line i is inside the conditional of the #if at j, and in no other one in between. */
  ghost predicate Innermost(ks: seq<Kind>, j: nat, i: nat)
    requires i <= |ks|
  {
    && j < i && ks[j].If? && Depth(ks, i) == Depth(ks, j) + 1
    && (forall k {:trigger Depth(ks, k)} :: j < k <= i ==> Depth(ks, k) > Depth(ks, j))
  }

  /** There is at most one such #if. */
  lemma InnermostUnique(ks: seq<Kind>, j: nat, k: nat, i: nat)
    requires i <= |ks| && Innermost(ks, j, i) && Innermost(ks, k, i)
    ensures j == k
  {
  }

  /** The conditional of the #if at j has such an arm before line i. */
  ghost predicate HasElif(ks: seq<Kind>, j: nat, i: nat)
    requires i <= |ks|
  {
    exists k :: j < k < i && ks[k].Elif? && Innermost(ks, j, k)
  }
  ghost predicate HasElse(ks: seq<Kind>, j: nat, i: nat)
    requires i <= |ks|
  {
    exists k :: j < k < i && ks[k].Else? && Innermost(ks, j, k)
  }

  /** An open #if at line i: its line, and what arms it has had. */
  datatype Frame = Frame(j: nat, hasElif: bool, hasElse: bool)

  ghost predicate FrameOk(ks: seq<Kind>, i: nat, fs: seq<Frame>, d: nat)
    requires i <= |ks| && d < |fs|
  {
    var f := fs[d];
    && f.j < i && ks[f.j].If? && Depth(ks, f.j) == d
    && (forall k {:trigger Depth(ks, k)} :: f.j < k <= i ==> Depth(ks, k) > d)
    && (f.hasElif <==> HasElif(ks, f.j, i)) && (f.hasElse <==> HasElse(ks, f.j, i))
  }

  /** The frames, the outermost first, are those of the #ifs open at line i. */
  ghost predicate FramesOk(ks: seq<Kind>, i: nat, fs: seq<Frame>)
    requires i <= |ks|
  {
    Depth(ks, i) == |fs| && forall d {:trigger FrameOk(ks, i, fs, d)} :: 0 <= d < |fs| ==> FrameOk(ks, i, fs, d)
  }

  /** The last frame is that of the innermost #if. */
  lemma LastIsInnermost(ks: seq<Kind>, i: nat, fs: seq<Frame>)
    requires i <= |ks| && FramesOk(ks, i, fs) && fs != []
    ensures Innermost(ks, fs[|fs| - 1].j, i)
  {
    assert FrameOk(ks, i, fs, |fs| - 1);
  }

  /** An arm at line i is of the innermost #if only. */
  lemma ArmsNext(ks: seq<Kind>, i: nat, j: nat)
    requires i < |ks|
    ensures HasElif(ks, j, i + 1) <==> HasElif(ks, j, i) || (ks[i].Elif? && Innermost(ks, j, i))
    ensures HasElse(ks, j, i + 1) <==> HasElse(ks, j, i) || (ks[i].Else? && Innermost(ks, j, i))
  {
  }

  /** What each line does to the frames. */
  function FramesAfter(ks: seq<Kind>, i: nat, fs: seq<Frame>): seq<Frame>
    requires i < |ks|
  {
    var n := |fs|;
    match ks[i]
    case Other => fs
    case If(_) => fs + [Frame(i, false, false)]
    case Elif => if n == 0 then fs else fs[n - 1 := fs[n - 1].(hasElif := true)]
    case Else => if n == 0 then fs else fs[n - 1 := fs[n - 1].(hasElse := true)]
    case Endif => if n == 0 then fs else fs[..n - 1]
  }

  lemma FramesNext(ks: seq<Kind>, i: nat, fs: seq<Frame>)
    requires i < |ks| && FramesOk(ks, i, fs) && (fs == [] ==> ks[i].Other? || ks[i].If?)
    ensures FramesOk(ks, i + 1, FramesAfter(ks, i, fs))
  {
    var gs, next := FramesAfter(ks, i, fs), i + 1;
    forall d | 0 <= d < |gs| ensures FrameOk(ks, next, gs, d) {
      if d < |fs| {
        assert FrameOk(ks, i, fs, d);
        ArmsNext(ks, i, fs[d].j);
        InnermostIsLast(ks, i, fs, d);
      } else {
        NoArmsYet(ks, i);
      }
    }
  }

  lemma InnermostIsLast(ks: seq<Kind>, i: nat, fs: seq<Frame>, d: nat)
    requires i <= |ks| && FramesOk(ks, i, fs) && d < |fs|
    ensures Innermost(ks, fs[d].j, i) <==> d == |fs| - 1
  {
    assert FrameOk(ks, i, fs, d);
    LastIsInnermost(ks, i, fs);
  }

  lemma NoArmsYet(ks: seq<Kind>, i: nat)
    requires i < |ks|
    ensures !HasElif(ks, i, i + 1) && !HasElse(ks, i, i + 1)
  {
  }
}
