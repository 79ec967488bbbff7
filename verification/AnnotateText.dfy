/**
 The text that the annotator writes, in characters: which #else and #endif lines name which expression,
 and how; seen from the structure of the file, and not from the counting of directives.
 */
module AnnotateText {
  import opened CommentedLines
  import opened IfNesting
  import opened AnnotateFile

  // ---------- where lines are in the structure ----------

  ghost predicate PartAt(ks: seq<Kind>, at: nat, p: seq<Kind>) {
    at + |p| <= |ks| && ks[at..at + |p|] == p
  }

  lemma PartCat(ks: seq<Kind>, at: nat, p: seq<Kind>, q: seq<Kind>)
    ensures PartAt(ks, at, p + q) <==> PartAt(ks, at, p) && PartAt(ks, at + |p|, q)
  {
    if at + |p| + |q| <= |ks| {
      assert ks[at..at + |p| + |q|] == ks[at..at + |p|] + ks[at + |p|..at + |p| + |q|];
      if PartAt(ks, at, p + q) {
        assert ks[at..at + |p|] == (p + q)[..|p|];
        assert ks[at + |p|..at + |p| + |q|] == (p + q)[|p|..];
      }
    }
  }

  lemma PartOne(ks: seq<Kind>, at: nat, x: Kind)
    ensures PartAt(ks, at, [x]) <==> at < |ks| && ks[at] == x
  {
  }

  /** From line a up to line z the depth is d at least, and more at an #elif. */
  ghost predicate Deep(ks: seq<Kind>, a: nat, z: nat, d: int)
    requires a <= z <= |ks|
  {
    && (forall k {:trigger Depth(ks, k)} :: a <= k < z ==> Depth(ks, k) >= d)
    && (forall k {:trigger ks[k].Elif?} :: a <= k < z && ks[k].Elif? ==> Depth(ks, k) > d)
  }

  lemma Joined(ks: seq<Kind>, a: nat, m: nat, z: nat, d: int, e: int)
    requires a <= m <= z <= |ks| && Deep(ks, a, m, d) && Deep(ks, m, z, e) && e <= d
    ensures Deep(ks, a, z, e)
  {
  }

  /** A single line. */
  lemma OneLine(ks: seq<Kind>, at: nat, d: int)
    requires at < |ks| && (Depth(ks, at) > d || (Depth(ks, at) == d && !ks[at].Elif?))
    ensures Deep(ks, at, at + 1, d)
    ensures Depth(ks, at + 1) == Depth(ks, at) + if ks[at].If? then 1 else if ks[at].Endif? then -1 else 0
  {
  }

  /** A complete part ends at the depth it began at, and is nowhere above it. */
  lemma {:induction false} ItemsDeep(ks: seq<Kind>, at: nat, t: Items)
    requires PartAt(ks, at, Flatten(t))
    ensures var z := at + |Flatten(t)|; Depth(ks, z) == Depth(ks, at) && Deep(ks, at, z, Depth(ks, at))
    decreases t, 0
  {
    hide PartAt, Deep, Depth;
    Within(ks, at, Flatten(t));
    var d, z := Depth(ks, at), at + |Flatten(t)|;
    match t
    case Nothing => NoLine(ks, at, d);
    case Text(rest) =>
      PartCat(ks, at, [Other], Flatten(rest));
      PartOne(ks, at, Other);
      OneLine(ks, at, d);
      ItemsDeep(ks, at + 1, rest);
      Joined(ks, at, at + 1, z, d, d);
    case Cond(expr, arms, rest) =>
      var m := at + 1 + |FlattenArms(arms)|;
      PartCat(ks, at, [If(expr)] + FlattenArms(arms), Flatten(rest));
      PartCat(ks, at, [If(expr)], FlattenArms(arms));
      PartOne(ks, at, If(expr));
      OneLine(ks, at, d);
      ArmsDeep(ks, at + 1, arms);
      ItemsDeep(ks, m, rest);
      Joined(ks, at, at + 1, m, d, d);
      Joined(ks, at, m, z, d, d);
  }

  lemma Within(ks: seq<Kind>, at: nat, p: seq<Kind>)
    requires PartAt(ks, at, p)
    ensures at + |p| <= |ks|
  {
  }

  lemma NoLine(ks: seq<Kind>, at: nat, d: int)
    requires at <= |ks|
    ensures Deep(ks, at, at, d)
  {
  }

  /** The rest of a conditional ends one level up, with its #endif. */
  lemma {:induction false} ArmsDeep(ks: seq<Kind>, at: nat, a: Arms)
    requires PartAt(ks, at, FlattenArms(a))
    ensures var z := at + |FlattenArms(a)|;
            Depth(ks, z) == Depth(ks, at) - 1 && Deep(ks, at, z, Depth(ks, at) - 1)
    decreases a, 0
  {
    hide PartAt, Deep, Depth;
    Within(ks, at, FlattenArms(a));
    match a
    case LastArm(body) =>
      PartCat(ks, at, Flatten(body), [Endif]);
      BodyAndLine(ks, at, body, Endif);
    case ElifArm(body, more) =>
      var m := at + |Flatten(body)| + 1;
      PartCat(ks, at, Flatten(body) + [Elif], FlattenArms(more));
      BodyAndLine(ks, at, body, Elif);
      ArmsDeep(ks, m, more);
      Joined(ks, at, m, m + |FlattenArms(more)|, Depth(ks, at) - 1, Depth(ks, at) - 1);
    case ElseArm(body, last) =>
      var m := at + |Flatten(body)| + 1;
      PartCat(ks, at, Flatten(body) + [Else] + Flatten(last), [Endif]);
      PartCat(ks, at, Flatten(body) + [Else], Flatten(last));
      BodyAndLine(ks, at, body, Else);
      PartCat(ks, m, Flatten(last), [Endif]);
      BodyAndLine(ks, m, last, Endif);
      Joined(ks, at, m, m + |Flatten(last)| + 1, Depth(ks, at) - 1, Depth(ks, at) - 1);
  }

  /** A body and the directive that ends it. */
  lemma {:induction false} BodyAndLine(ks: seq<Kind>, at: nat, body: Items, x: Kind)
    requires PartAt(ks, at, Flatten(body) + [x]) && !x.If?
    ensures var z := at + |Flatten(body)| + 1;
            && z <= |ks| && Depth(ks, z) == Depth(ks, at) - (if x.Endif? then 1 else 0)
            && Deep(ks, at, z, Depth(ks, at) - 1)
    decreases body, 1
  {
    hide PartAt, Deep, Depth;
    var m := at + |Flatten(body)|;
    PartCat(ks, at, Flatten(body), [x]);
    PartOne(ks, m, x);
    var d := Depth(ks, at);
    ItemsDeep(ks, at, body);
    OneLine(ks, m, d - 1);
    Joined(ks, at, m, m + 1, d, d - 1);
  }

  /** The bodies of arms that end with #elif, and these #elifs. */
  function Elifs(bodies: seq<Items>): seq<Kind> {
    if bodies == [] then [] else Flatten(bodies[0]) + [Elif] + Elifs(bodies[1..])
  }

  lemma NoBodies()
    ensures Elifs([]) == []
  {
  }

  /** They leave the depth as it is, are nowhere above it, and have an #elif at it, if there is any. */
  lemma {:induction false} ElifsDeep(ks: seq<Kind>, at: nat, bodies: seq<Items>)
    requires PartAt(ks, at, Elifs(bodies))
    ensures var z := at + |Elifs(bodies)|;
            && z <= |ks| && Depth(ks, z) == Depth(ks, at)
            && (forall k {:trigger Depth(ks, k)} :: at <= k <= z ==> Depth(ks, k) >= Depth(ks, at))
            && (bodies != [] ==> exists k :: at <= k < z && ks[k].Elif? && Depth(ks, k) == Depth(ks, at))
    decreases |bodies|
  {
    hide PartAt, Flatten, Depth;
    Within(ks, at, Elifs(bodies));
    if bodies != [] {
      var m := at + |Flatten(bodies[0])|;
      PartCat(ks, at, Flatten(bodies[0]) + [Elif], Elifs(bodies[1..]));
      PartCat(ks, at, Flatten(bodies[0]), [Elif]);
      PartOne(ks, m, Elif);
      ItemsDeep(ks, at, bodies[0]);
      OneLine(ks, m, Depth(ks, at) - 1);
      ElifsDeep(ks, m + 1, bodies[1..]);
    }
  }

  /** A line in the conditional of the #if at j, behind these arms and a body: what the annotator counts there. */
  lemma InArm(ks: seq<Kind>, j: nat, e: string, bodies: seq<Items>, body: Items)
    requires PartAt(ks, j, [If(e)] + Elifs(bodies) + Flatten(body))
    ensures var i := j + 1 + |Elifs(bodies)| + |Flatten(body)|;
            i <= |ks| && ks[j] == If(e) && Innermost(ks, j, i) && (HasElif(ks, j, i) <==> bodies != [])
  {
    hide PartAt, Flatten, Elifs, Depth;
    var m, i := j + 1 + |Elifs(bodies)|, j + 1 + |Elifs(bodies)| + |Flatten(body)|;
    Within(ks, j, [If(e)] + Elifs(bodies) + Flatten(body));
    PartCat(ks, j, [If(e)] + Elifs(bodies), Flatten(body));
    PartCat(ks, j, [If(e)], Elifs(bodies));
    PartOne(ks, j, If(e));
    OneLine(ks, j, Depth(ks, j));
    ElifsDeep(ks, j + 1, bodies);
    ItemsDeep(ks, m, body);
    if bodies != [] {
      var k :| j + 1 <= k < m && ks[k].Elif? && Depth(ks, k) == Depth(ks, j + 1);
      assert Innermost(ks, j, k);
    } else {
      assert |Elifs(bodies)| == 0 by { NoBodies(); }
    }
  }

  // ---------- expressions ----------

  lemma {:induction false} CountCharIs(s: string, c: char)
    ensures CountChar(s, c) == |set i | 0 <= i < |s| && s[i] == c|
    ensures CountChar(s, c) == 0 <==> c !in s
  {
    if s != "" {
      var n := |s| - 1;
      var t := s[..n];
      CountCharIs(t, c);
      var a, b := set i | 0 <= i < |t| && t[i] == c, set i | 0 <= i < |s| && s[i] == c;
      assert s == t + [s[n]] && n !in a;
      assert b == if s[n] == c then a + {n} else a;
    }
  }

  lemma {:induction false} OnlyClosing(n: int)
    ensures forall c :: c in CommentedLines.Closing(n) ==> c == ')'
  {
    if n > 0 { OnlyClosing(n - 1); }
  }

  /** How many of the parentheses opened by the first k characters they do not close. */
  function Unclosed(e: string, k: nat): nat
    requires k <= |e|
  {
    var (opens, closes) := (|set i | 0 <= i < k && e[i] == '('|, |set i | 0 <= i < k && e[i] == ')'|);
    if opens > closes then opens - closes else 0
  }

  /** The first k characters, three dots, and a ')' for each one that they leave open. */
  ghost predicate CutAt(e: string, k: nat, t: string)
    requires k <= |e|
  {
    && |t| == k + 3 + Unclosed(e, k) && t[..k + 3] == e[..k] + "..."
    && forall i :: k + 3 <= i < |t| ==> t[i] == ')'
  }

  lemma RebalancedIs(e: string, k: nat)
    requires k <= |e|
    ensures CutAt(e, k, Rebalanced(e, k))
  {
    hide CountChar;
    var p := e[..k];
    CountConcat(p, ELLIPSIS, '(');
    CountConcat(p, ELLIPSIS, ')');
    EllipsisCounts();
    CountCharIs(p, '(');
    CountCharIs(p, ')');
    assert (set i | 0 <= i < |p| && p[i] == '(') == (set i | 0 <= i < k && e[i] == '(');
    assert (set i | 0 <= i < |p| && p[i] == ')') == (set i | 0 <= i < k && e[i] == ')');
    var c := CommentedLines.Closing(CloseParensNeeded(p + ELLIPSIS));
    OnlyClosing(CloseParensNeeded(p + ELLIPSIS));
    assert forall i :: 0 <= i < |c| ==> c[i] in c;
  }

  /** An expression that does not fit is cut at the last place at which it fits, and to the dots if there is none. */
  lemma TruncateCuts(e: string, width: nat)
    requires |e| > width
    ensures var t := Truncate(e, width);
            || (t == "..." && forall m :: 0 < m < |e| ==> m + 3 + Unclosed(e, m) > width)
            || (exists k :: 0 < k < |e| && CutAt(e, k, t) && |t| <= width
                            && forall m :: k < m < |e| ==> m + 3 + Unclosed(e, m) > width)
  {
    hide Rebalanced, Unclosed, Truncate;
    TruncateIsLongestFit(e, width);
    forall m {:trigger Unclosed(e, m)} | 0 < m < |e| ensures CutAt(e, m, Rebalanced(e, m)) { RebalancedIs(e, m); }
    if !(Truncate(e, width) == ELLIPSIS && forall k :: 0 < k < |e| ==> |Rebalanced(e, k)| > width) {
      var k :| 0 < k < |e| && Truncate(e, width) == Rebalanced(e, k) && forall m :: k < m < |e| ==> |Rebalanced(e, m)| > width;
      RebalancedIs(e, k);
    }
  }

  /** No white space at either end. */
  predicate Stripped(e: string) {
    e == "" || (e[0] !in " \t\n\r\U{B}\U{C}\U{1C}\U{1D}\U{1E}\U{1F}" && e[|e| - 1] !in " \t\n\r\U{B}\U{C}\U{1C}\U{1D}\U{1E}\U{1F}")
  }

  lemma StrippedStays(e: string)
    requires Stripped(e)
    ensures Strip(e) == e
  {
  }

  /** The only closing parenthesis is the last character. */
  lemma EnclosedIs(open: string, x: string)
    requires ')' !in x
    ensures Enclosed(open + x + ")", open) == (true, x)
  {
    var s := open + x + ")";
    CountCharIs(x, ')');
    assert s[..|open|] == open && s[|open|..|s| - 1] == x;
  }

  predicate AllSpace(w: string) { forall i :: 0 <= i < |w| ==> w[i] in " \t\n\r\U{B}\U{C}\U{1C}\U{1D}\U{1E}\U{1F}" }

  lemma {:induction false} SpaceGoes(w: string, t: string)
    requires AllSpace(w)
    requires t == "" || !IsSpace(t[0])
    ensures LStrip(w + t) == t
  {
    if w == "" {
      assert w + t == t;
    } else {
      assert (w + t)[1..] == w[1..] + t;
      SpaceGoes(w[1..], t);
    }
  }

  /** A negation is taken off, with the white space that it has behind the mark. */
  lemma NegateInside(w: string, x: string)
    requires AllSpace(w) && ')' !in x
    ensures Negate("!" + w + "(" + x + ")") == x
  {
    hide CountChar, LStrip, RStrip, Strip;
    var e, t := "!" + w + "(" + x + ")", "(" + x + ")";
    StrippedStays(e);
    assert e[1..] == w + t;
    SpaceGoes(w, t);
    EnclosedIs("(", x);
  }

  /** A defined(...) loses its mark or gets one. */
  lemma NegateDefinedText(w: string, x: string)
    requires AllSpace(w) && ')' !in x
    ensures Negate("defined(" + x + ")") == "!defined(" + x + ")"
    ensures Negate("!" + w + "defined(" + x + ")") == "defined(" + x + ")"
  {
    hide CountChar, LStrip, RStrip, Strip, Enclosed;
    var d := "defined(" + x + ")";
    EnclosedIs("defined(", x);
    NegateDefined(d);
    assert "!" + d == "!defined(" + x + ")";
    var e := "!" + w + d;
    assert e == "!" + w + "defined(" + x + ")";
    StrippedStays(e);
    assert e[1..] == w + d;
    SpaceGoes(w, d);
    NotEnclosed(d, "(");
  }

  /** Anything else is wrapped: what ends in no ')', or has another one, or begins neither with '!' nor with defined(. */
  lemma NegateWraps(e: string)
    requires Stripped(e)
    requires || e == "" || e[|e| - 1] != ')' || ')' in e[..|e| - 1]
             || (e[0] != '!' && !("defined(" <= e))
    ensures Negate(e) == "!(" + e + ")"
  {
    hide CountChar, LStrip, RStrip, Strip, Enclosed;
    StrippedStays(e);
    NotEnclosed(e, "defined(");
    if e != "" && e[0] == '!' {
      var t := e[1..];
      assert e[..|e| - 1] == if t == "" then "" else "!" + t[..|t| - 1];
      BehindSpace(t);
      NotEnclosed(LStrip(e[1..]), "(");
      NotEnclosed(LStrip(e[1..]), "defined(");
    }
  }

  lemma {:induction false} BehindSpace(s: string)
    ensures LStrip(s) != "" ==> s != "" && LStrip(s)[|LStrip(s)| - 1] == s[|s| - 1]
    ensures s != "" && ')' in s[..|s| - 1] ==> LStrip(s) != "" && ')' in LStrip(s)[..|LStrip(s)| - 1]
    decreases |s|
  {
    if s != "" && IsSpace(s[0]) {
      BehindSpace(s[1..]);
      if ')' in s[..|s| - 1] { assert s[..|s| - 1] == [s[0]] + s[1..][..|s| - 2]; }
    }
  }

  lemma NotEnclosed(e: string, open: string)
    requires e == "" || e[|e| - 1] != ')' || !(open <= e) || ')' in e[..|e| - 1]
    requires ')' !in open
    ensures !Enclosed(e, open).0
  {
    if |open| < |e| && open <= e {
      var x := e[|open|..|e| - 1];
      CountCharIs(x, ')');
      assert e[..|e| - 1] == open + x;
    }
  }

  // ---------- the annotated lines ----------

  /** What the line of an arm's #else or of an #endif is made from. */
  lemma LineOf(ks: seq<Kind>, j: nat, i: nat, line: string, r: string)
    requires i < |ks| && Innermost(ks, j, i) && LineOk(ks, i, line, r) && (ks[i].Else? || ks[i].Endif?)
    ensures r == Annotated(ks, j, i, line)
  {
    hide Depth;
    var k :| 0 <= k < i && Innermost(ks, k, i) && r == Annotated(ks, k, i, line);
    InnermostUnique(ks, j, k, i);
  }

  lemma Filled(fmt: Format, n: string)
    requires |fmt.pre| + 3 + |fmt.post| <= 80
    ensures |n| <= 80 - |fmt.pre| - |fmt.post| ==> Commented(fmt, n) == fmt.pre + n + fmt.post
    ensures |n| > 80 - |fmt.pre| - |fmt.post| ==>
              Commented(fmt, n) == fmt.pre + Truncate(n, 80 - |fmt.pre| - |fmt.post|) + fmt.post
  {
  }

  /**
   The #else of a conditional: as it was within four lines or behind an #elif; otherwise it names the negation,
   as much of it as fits into 80 columns.
   */
  lemma ElseNames(ks: seq<Kind>, j: nat, e: string, bodies: seq<Items>, body: Items, line: string, r: string)
    requires PartAt(ks, j, [If(e)] + Elifs(bodies) + Flatten(body) + [Else])
    requires LineOk(ks, j + 1 + |Elifs(bodies)| + |Flatten(body)|, line, r)
    ensures var below := 1 + |Elifs(bodies)| + |Flatten(body)|;
            if below <= 4 || bodies != [] then r == line
            else if |Negate(e)| <= 67 then r == "#else /* " + Negate(e) + " */\n"
            else r == "#else /* " + Truncate(Negate(e), 67) + " */\n"
  {
    hide PartAt, Flatten, Elifs, Negate, Innermost, LineOk, Commented, Truncate;
    var i := j + 1 + |Elifs(bodies)| + |Flatten(body)|;
    PartCat(ks, j, [If(e)] + Elifs(bodies) + Flatten(body), [Else]);
    PartOne(ks, i, Else);
    InArm(ks, j, e, bodies, body);
    LineOf(ks, j, i, line, r);
    Filled(ELSE_LINE, Negate(e));
  }

  /** The same as text, when it fits. */
  lemma ElseText(ks: seq<Kind>, j: nat, e: string, body: Items, line: string, r: string, w: string, x: string)
    requires PartAt(ks, j, [If(e)] + Flatten(body) + [Else]) && |Flatten(body)| >= 4
    requires LineOk(ks, j + 1 + |Flatten(body)|, line, r) && AllSpace(w) && ')' !in x
    ensures e == x && Stripped(x) && |e| <= 64 ==> r == "#else /* !(" + e + ") */\n"
    ensures e == "defined(" + x + ")" && |e| <= 66 ==> r == "#else /* !" + e + " */\n"
    ensures e == "!" + w + "(" + x + ")" && |x| <= 67 ==> r == "#else /* " + x + " */\n"
    ensures e == "!" + w + "defined(" + x + ")" && |x| <= 58 ==> r == "#else /* defined(" + x + ") */\n"
  {
    hide PartAt, Flatten, Negate, LineOk, Truncate;
    assert [If(e)] + Elifs([]) + Flatten(body) + [Else] == [If(e)] + Flatten(body) + [Else];
    ElseNames(ks, j, e, [], body, line, r);
    if e == x && Stripped(x) {
      NegateWraps(e);
      assert "#else /* " + Negate(e) + " */\n" == "#else /* !(" + e + ") */\n";
    }
    NegateDefinedText(w, x);
    NegateInside(w, x);
  }

  /** Behind an #else, too, a line belongs to the #if. */
  lemma BehindElse(ks: seq<Kind>, j: nat, i: nat, last: Items)
    requires PartAt(ks, i, [Else] + Flatten(last)) && Innermost(ks, j, i)
    ensures var z := i + 1 + |Flatten(last)|;
            z <= |ks| && Innermost(ks, j, z) && (HasElif(ks, j, z) <==> HasElif(ks, j, i))
  {
    hide PartAt, Flatten, Depth;
    Within(ks, i, [Else] + Flatten(last));
    PartCat(ks, i, [Else], Flatten(last));
    PartOne(ks, i, Else);
    OneLine(ks, i, Depth(ks, i));
    ItemsDeep(ks, i + 1, last);
  }

  lemma EndifFilled(e: string)
    ensures Commented(ENDIF_LINE, e) == if |e| <= 66 then "#endif /* " + e + " */\n" else "#endif /* " + Truncate(e, 66) + " */\n"
    ensures Commented(ENDIF_MORE_LINE, e)
         == if |e| <= 59 then "#endif /* " + e + " || ... */\n" else "#endif /* " + Truncate(e, 59) + " || ... */\n"
  {
    hide Truncate, Commented;
    Filled(ENDIF_LINE, e);
    Filled(ENDIF_MORE_LINE, e);
  }

  /**
   The #endif of a conditional with or without an #else: as it was within four lines; otherwise it names the
   expression, and " || ..." exactly when there was an #elif.
   */
  lemma EndifText(ks: seq<Kind>, j: nat, e: string, bodies: seq<Items>, body: Items, els: seq<Items>, line: string, r: string)
    requires |els| <= 1
    requires PartAt(ks, j, [If(e)] + Elifs(bodies) + Flatten(body) + (if els == [] then [] else [Else] + Flatten(els[0])) + [Endif])
    requires LineOk(ks, j + 1 + |Elifs(bodies)| + |Flatten(body)| + (if els == [] then 0 else 1 + |Flatten(els[0])|), line, r)
    ensures var below := 1 + |Elifs(bodies)| + |Flatten(body)| + (if els == [] then 0 else 1 + |Flatten(els[0])|);
            if below <= 4 then r == line
            else if bodies == [] then
              if |e| <= 66 then r == "#endif /* " + e + " */\n"
              else r == "#endif /* " + Truncate(e, 66) + " */\n"
            else
              if |e| <= 59 then r == "#endif /* " + e + " || ... */\n"
              else r == "#endif /* " + Truncate(e, 59) + " || ... */\n"
  {
    hide PartAt, Flatten, Elifs, Innermost, LineOk, Commented, Truncate, HasElif;
    var p, q := [If(e)] + Elifs(bodies) + Flatten(body), if els == [] then [] else [Else] + Flatten(els[0]);
    var i := j + |p| + |q|;
    PartCat(ks, j, p + q, [Endif]);
    PartCat(ks, j, p, q);
    PartOne(ks, i, Endif);
    InArm(ks, j, e, bodies, body);
    if els != [] { BehindElse(ks, j, j + |p|, els[0]); }
    LineOf(ks, j, i, line, r);
    EndifFilled(e);
  }
}
