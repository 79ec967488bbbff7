/**
 The comments that annotate_ifdef_directives.py puts behind #else and #endif: an expression, cut down to
 fit into a line, and negated for #else.
 */
module CommentedLines {

  const LINE_WIDTH: nat := 80
  const ELLIPSIS := "..."

  // ---------- parentheses ----------

  function CountChar(s: string, c: char): nat {
    if s == "" then 0 else CountChar(s[..|s| - 1], c) + if s[|s| - 1] == c then 1 else 0
  }

  lemma {:induction false} CountConcat(s: string, t: string, c: char)
    ensures CountChar(s + t, c) == CountChar(s, c) + CountChar(t, c)
  {
    if t == "" {
      assert s + t == s;
    } else {
      assert (s + t)[..|s + t| - 1] == s + t[..|t| - 1];
      CountConcat(s, t[..|t| - 1], c);
    }
  }

  function CloseParensNeeded(expr: string): int { CountChar(expr, '(') - CountChar(expr, ')') }

  /** ")" * n */
  function Closing(n: int): (r: string)
    ensures |r| == if n < 0 then 0 else n
  {
    if n <= 0 then "" else Closing(n - 1) + ")"
  }

  lemma {:induction false} ClosingCounts(n: int)
    ensures CountChar(Closing(n), '(') == 0 && CountChar(Closing(n), ')') == |Closing(n)|
  {
    if n > 0 {
      ClosingCounts(n - 1);
      assert Closing(n)[..n - 1] == Closing(n - 1);
    }
  }

  // ---------- truncate_expression ----------

  /** The first k characters, the ellipsis, and the parentheses that are then missing. */
  function Rebalanced(expr: string, k: nat): string
    requires k <= |expr|
  {
    var t := expr[..k] + ELLIPSIS;
    t + Closing(CloseParensNeeded(t))
  }

  /** What is left of k characters is balanced unless it closes more than it opens. */
  lemma RebalancedIsBalanced(expr: string, k: nat)
    requires k <= |expr|
    ensures CloseParensNeeded(Rebalanced(expr, k))
         == if CloseParensNeeded(expr[..k]) >= 0 then 0 else CloseParensNeeded(expr[..k])
  {
    var t := expr[..k] + ELLIPSIS;
    CountConcat(expr[..k], ELLIPSIS, '(');
    CountConcat(expr[..k], ELLIPSIS, ')');
    EllipsisCounts();
    var n := CloseParensNeeded(t);
    CountConcat(t, Closing(n), '(');
    CountConcat(t, Closing(n), ')');
    ClosingCounts(n);
  }

  lemma EllipsisCounts()
    ensures CountChar(ELLIPSIS, '(') == 0 && CountChar(ELLIPSIS, ')') == 0
  {
    DotsCount('(');
    DotsCount(')');
  }

  lemma DotsCount(c: char)
    requires c != '.'
    ensures CountChar(ELLIPSIS, c) == 0
  {
    assert "."[..0] == "";
    CountConcat(".", ".", c);
    CountConcat("..", ".", c);
    assert "." + "." == ".." && ".." + "." == ELLIPSIS;
  }

  /** The longest of the first k prefixes that fits when rebalanced; not even one character may fit. */
  function Truncated(expr: string, width: nat, k: nat): string
    requires k < |expr|
  {
    if k == 0 then ELLIPSIS
    else if |Rebalanced(expr, k)| <= width then Rebalanced(expr, k)
    else Truncated(expr, width, k - 1)
  }

  function Truncate(expr: string, width: nat): string {
    if |expr| <= width then expr else Truncated(expr, width, |expr| - 1)
  }

  /** An expression that fits is left alone; of any other as much is kept as fits with its parentheses closed. */
  ghost predicate LongestFit(expr: string, width: nat, r: string) {
    if |expr| <= width then r == expr
    else
      || (r == ELLIPSIS && forall k :: 0 < k < |expr| ==> |Rebalanced(expr, k)| > width)
      || (exists k :: 0 < k < |expr| && r == Rebalanced(expr, k) && |r| <= width
                      && forall m :: k < m < |expr| ==> |Rebalanced(expr, m)| > width)
  }

  lemma TruncateIsLongestFit(expr: string, width: nat)
    ensures LongestFit(expr, width, Truncate(expr, width))
    ensures 3 <= width ==> |Truncate(expr, width)| <= width
  {
    if |expr| > width { TruncatedFits(expr, width, |expr| - 1); }
  }

  lemma {:induction false} TruncatedFits(expr: string, width: nat, k: nat)
    requires k < |expr| && width < |expr| && forall m :: k < m < |expr| ==> |Rebalanced(expr, m)| > width
    ensures LongestFit(expr, width, Truncated(expr, width, k))
  {
    if k != 0 && |Rebalanced(expr, k)| > width { TruncatedFits(expr, width, k - 1); }
  }

  /** Prefixes too long for the ellipsis need not be looked at. */
  lemma {:induction false} SkipLong(expr: string, width: nat, k: nat, short: nat)
    requires short <= k < |expr| && width < short + 4
    ensures Truncated(expr, width, k) == Truncated(expr, width, short)
  {
    if short < k { SkipLong(expr, width, k - 1, short); }
  }

  /** The loop removes one character after the other, beginning with the fewest that can be enough. */
  method TruncateExpression(expr: string, newWidth: nat) returns (r: string)
    ensures r == Truncate(expr, newWidth)
  {
    if |expr| <= newWidth { return expr; }
    var nToRemove := |expr| + |ELLIPSIS| - newWidth;
    SkipLong(expr, newWidth, |expr| - 1, if nToRemove < |expr| then |expr| - nToRemove else 0);
    while nToRemove < |expr|
      invariant 0 < nToRemove
      invariant Truncated(expr, newWidth, if nToRemove < |expr| then |expr| - nToRemove else 0) == Truncate(expr, newWidth)
    {
      var truncated := expr[..|expr| - nToRemove] + ELLIPSIS;
      truncated := truncated + Closing(CloseParensNeeded(truncated));
      if |truncated| <= newWidth {
        return truncated;
      }
      nToRemove := nToRemove + 1;
    }
    return ELLIPSIS;
  }

  // ---------- commented_line ----------

  /** A format with one %s in it, and a newline at the end. */
  datatype Format = Format(pre: string, post: string)

  const ELSE_LINE := Format("#else /* ", " */\n")
  const ENDIF_LINE := Format("#endif /* ", " */\n")
  const ENDIF_MORE_LINE := Format("#endif /* ", " || ... */\n")

  function Fill(fmt: Format, argument: string): string { fmt.pre + argument + fmt.post }

  function Commented(fmt: Format, argument: string): string {
    if |Fill(fmt, argument)| <= LINE_WIDTH || |fmt.pre| + |fmt.post| > LINE_WIDTH then Fill(fmt, argument)
    else Fill(fmt, Truncate(argument, LINE_WIDTH - |fmt.pre| - |fmt.post|))
  }

  /** The format filled with an ellipsis must fit; then the line does. */
  method CommentedLine(fmt: Format, argument: string) returns (line: string)
    requires |fmt.pre| + 3 + |fmt.post| <= LINE_WIDTH
    ensures line == Commented(fmt, argument) && |line| <= LINE_WIDTH
  {
    line := Fill(fmt, argument);
    if |line| > LINE_WIDTH {
      var maxArgWidth := LINE_WIDTH - |Fill(fmt, "")|;
      var t := TruncateExpression(argument, maxArgWidth);
      TruncateIsLongestFit(argument, maxArgWidth);
      line := Fill(fmt, t);
    }
  }

  // ---------- negate ----------

  /** White space of ASCII as Python sees it, the four separators included. */
  predicate IsSpace(c: char) { '\t' <= c <= '\r' || '\U{1C}' <= c <= ' ' }

  function LStrip(s: string): string
    decreases |s|
  {
    if s != "" && IsSpace(s[0]) then LStrip(s[1..]) else s
  }
  function RStrip(s: string): string
    decreases |s|
  {
    if s != "" && IsSpace(s[|s| - 1]) then RStrip(s[..|s| - 1]) else s
  }
  function Strip(s: string): string { RStrip(LStrip(s)) }

  /** What stands between `open` and a closing parenthesis at the end of s, when there is no other one between. */
  function Enclosed(s: string, open: string): (r: (bool, string))
    ensures r.0 ==> s == open + r.1 + ")"
  {
    if |open| < |s| && s[..|open|] == open && s[|s| - 1] == ')' && CountChar(s[|open|..|s| - 1], ')') == 0
    then (assert s == open + s[|open|..|s| - 1] + ")"; (true, s[|open|..|s| - 1]))
    else (false, "")
  }

  /** Negation that takes a negation off where it sees one. */
  function Negate(expr: string): string {
    var e := Strip(expr);
    if e != "" && e[0] == '!' && Enclosed(LStrip(e[1..]), "(").0 then Enclosed(LStrip(e[1..]), "(").1
    else if e != "" && e[0] == '!' && Enclosed(LStrip(e[1..]), "defined(").0 then LStrip(e[1..])
    else if Enclosed(e, "defined(").0 then "!" + e
    else "!(" + e + ")"
  }

  lemma NothingToStrip(s: string)
    requires s != "" && !IsSpace(s[0]) && !IsSpace(s[|s| - 1])
    ensures Strip(s) == s
  {
  }

  /**
   Expressions that a double negation restores: without white space around, and without closing
   parentheses, or all of the form defined(...), !defined(...) or !(...), the latter with no white
   space inside the parentheses' ends.
   */
  predicate Restorable(expr: string) {
    && Strip(expr) == expr
    && (|| CountChar(expr, ')') == 0 || Enclosed(expr, "defined(").0 || Enclosed(expr, "!defined(").0
        || (Enclosed(expr, "!(").0 && Strip(Enclosed(expr, "!(").1) == Enclosed(expr, "!(").1))
  }

  /** Just those come back. */
  lemma NegateTwiceIff(expr: string)
    ensures Negate(Negate(expr)) == expr <==> Restorable(expr)
  {
    hide LStrip, RStrip, CountChar, Enclosed, Restorable, Negate;
    var e := Strip(expr);
    if e != "" && e[0] == '!' && Enclosed(LStrip(e[1..]), "(").0 {
      TwiceWrapped(expr, e);
    } else if e != "" && e[0] == '!' && Enclosed(LStrip(e[1..]), "defined(").0 {
      TwiceNotDefined(expr, e);
    } else if Enclosed(e, "defined(").0 {
      TwiceDefined(expr, e);
    } else {
      TwiceOther(expr, e);
    }
  }

  lemma EnclosedNot(e: string, open: string)
    ensures Enclosed(e, "!" + open) == if e != "" && e[0] == '!' then Enclosed(e[1..], open) else (false, "")
  {
    if e != "" && e[0] == '!' {
      assert e == "!" + e[1..];
      assert |open| < |e[1..]| ==> e[..|open| + 1] == "!" + e[1..][..|open|];
      assert |open| < |e[1..]| ==> e[|open| + 1..|e| - 1] == e[1..][|open|..|e[1..]| - 1];
    } else if |open| + 1 < |e| {
      assert e[..|open| + 1][0] == e[0];
    }
  }

  /** Nothing to strip where a form was recognised, and the form has a closing parenthesis. */
  lemma EnclosedFacts(s: string, open: string)
    requires Enclosed(s, open).0 && open != "" && !IsSpace(open[0])
    ensures s != "" && s[0] == open[0] && LStrip(s) == s && Strip(s) == s
    ensures CountChar(s, ')') > 0 && CountChar(Enclosed(s, open).1, ')') == 0
  {
    assert s[0] == s[..|open|][0];
    NothingToStrip(s);
  }

  lemma {:induction false} StripFacts(s: string)
    ensures Strip(Strip(s)) == Strip(s)
    ensures CountChar(s, ')') == 0 ==> CountChar(Strip(s), ')') == 0
  {
    LStripFacts(s);
    RStripFacts(LStrip(s));
    var t := Strip(s);
    if t != "" {
      assert t[0] == LStrip(s)[0];
      NothingToStrip(t);
    }
  }

  lemma {:induction false} LStripFacts(s: string)
    ensures LStrip(s) != "" ==> !IsSpace(LStrip(s)[0])
    ensures CountChar(s, ')') == 0 ==> CountChar(LStrip(s), ')') == 0
    decreases |s|
  {
    if s != "" && IsSpace(s[0]) {
      assert s == s[..1] + s[1..];
      CountConcat(s[..1], s[1..], ')');
      LStripFacts(s[1..]);
    }
  }

  lemma {:induction false} RStripFacts(s: string)
    ensures RStrip(s) != "" ==> s != "" && RStrip(s)[0] == s[0] && !IsSpace(RStrip(s)[|RStrip(s)| - 1])
    ensures CountChar(s, ')') == 0 ==> CountChar(RStrip(s), ')') == 0
    decreases |s|
  {
    if s != "" && IsSpace(s[|s| - 1]) { RStripFacts(s[..|s| - 1]); }
  }

  /** Without a closing parenthesis there is nothing to recognise. */
  lemma NoParen(expr: string)
    requires CountChar(Strip(expr), ')') == 0
    ensures Negate(expr) == "!(" + Strip(expr) + ")"
  {
    var e := Strip(expr);
    if e != "" {
      assert e == e[..|e| - 1] + [e[|e| - 1]];
      LStripLast(e[1..]);
    }
  }

  /** What Negate makes of what it made by wrapping. */
  lemma NegateWrapped(e: string)
    ensures Negate("!(" + e + ")") == if CountChar(e, ')') == 0 then e else "!(" + ("!(" + e + ")") + ")"
  {
    hide RStrip, CountChar;
    var n, w := "!(" + e + ")", "(" + e + ")";
    NothingToStrip(n);
    assert n[1..] == w && LStrip(w) == w;
    assert w[1..|w| - 1] == e && w[..1] == "(";
    assert |w| > 8 ==> w[..8][0] == '(';
    assert |n| > 8 ==> n[..8][0] == '!';
  }

  lemma NegateDefined(e: string)
    requires Enclosed(e, "defined(").0
    ensures Negate(e) == "!" + e && Negate("!" + e) == e && Strip(e) == e
  {
    EnclosedFacts(e, "defined(");
    var n := "!" + e;
    NothingToStrip(n);
    assert n[1..] == e;
    assert !Enclosed(e, "(").0 by { assert e[..1][0] == 'd'; }
  }

  lemma TwiceDefined(expr: string, e: string)
    requires e == Strip(expr) && Enclosed(e, "defined(").0
    ensures Negate(Negate(expr)) == expr <==> Restorable(expr)
  {
    NegateDefined(e);
    EnclosedFacts(e, "defined(");
    assert Negate(expr) == Negate(e);
  }

  lemma TwiceNotDefined(expr: string, e: string)
    requires e == Strip(expr) && e != "" && e[0] == '!'
    requires !Enclosed(LStrip(e[1..]), "(").0 && Enclosed(LStrip(e[1..]), "defined(").0
    ensures Negate(Negate(expr)) == expr <==> Restorable(expr)
  {
    hide CountChar, RStrip, Enclosed;
    var d := LStrip(e[1..]);
    NegateDefined(d);
    NotForms(expr, e);
    if expr == "!" + d {
      assert expr[1..] == d;
      EnclosedFacts(d, "defined(");
      EnclosedNot(expr, "defined(");
      assert "!" + "defined(" == "!defined(";
      EnclosedFacts(expr, "!defined(");
    }
  }

  /** The forms of Restorable that an expression with '!' in front can have. */
  lemma NotForms(expr: string, e: string)
    requires e == Strip(expr) && e != "" && e[0] == '!'
    ensures Restorable(expr) ==> expr == e
    ensures Restorable(expr) && (Enclosed(LStrip(e[1..]), "(").0 || Enclosed(LStrip(e[1..]), "defined(").0)
            ==> LStrip(e[1..]) == e[1..] && (Enclosed(LStrip(e[1..]), "(").0 ==> Strip(Enclosed(e[1..], "(").1) == Enclosed(e[1..], "(").1)
    ensures Restorable(expr) ==> CountChar(e, ')') == 0 || Enclosed(LStrip(e[1..]), "(").0 || Enclosed(LStrip(e[1..]), "defined(").0
  {
    hide CountChar, RStrip, LStrip, Strip, Enclosed;
    assert "!" + "(" == "!(" && "!" + "defined(" == "!defined(";
    if Restorable(expr) {
      EnclosedNot(e, "(");
      EnclosedNot(e, "defined(");
      if Enclosed(e, "defined(").0 { EnclosedFacts(e, "defined("); }
      if Enclosed(e[1..], "(").0 { EnclosedFacts(e[1..], "("); }
      if Enclosed(e[1..], "defined(").0 { EnclosedFacts(e[1..], "defined("); }
      if CountChar(e, ')') == 0 { NoneBehind(e); }
    }
  }

  /** Without a closing parenthesis nothing is enclosed. */
  lemma NoneBehind(e: string)
    requires e != "" && CountChar(e, ')') == 0
    ensures !Enclosed(LStrip(e[1..]), "(").0 && !Enclosed(LStrip(e[1..]), "defined(").0
  {
    assert e == e[..1] + e[1..];
    CountConcat(e[..1], e[1..], ')');
    LStripFacts(e[1..]);
    if Enclosed(LStrip(e[1..]), "(").0 { EnclosedFacts(LStrip(e[1..]), "("); }
    if Enclosed(LStrip(e[1..]), "defined(").0 { EnclosedFacts(LStrip(e[1..]), "defined("); }
  }

  lemma TwiceWrapped(expr: string, e: string)
    requires e == Strip(expr) && e != "" && e[0] == '!' && Enclosed(LStrip(e[1..]), "(").0
    ensures Negate(Negate(expr)) == expr <==> Restorable(expr)
  {
    hide CountChar, RStrip, LStrip, Enclosed;
    var w := LStrip(e[1..]);
    var x := Enclosed(w, "(").1;
    EnclosedFacts(w, "(");
    StripFacts(x);
    NoParen(x);
    assert Negate(expr) == x;
    NotForms(expr, e);
    var y := Strip(x);
    if expr == "!(" + y + ")" { WrappedForm(expr, y); }
  }

  lemma WrappedForm(expr: string, y: string)
    requires expr == "!(" + y + ")" && CountChar(y, ')') == 0 && Strip(y) == y
    ensures Restorable(expr)
  {
    NothingToStrip(expr);
    assert expr[..2] == "!(" && expr[2..|expr| - 1] == y;
  }

  lemma TwiceOther(expr: string, e: string)
    requires e == Strip(expr)
    requires !(e != "" && e[0] == '!' && (Enclosed(LStrip(e[1..]), "(").0 || Enclosed(LStrip(e[1..]), "defined(").0))
    requires !Enclosed(e, "defined(").0
    ensures Negate(Negate(expr)) == expr <==> Restorable(expr)
  {
    hide CountChar, RStrip, LStrip;
    NegateWrapped(e);
    if e != "" && e[0] == '!' { NotForms(expr, e); }
    assert "!" + "(" == "!(" && "!" + "defined(" == "!defined(";
    EnclosedNot(e, "(");
    EnclosedNot(e, "defined(");
    var n := "!(" + ("!(" + e + ")") + ")";
    if expr == n { NothingToStrip(n); }
  }

  lemma {:induction false} LStripLast(s: string)
    ensures LStrip(s) != "" ==> s != "" && LStrip(s)[|LStrip(s)| - 1] == s[|s| - 1]
    decreases |s|
  {
    if s != "" && IsSpace(s[0]) { LStripLast(s[1..]); }
  }
}
