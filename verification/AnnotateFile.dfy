/**
 translate of annotate_ifdef_directives.py on classified lines.
 */
module AnnotateFile {
  import opened CommentedLines
  import opened IfNesting

  const LINE_OBVIOUSNESS_LIMIT: nat := 4

  datatype Command = IfCmd | ElifCmd | ElseCmd
  datatype Directive = Directive(command: Command, rest: string, lineno: nat)
  /** The directives of one conditional so far. */
  type Level = seq<Directive>

  type Classifier = string -> Kind

  function Kinds(lines: seq<string>, classify: Classifier): seq<Kind> {
    seq(|lines|, i requires 0 <= i < |lines| => classify(lines[i]))
  }

  // ---------- what a line becomes ----------

  /** An #else or #endif line i of the conditional that the #if at line j begins. */
  ghost function Annotated(ks: seq<Kind>, j: nat, i: nat, line: string): string
    requires j < i < |ks| && ks[j].If?
  {
    if i - j <= LINE_OBVIOUSNESS_LIMIT then line
    else if ks[i].Else? then
      if HasElif(ks, j, i) then line else Commented(ELSE_LINE, Negate(ks[j].expr))
    else
      if HasElif(ks, j, i) then Commented(ENDIF_MORE_LINE, ks[j].expr) else Commented(ENDIF_LINE, ks[j].expr)
  }

  /** Only #else and #endif lines change, and then name the expression of the #if they belong to. */
  ghost predicate LineOk(ks: seq<Kind>, i: nat, line: string, r: string)
    requires i < |ks|
  {
    if ks[i].Else? || ks[i].Endif? then
      exists j :: 0 <= j < i && Innermost(ks, j, i) && r == Annotated(ks, j, i, line)
    else r == line
  }

  // ---------- levels and frames ----------

  ghost predicate LevelOk(ks: seq<Kind>, l: Level, f: Frame) {
    && f.j < |ks| && ks[f.j].If?
    && |l| >= 1 && l[0] == Directive(IfCmd, ks[f.j].expr, f.j + 1)
    && (forall t :: 1 <= t < |l| ==> l[t].command == ElifCmd || (l[t].command == ElseCmd && t == |l| - 1))
    && (f.hasElif <==> |l| >= 2 && l[1].command == ElifCmd)
    && (f.hasElse <==> l[|l| - 1].command == ElseCmd)
  }

  ghost predicate LevelAt(ks: seq<Kind>, levels: seq<Level>, fs: seq<Frame>, d: nat)
    requires d < |fs| && |levels| == |fs| + 1
  {
    LevelOk(ks, levels[d + 1], fs[d])
  }

  /** The levels are those of the frames, above that of the whole file. */
  ghost predicate LevelsOk(ks: seq<Kind>, levels: seq<Level>, fs: seq<Frame>) {
    && |levels| == |fs| + 1 && levels[0] == []
    && (forall d {:trigger LevelAt(ks, levels, fs, d)} :: 0 <= d < |fs| ==> LevelAt(ks, levels, fs, d))
  }

  lemma LevelsPushed(ks: seq<Kind>, levels: seq<Level>, fs: seq<Frame>, l: Level, f: Frame)
    requires LevelsOk(ks, levels, fs) && LevelOk(ks, l, f)
    ensures LevelsOk(ks, levels + [l], fs + [f])
  {
    forall d | 0 <= d < |fs| + 1 ensures LevelAt(ks, levels + [l], fs + [f], d) {
      if d < |fs| { assert LevelAt(ks, levels, fs, d); }
    }
  }

  lemma LevelsPopped(ks: seq<Kind>, levels: seq<Level>, fs: seq<Frame>, ls: seq<Level>, gs: seq<Frame>)
    requires LevelsOk(ks, levels, fs) && fs != [] && ls == levels[..|fs|] && gs == fs[..|fs| - 1]
    ensures LevelsOk(ks, ls, gs) && LevelOk(ks, levels[|fs|], fs[|fs| - 1])
  {
    assert LevelAt(ks, levels, fs, |fs| - 1);
    forall d | 0 <= d < |gs| ensures LevelAt(ks, ls, gs, d) {
      assert LevelAt(ks, levels, fs, d);
    }
  }

  /** The stack machine's view of the frames. */
  function Open(fs: seq<Frame>): seq<bool> {
    if fs == [] then [] else [fs[|fs| - 1].hasElse] + Open(fs[..|fs| - 1])
  }

  lemma OpenPushed(fs: seq<Frame>, f: Frame)
    ensures Open(fs + [f]) == [f.hasElse] + Open(fs) && Open(fs + [f])[1..] == Open(fs)
  {
    assert (fs + [f])[..|fs|] == fs;
  }

  lemma OpenTop(fs: seq<Frame>, f: Frame)
    requires fs != []
    ensures Open(fs) == [fs[|fs| - 1].hasElse] + Open(fs[..|fs| - 1]) && Open(fs)[1..] == Open(fs[..|fs| - 1])
    ensures Open(fs[|fs| - 1 := f]) == [f.hasElse] + Open(fs[..|fs| - 1])
  {
    assert fs[|fs| - 1 := f][..|fs| - 1] == fs[..|fs| - 1];
  }

  /** Whether translate goes on from line i. */
  predicate GoesOn(kind: Kind, fs: seq<Frame>) {
    match kind
    case Other => true
    case If(_) => true
    case Endif => fs != []
    case _ => fs != [] && !fs[|fs| - 1].hasElse
  }

  /** The machine on the frames is the machine of the grammar. */
  lemma {:induction false} MachineNext(ks: seq<Kind>, i: nat, fs: seq<Frame>)
    requires i < |ks|
    ensures Accepts(Open(fs), ks[i..]) == (GoesOn(ks[i], fs) && Accepts(Open(FramesAfter(ks, i, fs)), ks[i + 1..]))
  {
    assert ks[i..] == [ks[i]] + ks[i + 1..];
    First(ks[i], ks[i + 1..]);
    if ks[i].If? {
      OpenPushed(fs, Frame(i, false, false));
    } else if fs != [] {
      var f := fs[|fs| - 1];
      MachineOpen(ks, i, fs, if ks[i].Elif? then f.(hasElif := true) else f.(hasElse := true));
    }
  }

  /** The same inside a conditional; f is its frame after an #elif or #else. */
  lemma {:induction false} MachineOpen(ks: seq<Kind>, i: nat, fs: seq<Frame>, f: Frame)
    requires i < |ks| && !ks[i].If? && fs != []
    requires f == if ks[i].Elif? then fs[|fs| - 1].(hasElif := true) else fs[|fs| - 1].(hasElse := true)
    ensures Accepts(Open(fs), ks[i..]) == (GoesOn(ks[i], fs) && Accepts(Open(FramesAfter(ks, i, fs)), ks[i + 1..]))
  {
    hide Open;
    assert ks[i..] == [ks[i]] + ks[i + 1..];
    First(ks[i], ks[i + 1..]);
    OpenTop(fs, f);
  }

  // ---------- the code ----------

  /** The branch for #else and #elif, after the check: what is written. */
  method WriteArm(level: Level, isElse: bool, lineno: nat, line: string, ghost ks: seq<Kind>, ghost f: Frame) returns (r: string)
    requires LevelOk(ks, level, f) && !f.hasElse && f.j + 1 < lineno <= |ks| && (isElse <==> ks[lineno - 1].Else?)
    requires f.hasElif <==> HasElif(ks, f.j, lineno - 1)
    ensures r == if isElse then Annotated(ks, f.j, lineno - 1, line) else line
  {
    if |level| == 1 && isElse && lineno > level[0].lineno + LINE_OBVIOUSNESS_LIMIT {
      r := CommentedLine(ELSE_LINE, Negate(level[0].rest));
    } else {
      r := line;
    }
  }

  /** The branch for #endif. */
  method WriteEndif(level: Level, lineno: nat, line: string, ghost ks: seq<Kind>, ghost f: Frame) returns (r: string)
    requires LevelOk(ks, level, f) && f.j + 1 < lineno <= |ks| && ks[lineno - 1].Endif?
    requires f.hasElif <==> HasElif(ks, f.j, lineno - 1)
    ensures r == Annotated(ks, f.j, lineno - 1, line)
  {
    if lineno <= level[0].lineno + LINE_OBVIOUSNESS_LIMIT {
      r := line;
    } else if |level| == 1 || (|level| == 2 && level[1].command == ElseCmd) {
      r := CommentedLine(ENDIF_LINE, level[0].rest);
    } else {
      r := CommentedLine(ENDIF_MORE_LINE, level[0].rest);
    }
  }

  /** One line that is a directive or text; ok is false where the code raises Problem. */
  method Step(stack0: seq<Level>, curLevel0: Level, lineno: nat, line: string, kind: Kind,
              ghost ks: seq<Kind>, ghost fs: seq<Frame>)
      returns (ok: bool, r: string, stack: seq<Level>, curLevel: Level)
    requires 0 < lineno <= |ks| && kind == ks[lineno - 1]
    requires FramesOk(ks, lineno - 1, fs) && LevelsOk(ks, stack0 + [curLevel0], fs)
    ensures ok <==> GoesOn(kind, fs)
    ensures ok ==> LineOk(ks, lineno - 1, line, r)
                   && LevelsOk(ks, stack + [curLevel], FramesAfter(ks, lineno - 1, fs))
  {
    r, stack, curLevel := line, stack0, curLevel0;
    ghost var levels := stack0 + [curLevel0];
    if fs != [] {
      TopOfStack(ks, lineno - 1, fs, levels);
      assert levels[|fs|] == curLevel0 && levels[..|fs|] == stack0;
    }
    match kind
    case Other => ok := true;
    case If(expr) =>
      curLevel := [Directive(IfCmd, expr, lineno)];
      stack := stack0 + [curLevel0];
      LevelsPushed(ks, levels, fs, curLevel, Frame(lineno - 1, false, false));
      ok := true;
    case Endif =>
      if |stack0| == 0 { ok := false; return; }
      r := WriteEndif(curLevel0, lineno, line, ks, fs[|fs| - 1]);
      curLevel, stack := stack0[|stack0| - 1], stack0[..|stack0| - 1];
      LevelsPopped(ks, levels, fs, stack0, fs[..|fs| - 1]);
      assert stack + [curLevel] == stack0;
      ok := true;
    case _ =>
      if |curLevel0| == 0 || curLevel0[|curLevel0| - 1].command == ElseCmd { ok := false; return; }
      ghost var f := fs[|fs| - 1];
      r := WriteArm(curLevel0, kind.Else?, lineno, line, ks, f);
      curLevel := curLevel0 + [Directive(if kind.Else? then ElseCmd else ElifCmd, "", lineno)];
      LevelsPopped(ks, levels, fs, stack0, fs[..|fs| - 1]);
      ghost var g := if kind.Else? then f.(hasElse := true) else f.(hasElif := true);
      LevelsPushed(ks, stack0, fs[..|fs| - 1], curLevel, g);
      assert fs[..|fs| - 1] + [g] == FramesAfter(ks, lineno - 1, fs);
      ok := true;
  }

  /** The current level is that of the innermost #if. */
  lemma TopOfStack(ks: seq<Kind>, i: nat, fs: seq<Frame>, levels: seq<Level>)
    requires i < |ks| && FramesOk(ks, i, fs) && LevelsOk(ks, levels, fs) && fs != []
    ensures var f := fs[|fs| - 1];
            && LevelOk(ks, levels[|fs|], f) && f.j < i && Innermost(ks, f.j, i)
            && (f.hasElif <==> HasElif(ks, f.j, i))
  {
    LevelsPopped(ks, levels, fs, levels[..|fs|], fs[..|fs| - 1]);
    LastIsInnermost(ks, i, fs);
    assert FrameOk(ks, i, fs, |fs| - 1);
  }

  /**
   translate: it raises Problem exactly for files that are not well nested; otherwise it writes one line
   for each line.
   */
  method Translate(lines: seq<string>, classify: Classifier) returns (out: seq<string>, problem: bool)
    ensures !problem <==> WellNested(Kinds(lines, classify))
    ensures |out| <= |lines| && forall i :: 0 <= i < |out| ==> LineOk(Kinds(lines, classify), i, lines[i], out[i])
    ensures !problem ==> |out| == |lines|
  {
    hide Accepts, FramesAfter, LineOk, FramesOk, LevelsOk, WellNested;
    ghost var ks := Kinds(lines, classify);
    AcceptsIffWellNested(ks);
    var stack: seq<Level>, curLevel: Level, lineno := [], [], 0;
    out := [];
    ghost var fs: seq<Frame> := [];
    NoFrames(ks);
    assert stack + [curLevel] == [[]];
    while lineno < |lines|
      invariant 0 <= lineno <= |lines| && |out| == lineno
      invariant FramesOk(ks, lineno, fs) && LevelsOk(ks, stack + [curLevel], fs)
      invariant Accepts(Open(fs), ks[lineno..]) == Accepts([], ks)
      invariant forall i :: 0 <= i < |out| ==> LineOk(ks, i, lines[i], out[i])
    {
      var line := lines[lineno];
      lineno := lineno + 1;
      var ok, r;
      MachineNext(ks, lineno - 1, fs);
      ok, r, stack, curLevel := Step(stack, curLevel, lineno, line, classify(line), ks, fs);
      if !ok {
        return out, true;
      }
      FramesNext(ks, lineno - 1, fs);
      fs := FramesAfter(ks, lineno - 1, fs);
      out := out + [r];
    }
    AtEnd(ks, fs, stack, curLevel);
    problem := |stack| != 0 || curLevel != [];
  }

  lemma NoFrames(ks: seq<Kind>)
    ensures FramesOk(ks, 0, []) && LevelsOk(ks, [[]], []) && ks[0..] == ks && Open([]) == []
  {
  }

  lemma AtEnd(ks: seq<Kind>, fs: seq<Frame>, stack: seq<Level>, curLevel: Level)
    requires LevelsOk(ks, stack + [curLevel], fs)
    ensures |stack| != 0 || curLevel != [] <==> !Accepts(Open(fs), ks[|ks|..])
  {
    assert (stack + [curLevel])[|stack|] == curLevel;
    if stack == [] { assert (stack + [curLevel])[0] == curLevel; }
  }

  // ---------- what holds of whole files ----------

  /** Every line that is changed fits into 80 columns, the newline included. */
  lemma ChangedLinesFit(ks: seq<Kind>, i: nat, line: string, r: string)
    requires i < |ks| && LineOk(ks, i, line, r) && r != line
    ensures |r| <= LINE_WIDTH && (ks[i].Else? || ks[i].Endif?)
  {
    var j :| 0 <= j < i && Innermost(ks, j, i) && r == Annotated(ks, j, i, line);
    CommentedFits(ELSE_LINE, Negate(ks[j].expr));
    CommentedFits(ENDIF_LINE, ks[j].expr);
    CommentedFits(ENDIF_MORE_LINE, ks[j].expr);
  }

  lemma CommentedFits(fmt: Format, argument: string)
    requires |fmt.pre| + 3 + |fmt.post| <= LINE_WIDTH
    ensures |Commented(fmt, argument)| <= LINE_WIDTH
    ensures exists t :: Commented(fmt, argument) == Fill(fmt, t)
  {
    TruncateIsLongestFit(argument, LINE_WIDTH - |fmt.pre| - |fmt.post|);
  }

  /** The classifier sees the annotated lines for what they are. */
  ghost predicate SeesAnnotations(classify: Classifier) {
    && (forall t :: classify(Fill(ELSE_LINE, t)) == Else)
    && (forall t :: classify(Fill(ENDIF_LINE, t)) == Endif)
    && (forall t :: classify(Fill(ENDIF_MORE_LINE, t)) == Endif)
  }

  lemma KindKept(ks: seq<Kind>, i: nat, line: string, r: string, classify: Classifier)
    requires SeesAnnotations(classify) && i < |ks| && ks[i] == classify(line) && LineOk(ks, i, line, r)
    ensures classify(r) == ks[i]
  {
    if ks[i].Else? || ks[i].Endif? {
      var j :| 0 <= j < i && Innermost(ks, j, i) && r == Annotated(ks, j, i, line);
      CommentedFits(ELSE_LINE, Negate(ks[j].expr));
      CommentedFits(ENDIF_LINE, ks[j].expr);
      CommentedFits(ENDIF_MORE_LINE, ks[j].expr);
    }
  }

  /** A line once translated is translated to itself. */
  lemma LineSettled(ks: seq<Kind>, i: nat, line: string, r: string, r2: string)
    requires i < |ks| && LineOk(ks, i, line, r) && LineOk(ks, i, r, r2)
    ensures r2 == r
  {
    if ks[i].Else? || ks[i].Endif? {
      var j :| 0 <= j < i && Innermost(ks, j, i) && r == Annotated(ks, j, i, line);
      var k :| 0 <= k < i && Innermost(ks, k, i) && r2 == Annotated(ks, k, i, r);
      InnermostUnique(ks, j, k, i);
    }
  }

  /** Translating a translated file raises no Problem and changes nothing. */
  method TranslateTwice(lines: seq<string>, classify: Classifier) returns (once: seq<string>, twice: seq<string>)
    requires SeesAnnotations(classify) && WellNested(Kinds(lines, classify))
    ensures twice == once && |once| == |lines|
  {
    hide LineOk, WellNested;
    ghost var ks := Kinds(lines, classify);
    var problem;
    once, problem := Translate(lines, classify);
    forall i | 0 <= i < |lines| ensures classify(once[i]) == ks[i] {
      KindKept(ks, i, lines[i], once[i], classify);
    }
    assert Kinds(once, classify) == ks;
    twice, problem := Translate(once, classify);
    forall i | 0 <= i < |lines| ensures twice[i] == once[i] {
      LineSettled(ks, i, lines[i], once[i], twice[i]);
    }
  }
}
