/** What single lines of a makefile fragment do to the variables and to the lines behind them,
    in terms of expansion alone. */
module MakeLines {
  import opened MakeText
  import opened MakeExpand
  import opened MakeBlocks
  import opened MakeFiles

  // ---------------------------------------------------------------------------------------
  // Conditions
  // ---------------------------------------------------------------------------------------

  /** `ifeq` holds exactly when both sides expand to the same words, and `ifneq` otherwise; the
      left side is expanded first, and the first error wins. */
  lemma ConditionExactly(h: Host, vars: Vars, negated: bool, left: string, right: string)
    ensures var l, r := Eval(Env(vars, h.glob), left), Eval(Env(vars, h.glob), right);
            Condition(h, vars, If(negated, left, right)) ==
            if l.Err? then Err(l.error)
            else if r.Err? then Err(r.error)
            else if negated then Ok(l.value != r.value)
            else Ok(l.value == r.value)
  {
  }

  function IfElse(header: Line, yes: seq<Stmt>, no: seq<Stmt>): seq<Line> {
    [header] + Lines(yes) + [Else] + Lines(no) + [Endif]
  }

  /** `ifeq` of equal words, or `ifneq` of different ones: the first branch is run. Then the
      conditions in the other one must still expand. */
  lemma FirstBranchRuns(
      h: Host, vars: Vars, negated: bool, left: string, right: string, yes: seq<Stmt>, no: seq<Stmt>, depth: nat)
    requires WellFormed(yes) && WellFormed(no)
    requires Eval(Env(vars, h.glob), left).Ok? && Eval(Env(vars, h.glob), right).Ok?
    requires (Eval(Env(vars, h.glob), left).value == Eval(Env(vars, h.glob), right).value) != negated
    ensures var r := RunFlat(h, vars, [], Lines(yes), depth);
            r.failure.Raised? || Evaluates(h, r.vars, Lines(no)) ==>
              RunFlat(h, vars, [], IfElse(If(negated, left, right), yes, no), depth) == r
  {
    hide RunFlat, Evaluates, Eval;
    ConditionExactly(h, vars, negated, left, right);
    IfElseIsBlock(h, vars, If(negated, left, right), yes, no, depth);
    WholeBlock(h, vars, yes, depth);
    DeadBlock(h, RunBlock(h, vars, true, yes, depth).vars, no, depth);
    NothingIsDone(RunBlock(h, RunBlock(h, vars, true, yes, depth).vars, false, no, depth));
    NothingIsDone(RunBlock(h, vars, true, yes, depth));
  }

  /** `ifeq` of different words, or `ifneq` of equal ones: the second branch is run, and the
      conditions in the first must still expand. */
  lemma SecondBranchRuns(
      h: Host, vars: Vars, negated: bool, left: string, right: string, yes: seq<Stmt>, no: seq<Stmt>, depth: nat)
    requires WellFormed(yes) && WellFormed(no)
    requires Eval(Env(vars, h.glob), left).Ok? && Eval(Env(vars, h.glob), right).Ok?
    requires (Eval(Env(vars, h.glob), left).value == Eval(Env(vars, h.glob), right).value) == negated
    requires Evaluates(h, vars, Lines(yes))
    ensures RunFlat(h, vars, [], IfElse(If(negated, left, right), yes, no), depth)
         == RunFlat(h, vars, [], Lines(no), depth)
  {
    hide RunFlat, Evaluates, Eval;
    ConditionExactly(h, vars, negated, left, right);
    IfElseIsBlock(h, vars, If(negated, left, right), yes, no, depth);
    WholeBlock(h, vars, no, depth);
    DeadBlock(h, vars, yes, depth);
    NothingIsDone(RunBlock(h, vars, false, yes, depth));
    NothingIsDone(RunBlock(h, vars, true, no, depth));
  }

  lemma NothingIsDone(r: Parsed)
    ensures r.failure.Nothing? ==> r == Done(r.vars)
  {
  }

  lemma WholeBlock(h: Host, vars: Vars, b: seq<Stmt>, depth: nat)
    requires WellFormed(b)
    ensures RunFlat(h, vars, [], Lines(b), depth) == RunBlock(h, vars, true, b, depth)
  {
    hide RunBlock;
    FlatIsBlock(h, vars, [], b, [], depth);
    assert Lines(b) + [] == Lines(b);
    NothingIsDone(RunBlock(h, vars, true, b, depth));
  }

  function BothBranches(
      h: Host, vars: Vars, holds: Outcome<bool>, yes: seq<Stmt>, no: seq<Stmt>, depth: nat): Parsed
    requires WellFormed(yes) && WellFormed(no)
  {
    if holds.Err? then Raise(vars, holds.error)
    else
      var r := RunBlock(h, vars, holds.value, yes, depth);
      if r.failure.Raised? then r else RunBlock(h, r.vars, !holds.value, no, depth)
  }

  lemma IfElseIsBlock(h: Host, vars: Vars, header: Line, yes: seq<Stmt>, no: seq<Stmt>, depth: nat)
    requires header.If? && WellFormed(yes) && WellFormed(no)
    ensures RunFlat(h, vars, [], IfElse(header, yes, no), depth) ==
            BothBranches(h, vars, Condition(h, vars, header), yes, no, depth)
  {
    hide RunFlat, Condition;
    var s := Cond(header, yes, [Branch(no)]);
    assert WellFormedStmt(s);
    WholeBlock(h, vars, [s], depth);
    assert ElseLines([Branch(no)]) == [Else] + Lines(no) + ElseLines([]);
    assert Lines([s]) == LinesOf(s) + Lines([]);
    assert LinesOf(s) == IfElse(header, yes, no);
    assert Lines([s]) == IfElse(header, yes, no);
    OneStmt(h, vars, s, depth);
    OneCond(h, vars, header, yes, no, depth);
  }

  lemma OneCond(h: Host, vars: Vars, header: Line, yes: seq<Stmt>, no: seq<Stmt>, depth: nat)
    requires header.If? && WellFormed(yes) && WellFormed(no)
    ensures WellFormedStmt(Cond(header, yes, [Branch(no)]))
    ensures RunStmt(h, vars, true, Cond(header, yes, [Branch(no)]), depth)
         == BothBranches(h, vars, Condition(h, vars, header), yes, no, depth)
  {
    hide Condition, RunBlock;
    var c := Condition(h, vars, header);
    if c.Ok? {
      var r := RunBlock(h, vars, c.value, yes, depth);
      OneElse(h, r.vars, !c.value, no, depth);
    }
  }

  lemma OneStmt(h: Host, vars: Vars, s: Stmt, depth: nat)
    requires WellFormedStmt(s)
    ensures WellFormed([s]) && RunBlock(h, vars, true, [s], depth) == RunStmt(h, vars, true, s, depth)
  {
    var r := RunStmt(h, vars, true, s, depth);
    NothingIsDone(r);
    assert [s][1..] == [];
  }

  lemma OneElse(h: Host, vars: Vars, holds: bool, b: seq<Stmt>, depth: nat)
    requires WellFormed(b)
    ensures RunElses(h, vars, true, holds, [Branch(b)], depth) == RunBlock(h, vars, holds, b, depth)
  {
    NothingIsDone(RunBlock(h, vars, holds, b, depth));
    assert [Branch(b)][1..] == [];
  }

  // ---------------------------------------------------------------------------------------
  // Other lines
  // ---------------------------------------------------------------------------------------

  /** A live `$(error ...)` raises its message, and a line that nothing recognises is skipped. */
  lemma ErrorRaises(h: Host, vars: Vars, conds: seq<bool>, message: string, rest: seq<Line>, depth: nat)
    requires false !in conds
    ensures RunFlat(h, vars, conds, [Error(message)] + rest, depth) == Raise(vars, UserError(message))
    ensures RunFlat(h, vars, conds, [Other] + rest, depth) == RunFlat(h, vars, conds, rest, depth)
  {
    assert ([Error(message)] + rest)[0] == Error(message) && ([Other] + rest)[1..] == rest;
  }

  /** A live include runs the lines of the file that its first word names, with conditions of
      their own, and goes on behind. */
  lemma IncludeRuns(h: Host, vars: Vars, conds: seq<bool>, text: string, rest: seq<Line>, depth: nat)
    requires false !in conds
    ensures var name := Eval(Env(vars, h.glob), text);
            var r := RunFlat(h, vars, conds, [Include(text)] + rest, depth);
            if name.Err? then r == Raise(vars, name.error)
            else if name.value == [] then r == Raise(vars, IndexError)
            else if name.value[0] !in h.files then r == Raise(vars, FileNotFound(name.value[0]))
            else if depth == 0 then r == Raise(vars, RecursionLimit)
            else
              var inner := RunFlat(h, vars, [], h.files[name.value[0]], depth - 1);
              r == if inner.failure.Raised? then inner else RunFlat(h, inner.vars, conds, rest, depth)
  {
    hide Eval;
    assert ([Include(text)] + rest)[0] == Include(text) && ([Include(text)] + rest)[1..] == rest;
  }

  /** Under a false condition no plain line does anything. */
  lemma DeadLineIsSkipped(h: Host, vars: Vars, conds: seq<bool>, line: Line, rest: seq<Line>, depth: nat)
    requires false in conds && IsPlain(line)
    ensures RunFlat(h, vars, conds, [line] + rest, depth) == RunFlat(h, vars, conds, rest, depth)
  {
    assert ([line] + rest)[0] == line && ([line] + rest)[1..] == rest;
  }
}
