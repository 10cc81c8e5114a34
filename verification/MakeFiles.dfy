/** What holds of whole makefile fragments, well nested or not. */
module MakeFiles {
  import opened MakeText
  import opened MakeExpand
  import opened MakeBlocks

  // ---------------------------------------------------------------------------------------
  // Nesting
  // ---------------------------------------------------------------------------------------

  /** How many conditionals are open after the lines, or -1 after a stray `else` or `endif`. */
  function Height(d: nat, lines: seq<Line>): (r: int)
    ensures r >= -1
    decreases |lines|
  {
    if lines == [] then d
    else
      match lines[0]
      case If(_, _, _) => Height(d + 1, lines[1..])
      case Else => if d == 0 then -1 else Height(d, lines[1..])
      case Endif => if d == 0 then -1 else Height(d - 1, lines[1..])
      case _ => Height(d, lines[1..])
  }

  function Endifs(k: nat): seq<Line> {
    seq(k, _ => Endif)
  }

  predicate IsStray(rest: seq<Line>) {
    rest != [] ==> rest[0].Else? || rest[0].Endif?
  }

  lemma {:induction false} HeightAppend(d: nat, a: seq<Line>, b: seq<Line>)
    ensures Height(d, a + b) == if Height(d, a) < 0 then -1 else Height(Height(d, a), b)
    decreases |a|
  {
    if a == [] {
      assert a + b == b;
    } else {
      assert (a + b)[1..] == a[1..] + b;
      if a[0].If? {
        HeightAppend(d + 1, a[1..], b);
      } else if a[0].Endif? {
        if d > 0 {
          HeightAppend(d - 1, a[1..], b);
        }
      } else {
        HeightAppend(d, a[1..], b);
      }
    }
  }

  lemma {:induction false} HeightEndifs(d: nat, k: nat)
    ensures Height(d, Endifs(k)) == if k <= d then d - k else -1
    decreases k
  {
    if k > 0 {
      assert Endifs(k)[1..] == Endifs(k - 1);
      if d > 0 {
        HeightEndifs(d - 1, k - 1);
      }
    }
  }

  lemma {:induction false} HeightBlock(d: nat, b: seq<Stmt>)
    requires WellFormed(b)
    ensures Height(d, Lines(b)) == d
    decreases b, 0
  {
    if b != [] {
      assert WellFormedStmt(b[0]);
      HeightStmt(d, b[0]);
      HeightBlock(d, b[1..]);
      HeightAppend(d, LinesOf(b[0]), Lines(b[1..]));
    }
  }

  lemma {:induction false} HeightStmt(d: nat, s: Stmt)
    requires WellFormedStmt(s)
    ensures Height(d, LinesOf(s)) == d
    decreases s, 0
  {
    if s.Cond? {
      var inner := Lines(s.first) + (ElseLines(s.others) + Endifs(1));
      assert LinesOf(s) == [s.header] + inner;
      assert LinesOf(s)[1..] == inner;
      HeightBlock(d + 1, s.first);
      HeightElses(d + 1, s.others);
      HeightEndifs(d + 1, 1);
      HeightAppend(d + 1, ElseLines(s.others), Endifs(1));
      HeightAppend(d + 1, Lines(s.first), ElseLines(s.others) + Endifs(1));
    }
  }

  lemma {:induction false} HeightElses(d: nat, others: seq<Branch>)
    requires AllWellFormed(others) && d > 0
    ensures Height(d, ElseLines(others)) == d
    decreases others, 1
  {
    if others != [] {
      var inner := Lines(others[0].body) + ElseLines(others[1..]);
      assert ElseLines(others)[1..] == inner;
      HeightBlock(d, others[0].body);
      HeightElses(d, others[1..]);
      HeightAppend(d, Lines(others[0].body), ElseLines(others[1..]));
    }
  }

  // ---------------------------------------------------------------------------------------
  // Every file is a block, up to a stray `else` or `endif`, or missing `endif`s at the end
  // ---------------------------------------------------------------------------------------

  lemma {:induction false} Parse(lines: seq<Line>) returns (b: seq<Stmt>, rest: seq<Line>, k: nat)
    ensures WellFormed(b) && Lines(b) + rest == lines + Endifs(k)
    ensures IsStray(rest) && |rest| <= |lines| && (k > 0 ==> rest == [])
    decreases |lines|, 0
  {
    if lines == [] || lines[0].Else? || lines[0].Endif? {
      b, rest, k := [], lines, 0;
      assert lines + Endifs(0) == lines;
    } else if lines[0].If? {
      var first, r1, k1 := Parse(lines[1..]);
      var others, r2, k2 := ParseElses(r1);
      var b3, r3, k3 := Parse(r2);
      var s := Cond(lines[0], first, others);
      b, rest, k := [s] + b3, r3, k1 + k2 + k3;
      assert WellFormedStmt(s);
      CondText(lines, first, r1, k1, others, r2, k2);
      FrontText(s, b3, rest);
      EndifsText(LinesOf(s), r2, k3, lines, k1 + k2);
    } else {
      var b2;
      b2, rest, k := Parse(lines[1..]);
      b := [Plain(lines[0])] + b2;
      assert WellFormedStmt(b[0]);
      FrontText(b[0], b2, rest);
      assert lines + Endifs(k) == [lines[0]] + (lines[1..] + Endifs(k));
    }
  }

  lemma FrontText(s: Stmt, b: seq<Stmt>, rest: seq<Line>)
    ensures Lines([s] + b) + rest == LinesOf(s) + (Lines(b) + rest)
  {
    assert ([s] + b)[1..] == b;
  }

  lemma EndifsText(front: seq<Line>, rest: seq<Line>, k: nat, lines: seq<Line>, j: nat)
    requires front + rest == lines + Endifs(j)
    ensures front + (rest + Endifs(k)) == lines + Endifs(j + k)
  {
    assert front + (rest + Endifs(k)) == (front + rest) + Endifs(k);
    assert Endifs(j) + Endifs(k) == Endifs(j + k);
  }

  lemma ElsesText(body: seq<Stmt>, others: seq<Branch>, rest: seq<Line>)
    ensures ElseLines([Branch(body)] + others) + [Endif] + rest
         == [Else] + (Lines(body) + (ElseLines(others) + [Endif] + rest))
  {
    assert ([Branch(body)] + others)[1..] == others;
  }

  lemma CondText(
      lines: seq<Line>, first: seq<Stmt>, r1: seq<Line>, k1: nat, others: seq<Branch>, r2: seq<Line>, k2: nat)
    requires lines != [] && Lines(first) + r1 == lines[1..] + Endifs(k1)
    requires ElseLines(others) + [Endif] + r2 == r1 + Endifs(k2)
    ensures LinesOf(Cond(lines[0], first, others)) + r2 == lines + Endifs(k1 + k2)
  {
    hide Lines, ElseLines, Endifs;
    var s := Cond(lines[0], first, others);
    assert LinesOf(s) + r2 == [lines[0]] + (Lines(first) + (ElseLines(others) + [Endif] + r2));
    EndifsText(Lines(first), r1, k2, lines[1..], k1);
    assert lines + Endifs(k1 + k2) == [lines[0]] + (lines[1..] + Endifs(k1 + k2));
  }

  lemma {:induction false} ParseElses(lines: seq<Line>) returns (others: seq<Branch>, rest: seq<Line>, k: nat)
    requires IsStray(lines)
    ensures AllWellFormed(others) && ElseLines(others) + [Endif] + rest == lines + Endifs(k)
    ensures |rest| <= |lines| && (k > 0 ==> rest == [])
    decreases |lines|, 1
  {
    if lines == [] {
      others, rest, k := [], [], 1;
    } else if lines[0].Endif? {
      others, rest, k := [], lines[1..], 0;
    } else {
      var body, r1, k1 := Parse(lines[1..]);
      var others2, k2;
      others2, rest, k2 := ParseElses(r1);
      others, k := [Branch(body)] + others2, k1 + k2;
      ElsesText(body, others2, rest);
      EndifsText(Lines(body), r1, k2, lines[1..], k1);
      assert lines + Endifs(k) == [Else] + (lines[1..] + Endifs(k));
    }
  }

  predicate IsBlock(b: seq<Stmt>, lines: seq<Line>) {
    WellFormed(b) && Lines(b) == lines
  }

  /** The lines of blocks are exactly those whose conditionals are all closed in turn. */
  lemma BlocksAreTheNested(lines: seq<Line>)
    ensures Height(0, lines) == 0 <==> exists b :: IsBlock(b, lines)
  {
    if b :| IsBlock(b, lines) {
      HeightBlock(0, b);
    }
    if Height(0, lines) == 0 {
      var b, rest, k := Parse(lines);
      HeightBlock(0, b);
      HeightAppend(0, Lines(b), rest);
      HeightAppend(0, lines, Endifs(k));
      HeightEndifs(0, k);
      assert rest == [] && k == 0;
      assert lines + Endifs(0) == lines;
      assert IsBlock(b, lines);
    }
  }

  /** An `endif` behind the last line, where one is open, changes nothing. */
  lemma {:induction false} LastEndifIsSilent(h: Host, vars: Vars, conds: seq<bool>, lines: seq<Line>, depth: nat)
    requires Height(|conds|, lines) > 0
    ensures RunFlat(h, vars, conds, lines + [Endif], depth) == RunFlat(h, vars, conds, lines, depth)
    decreases |lines|
  {
    hide Condition, RunLine;
    if lines != [] {
      var rest := lines[1..];
      assert (lines + [Endif])[1..] == rest + [Endif];
      match lines[0] {
        case If(_, _, _) =>
          var c := Condition(h, vars, lines[0]);
          if c.Ok? {
            LastEndifIsSilent(h, vars, conds + [c.value], rest, depth);
          }
        case Else => LastEndifIsSilent(h, vars, Pop(conds) + [!Top(conds)], rest, depth);
        case Endif => LastEndifIsSilent(h, vars, Pop(conds), rest, depth);
        case _ =>
          if false in conds {
            LastEndifIsSilent(h, vars, conds, rest, depth);
          } else {
            LastEndifIsSilent(h, RunLine(h, vars, lines[0], depth).vars, conds, rest, depth);
          }
      }
    }
  }

  lemma {:induction false} LastEndifsAreSilent(h: Host, vars: Vars, lines: seq<Line>, k: nat, depth: nat)
    requires Height(0, lines) >= k
    ensures RunFlat(h, vars, [], lines + Endifs(k), depth) == RunFlat(h, vars, [], lines, depth)
    decreases k
  {
    if k == 0 {
      assert lines + Endifs(0) == lines;
    } else {
      var fewer := lines + Endifs(k - 1);
      assert lines + Endifs(k) == fewer + [Endif];
      HeightAppend(0, lines, Endifs(k - 1));
      HeightEndifs(Height(0, lines), k - 1);
      LastEndifIsSilent(h, vars, [], fewer, depth);
      LastEndifsAreSilent(h, vars, lines, k - 1, depth);
    }
  }

  /** What a stray `else` or `endif` raises; the end of the file raises nothing. */
  function AtEnd(r: Parsed, rest: seq<Line>): Parsed {
    if r.failure.Raised? || rest == [] then r
    else Raise(r.vars, if rest[0].Else? then ElseWithoutIf else EndifWithoutIf)
  }

  /**
   * Every file, whatever its nesting, does what a block does: the lines up to the first stray
   * `else` or `endif`, which then raises, or all lines with any missing `endif`s added.
   */
  lemma EveryFileIsABlock(h: Host, vars: Vars, lines: seq<Line>, depth: nat)
    returns (b: seq<Stmt>, rest: seq<Line>, k: nat)
    ensures WellFormed(b) && Lines(b) + rest == lines + Endifs(k) && IsStray(rest) && (k > 0 ==> rest == [])
    ensures RunFlat(h, vars, [], lines, depth) == AtEnd(RunBlock(h, vars, true, b, depth), rest)
  {
    b, rest, k := Parse(lines);
    HeightBlock(0, b);
    HeightAppend(0, Lines(b), rest);
    HeightAppend(0, lines, Endifs(k));
    if k == 0 {
      assert lines + Endifs(0) == lines;
    } else {
      HeightEndifs(if Height(0, lines) >= 0 then Height(0, lines) else 0, k);
      LastEndifsAreSilent(h, vars, lines, k, depth);
    }
    FlatIsBlock(h, vars, [], b, rest, depth);
  }

  // ---------------------------------------------------------------------------------------
  // Dead branches
  // ---------------------------------------------------------------------------------------

  predicate Evaluates(h: Host, vars: Vars, lines: seq<Line>) {
    forall i :: 0 <= i < |lines| && lines[i].If? ==> Condition(h, vars, lines[i]).Ok?
  }

  lemma EvaluatesAppend(h: Host, vars: Vars, a: seq<Line>, b: seq<Line>)
    ensures Evaluates(h, vars, a + b) <==> Evaluates(h, vars, a) && Evaluates(h, vars, b)
  {
    hide Condition;
    if Evaluates(h, vars, a + b) {
      forall i | 0 <= i < |a| && a[i].If? ensures Condition(h, vars, a[i]).Ok? {
        assert (a + b)[i] == a[i];
      }
      forall i | 0 <= i < |b| && b[i].If? ensures Condition(h, vars, b[i]).Ok? {
        assert (a + b)[|a| + i] == b[i];
      }
    }
  }

  /** A dead block changes nothing, and raises exactly when some condition in it does. */
  lemma {:induction false} DeadBlock(h: Host, vars: Vars, b: seq<Stmt>, depth: nat)
    requires WellFormed(b)
    ensures var r := RunBlock(h, vars, false, b, depth);
            r.vars == vars && (r.failure.Nothing? <==> Evaluates(h, vars, Lines(b)))
    decreases b, 0
  {
    hide Condition, Evaluates;
    if b == [] {
      EvaluatesNothing(h, vars);
    } else {
      assert WellFormedStmt(b[0]);
      DeadStmt(h, vars, b[0], depth);
      DeadBlock(h, vars, b[1..], depth);
      EvaluatesAppend(h, vars, LinesOf(b[0]), Lines(b[1..]));
    }
  }

  lemma EvaluatesNothing(h: Host, vars: Vars)
    ensures Evaluates(h, vars, [])
  {
  }

  lemma EvaluatesOne(h: Host, vars: Vars, line: Line)
    ensures Evaluates(h, vars, [line]) <==> (line.If? ==> Condition(h, vars, line).Ok?)
  {
    hide Condition;
    assert [line][0] == line;
  }

  lemma {:induction false} DeadStmt(h: Host, vars: Vars, s: Stmt, depth: nat)
    requires WellFormedStmt(s)
    ensures var r := RunStmt(h, vars, false, s, depth);
            r.vars == vars && (r.failure.Nothing? <==> Evaluates(h, vars, LinesOf(s)))
    decreases s, 0
  {
    hide Condition, Evaluates;
    match s {
      case Plain(line) => EvaluatesOne(h, vars, line);
      case Cond(header, first, others) =>
        EvaluatesOne(h, vars, header);
        EvaluatesOne(h, vars, Endif);
        EvaluatesAppend(h, vars, [header], Lines(first));
        EvaluatesAppend(h, vars, [header] + Lines(first), ElseLines(others));
        EvaluatesAppend(h, vars, [header] + Lines(first) + ElseLines(others), [Endif]);
        DeadBlock(h, vars, first, depth);
        var c := Condition(h, vars, header);
        if c.Ok? {
          DeadElses(h, vars, !c.value, others, depth);
        }
    }
  }

  lemma {:induction false} DeadElses(h: Host, vars: Vars, holds: bool, others: seq<Branch>, depth: nat)
    requires AllWellFormed(others)
    ensures var r := RunElses(h, vars, false, holds, others, depth);
            r.vars == vars && (r.failure.Nothing? <==> Evaluates(h, vars, ElseLines(others)))
    decreases others, 1
  {
    hide Condition, Evaluates;
    if others == [] {
      EvaluatesNothing(h, vars);
    } else {
      EvaluatesOne(h, vars, Else);
      EvaluatesAppend(h, vars, [Else], Lines(others[0].body));
      EvaluatesAppend(h, vars, [Else] + Lines(others[0].body), ElseLines(others[1..]));
      DeadBlock(h, vars, others[0].body, depth);
      DeadElses(h, vars, !holds, others[1..], depth);
    }
  }

  // ---------------------------------------------------------------------------------------
  // What parsing stores
  // ---------------------------------------------------------------------------------------

  ghost predicate Stored(vars: Vars) {
    forall k :: k in vars && vars[k].Words? ==> AllClean(vars[k].words)
  }

  /** No variable disappears, and no string from the environment appears or is changed in place. */
  ghost predicate Grown(before: Vars, after: Vars) {
    && (forall k :: k in before ==> k in after)
    && (forall k :: k in after && after[k].Text? ==> k in before && before[k] == after[k])
  }

  lemma AssignKeeps(h: Host, vars: Vars, line: Line)
    requires line.Assign? && Stored(vars)
    ensures Stored(AssignTo(h, vars, line).vars) && Grown(vars, AssignTo(h, vars, line).vars)
  {
    hide Eval, AllClean;
    var key := Name(h, vars, line.key);
    if key.Ok? {
      var k := key.value;
      NoWordsClean();
      var with := if line.op.Append? && k !in vars then vars[k := Value.Words([])] else vars;
      var words := Expanded(h, with, line.value);
      if words.Ok? {
        WordsClean(h, with, line.value);
        if line.op.Append? && with[k].Words? {
          BothClean(with[k].words, words.value);
        }
      }
    }
  }

  lemma NoWordsClean()
    ensures AllClean([])
  {
  }

  lemma BothClean(a: seq<string>, b: seq<string>)
    requires AllClean(a) && AllClean(b)
    ensures AllClean(a + b)
  {
    hide Clean;
  }

  lemma WordsClean(h: Host, vars: Vars, text: string)
    requires Expanded(h, vars, text).Ok?
    ensures AllClean(Expanded(h, vars, text).value)
  {
    EvalIsClean(Env(vars, h.glob), text);
  }

  lemma {:induction false} LineKeeps(h: Host, vars: Vars, line: Line, depth: nat)
    requires IsPlain(line) && Stored(vars)
    ensures Stored(RunLine(h, vars, line, depth).vars) && Grown(vars, RunLine(h, vars, line, depth).vars)
    decreases depth, 0
  {
    hide AllClean, AssignTo, Name;
    if line.Assign? {
      AssignKeeps(h, vars, line);
    } else if line.Include? && depth > 0 {
      var name := Name(h, vars, line.name);
      if name.Ok? && name.value in h.files {
        ParsingKeeps(h, vars, [], h.files[name.value], depth - 1);
      }
    }
  }

  /**
   * After any lines, also when they raise, every list in store holds only words that are not
   * empty and have no white space.
   */
  lemma {:induction false} ParsingKeeps(h: Host, vars: Vars, conds: seq<bool>, lines: seq<Line>, depth: nat)
    requires Stored(vars)
    ensures Stored(RunFlat(h, vars, conds, lines, depth).vars)
    ensures Grown(vars, RunFlat(h, vars, conds, lines, depth).vars)
    decreases depth, |lines| + 1
  {
    hide AllClean, RunLine, Condition;
    if lines != [] {
      var rest := lines[1..];
      match lines[0] {
        case If(_, _, _) =>
          var c := Condition(h, vars, lines[0]);
          if c.Ok? {
            ParsingKeeps(h, vars, conds + [c.value], rest, depth);
          }
        case Else =>
          if conds != [] {
            ParsingKeeps(h, vars, Pop(conds) + [!Top(conds)], rest, depth);
          }
        case Endif =>
          if conds != [] {
            ParsingKeeps(h, vars, Pop(conds), rest, depth);
          }
        case _ =>
          if false in conds {
            ParsingKeeps(h, vars, conds, rest, depth);
          } else {
            var r := RunLine(h, vars, lines[0], depth);
            LineKeeps(h, vars, lines[0], depth);
            if r.failure.Nothing? {
              ParsingKeeps(h, r.vars, conds, rest, depth);
            }
          }
      }
    }
  }
}
