/**
 * The line interpreter of `_parse_mk_file`: its stack of conditions against a semantics of
 * nested blocks, for every file, well nested or not.
 */
module MakeBlocks {
  import opened MakeText
  import opened MakeExpand

  datatype Operator = Append | Default | Set

  /** A line, once comments, white space and its keyword have been dealt with. */
  datatype Line =
    | If(negated: bool, left: string, right: string)
    | Else
    | Endif
    | Include(name: string)
    | Error(message: string)
    | Assign(op: Operator, key: string, value: string)
    | Other

  type Vars = map<string, Value>

  /** What does not change while a file is parsed. */
  datatype Host = Host(glob: string -> seq<string>, files: map<string, seq<Line>>)

  datatype Failure = Nothing | Raised(error: MakeExpand.Error)

  /** The variables afterwards, and the exception if there was one. */
  datatype Parsed = Parsed(vars: Vars, failure: Failure)

  function Done(vars: Vars): Parsed {
    Parsed(vars, Nothing)
  }

  function Raise(vars: Vars, e: MakeExpand.Error): Parsed {
    Parsed(vars, Raised(e))
  }

  // ---------------------------------------------------------------------------------------
  // Single lines
  // ---------------------------------------------------------------------------------------

  function Expanded(h: Host, vars: Vars, text: string): Outcome<seq<string>> {
    Eval(Env(vars, h.glob), text)
  }

  /** The first word: a file name, or the variable that is assigned to. */
  function Name(h: Host, vars: Vars, text: string): Outcome<string> {
    var words :- Expanded(h, vars, text);
    if words == [] then Err(IndexError) else Ok(words[0])
  }

  function Condition(h: Host, vars: Vars, line: Line): Outcome<bool>
    requires line.If?
  {
    var left :- Expanded(h, vars, line.left);
    var right :- Expanded(h, vars, line.right);
    Ok((left == right) != line.negated)
  }

  function AssignTo(h: Host, vars: Vars, line: Line): Parsed
    requires line.Assign?
  {
    match Name(h, vars, line.key)
    case Err(e) => Raise(vars, e)
    case Ok(key) =>
      match line.op
      case Append => AppendTo(if key in vars then vars else vars[key := Value.Words([])], key, h, line.value)
      case Default => if key in vars then Done(vars) else SetTo(vars, key, h, line.value)
      case Set => SetTo(vars, key, h, line.value)
  }

  function AppendTo(vars: Vars, key: string, h: Host, value: string): Parsed
    requires key in vars
  {
    match Expanded(h, vars, value)
    case Err(e) => Raise(vars, e)
    case Ok(words) =>
      match vars[key]
      case Text(_) => Raise(vars, TypeError)
      case Words(had) => Done(vars[key := Value.Words(had + words)])
  }

  function SetTo(vars: Vars, key: string, h: Host, value: string): Parsed {
    match Expanded(h, vars, value)
    case Err(e) => Raise(vars, e)
    case Ok(words) => Done(vars[key := Value.Words(words)])
  }

  /** A line that is neither a condition nor `else` or `endif`. */
  predicate IsPlain(line: Line) {
    !line.If? && !line.Else? && !line.Endif?
  }

  /** `depth` bounds how many more files can be included inside each other. */
  function RunLine(h: Host, vars: Vars, line: Line, depth: nat): Parsed
    requires IsPlain(line)
    decreases depth, 0
  {
    match line
    case Include(text) =>
      (match Name(h, vars, text)
       case Err(e) => Raise(vars, e)
       case Ok(name) =>
         if name !in h.files then Raise(vars, FileNotFound(name))
         else if depth == 0 then Raise(vars, RecursionLimit)
         else RunFlat(h, vars, [], h.files[name], depth - 1))
    case Error(message) => Raise(vars, UserError(message))
    case Assign(_, _, _) => AssignTo(h, vars, line)
    case _ => Done(vars)
  }

  // ---------------------------------------------------------------------------------------
  // The interpreter with its stack of conditions, the innermost last
  // ---------------------------------------------------------------------------------------

  function Top(conds: seq<bool>): bool
    requires conds != []
  {
    conds[|conds| - 1]
  }

  function Pop(conds: seq<bool>): seq<bool>
    requires conds != []
  {
    conds[..|conds| - 1]
  }

  function RunFlat(h: Host, vars: Vars, conds: seq<bool>, lines: seq<Line>, depth: nat): Parsed
    decreases depth, |lines| + 1
  {
    if lines == [] then Done(vars)
    else
      var rest := lines[1..];
      match lines[0]
      case If(_, _, _) =>
        (match Condition(h, vars, lines[0])
         case Err(e) => Raise(vars, e)
         case Ok(holds) => RunFlat(h, vars, conds + [holds], rest, depth))
      case Else =>
        if conds == [] then Raise(vars, ElseWithoutIf)
        else RunFlat(h, vars, Pop(conds) + [!Top(conds)], rest, depth)
      case Endif =>
        if conds == [] then Raise(vars, EndifWithoutIf)
        else RunFlat(h, vars, Pop(conds), rest, depth)
      case _ =>
        if false in conds then RunFlat(h, vars, conds, rest, depth)
        else
          var r := RunLine(h, vars, lines[0], depth);
          if r.failure.Raised? then r else RunFlat(h, r.vars, conds, rest, depth)
  }

  // ---------------------------------------------------------------------------------------
  // Blocks
  // ---------------------------------------------------------------------------------------

  /** A plain line, or a conditional with its branches: one, and one more for each `else`. */
  datatype Stmt = Plain(line: Line) | Cond(header: Line, first: seq<Stmt>, others: seq<Branch>)

  /** What stands behind one `else`. */
  datatype Branch = Branch(body: seq<Stmt>)

  predicate WellFormed(b: seq<Stmt>) {
    forall i :: 0 <= i < |b| ==> WellFormedStmt(b[i])
  }

  predicate WellFormedStmt(s: Stmt) {
    match s
    case Plain(line) => IsPlain(line)
    case Cond(header, first, others) => header.If? && WellFormed(first) && AllWellFormed(others)
  }

  predicate AllWellFormed(bs: seq<Branch>) {
    forall i :: 0 <= i < |bs| ==> WellFormed(bs[i].body)
  }

  function Lines(b: seq<Stmt>): seq<Line> {
    if b == [] then [] else LinesOf(b[0]) + Lines(b[1..])
  }

  function LinesOf(s: Stmt): seq<Line> {
    match s
    case Plain(line) => [line]
    case Cond(header, first, others) => [header] + Lines(first) + ElseLines(others) + [Endif]
  }

  function ElseLines(others: seq<Branch>): seq<Line> {
    if others == [] then [] else [Else] + Lines(others[0].body) + ElseLines(others[1..])
  }

  /**
   * What a block does, `live` when all branches around it are. Conditions are evaluated in
   * dead branches too, and can raise there; each `else` turns its condition round.
   */
  function RunBlock(h: Host, vars: Vars, live: bool, b: seq<Stmt>, depth: nat): Parsed
    requires WellFormed(b)
    decreases b, 0
  {
    if b == [] then Done(vars)
    else
      assert WellFormedStmt(b[0]);
      var r := RunStmt(h, vars, live, b[0], depth);
      if r.failure.Raised? then r else RunBlock(h, r.vars, live, b[1..], depth)
  }

  function RunStmt(h: Host, vars: Vars, live: bool, s: Stmt, depth: nat): Parsed
    requires WellFormedStmt(s)
    decreases s, 0
  {
    match s
    case Plain(line) => if live then RunLine(h, vars, line, depth) else Done(vars)
    case Cond(header, first, others) =>
      match Condition(h, vars, header)
      case Err(e) => Raise(vars, e)
      case Ok(holds) =>
        var r := RunBlock(h, vars, live && holds, first, depth);
        if r.failure.Raised? then r else RunElses(h, r.vars, live, !holds, others, depth)
  }

  function RunElses(h: Host, vars: Vars, live: bool, holds: bool, others: seq<Branch>, depth: nat): Parsed
    requires AllWellFormed(others)
    decreases others, 1
  {
    if others == [] then Done(vars)
    else
      var r := RunBlock(h, vars, live && holds, others[0].body, depth);
      if r.failure.Raised? then r else RunElses(h, r.vars, live, !holds, others[1..], depth)
  }

  // ---------------------------------------------------------------------------------------
  // The interpreter runs blocks
  // ---------------------------------------------------------------------------------------

  /** What the interpreter does with the remaining lines, unless `r` raised. */
  function Continue(h: Host, r: Parsed, conds: seq<bool>, rest: seq<Line>, depth: nat): Parsed {
    if r.failure.Raised? then r else RunFlat(h, r.vars, conds, rest, depth)
  }

  /** Lines of a block are run as the block, whatever stands around and behind them. */
  lemma {:induction false} FlatIsBlock(h: Host, vars: Vars, conds: seq<bool>, b: seq<Stmt>, rest: seq<Line>, depth: nat)
    requires WellFormed(b)
    ensures RunFlat(h, vars, conds, Lines(b) + rest, depth)
         == Continue(h, RunBlock(h, vars, false !in conds, b, depth), conds, rest, depth)
    decreases b, 0
  {
    hide Condition, RunLine;
    if b == [] {
      assert Lines(b) + rest == rest;
    } else {
      assert WellFormedStmt(b[0]);
      assert Lines(b) + rest == LinesOf(b[0]) + (Lines(b[1..]) + rest);
      FlatIsStmt(h, vars, conds, b[0], Lines(b[1..]) + rest, depth);
      var r := RunStmt(h, vars, false !in conds, b[0], depth);
      if r.failure.Nothing? {
        FlatIsBlock(h, r.vars, conds, b[1..], rest, depth);
      }
    }
  }

  lemma {:induction false} FlatIsStmt(h: Host, vars: Vars, conds: seq<bool>, s: Stmt, rest: seq<Line>, depth: nat)
    requires WellFormedStmt(s)
    ensures RunFlat(h, vars, conds, LinesOf(s) + rest, depth)
         == Continue(h, RunStmt(h, vars, false !in conds, s, depth), conds, rest, depth)
    decreases s, 0
  {
    hide Condition, RunLine;
    match s {
      case Plain(line) =>
        assert ([line] + rest)[1..] == rest;
      case Cond(header, first, others) =>
        var after := Lines(first) + (ElseLines(others) + [Endif] + rest);
        assert LinesOf(s) + rest == [header] + after;
        assert ([header] + after)[1..] == after;
        var c := Condition(h, vars, header);
        if c.Ok? {
          var inner := conds + [c.value];
          FlatIsBlock(h, vars, inner, first, ElseLines(others) + [Endif] + rest, depth);
          var r := RunBlock(h, vars, false !in inner, first, depth);
          if r.failure.Nothing? {
            FlatIsElses(h, r.vars, conds, c.value, others, rest, depth);
          }
        }
    }
  }

  lemma {:induction false} FlatIsElses(
      h: Host, vars: Vars, conds: seq<bool>, holds: bool, others: seq<Branch>, rest: seq<Line>, depth: nat)
    requires AllWellFormed(others)
    ensures RunFlat(h, vars, conds + [holds], ElseLines(others) + [Endif] + rest, depth)
         == Continue(h, RunElses(h, vars, false !in conds, !holds, others, depth), conds, rest, depth)
    decreases others, 1
  {
    hide Condition, RunLine;
    var lines := ElseLines(others) + [Endif] + rest;
    assert Pop(conds + [holds]) == conds;
    if others == [] {
      assert lines[1..] == rest;
    } else {
      var after := ElseLines(others[1..]) + [Endif] + rest;
      assert lines[1..] == Lines(others[0].body) + after;
      var inner := conds + [!holds];
      FlatIsBlock(h, vars, inner, others[0].body, after, depth);
      var r := RunBlock(h, vars, false !in inner, others[0].body, depth);
      if r.failure.Nothing? {
        FlatIsElses(h, r.vars, conds, !holds, others[1..], rest, depth);
      }
    }
  }
}
