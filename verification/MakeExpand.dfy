/**
 * Expansion of `$(...)` in a makefile fragment: the one-pass stack machine of
 * `_eval_mk_vars`, and the trees of nested references that it evaluates.
 */
module MakeExpand {
  import opened MakeText

  /** A variable holds the words a file gave it, or a string from the environment. */
  datatype Value = Words(words: seq<string>) | Text(text: string)

  /** What expansion reads: the variables, and the base names that a file pattern finds. */
  datatype Env = Env(vars: map<string, Value>, glob: string -> seq<string>)

  /** The exceptions, with what their messages report. */
  datatype Error =
    | ExpectParen(got: char)
    | TooManyClose
    | StackSize(stack: seq<string>)
    | PatsubstPattern
    | PatsubstReplacement
    | UnsupportedMacro(name: string)
    | ValueError
    | IndexError
    | TypeError
    | FileNotFound(name: string)
    | RecursionLimit
    | ElseWithoutIf
    | EndifWithoutIf
    | UserError(message: string)

  datatype Outcome<T> = Ok(value: T) | Err(error: Error)
  {
    predicate IsFailure() { Err? }
    function PropagateFailure<U>(): Outcome<U> requires Err? { Err(error) }
    function Extract(): T requires Ok? { value }
  }

  // ---------------------------------------------------------------------------------------
  // One reference, once everything inside its parentheses is expanded
  // ---------------------------------------------------------------------------------------

  function AddPrefix(tokens: seq<string>): Outcome<string> {
    if |tokens| < 2 then Err(IndexError)
    else
      var parts := Split(tokens[1], Char(','));
      if |parts| != 2 then Err(ValueError)
      else Ok(Join(Prefixed(parts[0], [parts[1]] + tokens[2..])))
  }

  function Wildcard(env: Env, patterns: seq<string>): string {
    if patterns == [] then ""
    else Join(env.glob(patterns[0])) + Wildcard(env, patterns[1..])
  }

  /** Takes one occurrence, the first, of each pattern out of the words. */
  function Remove<T(==)>(words: seq<T>, patterns: seq<T>): Outcome<seq<T>>
    decreases |patterns|
  {
    if patterns == [] then Ok(words)
    else if patterns[0] in words then
      var at := First(words, patterns[0]);
      Remove(words[..at] + words[at + 1..], patterns[1..])
    else Err(ValueError)
  }

  function First<T(==)>(words: seq<T>, w: T): (at: nat)
    requires w in words
    ensures at < |words| && words[at] == w && w !in words[..at]
  {
    if words[0] == w then 0 else 1 + First(words[1..], w)
  }

  lemma RemoveNothing<T>(words: seq<T>)
    ensures Remove(words, []) == Ok(words)
  {
  }

  lemma RemoveFirst<T>(words: seq<T>, patterns: seq<T>)
    requires patterns != [] && patterns[0] in words
    ensures var at := First(words, patterns[0]);
            Remove(words, patterns) == Remove(words[..at] + words[at + 1..], patterns[1..])
  {
  }

  lemma RemoveMissing<T>(words: seq<T>, patterns: seq<T>)
    requires patterns != [] && patterns[0] !in words
    ensures Remove(words, patterns) == Err(ValueError)
  {
  }

  function FilterOut(tokens: seq<string>): Outcome<string>
    requires tokens != []
  {
    var parts := SplitMax(Join(tokens[1..]), ',', 1);
    if |parts| != 2 then Err(ValueError)
    else
      var kept :- Remove(WordsIn(parts[1]), Split(parts[0], Char(' ')));
      Ok(Join(kept))
  }

  function Patsubst(tokens: seq<string>): Outcome<string>
    requires tokens != []
  {
    var parts := SplitMax(Join(tokens[1..]), ',', 2);
    if |parts| != 3 then Err(ValueError)
    else
      var pattern := parts[0];
      if pattern == "" || pattern[|pattern| - 1] != '%' then Err(PatsubstPattern)
      else if parts[1] != "%" then Err(PatsubstReplacement)
      else Ok(Join(Unprefixed(pattern[..|pattern| - 1], WordsIn(parts[2]))))
  }

  function Variable(env: Env, name: string): string {
    if name in env.vars then
      match env.vars[name]
      case Words(ws) => Join(ws)
      case Text(t) => t
    else ""
  }

  /** The text that `$(body)` stands for. */
  function Apply(env: Env, body: string): Outcome<string> {
    var tokens := Split(body, Char(' '));
    if tokens[0] == "addprefix" then AddPrefix(tokens)
    else if tokens[0] == "wildcard" then Ok(Wildcard(env, tokens[1..]))
    else if tokens[0] == "filter-out" then FilterOut(tokens)
    else if tokens[0] == "patsubst" then Patsubst(tokens)
    else if |tokens| == 1 then Ok(Variable(env, body))
    else Err(UnsupportedMacro(tokens[0]))
  }

  // ---------------------------------------------------------------------------------------
  // The stack machine
  // ---------------------------------------------------------------------------------------

  /** The text collected at each depth of open references, the innermost last. */
  datatype Machine = Machine(varStart: bool, stack: seq<string>)

  function Push(stack: seq<string>, text: string): (r: seq<string>)
    requires stack != []
    ensures |r| == |stack|
  {
    stack[..|stack| - 1] + [stack[|stack| - 1] + text]
  }

  function Step(env: Env, m: Machine, c: char): (r: Outcome<Machine>)
    requires m.stack != []
    ensures r.Ok? ==> r.value.stack != []
  {
    if m.varStart then
      if c == '(' then Ok(Machine(false, m.stack + [""])) else Err(ExpectParen(c))
    else if c == '$' then Ok(Machine(true, m.stack))
    else if c == ')' then
      var top := |m.stack| - 1;
      if top == 0 then Err(TooManyClose)
      else
        var text :- Apply(env, m.stack[top]);
        Ok(Machine(false, Push(m.stack[..top], text)))
    else Ok(Machine(false, Push(m.stack, [c])))
  }

  function Run(env: Env, m: Machine, s: string): (r: Outcome<Machine>)
    requires m.stack != []
    ensures r.Ok? ==> r.value.stack != []
    decreases |s|
  {
    if s == "" then Ok(m)
    else
      var next :- Step(env, m, s[0]);
      Run(env, next, s[1..])
  }

  /** At the end every reference must be closed; a `$` still waiting is dropped. */
  function Finish(m: Machine): Outcome<seq<string>>
    requires m.stack != []
  {
    if |m.stack| != 1 then Err(StackSize(m.stack)) else Ok(WordsIn(m.stack[0]))
  }

  function Eval(env: Env, s: string): Outcome<seq<string>> {
    var m :- Run(env, Machine(false, [""]), s);
    Finish(m)
  }

  /** Every word an expansion returns is non-empty and free of white space. */
  lemma EvalIsClean(env: Env, s: string)
    requires Eval(env, s).Ok?
    ensures AllClean(Eval(env, s).value)
  {
    WordsAreClean(Run(env, Machine(false, [""]), s).value.stack[0]);
  }

  // ---------------------------------------------------------------------------------------
  // Trees of references, and their meaning
  // ---------------------------------------------------------------------------------------

  /** One literal character, or a reference to what its body expands to. */
  datatype Node = Literal(c: char) | Ref(body: seq<Node>)

  function Print(ns: seq<Node>): string {
    if ns == [] then ""
    else (match ns[0] case Literal(c) => [c] case Ref(body) => "$(" + Print(body) + ")") + Print(ns[1..])
  }

  predicate Plain(c: char) {
    c != '$' && c != ')'
  }

  predicate Proper(ns: seq<Node>) {
    forall i :: 0 <= i < |ns| ==> ProperNode(ns[i])
  }

  predicate ProperNode(n: Node) {
    match n
    case Literal(c) => Plain(c)
    case Ref(body) => Proper(body)
  }

  /** The text a tree stands for: bodies first, left to right, and the first error wins. */
  function Meaning(env: Env, ns: seq<Node>): Outcome<string> {
    if ns == [] then Ok("")
    else
      var first :- match ns[0] {
        case Literal(c) => Ok([c])
        case Ref(body) => var inner :- Meaning(env, body); Apply(env, inner)
      };
      var rest :- Meaning(env, ns[1..]);
      Ok(first + rest)
  }

  function MeaningWords(env: Env, ns: seq<Node>): Outcome<seq<string>> {
    var text :- Meaning(env, ns);
    Ok(WordsIn(text))
  }

  /** Running a printed tree adds its meaning to the innermost text and nothing else. */
  lemma {:induction false} RunPrinted(env: Env, ns: seq<Node>, stack: seq<string>, rest: string)
    requires Proper(ns) && stack != []
    ensures Run(env, Machine(false, stack), Print(ns) + rest)
         == (match Meaning(env, ns)
             case Err(e) => Err(e)
             case Ok(text) => Run(env, Machine(false, Push(stack, text)), rest))
    decreases ns, 0
  {
    var m := Machine(false, stack);
    if ns == [] {
      assert Print(ns) + rest == rest;
      assert stack[|stack| - 1] + "" == stack[|stack| - 1];
      assert Push(stack, "") == stack;
    } else {
      var tail := Print(ns[1..]) + rest;
      match ns[0] {
        case Literal(c) =>
          assert ProperNode(ns[0]);
          assert Print(ns) + rest == [c] + tail;
          assert ([c] + tail)[1..] == tail;
          PushTwice(stack, [c]);
          RunPrinted(env, ns[1..], Push(stack, [c]), rest);
        case Ref(body) =>
          assert ProperNode(ns[0]);
          RunRef(env, body, stack, tail);
          assert Print(ns) + rest == "$(" + Print(body) + ")" + tail;
          PushTwice(stack, "");
          var inner := Meaning(env, body);
          if inner.Ok? && Apply(env, inner.value).Ok? {
            var text := Apply(env, inner.value).value;
            PushTwice(stack, text);
            RunPrinted(env, ns[1..], Push(stack, text), rest);
          }
      }
    }
  }

  lemma {:induction false} RunRef(env: Env, body: seq<Node>, stack: seq<string>, tail: string)
    requires Proper(body) && stack != []
    ensures Run(env, Machine(false, stack), "$(" + Print(body) + ")" + tail)
         == (match Meaning(env, body)
             case Err(e) => Err(e)
             case Ok(inner) =>
               match Apply(env, inner)
               case Err(e) => Err(e)
               case Ok(text) => Run(env, Machine(false, Push(stack, text)), tail))
    decreases body, 1
  {
    var s := "$(" + Print(body) + ")" + tail;
    assert s[1..][1..] == Print(body) + (")" + tail);
    assert s == ['$'] + s[1..] && s[1..][0] == '(';
    var deeper := stack + [""];
    RunPrinted(env, body, deeper, ")" + tail);
    var inner := Meaning(env, body);
    if inner.Ok? {
      assert "" + inner.value == inner.value;
      assert Push(deeper, inner.value) == stack + [inner.value];
      assert (stack + [inner.value])[..|stack|] == stack;
      assert (")" + tail)[1..] == tail;
    }
  }

  lemma PushTwice(stack: seq<string>, a: string)
    requires stack != []
    ensures forall b :: Push(Push(stack, a), b) == Push(stack, a + b)
  {
    forall b ensures Push(Push(stack, a), b) == Push(stack, a + b) {
      var top := |stack| - 1;
      assert (stack[top] + a) + b == stack[top] + (a + b);
      assert Push(stack, a)[..top] == stack[..top];
    }
  }

  /**
   * Expansion of a printed tree, a lone `$` behind it or not, gives the words of its meaning,
   * or the error that its evaluation meets first.
   */
  lemma ExpansionIsEvaluation(env: Env, ns: seq<Node>)
    requires Proper(ns)
    ensures Eval(env, Print(ns)) == MeaningWords(env, ns)
    ensures Eval(env, Print(ns) + "$") == MeaningWords(env, ns)
  {
    hide Apply, Print, Split;
    RunPrinted(env, ns, [""], "");
    RunPrinted(env, ns, [""], "$");
    assert Print(ns) + "" == Print(ns);
    if Meaning(env, ns).Ok? {
      var text := Meaning(env, ns).value;
      assert "" + text == text;
      assert Push([""], text) == [text];
      RunDollar(env, [text]);
    }
  }

  lemma RunDollar(env: Env, stack: seq<string>)
    requires stack != []
    ensures Run(env, Machine(false, stack), "$") == Ok(Machine(true, stack))
  {
    assert "$"[1..] == "";
  }

  // ---------------------------------------------------------------------------------------
  // Everything the machine accepts is a printed tree
  // ---------------------------------------------------------------------------------------

  /** The text read so far, given the finished nodes at each depth of open references. */
  function Opened(open: seq<seq<Node>>): string
    requires open != []
  {
    var top := |open| - 1;
    if top == 0 then Print(open[0]) else Opened(open[..top]) + "$(" + Print(open[top])
  }

  function Waiting(varStart: bool): string {
    if varStart then "$" else ""
  }

  predicate AllProper(open: seq<seq<Node>>) {
    forall i :: 0 <= i < |open| ==> Proper(open[i])
  }

  function PushNode(open: seq<seq<Node>>, n: Node): (r: seq<seq<Node>>)
    requires open != []
    ensures |r| == |open|
  {
    open[..|open| - 1] + [open[|open| - 1] + [n]]
  }

  lemma {:induction false} PrintSnoc(ns: seq<Node>, n: Node)
    ensures Print(ns + [n]) == Print(ns) + Print([n])
    decreases |ns|
  {
    if ns == [] {
      assert Print([]) + Print([n]) == Print([n]);
      assert [] + [n] == [n];
    } else {
      assert (ns + [n])[1..] == ns[1..] + [n];
      PrintSnoc(ns[1..], n);
    }
  }

  lemma OpenedPush(open: seq<seq<Node>>, n: Node)
    requires open != []
    ensures Opened(PushNode(open, n)) == Opened(open) + Print([n])
  {
    var top := |open| - 1;
    PrintSnoc(open[top], n);
    assert PushNode(open, n)[..top] == open[..top];
  }

  /** The nodes read so far, after one more character that the machine accepts. */
  function Follow(open: seq<seq<Node>>, varStart: bool, c: char): seq<seq<Node>>
    requires open != []
  {
    var top := |open| - 1;
    if varStart then open + [[]]
    else if c == '$' then open
    else if c == ')' && top > 0 then PushNode(open[..top], Ref(open[top]))
    else PushNode(open, Literal(c))
  }

  lemma FollowStep(env: Env, m: Machine, open: seq<seq<Node>>, c: char)
    requires m.stack != [] && |open| == |m.stack| && AllProper(open)
    requires Step(env, m, c).Ok?
    ensures var next, after := Step(env, m, c).value, Follow(open, m.varStart, c);
            && |after| == |next.stack| && AllProper(after)
            && Opened(after) + Waiting(next.varStart) == Opened(open) + Waiting(m.varStart) + [c]
  {
    hide Apply, Print, Split;
    var top := |open| - 1;
    if m.varStart {
      PrintNothing();
      assert (open + [[]])[..|open|] == open;
      assert Opened(open + [[]]) == Opened(open) + "$(" + "";
    } else if c == '$' {
    } else if c == ')' {
      FollowClose(open);
    } else {
      assert ProperNode(Literal(c));
      OpenedPush(open, Literal(c));
      PrintLiteral(c);
    }
  }

  lemma FollowClose(open: seq<seq<Node>>)
    requires |open| > 1 && AllProper(open)
    ensures var top := |open| - 1;
            && ProperNode(Ref(open[top]))
            && Opened(PushNode(open[..top], Ref(open[top]))) == Opened(open) + ")"
  {
    var top := |open| - 1;
    var n := Ref(open[top]);
    assert ProperNode(n);
    OpenedPush(open[..top], n);
    assert Print([n]) == "$(" + Print(open[top]) + ")" + Print([]);
  }

  lemma PrintNothing()
    ensures Print([]) == ""
  {
  }

  lemma PrintLiteral(c: char)
    ensures Print([Literal(c)]) == [c]
  {
    assert Print([Literal(c)]) == [c] + Print([]);
  }

  lemma {:induction false} FollowRun(env: Env, m: Machine, open: seq<seq<Node>>, s: string)
    returns (end: seq<seq<Node>>)
    requires m.stack != [] && |open| == |m.stack| && AllProper(open)
    requires Run(env, m, s).Ok?
    ensures var last := Run(env, m, s).value;
            && |end| == |last.stack| && AllProper(end)
            && Opened(end) + Waiting(last.varStart) == Opened(open) + Waiting(m.varStart) + s
    decreases |s|
  {
    hide Step, Opened, Follow;
    if s == "" {
      end := open;
    } else {
      FollowStep(env, m, open, s[0]);
      end := FollowRun(env, Step(env, m, s[0]).value, Follow(open, m.varStart, s[0]), s[1..]);
      assert s == [s[0]] + s[1..];
    }
  }

  predicate PrintsAs(ns: seq<Node>, s: string) {
    Proper(ns) && (s == Print(ns) || s == Print(ns) + "$")
  }

  /** Exactly the printed trees whose evaluation succeeds are expanded, all others raise. */
  lemma ExpandsExactlyTheTrees(env: Env, s: string)
    ensures Eval(env, s).Ok? <==> exists ns :: PrintsAs(ns, s) && Meaning(env, ns).Ok?
  {
    if Eval(env, s).Ok? {
      var start := Machine(false, [""]);
      assert Opened([[]]) == "";
      var end := FollowRun(env, start, [[]], s);
      var ns := end[0];
      assert Opened([[]]) + Waiting(false) + s == s;
      assert Opened(end) == Print(ns);
      assert Print(ns) + "" == Print(ns);
      assert PrintsAs(ns, s);
      ExpansionIsEvaluation(env, ns);
    }
    if ns :| PrintsAs(ns, s) && Meaning(env, ns).Ok? {
      ExpansionIsEvaluation(env, ns);
    }
  }
}
