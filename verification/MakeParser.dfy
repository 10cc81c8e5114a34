/** The parser itself: it changes its variables in place, line by line and character by character. */
module MakeParser {
  import opened MakeText
  import opened MakeExpand
  import opened MakeBlocks

  lemma {:induction false} JoinSnoc(ws: seq<string>, w: string)
    requires ws != []
    ensures Join(ws + [w]) == Join(ws) + " " + w
    decreases |ws|
  {
    assert (ws + [w])[1..] == ws[1..] + [w];
    if |ws| > 1 {
      JoinSnoc(ws[1..], w);
      Regroup(ws[0], Join(ws[1..]), w);
    } else {
      assert Join([w]) == w;
    }
  }

  lemma Regroup(a: string, b: string, c: string)
    ensures a + " " + (b + " " + c) == a + " " + b + " " + c
  {
  }

  lemma {:induction false} PrefixedSnocWords(p: string, ws: seq<string>, w: string)
    ensures Prefixed(p, ws + [w]) == Prefixed(p, ws) + [p + w]
    decreases |ws|
  {
    if ws != [] {
      assert (ws + [w])[1..] == ws[1..] + [w];
      PrefixedSnocWords(p, ws[1..], w);
    } else {
      assert ws + [w] == [w];
    }
  }

  lemma PrefixedSnoc(p: string, ws: seq<string>, w: string)
    requires ws != []
    ensures Join(Prefixed(p, ws + [w])) == Join(Prefixed(p, ws)) + " " + (p + w)
  {
    hide Join;
    PrefixedSnocWords(p, ws, w);
    JoinSnoc(Prefixed(p, ws), p + w);
  }

  lemma {:induction false} UnprefixedSnoc(p: string, ws: seq<string>, w: string)
    ensures Unprefixed(p, ws + [w]) == Unprefixed(p, ws) + [if p <= w then w[|p|..] else w]
    decreases |ws|
  {
    if ws != [] {
      assert (ws + [w])[1..] == ws[1..] + [w];
      UnprefixedSnoc(p, ws[1..], w);
    } else {
      assert ws + [w] == [w];
    }
  }

  lemma WildcardStep(env: Env, text: string, patterns: seq<string>)
    requires patterns != []
    ensures text + Wildcard(env, patterns)
         == (text + Join(env.glob(patterns[0]))) + Wildcard(env, patterns[1..])
  {
  }

  class MakeFragmentParser {
    var mkVars: Vars
    const host: Host

    constructor (envVars: Vars, host: Host)
      ensures mkVars == envVars && this.host == host
    {
      mkVars := envVars;
      this.host := host;
    }

    /** `_eval_mk_vars`. */
    method EvalMkVars(text: string) returns (r: Outcome<seq<string>>)
      ensures r == Eval(Env(mkVars, host.glob), text)
    {
      hide Apply, WordsIn;
      ghost var env := Env(mkVars, host.glob);
      var varStart := false;
      var stack := [""];
      var i := 0;
      assert text[0..] == text;
      while i < |text|
        invariant 0 <= i <= |text| && stack != []
        invariant Run(env, Machine(false, [""]), text) == Run(env, Machine(varStart, stack), text[i..])
      {
        var c := text[i];
        assert text[i..][0] == c && text[i..][1..] == text[i + 1..];
        i := i + 1;
        if varStart {
          varStart := false;
          if c != '(' {
            return Err(ExpectParen(c));
          }
          stack := stack + [""];
        } else if c == '$' {
          varStart := true;
        } else if c == ')' {
          if |stack| < 2 {
            return Err(TooManyClose);
          }
          var body := stack[|stack| - 1];
          stack := stack[..|stack| - 1];
          var result := EvalReference(body);
          if result.Err? {
            return Err(result.error);
          }
          stack := stack[..|stack| - 1] + [stack[|stack| - 1] + result.value];
        } else {
          stack := stack[..|stack| - 1] + [stack[|stack| - 1] + [c]];
        }
      }
      if |stack| != 1 {
        return Err(StackSize(stack));
      }
      return Ok(WordsIn(stack[0]));
    }

    /** One reference of `_eval_mk_vars`, its body expanded. */
    method EvalReference(body: string) returns (r: Outcome<string>)
      ensures r == Apply(Env(mkVars, host.glob), body)
    {
      hide AddPrefix, Wildcard, FilterOut, Patsubst, Variable;
      var tokens := Split(body, Char(' '));
      if tokens[0] == "addprefix" {
        r := AddPrefixes(tokens);
      } else if tokens[0] == "wildcard" {
        var found := Wildcards(tokens[1..]);
        r := Ok(found);
      } else if tokens[0] == "filter-out" {
        r := FilterWords(tokens);
      } else if tokens[0] == "patsubst" {
        r := Substitute(tokens);
      } else if |tokens| == 1 {
        r := Ok(Variable(Env(mkVars, host.glob), body));
      } else {
        r := Err(UnsupportedMacro(tokens[0]));
      }
    }

    method AddPrefixes(tokens: seq<string>) returns (r: Outcome<string>)
      ensures r == AddPrefix(tokens)
    {
      hide Split;
      if |tokens| < 2 {
        return Err(IndexError);
      }
      var parts := Split(tokens[1], Char(','));
      if |parts| != 2 {
        return Err(ValueError);
      }
      var prefix := parts[0];
      var text := prefix + parts[1];
      ghost var words := [parts[1]];
      var i := 2;
      assert Prefixed(prefix, words) == [text];
      while i < |tokens|
        invariant 2 <= i <= |tokens| && words == [parts[1]] + tokens[2..i]
        invariant text == Join(Prefixed(prefix, words))
      {
        PrefixedSnoc(prefix, words, tokens[i]);
        text := text + " " + (prefix + tokens[i]);
        words := words + [tokens[i]];
        i := i + 1;
      }
      assert tokens[2..i] == tokens[2..];
      return Ok(text);
    }

    method Wildcards(patterns: seq<string>) returns (text: string)
      ensures text == Wildcard(Env(mkVars, host.glob), patterns)
    {
      ghost var env := Env(mkVars, host.glob);
      text := "";
      var i := 0;
      assert patterns[0..] == patterns;
      assert text + Wildcard(env, patterns) == Wildcard(env, patterns);
      while i < |patterns|
        invariant 0 <= i <= |patterns|
        invariant text + Wildcard(env, patterns[i..]) == Wildcard(env, patterns)
      {
        assert patterns[i..][1..] == patterns[i + 1..];
        WildcardStep(env, text, patterns[i..]);
        text := text + Join(host.glob(patterns[i]));
        i := i + 1;
      }
    }

    method FilterWords(tokens: seq<string>) returns (r: Outcome<string>)
      requires tokens != []
      ensures r == FilterOut(tokens)
    {
      hide Split, SplitMax, Join, WordsIn;
      var parts := SplitMax(Join(tokens[1..]), ',', 1);
      if |parts| != 2 {
        return Err(ValueError);
      }
      var words := WordsIn(parts[1]);
      var patterns := Split(parts[0], Char(' '));
      r := RemoveAll(words, patterns);
    }

    method RemoveAll(words: seq<string>, patterns: seq<string>) returns (r: Outcome<string>)
      ensures r == (match Remove(words, patterns) case Err(e) => Err(e) case Ok(kept) => Ok(Join(kept)))
    {
      hide Join, Remove;
      var kept := words;
      var i := 0;
      assert patterns[0..] == patterns;
      while i < |patterns|
        invariant 0 <= i <= |patterns| && Remove(kept, patterns[i..]) == Remove(words, patterns)
      {
        assert patterns[i..][0] == patterns[i] && patterns[i..][1..] == patterns[i + 1..];
        if patterns[i] !in kept {
          RemoveMissing(kept, patterns[i..]);
          return Err(ValueError);
        }
        RemoveFirst(kept, patterns[i..]);
        var at := First(kept, patterns[i]);
        kept := kept[..at] + kept[at + 1..];
        i := i + 1;
      }
      assert patterns[i..] == [];
      RemoveNothing(kept);
      return Ok(Join(kept));
    }

    method Substitute(tokens: seq<string>) returns (r: Outcome<string>)
      requires tokens != []
      ensures r == Patsubst(tokens)
    {
      hide SplitMax, Join, WordsIn;
      var parts := SplitMax(Join(tokens[1..]), ',', 2);
      if |parts| != 3 {
        return Err(ValueError);
      }
      var pattern := parts[0];
      if pattern == "" || pattern[|pattern| - 1] != '%' {
        return Err(PatsubstPattern);
      }
      pattern := pattern[..|pattern| - 1];
      if parts[1] != "%" {
        return Err(PatsubstReplacement);
      }
      var words := WordsIn(parts[2]);
      var result := [];
      var i := 0;
      while i < |words|
        invariant 0 <= i <= |words| && result == Unprefixed(pattern, words[..i])
      {
        var token := words[i];
        UnprefixedSnoc(pattern, words[..i], token);
        assert words[..i + 1] == words[..i] + [token];
        if pattern <= token {
          token := token[|pattern|..];
        }
        result := result + [token];
        i := i + 1;
      }
      assert words[..i] == words;
      return Ok(Join(result));
    }

    method EvalName(text: string) returns (r: Outcome<string>)
      ensures r == Name(host, mkVars, text)
    {
      var words := EvalMkVars(text);
      if words.Err? {
        return Err(words.error);
      }
      if words.value == [] {
        return Err(IndexError);
      }
      return Ok(words.value[0]);
    }

    method EvalCondition(line: Line) returns (r: Outcome<bool>)
      requires line.If?
      ensures r == Condition(host, mkVars, line)
    {
      var left := EvalMkVars(line.left);
      if left.Err? {
        return Err(left.error);
      }
      var right := EvalMkVars(line.right);
      if right.Err? {
        return Err(right.error);
      }
      return Ok((left.value == right.value) != line.negated);
    }

    method Assign(line: Line) returns (failure: Failure)
      requires line.Assign?
      modifies this
      ensures Parsed(mkVars, failure) == AssignTo(host, old(mkVars), line)
      ensures var key := Eval(Env(old(mkVars), host.glob), line.key);
              && (key.Err? ==> failure == Raised(key.error) && mkVars == old(mkVars))
              && (key.Ok? && key.value == [] ==> failure == Raised(IndexError) && mkVars == old(mkVars))
              && (key.Ok? && key.value != [] ==>
                    var k := key.value[0];
                    match line.op
                    case Append =>
                      var had := if k in old(mkVars) then old(mkVars) else old(mkVars)[k := Value.Words([])];
                      var v := Eval(Env(had, host.glob), line.value);
                      if v.Err? then failure == Raised(v.error) && mkVars == had
                      else if had[k].Text? then failure == Raised(TypeError) && mkVars == had
                      else failure == Nothing && mkVars == had[k := Value.Words(had[k].words + v.value)]
                    case Default =>
                      var v := Eval(Env(old(mkVars), host.glob), line.value);
                      if k in old(mkVars) then failure == Nothing && mkVars == old(mkVars)
                      else if v.Err? then failure == Raised(v.error) && mkVars == old(mkVars)
                      else failure == Nothing && mkVars == old(mkVars)[k := Value.Words(v.value)]
                    case Set =>
                      var v := Eval(Env(old(mkVars), host.glob), line.value);
                      if v.Err? then failure == Raised(v.error) && mkVars == old(mkVars)
                      else failure == Nothing && mkVars == old(mkVars)[k := Value.Words(v.value)])
    {
      var key := EvalName(line.key);
      if key.Err? {
        return Raised(key.error);
      }
      if line.op.Append? && key.value !in mkVars {
        mkVars := mkVars[key.value := Value.Words([])];
      }
      if line.op.Default? && key.value in mkVars {
        return Nothing;
      }
      var words := EvalMkVars(line.value);
      if words.Err? {
        return Raised(words.error);
      }
      if line.op.Append? {
        match mkVars[key.value] {
          case Text(_) => return Raised(TypeError);
          case Words(had) => mkVars := mkVars[key.value := Value.Words(had + words.value)];
        }
      } else {
        mkVars := mkVars[key.value := Value.Words(words.value)];
      }
      return Nothing;
    }

    /** `_parse_mk_file`. */
    method ParseMkFile(lines: seq<Line>, depth: nat) returns (failure: Failure)
      modifies this
      ensures Parsed(mkVars, failure) == RunFlat(host, old(mkVars), [], lines, depth)
      decreases depth, 1
    {
      var conditionalStack: seq<bool> := [];
      var i := 0;
      assert lines[0..] == lines;
      while i < |lines|
        invariant 0 <= i <= |lines|
        invariant RunFlat(host, old(mkVars), [], lines, depth)
               == RunFlat(host, mkVars, conditionalStack, lines[i..], depth)
      {
        var line := lines[i];
        assert lines[i..][0] == line && lines[i..][1..] == lines[i + 1..];
        i := i + 1;
        if line.If? {
          var holds := EvalCondition(line);
          if holds.Err? {
            return Raised(holds.error);
          }
          conditionalStack := conditionalStack + [holds.value];
        } else if line.Else? {
          if conditionalStack == [] {
            return Raised(ElseWithoutIf);
          }
          var current := conditionalStack[|conditionalStack| - 1];
          conditionalStack := conditionalStack[..|conditionalStack| - 1] + [!current];
        } else if line.Endif? {
          if conditionalStack == [] {
            return Raised(EndifWithoutIf);
          }
          conditionalStack := conditionalStack[..|conditionalStack| - 1];
        } else if false !in conditionalStack {
          failure := ParseLine(line, depth);
          if failure.Raised? {
            return;
          }
        }
      }
      return Nothing;
    }

    method ParseLine(line: Line, depth: nat) returns (failure: Failure)
      requires IsPlain(line)
      modifies this
      ensures Parsed(mkVars, failure) == RunLine(host, old(mkVars), line, depth)
      decreases depth, 0
    {
      match line {
        case Include(text) =>
          var name := EvalName(text);
          if name.Err? {
            return Raised(name.error);
          }
          if name.value !in host.files {
            return Raised(FileNotFound(name.value));
          }
          if depth == 0 {
            return Raised(RecursionLimit);
          }
          failure := ParseMkFile(host.files[name.value], depth - 1);
        case Error(message) => failure := Raised(UserError(message));
        case Assign(_, _, _) => failure := Assign(line);
        case _ => failure := Nothing;
      }
    }
  }
}
