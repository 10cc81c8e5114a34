/** What each macro and each kind of reference evaluates to, as a whole expression. */
module MakeUses {
  import opened MakeText
  import opened MakeExpand
  import opened MakeMacros

  /** X is a variable with a list in store, and its name is a plain one. */
  ghost predicate Stores(env: Env, name: string, ws: seq<string>) {
    && AllPlain(name) && Free(name, Char(' ')) && !IsMacro(name)
    && name in env.vars && env.vars[name] == Value.Words(ws) && AllClean(ws)
  }

  /** A macro over a variable: `$(` head `$(X))`. */
  function Over(head: string, name: string): string {
    "$(" + head + VariableText(name) + ")"
  }

  lemma EvalOver(env: Env, head: string, name: string, ws: seq<string>)
    requires AllPlain(head) && Stores(env, name, ws)
    ensures Eval(env, Over(head, name)) ==
            match Apply(env, head + Join(ws)) case Err(e) => Err(e) case Ok(text) => Ok(WordsIn(text))
  {
    hide Apply, Chars, Eval, Print, Meaning, WordsIn;
    var tail := [Ref(Chars(name) + [])];
    VariableTreeMeans(env, name);
    ApplyVariable(env, name);
    MacroOver(env, head, tail);
    ExpansionIsEvaluation(env, [Ref(Chars(head) + tail)]);
  }

  /** A macro without a reference in it. */
  lemma EvalPlain(env: Env, body: string)
    requires AllPlain(body)
    ensures Eval(env, "$(" + body + ")") ==
            match Apply(env, body) case Err(e) => Err(e) case Ok(text) => Ok(WordsIn(text))
  {
    hide Apply, Chars, Eval, Print, Meaning, WordsIn;
    MacroOver(env, body, []);
    assert Print([]) == "" by { PrintNothing(); }
    assert Meaning(env, []) == Ok("") by { MeaningNothing(env); }
    assert body + "" == body && "$(" + body + "" + ")" == "$(" + body + ")";
    ExpansionIsEvaluation(env, [Ref(Chars(body) + [])]);
  }

  lemma MeaningNothing(env: Env)
    ensures Meaning(env, []) == Ok("")
  {
  }

  // ---------------------------------------------------------------------------------------
  // Variables
  // ---------------------------------------------------------------------------------------

  /** A string from the environment reads as its words, and an undefined variable as nothing. */
  lemma OtherVariables(env: Env, name: string)
    requires AllPlain(name) && Free(name, Char(' ')) && !IsMacro(name)
    ensures name in env.vars && env.vars[name].Text? ==>
              Eval(env, "$(" + name + ")") == Ok(WordsIn(env.vars[name].text))
    ensures name !in env.vars ==> Eval(env, "$(" + name + ")") == Ok([])
  {
    hide Apply, Eval;
    EvalPlain(env, name);
    ApplyVariable(env, name);
    WordsOfJoin([]);
  }

  // ---------------------------------------------------------------------------------------
  // addprefix and patsubst
  // ---------------------------------------------------------------------------------------

  /** Every word gets the prefix in front, if and only if the first word has no comma. */
  lemma AddPrefixAddsToEach(env: Env, p: string, name: string, ws: seq<string>)
    requires AllPlain(p) && Free(p, Space) && Free(p, Char(',')) && Stores(env, name, ws) && ws != []
    ensures var r := Eval(env, Over("addprefix " + p + ",", name));
            && (r.Ok? <==> Free(ws[0], Char(',')))
            && (r.Ok? ==> |r.value| == |ws| && forall i :: 0 <= i < |ws| ==> r.value[i] == p + ws[i])
            && (r.Err? ==> r == Err(ValueError))
  {
    hide Apply, Eval, Over, WordsIn, Join, Free;
    EvalOver(env, "addprefix " + p + ",", name, ws);
    AddPrefixAdds(env, p, ws);
    PrefixedClean(p, ws);
    WordsOfJoin(Prefixed(p, ws));
  }

  /** Every word that has the prefix in front loses it; what is left empty is gone. */
  lemma PatsubstTakesFromEach(env: Env, p: string, name: string, ws: seq<string>)
    requires AllPlain(p) && Free(p, Space) && Free(p, Char(',')) && Stores(env, name, ws)
    ensures exists left: seq<string> ::
              && |left| == |ws|
              && (forall i :: 0 <= i < |ws| ==> left[i] == if p <= ws[i] then ws[i][|p|..] else ws[i])
              && Eval(env, Over("patsubst " + p + "%,%,", name)) == Ok(NonEmpty(left))
  {
    hide Apply, Eval, Over, WordsIn, Join;
    EvalOver(env, "patsubst " + p + "%,%,", name, ws);
    WordsOfJoin(ws);
    PatsubstStrips(env, p, ws, Join(ws));
    var left := Unprefixed(p, ws);
    forall i | 0 <= i < |left| ensures Free(left[i], Space) {
      assert Clean(ws[i]);
    }
    WordsOfFree(left);
  }

  /** Other patterns and replacements are refused. */
  lemma PatsubstRefuses(env: Env, pattern: string, replacement: string, name: string, ws: seq<string>)
    requires AllPlain(pattern) && Free(pattern, Char(',')) && AllPlain(replacement) && Free(replacement, Char(','))
    requires Stores(env, name, ws)
    ensures var r := Eval(env, Over("patsubst " + pattern + "," + replacement + ",", name));
            var ends := pattern != "" && pattern[|pattern| - 1] == '%';
            && (!ends ==> r == Err(PatsubstPattern))
            && (ends && replacement != "%" ==> r == Err(PatsubstReplacement))
  {
    hide Apply, Eval, Over, WordsIn, Join;
    EvalOver(env, "patsubst " + pattern + "," + replacement + ",", name, ws);
    PatsubstSplits(env, pattern, replacement, Join(ws));
  }

  lemma PatsubstSplits(env: Env, pattern: string, replacement: string, text: string)
    requires Free(pattern, Char(',')) && Free(replacement, Char(','))
    ensures var r := Apply(env, "patsubst " + pattern + "," + replacement + "," + text);
            var ends := pattern != "" && pattern[|pattern| - 1] == '%';
            && (!ends ==> r == Err(PatsubstPattern))
            && (ends && replacement != "%" ==> r == Err(PatsubstReplacement))
  {
    hide Split, SplitMax, Join, Free, Unprefixed;
    var rest := pattern + [','] + (replacement + [','] + text);
    assert "patsubst " + pattern + "," + replacement + "," + text == "patsubst" + [' '] + rest;
    PatsubstTokens(rest);
    SplitMaxAt(pattern, ',', replacement + [','] + text, 2);
    SplitMaxAt(replacement, ',', text, 1);
    assert SplitMax(text, ',', 0) == [text] by { NoSplit(text); }
  }

  lemma NoSplit(text: string)
    ensures SplitMax(text, ',', 0) == [text]
  {
  }

  /** Any other name with arguments is no macro. */
  lemma OtherMacrosRaise(env: Env, macro: string, arguments: string)
    requires AllPlain(macro) && AllPlain(arguments) && Free(macro, Char(' ')) && !IsMacro(macro)
    ensures Eval(env, "$(" + (macro + " " + arguments) + ")") == Err(UnsupportedMacro(macro))
  {
    hide Eval;
    EvalPlain(env, macro + " " + arguments);
    SplitAt(macro, ' ', arguments, Char(' '));
  }

  // ---------------------------------------------------------------------------------------
  // filter-out and wildcard
  // ---------------------------------------------------------------------------------------

  /** The patterns come before the comma, the text behind it. */
  lemma FilterOutApplies(env: Env, ps: seq<string>, ws: seq<string>)
    requires ps != [] && AllClean(ps) && AllFree(ps, Char(',')) && AllClean(ws)
    ensures Apply(env, "filter-out " + Join(ps) + "," + Join(ws)) ==
            match Remove(ws, ps) case Err(e) => Err(e) case Ok(kept) => Ok(Join(kept))
  {
    hide Split, SplitMax, Join, Remove, WordsIn, Free, Clean;
    var rest := Join(ps) + [','] + Join(ws);
    assert "filter-out " + Join(ps) + "," + Join(ws) == "filter-out" + [' '] + rest;
    FilterTokens(rest);
    JoinIsFree(ps);
    SplitMaxAt(Join(ps), ',', Join(ws), 1);
    assert SplitMax(Join(ws), ',', 0) == [Join(ws)] by { NoSplit(Join(ws)); }
    WordsOfJoin(ws);
    CleanIsFree(ps);
    SplitJoin(ps, Char(' '));
  }

  lemma FilterTokens(rest: string)
    ensures Split("filter-out" + [' '] + rest, Char(' ')) == ["filter-out"] + Split(rest, Char(' '))
    ensures Join((["filter-out"] + Split(rest, Char(' ')))[1..]) == rest
  {
    SplitAt("filter-out", ' ', rest, Char(' '));
    JoinSplit(rest);
    assert (["filter-out"] + Split(rest, Char(' ')))[1..] == Split(rest, Char(' '));
  }

  lemma {:induction false} JoinIsFree(ws: seq<string>)
    requires AllFree(ws, Char(','))
    ensures Free(Join(ws), Char(','))
    decreases |ws|
  {
    if |ws| > 1 {
      JoinIsFree(ws[1..]);
      assert Free(ws[0], Char(','));
    }
  }

  lemma CleanIsFree(ws: seq<string>)
    requires AllClean(ws)
    ensures AllFree(ws, Char(' '))
  {
    forall i | 0 <= i < |ws| ensures Free(ws[i], Char(' ')) {
      assert Clean(ws[i]);
    }
  }

  lemma {:induction false} JoinIsPlain(ws: seq<string>)
    requires forall i :: 0 <= i < |ws| ==> AllPlain(ws[i])
    ensures AllPlain(Join(ws))
    decreases |ws|
  {
    if |ws| > 1 {
      JoinIsPlain(ws[1..]);
    }
  }

  /**
   * `$(filter-out ps,$(X))` succeeds if and only if X holds every pattern as often as it is asked
   * for. It takes out the first occurrences of each, and keeps the rest in its order.
   */
  lemma FilterOutTakesFirst(env: Env, ps: seq<string>, name: string, ws: seq<string>)
    requires ps != [] && AllClean(ps) && AllFree(ps, Char(','))
    requires (forall i :: 0 <= i < |ps| ==> AllPlain(ps[i])) && Stores(env, name, ws)
    ensures var r := Eval(env, Over("filter-out " + Join(ps) + ",", name));
            && (r.Ok? <==> multiset(ps) <= multiset(ws))
            && (r.Err? ==> r == Err(ValueError))
            && (r.Ok? ==>
                  && r.value == Kept(ws, multiset(ps)) && IsSubsequence(r.value, ws)
                  && multiset(ws) == multiset(ps) + multiset(r.value))
  {
    hide Apply, Eval, Over, WordsIn, Join, Remove, Kept, IsSubsequence;
    JoinIsPlain(ps);
    var head := "filter-out " + Join(ps) + ",";
    EvalOver(env, head, name, ws);
    FilterOutApplies(env, ps, ws);
    RemoveConserves(ws, ps);
    RemoveFails(ws, ps);
    if Remove(ws, ps).Ok? {
      RemoveKeeps(ws, ps);
      KeptIsSubsequence(ws, multiset(ps));
      KeptIsClean(ws, multiset(ps));
      WordsOfJoin(Kept(ws, multiset(ps)));
    }
  }

  lemma {:induction false} RemoveFails(ws: seq<string>, ps: seq<string>)
    ensures Remove(ws, ps).Err? ==> Remove(ws, ps) == Err(ValueError)
    decreases |ps|
  {
    if ps != [] && ps[0] in ws {
      var at := First(ws, ps[0]);
      RemoveFails(ws[..at] + ws[at + 1..], ps[1..]);
    }
  }

  lemma {:induction false} KeptIsClean(ws: seq<string>, budget: multiset<string>)
    requires AllClean(ws)
    ensures AllClean(Kept(ws, budget))
    decreases |ws|
  {
    hide Clean;
    if ws != [] {
      KeptIsClean(ws[1..], if ws[0] in budget then budget - multiset{ws[0]} else budget);
    }
  }

  /** One pattern finds what the file system finds for it. */
  lemma WildcardFinds(env: Env, pattern: string)
    requires AllPlain(pattern) && Free(pattern, Char(' ')) && AllClean(env.glob(pattern))
    ensures Eval(env, "$(wildcard " + pattern + ")") == Ok(env.glob(pattern))
  {
    hide Eval, WordsIn, Join;
    assert "$(" + ("wildcard " + pattern) + ")" == "$(wildcard " + pattern + ")";
    EvalPlain(env, "wildcard " + pattern);
    assert "wildcard " + pattern == "wildcard" + [' '] + pattern;
    SplitAt("wildcard", ' ', pattern, Char(' '));
    SplitFree(pattern, Char(' '));
    assert (["wildcard"] + [pattern])[1..] == [pattern];
    assert [pattern][1..] == [] && Wildcard(env, [pattern]) == Join(env.glob(pattern)) + Wildcard(env, []);
    assert Join(env.glob(pattern)) + "" == Join(env.glob(pattern));
    WordsOfJoin(env.glob(pattern));
  }

  /** Of two patterns the results are put together without a space, so two names become one. */
  lemma WildcardsRunTogether(env: Env, one: string, two: string)
    requires AllPlain(one) && AllPlain(two) && Free(one, Char(' ')) && Free(two, Char(' '))
    requires AllClean(env.glob(one)) && AllClean(env.glob(two)) && env.glob(one) != [] && env.glob(two) != []
    ensures var a, b := env.glob(one), env.glob(two);
            Eval(env, "$(wildcard " + one + " " + two + ")")
            == Ok(a[..|a| - 1] + [a[|a| - 1] + b[0]] + b[1..])
  {
    hide Eval, WordsIn, Join;
    var body := "wildcard" + [' '] + (one + [' '] + two);
    assert "$(" + body + ")" == "$(wildcard " + one + " " + two + ")";
    EvalPlain(env, body);
    SplitAt("wildcard", ' ', one + [' '] + two, Char(' '));
    SplitAt(one, ' ', two, Char(' '));
    SplitFree(two, Char(' '));
    assert (["wildcard"] + [one, two])[1..] == [one, two] && [one, two][1..] == [two] && [two][1..] == [];
    var a, b := env.glob(one), env.glob(two);
    assert Wildcard(env, [two]) == Join(b) + Wildcard(env, []) == Join(b);
    assert Wildcard(env, [one, two]) == Join(a) + Join(b);
    JoinGlue(a, b);
    var glued := a[..|a| - 1] + [a[|a| - 1] + b[0]] + b[1..];
    GluedIsClean(a, b);
    WordsOfJoin(glued);
  }

  lemma GluedIsClean(a: seq<string>, b: seq<string>)
    requires AllClean(a) && AllClean(b) && a != [] && b != []
    ensures AllClean(a[..|a| - 1] + [a[|a| - 1] + b[0]] + b[1..])
  {
    assert Clean(a[|a| - 1]) && Clean(b[0]);
  }

  // ---------------------------------------------------------------------------------------
  // Syntax errors
  // ---------------------------------------------------------------------------------------

  /** Behind any tree that evaluates, at any depth of open references: a `$` without parenthesis
      raises at once, and so does a `)` where none is open; an open reference raises at the end. */
  lemma SyntaxErrors(env: Env, ns: seq<Node>, stack: seq<string>, c: char, rest: string)
    requires Proper(ns) && stack != [] && Meaning(env, ns).Ok?
    ensures c != '(' ==> Run(env, Machine(false, stack), Print(ns) + ("$" + [c] + rest)) == Err(ExpectParen(c))
    ensures |stack| == 1 ==> Run(env, Machine(false, stack), Print(ns) + (")" + rest)) == Err(TooManyClose)
    ensures |stack| > 1 ==>
              var end := Push(stack, Meaning(env, ns).value);
              && Run(env, Machine(false, stack), Print(ns)) == Ok(Machine(false, end))
              && Finish(Machine(false, end)) == Err(StackSize(end))
  {
    hide Apply, Print, Meaning;
    RunPrinted(env, ns, stack, "$" + [c] + rest);
    RunPrinted(env, ns, stack, ")" + rest);
    RunPrinted(env, ns, stack, "");
    assert Print(ns) + "" == Print(ns);
    var next := Push(stack, Meaning(env, ns).value);
    assert ("$" + [c] + rest)[1..][0] == c;
  }
}
