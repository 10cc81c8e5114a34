/** What single macros do to stored lists: round trips and conservation. */
module MakeMacros {
  import opened MakeText
  import opened MakeExpand

  /** A literal text as a tree. */
  function Chars(s: string): seq<Node> {
    if s == "" then [] else [Literal(s[0])] + Chars(s[1..])
  }

  predicate AllPlain(s: string) {
    forall i :: 0 <= i < |s| ==> Plain(s[i])
  }

  function Prepend(front: string, rest: Outcome<string>): Outcome<string> {
    match rest
    case Err(e) => Err(e)
    case Ok(text) => Ok(front + text)
  }

  /** A tree behind a literal text. */
  lemma {:induction false} MeaningBehind(env: Env, s: string, b: seq<Node>)
    requires AllPlain(s) && Proper(b)
    ensures Proper(Chars(s) + b) && Print(Chars(s) + b) == s + Print(b)
    ensures Meaning(env, Chars(s) + b) == Prepend(s, Meaning(env, b))
    decreases |s|
  {
    hide Apply;
    if s == "" {
      assert Chars(s) + b == b;
      assert "" + Print(b) == Print(b);
      if Meaning(env, b).Ok? {
        assert "" + Meaning(env, b).value == Meaning(env, b).value;
      }
    } else {
      var ns := Chars(s) + b;
      assert ns[0] == Literal(s[0]) && ns[1..] == Chars(s[1..]) + b;
      MeaningBehind(env, s[1..], b);
      assert ProperNode(ns[0]);
      Assoc(s, Print(b));
      if Meaning(env, b).Ok? {
        Assoc(s, Meaning(env, b).value);
      }
    }
  }

  lemma Assoc(s: string, t: string)
    requires s != ""
    ensures [s[0]] + (s[1..] + t) == s + t
  {
  }

  /** What a reference stands for whose body starts with `head`. */
  function Reference(env: Env, head: string, tail: Outcome<string>): Outcome<string> {
    match tail
    case Err(e) => Err(e)
    case Ok(text) => Apply(env, head + text)
  }

  lemma MeaningRef(env: Env, body: seq<Node>)
    requires Proper(body)
    ensures Proper([Ref(body)]) && Print([Ref(body)]) == "$(" + Print(body) + ")"
    ensures Meaning(env, [Ref(body)]) == Reference(env, "", Meaning(env, body))
  {
    hide Apply;
    var n := Ref(body);
    assert ProperNode(n);
    assert [n][1..] == [];
    var inner := Meaning(env, body);
    if inner.Ok? {
      assert "" + inner.value == inner.value;
    }
    if inner.Ok? && Apply(env, inner.value).Ok? {
      assert Apply(env, inner.value).value + "" == Apply(env, inner.value).value;
    }
  }

  /** Text in front of a tree, both in one reference: what the reference stands for. */
  lemma MacroOver(env: Env, head: string, tail: seq<Node>)
    requires AllPlain(head) && Proper(tail)
    ensures var ns := [Ref(Chars(head) + tail)];
            && Proper(ns) && Print(ns) == "$(" + head + Print(tail) + ")"
            && Meaning(env, ns) == Reference(env, head, Meaning(env, tail))
  {
    hide Apply, Meaning, Print, Chars, Proper;
    MeaningBehind(env, head, tail);
    MeaningRef(env, Chars(head) + tail);
    assert "$(" + (head + Print(tail)) + ")" == "$(" + head + Print(tail) + ")";
    var t := Meaning(env, tail);
    if t.Ok? {
      assert "" + (head + t.value) == head + t.value;
    }
  }

  predicate IsMacro(name: string) {
    name in {"addprefix", "wildcard", "filter-out", "patsubst"}
  }

  lemma ApplyVariable(env: Env, name: string)
    requires Free(name, Char(' ')) && !IsMacro(name)
    ensures Apply(env, name) == Ok(Variable(env, name))
  {
    SplitFree(name, Char(' '));
  }

  /** What the four macro names give when they are used as the name of a variable. */
  lemma {:induction false} ApplyMacroName(env: Env, name: string)
    requires IsMacro(name) && Free(name, Char(' '))
    ensures name == "wildcard" ==> Apply(env, name) == Ok("")
    ensures name != "wildcard" ==> Apply(env, name).Err?
  {
    hide Split, Remove, WordsIn;
    SplitFree(name, Char(' '));
    assert SplitMax("", ',', 1) == [""];
    assert SplitMax("", ',', 2) == [""];
    assert [name][1..] == [];
  }

  /**
   * `$(X)` gives back the stored list exactly, if and only if X is not spelled like a macro
   * that needs arguments (a variable called `wildcard` reads as empty).
   */
  lemma StoredListComesBack(env: Env, name: string)
    requires AllPlain(name) && Free(name, Char(' '))
    requires name in env.vars && env.vars[name].Words? && AllClean(env.vars[name].words)
    ensures Eval(env, "$(" + name + ")") == Ok(env.vars[name].words)
       <==> !IsMacro(name) || (name == "wildcard" && env.vars[name].words == [])
  {
    hide Apply;
    var ws := env.vars[name].words;
    MacroOver(env, name, []);
    assert name + "" == name;
    assert Print([]) == "";
    var ns := [Ref(Chars(name) + [])];
    assert Print(ns) == "$(" + name + ")";
    ExpansionIsEvaluation(env, ns);
    if IsMacro(name) {
      ApplyMacroName(env, name);
      WordsOfJoin([]);
    } else {
      ApplyVariable(env, name);
      WordsOfJoin(ws);
    }
  }

  // ---------------------------------------------------------------------------------------
  // addprefix and patsubst
  // ---------------------------------------------------------------------------------------

  /** The tokens of `addprefix p,` followed by a list. */
  lemma {:induction false} AddPrefixTokens(p: string, ws: seq<string>)
    requires Free(p, Space) && AllClean(ws)
    ensures var first := if ws == [] then "" else ws[0];
            var others := if ws == [] then [] else ws[1..];
            Split("addprefix " + p + "," + Join(ws), Char(' '))
            == ["addprefix"] + [p + "," + first] + others
  {
    hide Split, Join, Free;
    AddPrefixTail(p, ws);
    SplitAt("addprefix", ' ', p + "," + Join(ws), Char(' ')) by { PlainName(); }
    assert "addprefix " + p + "," + Join(ws) == "addprefix" + [' '] + (p + "," + Join(ws));
  }

  lemma PlainName()
    ensures Free("addprefix", Char(' '))
  {
  }

  lemma {:induction false} AddPrefixTail(p: string, ws: seq<string>)
    requires Free(p, Space) && AllClean(ws)
    ensures var first := if ws == [] then "" else ws[0];
            var others := if ws == [] then [] else ws[1..];
            Split(p + "," + Join(ws), Char(' ')) == [p + "," + first] + others
  {
    hide Split, Join;
    if ws == [] {
      assert Join(ws) == "" by { JoinNothing(); }
      SplitFree(p + "," + "", Char(' '));
    } else {
      JoinPrefix(p + ",", ws);
      var with := [p + "," + ws[0]] + ws[1..];
      assert AllFree(with, Char(' ')) by {
        forall i | 0 <= i < |with| ensures Free(with[i], Char(' ')) {
          assert i < |ws| && Clean(ws[i]);
        }
      }
      SplitJoin(with, Char(' '));
    }
  }

  lemma JoinNothing()
    ensures Join([]) == ""
  {
  }

  /** The prefix and the first word come apart exactly when the word has no comma. */
  lemma CommaSplit(p: string, w: string)
    requires Free(p, Char(','))
    ensures Free(w, Char(',')) ==> Split(p + "," + w, Char(',')) == [p, w]
    ensures !Free(w, Char(',')) ==> |Split(p + "," + w, Char(','))| > 2
  {
    SplitAt(p, ',', w, Char(','));
    if Free(w, Char(',')) {
      SplitFree(w, Char(','));
    } else {
      SplitMore(w, Char(','));
    }
  }

  lemma {:induction false} SplitMore(w: string, sep: Separator)
    requires !Free(w, sep)
    ensures |Split(w, sep)| > 1
    decreases |w|
  {
    if !sep.Is(w[0]) {
      assert !Free(w[1..], sep) by {
        var i :| 0 <= i < |w| && sep.Is(w[i]);
        assert w[1..][i - 1] == w[i];
      }
      SplitMore(w[1..], sep);
    }
  }

  lemma {:induction false} AddPrefixAdds(env: Env, p: string, ws: seq<string>)
    requires Free(p, Space) && Free(p, Char(',')) && AllClean(ws)
    ensures Apply(env, "addprefix " + p + "," + Join(ws))
         == (if ws == [] then Ok(p)
             else if Free(ws[0], Char(',')) then Ok(Join(Prefixed(p, ws)))
             else Err(ValueError))
  {
    AddPrefixTokens(p, ws);
    if ws == [] {
      CommaSplit(p, "");
      var tokens := ["addprefix"] + [p + "," + ""] + [];
      assert [""] + tokens[2..] == [""];
      assert Prefixed(p, [""]) == [p + ""] + Prefixed(p, []);
      assert p + "" == p;
    } else {
      CommaSplit(p, ws[0]);
      var tokens := ["addprefix"] + [p + "," + ws[0]] + ws[1..];
      assert [ws[0]] + tokens[2..] == ws;
    }
  }

  lemma PatsubstStrips(env: Env, p: string, ws: seq<string>, text: string)
    requires Free(p, Space) && Free(p, Char(',')) && WordsIn(text) == ws
    ensures Apply(env, "patsubst " + p + "%,%," + text) == Ok(Join(Unprefixed(p, ws)))
  {
    hide Split, SplitMax, Join, Free, Unprefixed;
    var rest := p + "%,%," + text;
    assert "patsubst " + p + "%,%," + text == "patsubst" + [' '] + rest;
    PatsubstTokens(rest);
    PatsubstParts(p, text);
  }

  lemma PatsubstTokens(rest: string)
    ensures Split("patsubst" + [' '] + rest, Char(' ')) == ["patsubst"] + Split(rest, Char(' '))
    ensures Join((["patsubst"] + Split(rest, Char(' ')))[1..]) == rest
  {
    SplitAt("patsubst", ' ', rest, Char(' '));
    JoinSplit(rest);
    assert (["patsubst"] + Split(rest, Char(' ')))[1..] == Split(rest, Char(' '));
  }

  lemma PatsubstParts(p: string, text: string)
    requires Free(p, Char(','))
    ensures SplitMax(p + "%,%," + text, ',', 2) == [p + "%", "%", text]
    ensures (p + "%")[..|p|] == p
  {
    hide Split, Join;
    assert p + "%,%," + text == (p + "%") + [','] + ("%" + [','] + text);
    SplitMaxAt(p + "%", ',', "%" + [','] + text, 2);
    SplitMaxAt("%", ',', text, 1);
  }

  lemma {:induction false} JoinSplit(s: string)
    ensures Join(Split(s, Char(' '))) == s
    decreases |s|
  {
    if s != "" {
      JoinSplit(s[1..]);
      var r := Split(s[1..], Char(' '));
      if s[0] == ' ' {
        assert Join([""] + r) == "" + " " + Join(r) by { assert ([""] + r)[1..] == r; }
      } else {
        JoinPrefix([s[0]], r);
      }
      assert s == [s[0]] + s[1..];
    }
  }

  /** `$(addprefix p,$(X))`. */
  function AddPrefixText(p: string, name: string): string {
    "$(addprefix " + p + "," + VariableText(name) + ")"
  }

  function VariableText(name: string): string {
    "$(" + name + ")"
  }

  /** `$(addprefix p,$(X))` as a tree. */
  function PrefixTree(p: string, name: string): seq<Node> {
    [Ref(Chars("addprefix " + p + ",") + [Ref(Chars(name) + [])])]
  }

  lemma VariableTreeMeans(env: Env, name: string)
    requires AllPlain(name)
    ensures var ns := [Ref(Chars(name) + [])];
            && Proper(ns) && Print(ns) == VariableText(name)
            && Meaning(env, ns) == Apply(env, name)
  {
    hide Apply, Chars;
    MacroOver(env, name, []);
    assert name + "" == name && Print([]) == "";
  }

  lemma PrefixTreeMeans(env: Env, p: string, name: string)
    requires AllPlain(p) && AllPlain(name)
    ensures var ns := PrefixTree(p, name);
            && Proper(ns) && Print(ns) == AddPrefixText(p, name)
            && Meaning(env, ns) == Reference(env, "addprefix " + p + ",", Apply(env, name))
  {
    hide Apply, Chars, VariableText, Meaning, Print;
    VariableTreeMeans(env, name);
    MacroOver(env, "addprefix " + p + ",", [Ref(Chars(name) + [])]);
    Bracket("addprefix ", p, ",", VariableText(name));
  }

  lemma Bracket(a: string, b: string, c: string, d: string)
    ensures "$(" + (a + b + c) + d + ")" == ("$(" + a) + b + c + d + ")"
  {
  }

  /**
   * Taking a prefix off after putting it on gives back the stored list, if and only if the
   * list is empty or its first word has no comma (the other words may have any).
   */
  lemma PatsubstUndoesAddprefix(env: Env, p: string, name: string)
    requires AllPlain(p) && Free(p, Space) && Free(p, Char(','))
    requires AllPlain(name) && Free(name, Char(' ')) && !IsMacro(name)
    requires name in env.vars && env.vars[name].Words? && AllClean(env.vars[name].words)
    ensures var ws := env.vars[name].words;
            Eval(env, "$(patsubst " + p + "%,%," + AddPrefixText(p, name) + ")") == Ok(ws)
            <==> ws == [] || Free(ws[0], Char(','))
  {
    hide Apply, Chars, Free, Print, Meaning, AddPrefixText, Eval, Join, Clean, PrefixTree;
    var ws := env.vars[name].words;
    var inner := PrefixTree(p, name);
    PrefixTreeMeans(env, p, name);
    ApplyVariable(env, name);
    AddPrefixAdds(env, p, ws);
    var head := "patsubst " + p + "%,%,";
    MacroOver(env, head, inner);
    Bracket("patsubst ", p, "%,%,", AddPrefixText(p, name));
    assert "$(" + "patsubst " == "$(patsubst ";
    ExpansionIsEvaluation(env, [Ref(Chars(head) + inner)]);
    if ws == [] || Free(ws[0], Char(',')) {
      StripPrefixed(env, p, ws);
    }
  }

  /** What comes out of `addprefix`, put through `patsubst`, reads as the list again. */
  lemma StripPrefixed(env: Env, p: string, ws: seq<string>)
    requires Free(p, Space) && Free(p, Char(',')) && AllClean(ws)
    ensures var text := if ws == [] then p else Join(Prefixed(p, ws));
            var result := Apply(env, "patsubst " + p + "%,%," + text);
            result.Ok? && WordsIn(result.value) == ws
  {
    if ws == [] {
      SplitFree(p, Space);
      assert NonEmpty([p]) == if p == "" then [] else [p];
      var found := NonEmpty([p]);
      PatsubstStrips(env, p, found, p);
      assert Unprefixed(p, found) == [] || Unprefixed(p, found) == [""];
      WordsOfJoin([]);
    } else {
      PrefixedClean(p, ws);
      WordsOfJoin(Prefixed(p, ws));
      PatsubstStrips(env, p, Prefixed(p, ws), Join(Prefixed(p, ws)));
      UnprefixedPrefixed(p, ws);
      WordsOfJoin(ws);
    }
  }

  // ---------------------------------------------------------------------------------------
  // filter-out
  // ---------------------------------------------------------------------------------------

  /** The words in their order, without the first `budget[w]` occurrences of each word `w`. */
  function Kept<T(==)>(words: seq<T>, budget: multiset<T>): seq<T> {
    if words == [] then []
    else if words[0] in budget then Kept(words[1..], budget - multiset{words[0]})
    else [words[0]] + Kept(words[1..], budget)
  }

  /** `a` is `b` without some of its elements. */
  predicate IsSubsequence<T(==)>(a: seq<T>, b: seq<T>) {
    a == [] || (b != [] && ((a[0] == b[0] && IsSubsequence(a[1..], b[1..])) || IsSubsequence(a, b[1..])))
  }

  lemma {:induction false} KeptIsSubsequence<T>(words: seq<T>, budget: multiset<T>)
    ensures IsSubsequence(Kept(words, budget), words)
    decreases |words|
  {
    if words != [] {
      if words[0] in budget {
        KeptIsSubsequence(words[1..], budget - multiset{words[0]});
      } else {
        KeptIsSubsequence(words[1..], budget);
        assert Kept(words, budget)[1..] == Kept(words[1..], budget);
      }
    }
  }

  lemma {:induction false} KeptAll<T>(words: seq<T>)
    ensures Kept(words, multiset{}) == words
    decreases |words|
  {
    if words != [] {
      KeptAll(words[1..]);
    }
  }

  /** Taking out the first occurrence of a word, and then the rest of a budget. */
  lemma {:induction false} KeptWithout<T>(words: seq<T>, w: T, budget: multiset<T>)
    requires w in words
    ensures var at := First(words, w);
            Kept(words, multiset{w} + budget) == Kept(words[..at] + words[at + 1..], budget)
    decreases |words|
  {
    var at := First(words, w);
    var less := words[..at] + words[at + 1..];
    if words[0] == w {
      assert less == words[1..];
      assert multiset{w} + budget - multiset{w} == budget;
    } else {
      var tail := words[1..];
      assert First(tail, w) == at - 1;
      assert less[0] == words[0] && less[1..] == tail[..at - 1] + tail[at..];
      assert words[0] in multiset{w} + budget <==> words[0] in budget;
      if words[0] in budget {
        KeptWithout(tail, w, budget - multiset{words[0]});
        assert multiset{w} + budget - multiset{words[0]} == multiset{w} + (budget - multiset{words[0]});
      } else {
        KeptWithout(tail, w, budget);
      }
    }
  }

  /** Removing one pattern after the other is one pass with a budget. */
  lemma {:induction false} RemoveKeeps<T>(words: seq<T>, patterns: seq<T>)
    requires Remove(words, patterns).Ok?
    ensures Remove(words, patterns).value == Kept(words, multiset(patterns))
    decreases |patterns|
  {
    hide Remove, Kept;
    if patterns == [] {
      RemoveNothing(words);
      KeptAll(words);
    } else {
      var p := patterns[0];
      if p in words {
        var at := First(words, p);
        RemoveFirst(words, patterns);
        RemoveKeeps(words[..at] + words[at + 1..], patterns[1..]);
        KeptWithout(words, p, multiset(patterns[1..]));
        FrontOut(patterns);
      } else {
        RemoveMissing(words, patterns);
      }
    }
  }

  /**
   * The words are split, with multiplicity, into what `filter-out` removes and what it keeps;
   * it raises exactly when the text does not hold every pattern as often as it is asked for.
   */
  lemma {:induction false} RemoveConserves<T>(words: seq<T>, patterns: seq<T>)
    ensures Remove(words, patterns).Ok? <==> multiset(patterns) <= multiset(words)
    ensures Remove(words, patterns).Ok?
        ==> multiset(words) == multiset(patterns) + multiset(Remove(words, patterns).value)
    decreases |patterns|
  {
    hide Remove;
    if patterns == [] {
      RemoveNothing(words);
    } else {
      var p, others := patterns[0], patterns[1..];
      FrontOut(patterns);
      if p in words {
        var at := First(words, p);
        var less := words[..at] + words[at + 1..];
        TakeOut(words, at);
        RemoveConserves(less, others);
        RemoveFirst(words, patterns);
        AddBoth(p, multiset(others), multiset(less));
      } else {
        RemoveMissing(words, patterns);
        assert multiset(patterns)[p] > 0;
      }
    }
  }

  lemma FrontOut<T>(s: seq<T>)
    requires s != []
    ensures multiset(s) == multiset{s[0]} + multiset(s[1..])
  {
    assert s == [s[0]] + s[1..];
  }

  lemma TakeOut<T>(s: seq<T>, at: nat)
    requires at < |s|
    ensures multiset(s) == multiset{s[at]} + multiset(s[..at] + s[at + 1..])
  {
    assert s == s[..at] + [s[at]] + s[at + 1..];
  }

  lemma AddBoth<T>(x: T, a: multiset<T>, b: multiset<T>)
    ensures a <= b <==> multiset{x} + a <= multiset{x} + b
  {
    if multiset{x} + a <= multiset{x} + b {
      forall y ensures a[y] <= b[y] {
        assert (multiset{x} + a)[y] <= (multiset{x} + b)[y];
      }
    }
  }
}
