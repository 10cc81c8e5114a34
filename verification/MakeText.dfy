/** The string operations of Python that the makefile interpreter uses. */
module MakeText {

  /** What a split separates on: one character, or any white space. */
  datatype Separator = Char(c: char) | Space
  {
    predicate Is(x: char) {
      match this
      case Char(c) => x == c
      case Space => IsSpace(x)
    }
  }

  predicate IsSpace(c: char) {
    c == ' ' || '\t' <= c <= '\r' || '\U{1C}' <= c <= '\U{1F}'
  }

  /** The pieces between separators, empty ones included: `s.split(c)`. */
  function Split(s: string, sep: Separator): (r: seq<string>)
    ensures r != []
  {
    if s == "" then [""]
    else if sep.Is(s[0]) then [""] + Split(s[1..], sep)
    else
      var r := Split(s[1..], sep);
      [[s[0]] + r[0]] + r[1..]
  }

  /** At most `n` splits, from the left: `s.split(c, maxsplit=n)`. */
  function SplitMax(s: string, c: char, n: nat): (r: seq<string>)
    ensures 1 <= |r| <= n + 1
  {
    if n == 0 || s == "" then [s]
    else if s[0] == c then [""] + SplitMax(s[1..], c, n - 1)
    else
      var r := SplitMax(s[1..], c, n);
      [[s[0]] + r[0]] + r[1..]
  }

  function NonEmpty(ws: seq<string>): seq<string> {
    if ws == [] then []
    else if ws[0] == "" then NonEmpty(ws[1..])
    else [ws[0]] + NonEmpty(ws[1..])
  }

  /** The words of a string: `s.split()`. */
  function WordsIn(s: string): seq<string> {
    NonEmpty(Split(s, Space))
  }

  /** `" ".join(ws)`. */
  function Join(ws: seq<string>): string {
    if ws == [] then ""
    else if |ws| == 1 then ws[0]
    else ws[0] + " " + Join(ws[1..])
  }

  function Prefixed(p: string, ws: seq<string>): (r: seq<string>)
    ensures |r| == |ws| && forall i :: 0 <= i < |ws| ==> r[i] == p + ws[i]
  {
    if ws == [] then [] else [p + ws[0]] + Prefixed(p, ws[1..])
  }

  /** Removes `p` from the front of every word that has it there. */
  function Unprefixed(p: string, ws: seq<string>): (r: seq<string>)
    ensures |r| == |ws|
    ensures forall i :: 0 <= i < |ws| ==> r[i] == if p <= ws[i] then ws[i][|p|..] else ws[i]
  {
    if ws == [] then []
    else [if p <= ws[0] then ws[0][|p|..] else ws[0]] + Unprefixed(p, ws[1..])
  }

  /** No character of `s` is a separator. */
  predicate Free(s: string, sep: Separator) {
    forall i :: 0 <= i < |s| ==> !sep.Is(s[i])
  }

  /** A non-empty word without white space. */
  predicate Clean(w: string) {
    w != "" && Free(w, Space)
  }

  predicate AllClean(ws: seq<string>) {
    forall i :: 0 <= i < |ws| ==> Clean(ws[i])
  }

  predicate AllFree(ws: seq<string>, sep: Separator) {
    forall i :: 0 <= i < |ws| ==> Free(ws[i], sep)
  }

  // ---------------------------------------------------------------------------------------
  // Splitting and joining
  // ---------------------------------------------------------------------------------------

  lemma {:induction false} SplitFree(s: string, sep: Separator)
    requires Free(s, sep)
    ensures Split(s, sep) == [s]
    decreases |s|
  {
    if s != "" {
      SplitFree(s[1..], sep);
      assert [s[0]] + s[1..] == s;
    }
  }

  /** A separator after a free word splits there. */
  lemma {:induction false} SplitAt(w: string, c: char, rest: string, sep: Separator)
    requires Free(w, sep) && sep.Is(c)
    ensures Split(w + [c] + rest, sep) == [w] + Split(rest, sep)
    decreases |w|
  {
    var s := w + [c] + rest;
    if w == "" {
      assert s[1..] == rest;
    } else {
      assert s[1..] == w[1..] + [c] + rest;
      SplitAt(w[1..], c, rest, sep);
      assert [w[0]] + w[1..] == w;
    }
  }

  lemma {:induction false} SplitJoin(ws: seq<string>, sep: Separator)
    requires ws != [] && AllFree(ws, sep) && sep.Is(' ')
    ensures Split(Join(ws), sep) == ws
    decreases |ws|
  {
    if |ws| == 1 {
      SplitFree(ws[0], sep);
    } else {
      SplitJoin(ws[1..], sep);
      SplitAt(ws[0], ' ', Join(ws[1..]), sep);
      assert Join(ws) == ws[0] + [' '] + Join(ws[1..]);
    }
  }

  lemma {:induction false} NonEmptyClean(ws: seq<string>)
    requires AllClean(ws)
    ensures NonEmpty(ws) == ws
    decreases |ws|
  {
    if ws != [] {
      NonEmptyClean(ws[1..]);
    }
  }

  /** A list of clean words survives being joined and split into words again. */
  lemma WordsOfJoin(ws: seq<string>)
    requires AllClean(ws)
    ensures WordsIn(Join(ws)) == ws
  {
    if ws == [] {
      assert Split("", Space) == [""];
      assert NonEmpty([""]) == NonEmpty([]);
    } else {
      SplitJoin(ws, Space);
      NonEmptyClean(ws);
    }
  }

  lemma {:induction false} SplitIsFree(s: string, sep: Separator)
    ensures AllFree(Split(s, sep), sep)
    decreases |s|
  {
    if s != "" {
      SplitIsFree(s[1..], sep);
    }
  }

  lemma {:induction false} NonEmptyOfFree(ws: seq<string>)
    requires AllFree(ws, Space)
    ensures AllClean(NonEmpty(ws))
    decreases |ws|
  {
    if ws != [] {
      NonEmptyOfFree(ws[1..]);
    }
  }

  /** The words of any string are clean. */
  lemma WordsAreClean(s: string)
    ensures AllClean(WordsIn(s))
  {
    SplitIsFree(s, Space);
    NonEmptyOfFree(Split(s, Space));
  }

  lemma {:induction false} SplitMaxAt(w: string, c: char, rest: string, n: nat)
    requires Free(w, Char(c)) && n > 0
    ensures SplitMax(w + [c] + rest, c, n) == [w] + SplitMax(rest, c, n - 1)
    decreases |w|
  {
    var s := w + [c] + rest;
    if w == "" {
      assert s[1..] == rest;
    } else {
      assert s[1..] == w[1..] + [c] + rest;
      SplitMaxAt(w[1..], c, rest, n);
      assert [w[0]] + w[1..] == w;
    }
  }

  lemma {:induction false} UnprefixedPrefixed(p: string, ws: seq<string>)
    ensures Unprefixed(p, Prefixed(p, ws)) == ws
    decreases |ws|
  {
    if ws != [] {
      UnprefixedPrefixed(p, ws[1..]);
      assert p <= p + ws[0] && (p + ws[0])[|p|..] == ws[0];
    }
  }

  lemma {:induction false} PrefixedClean(p: string, ws: seq<string>)
    requires Free(p, Space) && AllClean(ws)
    ensures AllClean(Prefixed(p, ws))
    decreases |ws|
  {
    if ws != [] {
      PrefixedClean(p, ws[1..]);
    }
  }

  /** Words free of white space, joined and split again: the empty ones are gone. */
  lemma WordsOfFree(ws: seq<string>)
    requires AllFree(ws, Space)
    ensures WordsIn(Join(ws)) == NonEmpty(ws)
  {
    if ws == [] {
      WordsOfJoin([]);
    } else {
      SplitJoin(ws, Space);
    }
  }

  /** Each white-space character separates words. */
  lemma SpaceSeparates(a: string, c: char, b: string)
    requires c in {' ', '\t', '\n', '\r', '\U{0B}', '\U{0C}'}
    requires Clean(a) && Clean(b)
    ensures WordsIn(a + [c] + b) == [a, b]
  {
    SplitAt(a, c, b, Space);
    SplitFree(b, Space);
    NonEmptyClean([a, b]);
  }

  /** And no printable ASCII character does. */
  lemma PrintableIsNoSpace(c: char)
    requires '!' <= c <= '~'
    ensures WordsIn([c]) == [[c]]
  {
    SplitFree([c], Space);
    NonEmptyClean([[c]]);
  }

  /** Where two joined lists meet, the last word of the one and the first of the other become one. */
  lemma {:induction false} JoinGlue(a: seq<string>, b: seq<string>)
    requires a != [] && b != []
    ensures Join(a) + Join(b) == Join(a[..|a| - 1] + [a[|a| - 1] + b[0]] + b[1..])
    decreases |a|
  {
    if |a| == 1 {
      JoinPrefix(a[0], b);
      assert a[..0] + [a[0] + b[0]] + b[1..] == [a[0] + b[0]] + b[1..];
    } else {
      var tail := a[1..];
      JoinGlue(tail, b);
      var all := a[..|a| - 1] + [a[|a| - 1] + b[0]] + b[1..];
      assert all[1..] == tail[..|tail| - 1] + [tail[|tail| - 1] + b[0]] + b[1..];
      GlueText(a[0], Join(tail), Join(b));
    }
  }

  lemma GlueText(a: string, b: string, c: string)
    ensures (a + " " + b) + c == a + " " + (b + c)
  {
  }

  lemma JoinPrefix(a: string, ws: seq<string>)
    requires ws != []
    ensures Join([a + ws[0]] + ws[1..]) == a + Join(ws)
  {
    var with := [a + ws[0]] + ws[1..];
    assert with[0] == a + ws[0] && with[1..] == ws[1..];
    if |ws| > 1 {
      assert (a + ws[0]) + " " + Join(ws[1..]) == a + (ws[0] + " " + Join(ws[1..])) by {
        GlueFront(a, ws[0], Join(ws[1..]));
      }
    }
  }

  lemma GlueFront(a: string, b: string, c: string)
    ensures (a + b) + " " + c == a + (b + " " + c)
  {
  }
}
