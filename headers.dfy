/**
 * The column-header cleaner of `load_data` (preprocess.py:54-71): five text
 * steps applied to every raw header, one header at a time.
 */
module Headers {
  import opened Text

  /** The two instructional phrases deleted from headers (preprocess.py:60-61). */
  const OneSentencePhrase: string := "- Maks en sætning"
  const LinkPhrase: string := ", skriv linket her"

  /** One raw header through the five steps of preprocess.py:58-68. */
  function CleanHeader(raw: string): string {
    var noBrackets := RemoveBrackets(raw);
    var noPhrases := RemoveAll(RemoveAll(noBrackets, OneSentencePhrase), LinkPhrase);
    Normalize(noPhrases)
  }

  /** `f` applied to every element of `xs`, in order. */
  function Map<A, B>(f: A -> B, xs: seq<A>): (ys: seq<B>)
    ensures |ys| == |xs|
    ensures forall i :: 0 <= i < |xs| ==> ys[i] == f(xs[i])
  {
    seq(|xs|, i requires 0 <= i < |xs| => f(xs[i]))
  }

  /** Mapping one more element extends the result by its image. */
  lemma MapExtend<A, B>(f: A -> B, xs: seq<A>, i: nat)
    requires i < |xs|
    ensures Map(f, xs[..i + 1]) == Map(f, xs[..i]) + [f(xs[i])]
  {
    var a, b := Map(f, xs[..i + 1]), Map(f, xs[..i]) + [f(xs[i])];
    forall k | 0 <= k < i + 1 ensures a[k] == b[k] {
      if k < i {
        assert xs[..i + 1][k] == xs[..i][k];
      }
    }
  }

  /** The list of cleaned headers: one per raw header, in the same order,
      each computed from its own raw header only. */
  function CleanAll(raw: seq<string>): (cleaned: seq<string>)
    ensures |cleaned| == |raw|
    ensures forall i :: 0 <= i < |raw| ==> cleaned[i] == CleanHeader(raw[i])
  {
    Map(CleanHeader, raw)
  }

  /** The header loop of preprocess.py:54-69. */
  method CleanColumns(raw: seq<string>) returns (cleaned: seq<string>)
    ensures cleaned == CleanAll(raw)
  {
    cleaned := [];
    for i := 0 to |raw|
      invariant cleaned == Map(CleanHeader, raw[..i])
    {
      MapExtend(CleanHeader, raw, i);
      cleaned := cleaned + [CleanHeader(raw[i])];
    }
    assert raw[..|raw|] == raw;
  }

  /** A cleaned header has no whitespace at either end, no whitespace other
      than single plain spaces, no `[` followed by a `]`, and is never longer
      than the raw header. */
  lemma CleanHeaderShape(raw: string)
    ensures var h := CleanHeader(raw);
      && Tidy(h)
      && (forall i :: 0 <= i < |h| ==> h[i] != '\n')
      && (forall i, j :: 0 <= i < j < |h| && j == i + 1 ==> !(h[i] == ' ' && h[j] == ' '))
      && NoBracketPair(h)
      && |h| <= |raw|
  {
    var b := RemoveBrackets(raw);
    RemoveBracketsLeavesNoPair(raw);
    var p := RemoveAll(b, OneSentencePhrase);
    RemoveAllKeepsNoPair(b, OneSentencePhrase);
    var q := RemoveAll(p, LinkPhrase);
    RemoveAllKeepsNoPair(p, LinkPhrase);
    NormalizeKeepsNoPair(q);
    NormalizeIsTidy(q);
    var h := CleanHeader(raw);
    assert IsSpace('\n') && IsSpace(' ');
  }

  /** A header that is already clean: tidy, no `[` or no `]` (so no
      bracket group can match), neither phrase. */
  ghost predicate AlreadyClean(s: string) {
    && Tidy(s)
    && ((forall k :: 0 <= k < |s| ==> s[k] != ']') || (forall k :: 0 <= k < |s| ==> s[k] != '['))
    && (forall k :: 0 <= k < |s| ==> !OccursAt(s, OneSentencePhrase, k))
    && (forall k :: 0 <= k < |s| ==> !OccursAt(s, LinkPhrase, k))
  }

  /** Header text with nothing to clean is unchanged. */
  lemma CleanHeaderKeepsClean(s: string)
    requires AlreadyClean(s)
    ensures CleanHeader(s) == s
  {
    if forall k :: 0 <= k < |s| ==> s[k] != ']' {
      RemoveBracketsWithoutClose(s);
    } else {
      RemoveBracketsWithoutOpen(s);
    }
    RemoveAllAbsent(s, OneSentencePhrase);
    RemoveAllAbsent(s, LinkPhrase);
    TidyIsNormal(s);
  }

  /** The required name `Lokation` maps to itself. */
  lemma LokationUnchanged()
    ensures CleanHeader("Lokation") == "Lokation"
  {
    CleanHeaderKeepsClean("Lokation");
  }

  /** Brackets pair each `[` with the nearest later `]`: in `[a[b]c]` the
      group `[a[b]` is deleted and `c]` is kept. */
  lemma NestedBracketExample(s: string)
    requires s == "[a[b]c]"
    ensures RemoveBrackets(s) == "c]"
  {
    var body, rest := s[1..4], s[5..];
    assert body == "a[b" && rest == "c]";
    assert s == [] + "[" + body + "]" + [] + rest;
    BracketGroupRemoved([], body, [], rest);
    RemoveBracketsWithoutOpen(rest);
  }

  /** The whitespace before a bracket group, here a newline, goes with it. */
  lemma DatoAnnotationExample(s: string)
    requires s == "Dato\n[dd/mm]"
    ensures RemoveBrackets(s) == "Dato"
  {
    var name, group := s[..4], s[4..];
    assert s == name + group;
    assert name == "Dato";
    assert forall k :: 0 <= k < |name| ==> name[k] != '[';
    assert !IsSpace(name[3]);
    AnnotationRemoved(group);
    RemoveBracketsKeepsPrefix(name, group);
    assert RemoveBrackets(s) == name + [];
  }

  lemma AnnotationRemoved(g: string)
    requires g == "\n[dd/mm]"
    ensures RemoveBrackets(g) == ""
  {
    var w, body := g[..1], g[2..7];
    assert g == w + "[" + body + "]" + [] + [];
    assert IsSpace(w[0]);
    BracketGroupRemoved(w, body, [], []);
  }

  /** An unmatched `[` stays. */
  lemma UnclosedBracketExample(s: string)
    requires s == "Dato [dd/mm"
    ensures RemoveBrackets(s) == s
  {
    RemoveBracketsWithoutClose(s);
  }

  // The witness below is split into one small lemma per cleaning step; each
  // takes the text as a parameter so that the verifier does not evaluate the
  // recursive functions on the literal all at once.

  lemma DoubleSpacedKeepsBrackets(s: string)
    requires s == "-  Maks en sætning"
    ensures RemoveBrackets(s) == s
  {
    RemoveBracketsWithoutOpen(s);
  }

  lemma DoubleSpacedKeepsFirstPhrase(s: string, p: string)
    requires s == "-  Maks en sætning" && p == OneSentencePhrase
    ensures RemoveAll(s, p) == s
  {
    assert s[..|p|][2] != p[2];
    var t := s[1..];
    assert t[..|p|][0] != p[0];
    var u := t[1..];
    assert |u| < |p|;
    assert RemoveAll(t, p) == [t[0]] + u;
    assert [t[0]] + u == t;
    assert RemoveAll(s, p) == [s[0]] + t;
    assert [s[0]] + t == s;
  }

  lemma DoubleSpacedKeepsLinkPhrase(s: string)
    requires s == "-  Maks en sætning"
    ensures RemoveAll(s, LinkPhrase) == s
  {
    assert s[..18][0] != LinkPhrase[0];
  }

  lemma DoubleSpacedHasNoNewline(s: string)
    requires s == "-  Maks en sætning"
    ensures NewlinesToSpaces(s) == s
  {
    forall i | 0 <= i < |s| ensures s[i] != '\n' { }
  }

  lemma PhraseTailShape(m: string)
    requires m == "Maks en sætning"
    ensures SingleSpaced(m) && !IsSpace(m[0])
  {
  }

  lemma PhraseSplits(s: string, m: string)
    requires s == "-  Maks en sætning" && m == "Maks en sætning"
    ensures s == ['-'] + ("  " + m)
  {
  }

  lemma PhraseJoins(m: string)
    requires m == "Maks en sætning"
    ensures ['-', ' '] + m == OneSentencePhrase
  {
  }

  /** A non-space character, a whitespace run and single-spaced text that
      starts with a non-space collapse to the character, one space and the
      text. */
  lemma CollapseGap(c: char, w: string, m: string)
    requires !IsSpace(c)
    requires w != [] && forall k :: 0 <= k < |w| ==> IsSpace(w[k])
    requires SingleSpaced(m) && (m == [] || !IsSpace(m[0]))
    ensures Collapse([c] + (w + m)) == [c, ' '] + m
  {
    CollapseRun(w, m);
    CollapseCons(c, w + m);
    CollapseKeepsSingleSpaced(m);
    calc {
      Collapse([c] + (w + m));
      [c] + Collapse(w + m);
      [c] + ([' '] + m);
      { assert [c] + ([' '] + m) == ([c] + [' ']) + m; }
      [c, ' '] + m;
    }
  }

  lemma DoubleSpacedCollapses(s: string, m: string)
    requires s == "-  Maks en sætning" && m == "Maks en sætning"
    ensures Collapse(s) == OneSentencePhrase
  {
    var w := "  ";
    PhraseTailShape(m);
    assert IsSpace(w[0]) && IsSpace(w[1]);
    PhraseSplits(s, m);
    CollapseGap('-', w, m);
    PhraseJoins(m);
  }

  lemma PhraseRemovesItself()
    ensures RemoveAll(OneSentencePhrase, OneSentencePhrase) == []
  {
    var p := OneSentencePhrase;
    assert p[..|p|] == p;
  }

  lemma PhraseKeepsBrackets(p: string)
    requires p == OneSentencePhrase
    ensures RemoveBrackets(p) == p
  {
    RemoveBracketsWithoutOpen(p);
  }

  lemma PhraseCleansToEmpty(p: string)
    requires p == OneSentencePhrase
    ensures CleanHeader(p) == []
  {
    PhraseKeepsBrackets(p);
    PhraseRemovesItself();
    assert RemoveAll([], LinkPhrase) == [];
    assert Normalize([]) == [];
  }

  lemma DoubleSpacedCleansToPhrase(raw: string)
    requires raw == "-  Maks en sætning"
    ensures CleanHeader(raw) == OneSentencePhrase
  {
    DoubleSpacedKeepsBrackets(raw);
    DoubleSpacedKeepsFirstPhrase(raw, OneSentencePhrase);
    DoubleSpacedKeepsLinkPhrase(raw);
    assert RemoveAll(RemoveAll(RemoveBrackets(raw), OneSentencePhrase), LinkPhrase) == raw;
    DoubleSpacedHasNoNewline(raw);
    DoubleSpacedCollapses(raw, "Maks en sætning");
    StripKeepsTrimmed(OneSentencePhrase);
  }

  /** The cleaning as a whole is not idempotent: collapsing the double space
      in `-  Maks en sætning` creates the phrase, which a second cleaning
      then deletes. */
  lemma CleanHeaderNotIdempotent(raw: string)
    requires raw == "-  Maks en sætning"
    ensures CleanHeader(raw) == OneSentencePhrase
    ensures CleanHeader(CleanHeader(raw)) == []
  {
    DoubleSpacedCleansToPhrase(raw);
    PhraseCleansToEmpty(CleanHeader(raw));
  }
}
