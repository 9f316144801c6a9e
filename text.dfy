/**
 * String rewriting used by the column-header cleaner of preprocess.py:
 * Python's notion of whitespace, `str.strip()`, the regular expression
 * `\s*\[.*?\]\s*` (DOTALL) applied with `re.sub`, `str.replace(phrase, '')`,
 * the newline-to-space replacement and the collapse `re.sub(r'\s+', ' ', _)`.
 */
module Text {
  import opened Wrappers

  /** Python's `str.isspace()` for one character; `\s` in a `str` pattern
      and the argument-less `str.strip()` use exactly this set. */
  predicate IsSpace(c: char) {
    var n := c as int;
    (0x09 <= n <= 0x0D) || (0x1C <= n <= 0x20) || n == 0x85 || n == 0xA0 || n == 0x1680
    || (0x2000 <= n <= 0x200A) || n == 0x2028 || n == 0x2029 || n == 0x202F || n == 0x205F
    || n == 0x3000
  }

  // ---------------------------------------------------------------------------
  // str.strip()
  // ---------------------------------------------------------------------------

  /** Drops the leading run of whitespace: a suffix of `s`. */
  function TrimLeft(s: string): (r: string)
    ensures |r| <= |s| && r == s[|s| - |r|..]
    ensures forall i :: 0 <= i < |s| - |r| ==> IsSpace(s[i])
    ensures r == [] || !IsSpace(r[0])
  {
    s[SkipSpace(s, 0)..]
  }

  /** The start of the whitespace run that ends at index `j` of `s`. */
  function SpaceRunBefore(s: string, j: nat): (i: nat)
    requires j <= |s|
    ensures i <= j
    ensures i == 0 || !IsSpace(s[i - 1])
    ensures forall k :: i <= k < j ==> IsSpace(s[k])
    decreases j
  {
    if j > 0 && IsSpace(s[j - 1]) then SpaceRunBefore(s, j - 1) else j
  }

  /** Drops the trailing run of whitespace: a prefix of `s`. */
  function TrimRight(s: string): (r: string)
    ensures |r| <= |s| && r == s[..|r|]
    ensures forall i :: |r| <= i < |s| ==> IsSpace(s[i])
    ensures r == [] || !IsSpace(r[|r| - 1])
  {
    s[..SpaceRunBefore(s, |s|)]
  }

  /** `s.strip()` */
  function Strip(s: string): string {
    TrimRight(TrimLeft(s))
  }

  /** Where the stripped text starts inside `s`. */
  function StripStart(s: string): nat {
    |s| - |TrimLeft(s)|
  }

  /** `Strip` returns a slice of its argument with no whitespace at either end,
      and everything cut off on either side is whitespace. */
  lemma StripSlice(s: string)
    ensures var r, a := Strip(s), StripStart(s);
      && a + |r| <= |s| && r == s[a..a + |r|]
      && (r == [] || (!IsSpace(r[0]) && !IsSpace(r[|r| - 1])))
      && (forall i :: 0 <= i < a ==> IsSpace(s[i]))
      && (forall i :: a + |r| <= i < |s| ==> IsSpace(s[i]))
  {
    var u := TrimLeft(s);
    var r := TrimRight(u);
    var a := |s| - |u|;
    assert u == s[a..];
    assert r == u[..|r|];
    assert r == s[a..a + |r|];
    if r != [] {
      assert r[0] == u[0];
    }
    forall i | a + |r| <= i < |s| ensures IsSpace(s[i]) {
      assert s[i] == u[i - a];
    }
  }

  /** `s.strip()` is empty exactly when `s` is all whitespace. */
  lemma StripEmptyIffBlank(s: string)
    ensures Strip(s) == [] <==> forall i :: 0 <= i < |s| ==> IsSpace(s[i])
  {
    var l := TrimLeft(s);
    if l != [] {
      assert !IsSpace(l[0]);
      assert l[0] == s[|s| - |l|];
    }
  }

  /** An already stripped text is left alone by `Strip`. */
  lemma StripKeepsTrimmed(s: string)
    requires s == [] || (!IsSpace(s[0]) && !IsSpace(s[|s| - 1]))
    ensures Strip(s) == s
  {
  }

  // ---------------------------------------------------------------------------
  // re.sub(r'\s*\[.*?\]\s*', '', s, flags=re.DOTALL)
  // ---------------------------------------------------------------------------

  /** The first index `j >= i` that is not whitespace (or `|s|`). */
  function SkipSpace(s: string, i: nat): (j: nat)
    requires i <= |s|
    ensures i <= j <= |s|
    ensures j == |s| || !IsSpace(s[j])
    ensures forall k :: i <= k < j ==> IsSpace(s[k])
    decreases |s| - i
  {
    if i < |s| && IsSpace(s[i]) then SkipSpace(s, i + 1) else i
  }

  /** The first index `j >= i` holding `]`, if any: the lazy `.*?` with DOTALL
      stops at the nearest closing bracket, newlines included. */
  function FindClose(s: string, i: nat): (r: Option<nat>)
    requires i <= |s|
    ensures r.Some? ==> i <= r.value < |s| && s[r.value] == ']'
    ensures r.Some? ==> forall k :: i <= k < r.value ==> s[k] != ']'
    ensures r.None? ==> forall k :: i <= k < |s| ==> s[k] != ']'
    decreases |s| - i
  {
    if i == |s| then None
    else if s[i] == ']' then Some(i)
    else FindClose(s, i + 1)
  }

  /** The length of the match of `\s*\[.*?\]\s*` anchored at the start of `s`,
      if the pattern matches there.  The greedy leading `\s*` can only succeed
      by running up to a `[`; the trailing `\s*` takes the whole whitespace run. */
  function BracketMatch(s: string): (r: Option<nat>)
    ensures r.Some? ==> 0 < r.value <= |s|
    ensures r.Some? ==> r.value == |s| || !IsSpace(s[r.value])
  {
    var q := SkipSpace(s, 0);
    if q < |s| && s[q] == '[' then
      match FindClose(s, q + 1)
      case Some(c) => Some(SkipSpace(s, c + 1))
      case None => None
    else None
  }

  /** `re.sub` with the bracket pattern: scanning left to right, every match is
      deleted and every other character is kept. */
  function RemoveBrackets(s: string): (r: string)
    ensures |r| <= |s|
    decreases |s|
  {
    if s == [] then []
    else match BracketMatch(s)
      case Some(n) => RemoveBrackets(s[n..])
      case None => [s[0]] + RemoveBrackets(s[1..])
  }

  /** The text holds no `]`. */
  ghost predicate NoClose(s: string) {
    forall k :: 0 <= k < |s| ==> s[k] != ']'
  }

  /** No `[` is followed, anywhere later, by a `]`. */
  ghost predicate NoBracketPair(s: string) {
    forall i, j :: 0 <= i < j < |s| && s[i] == '[' ==> s[j] != ']'
  }

  /** Where nothing matches, the first character is copied. */
  lemma RemoveBracketsCopies(s: string)
    requires s != [] && BracketMatch(s).None?
    ensures RemoveBrackets(s) == [s[0]] + RemoveBrackets(s[1..])
  {
  }

  /** A `[` the pattern does not match at has no `]` anywhere after it. */
  lemma UnmatchedOpen(s: string)
    requires s != [] && s[0] == '[' && BracketMatch(s).None?
    ensures NoClose(s[1..])
  {
    assert SkipSpace(s, 0) == 0;
    assert FindClose(s, 1).None?;
  }

  /** Putting a character in front keeps the property, provided a `[` goes
      only in front of text without `]`. */
  lemma ConsNoPair(c: char, rest: string)
    requires NoBracketPair(rest)
    requires c == '[' ==> NoClose(rest)
    ensures NoBracketPair([c] + rest)
  {
    var r := [c] + rest;
    forall i, j | 0 <= i < j < |r| && r[i] == '[' ensures r[j] != ']' {
      assert r[j] == rest[j - 1];
      if i > 0 {
        assert r[i] == rest[i - 1];
      }
    }
  }

  /** A `[` followed by a `]` is a match of the pattern, so after the rewriting
      no such pair is left. */
  lemma {:induction false} RemoveBracketsLeavesNoPair(s: string)
    ensures NoBracketPair(RemoveBrackets(s))
    decreases |s|
  {
    if s != [] {
      match BracketMatch(s)
      case Some(n) =>
        RemoveBracketsLeavesNoPair(s[n..]);
      case None =>
        RemoveBracketsCopies(s);
        RemoveBracketsLeavesNoPair(s[1..]);
        if s[0] == '[' {
          UnmatchedOpen(s);
          RemoveBracketsWithoutClose(s[1..]);
        }
        ConsNoPair(s[0], RemoveBrackets(s[1..]));
    }
  }

  /** `SkipSpace` stops exactly at the end of a whitespace run. */
  lemma {:induction false} SkipSpaceTo(s: string, i: nat, j: nat)
    requires i <= j <= |s|
    requires forall k :: i <= k < j ==> IsSpace(s[k])
    requires j == |s| || !IsSpace(s[j])
    ensures SkipSpace(s, i) == j
    decreases j - i
  {
    if i < j {
      SkipSpaceTo(s, i + 1, j);
    }
  }

  /** `FindClose` stops exactly at the nearest `]`. */
  lemma {:induction false} FindCloseAt(s: string, i: nat, c: nat)
    requires i <= c < |s| && s[c] == ']'
    requires forall k :: i <= k < c ==> s[k] != ']'
    ensures FindClose(s, i) == Some(c)
    decreases c - i
  {
    if i < c {
      FindCloseAt(s, i + 1, c);
    }
  }

  /** The anchored match of `w1 [body] w2 rest` is `w1 [body] w2`. */
  lemma BracketGroupMatch(s: string, q: nat, c: nat, e: nat)
    requires q < c < e <= |s|
    requires forall k :: 0 <= k < q ==> IsSpace(s[k])
    requires s[q] == '['
    requires forall k :: q < k < c ==> s[k] != ']'
    requires s[c] == ']'
    requires forall k :: c < k < e ==> IsSpace(s[k])
    requires e == |s| || !IsSpace(s[e])
    ensures BracketMatch(s) == Some(e)
  {
    SkipSpaceTo(s, 0, q);
    FindCloseAt(s, q + 1, c);
    SkipSpaceTo(s, c + 1, e);
  }

  /** The anchored match of the pattern over `w1 [body] w2 rest` has the
      length of `w1 [body] w2`. */
  lemma BracketGroupLength(w1: string, body: string, w2: string, rest: string)
    requires forall k :: 0 <= k < |w1| ==> IsSpace(w1[k])
    requires forall k :: 0 <= k < |body| ==> body[k] != ']'
    requires forall k :: 0 <= k < |w2| ==> IsSpace(w2[k])
    requires rest == [] || !IsSpace(rest[0])
    ensures BracketMatch(w1 + "[" + body + "]" + w2 + rest) == Some(|w1| + |body| + |w2| + 2)
  {
    var head := w1 + "[" + body + "]" + w2;
    var s := head + rest;
    var q := |w1|;
    var c := q + 1 + |body|;
    var e := |head|;
    forall k | 0 <= k < q ensures IsSpace(s[k]) {
      assert s[k] == head[k] == w1[k];
    }
    forall k | q < k < c ensures s[k] != ']' {
      assert s[k] == head[k] == body[k - q - 1];
    }
    forall k | c < k < e ensures IsSpace(s[k]) {
      assert s[k] == head[k] == w2[k - c - 1];
    }
    assert s[q] == head[q] == '[';
    assert s[c] == head[c] == ']';
    assert e < |s| ==> s[e] == rest[0];
    BracketGroupMatch(s, q, c, e);
  }

  /** A bracket group together with the whitespace on both sides of it is
      deleted: `w1 [body] w2` followed by text that does not start with
      whitespace leaves only what `rest` becomes. */
  lemma BracketGroupRemoved(w1: string, body: string, w2: string, rest: string)
    requires forall k :: 0 <= k < |w1| ==> IsSpace(w1[k])
    requires forall k :: 0 <= k < |body| ==> body[k] != ']'
    requires forall k :: 0 <= k < |w2| ==> IsSpace(w2[k])
    requires rest == [] || !IsSpace(rest[0])
    ensures RemoveBrackets(w1 + "[" + body + "]" + w2 + rest) == RemoveBrackets(rest)
  {
    var head := w1 + "[" + body + "]" + w2;
    var s := head + rest;
    BracketGroupLength(w1, body, w2, rest);
    assert s[|head|..] == rest;
  }

  /** No match starts inside such a prefix. */
  lemma NoMatchInPrefix(a: string, b: string)
    requires a != [] && forall k :: 0 <= k < |a| ==> a[k] != '['
    requires !IsSpace(a[|a| - 1])
    ensures BracketMatch(a + b).None?
  {
    var s := a + b;
    var q := SkipSpace(s, 0);
    assert s[|a| - 1] == a[|a| - 1];
    assert q < |a|;
    assert s[q] == a[q];
  }

  lemma ConsAppend(a: string, r: string)
    requires a != []
    ensures [a[0]] + (a[1..] + r) == a + r
  {
    assert [a[0]] + a[1..] == a;
  }

  /** One character of such a prefix is copied. */
  lemma PrefixStep(a: string, b: string)
    requires a != [] && forall k :: 0 <= k < |a| ==> a[k] != '['
    requires !IsSpace(a[|a| - 1])
    ensures RemoveBrackets(a + b) == [a[0]] + RemoveBrackets(a[1..] + b)
  {
    NoMatchInPrefix(a, b);
    assert (a + b)[1..] == a[1..] + b;
  }

  /** Text before the first `[` that does not end in whitespace is kept as it
      stands: no match can start inside it. */
  lemma {:induction false} RemoveBracketsKeepsPrefix(a: string, b: string)
    requires forall k :: 0 <= k < |a| ==> a[k] != '['
    requires a == [] || !IsSpace(a[|a| - 1])
    ensures RemoveBrackets(a + b) == a + RemoveBrackets(b)
    decreases |a|
  {
    if a != [] {
      PrefixStep(a, b);
      var t := a[1..];
      assert forall k :: 0 <= k < |t| ==> t[k] == a[k + 1];
      assert t == [] || t[|t| - 1] == a[|a| - 1];
      RemoveBracketsKeepsPrefix(t, b);
      ConsAppend(a, RemoveBrackets(b));
    } else {
      assert a + b == b;
    }
  }

  /** Text without a `]` has no match and is returned unchanged; in particular a
      `[` that no `]` follows is kept. */
  lemma {:induction false} RemoveBracketsWithoutClose(s: string)
    requires forall k :: 0 <= k < |s| ==> s[k] != ']'
    ensures RemoveBrackets(s) == s
    decreases |s|
  {
    if s != [] {
      var q := SkipSpace(s, 0);
      if q < |s| && s[q] == '[' {
        assert FindClose(s, q + 1).None?;
      }
      assert BracketMatch(s).None?;
      RemoveBracketsCopies(s);
      var t := s[1..];
      assert forall k :: 0 <= k < |t| ==> t[k] == s[k + 1];
      RemoveBracketsWithoutClose(t);
      assert [s[0]] + t == s;
    }
  }

  /** Text without a `[` is returned unchanged. */
  lemma {:induction false} RemoveBracketsWithoutOpen(s: string)
    requires forall k :: 0 <= k < |s| ==> s[k] != '['
    ensures RemoveBrackets(s) == s
    decreases |s|
  {
    if s != [] {
      assert BracketMatch(s).None?;
      RemoveBracketsWithoutOpen(s[1..]);
    }
  }

  // ---------------------------------------------------------------------------
  // str.replace(phrase, '')
  // ---------------------------------------------------------------------------

  /** `pat` occurs in `s` starting at index `k`. */
  predicate OccursAt(s: string, pat: string, k: nat) {
    k + |pat| <= |s| && s[k..k + |pat|] == pat
  }

  /** `s.replace(pat, '')`: scanning left to right, each occurrence of `pat`
      is deleted and the scan resumes after it, so the deleted occurrences do
      not overlap; every other character is kept. */
  function RemoveAll(s: string, pat: string): (r: string)
    requires pat != []
    ensures |r| <= |s|
    decreases |s|
  {
    if |s| < |pat| then s
    else if s[..|pat|] == pat then RemoveAll(s[|pat|..], pat)
    else [s[0]] + RemoveAll(s[1..], pat)
  }


  /** Text in which the phrase does not occur is unchanged. */
  lemma {:induction false} RemoveAllAbsent(s: string, pat: string)
    requires pat != []
    requires forall k :: 0 <= k < |s| ==> !OccursAt(s, pat, k)
    ensures RemoveAll(s, pat) == s
    decreases |s|
  {
    if |s| >= |pat| {
      assert !OccursAt(s, pat, 0);
      assert s[..|pat|] != pat;
      var t := s[1..];
      forall k | 0 <= k < |t| ensures !OccursAt(t, pat, k) {
        assert !OccursAt(s, pat, k + 1);
      }
      RemoveAllAbsent(t, pat);
    }
  }

  /** The scan is left to right: when the first occurrence of `pat` in
      `a + pat + b` starts right after `a`, the text `a` is kept, that
      occurrence is deleted, and the scan goes on in `b`. */
  lemma {:induction false} RemoveAllFirst(a: string, pat: string, b: string)
    requires pat != []
    requires forall k :: 0 <= k < |a| ==> !OccursAt(a + pat + b, pat, k)
    ensures RemoveAll(a + pat + b, pat) == a + RemoveAll(b, pat)
    decreases |a|
  {
    var s := a + pat + b;
    if a == [] {
      assert s == pat + b;
      assert s[..|pat|] == pat;
      assert s[|pat|..] == b;
    } else {
      assert !OccursAt(s, pat, 0);
      assert s[..|pat|] != pat;
      var t := a[1..] + pat + b;
      assert s[1..] == t;
      forall k | 0 <= k < |a[1..]| ensures !OccursAt(t, pat, k) {
        assert !OccursAt(s, pat, k + 1);
        assert s[k + 1..k + 1 + |pat|] == t[k..k + |pat|];
      }
      RemoveAllFirst(a[1..], pat, b);
      assert [a[0]] + (a[1..] + RemoveAll(b, pat)) == a + RemoveAll(b, pat);
    }
  }

  // ---------------------------------------------------------------------------
  // s.replace('\n', ' ') and re.sub(r'\s+', ' ', s)
  // ---------------------------------------------------------------------------

  /** `s.replace('\n', ' ')` */
  function NewlinesToSpaces(s: string): (r: string)
    ensures |r| == |s|
    ensures forall i :: 0 <= i < |s| ==> r[i] == (if s[i] == '\n' then ' ' else s[i])
  {
    seq(|s|, i requires 0 <= i < |s| => if s[i] == '\n' then ' ' else s[i])
  }

  /** Every whitespace character is a plain space and no two whitespace
      characters are adjacent. */
  ghost predicate SingleSpaced(s: string) {
    && (forall i :: 0 <= i < |s| && IsSpace(s[i]) ==> s[i] == ' ')
    && (forall i, j :: 0 <= i < j < |s| && j == i + 1 ==> !(IsSpace(s[i]) && IsSpace(s[j])))
  }

  /** `re.sub(r'\s+', ' ', s)`: each maximal whitespace run becomes one space. */
  function Collapse(s: string): (r: string)
    ensures |r| <= |s|
    ensures r == [] <==> s == []
    ensures r != [] ==> (IsSpace(r[0]) <==> IsSpace(s[0]))
    ensures SingleSpaced(r)
    decreases |s|
  {
    if s == [] then []
    else if IsSpace(s[0]) then [' '] + Collapse(s[SkipSpace(s, 0)..])
    else [s[0]] + Collapse(s[1..])
  }

  /** A character that is not whitespace passes through the collapse. */
  lemma CollapseCons(c: char, t: string)
    requires !IsSpace(c)
    ensures Collapse([c] + t) == [c] + Collapse(t)
  {
    assert ([c] + t)[1..] == t;
  }

  /** A whole whitespace run becomes one space. */
  lemma CollapseRun(w: string, t: string)
    requires w != [] && forall k :: 0 <= k < |w| ==> IsSpace(w[k])
    requires t == [] || !IsSpace(t[0])
    ensures Collapse(w + t) == [' '] + Collapse(t)
  {
    var s := w + t;
    assert forall k :: 0 <= k < |w| ==> IsSpace(s[k]);
    assert |w| < |s| ==> !IsSpace(s[|w|]);
    assert SkipSpace(s, 0) == |w|;
    assert s[|w|..] == t;
  }

  /** Text that is already single-spaced is left alone by the collapse. */
  lemma {:induction false} CollapseKeepsSingleSpaced(s: string)
    requires SingleSpaced(s)
    ensures Collapse(s) == s
    decreases |s|
  {
    if s != [] {
      var t := s[1..];
      assert SingleSpaced(t) by {
        forall i, j | 0 <= i < j < |t| && j == i + 1 ensures !(IsSpace(t[i]) && IsSpace(t[j])) {
          assert t[i] == s[i + 1] && t[j] == s[j + 1];
        }
      }
      if IsSpace(s[0]) {
        assert |s| > 1 ==> !IsSpace(s[1]);
        assert SkipSpace(s, 0) == 1;
      }
      CollapseKeepsSingleSpaced(t);
      assert [s[0]] + t == s;
    }
  }

  /** Steps 3-5 of the cleaner: newline to space, collapse, strip. */
  function Normalize(s: string): string {
    Strip(Collapse(NewlinesToSpaces(s)))
  }

  /** What `Normalize` guarantees: single spaced, nothing at either end. */
  ghost predicate Tidy(s: string) {
    SingleSpaced(s) && (s == [] || (!IsSpace(s[0]) && !IsSpace(s[|s| - 1])))
  }

  /** A slice of single-spaced text is single spaced. */
  lemma SingleSpacedSlice(s: string, a: nat, b: nat)
    requires SingleSpaced(s) && a <= b <= |s|
    ensures SingleSpaced(s[a..b])
  {
    var t := s[a..b];
    forall i, j | 0 <= i < j < |t| && j == i + 1 ensures !(IsSpace(t[i]) && IsSpace(t[j])) {
      assert t[i] == s[a + i] && t[j] == s[a + j];
    }
    forall i | 0 <= i < |t| && IsSpace(t[i]) ensures t[i] == ' ' {
      assert t[i] == s[a + i];
    }
  }

  lemma NormalizeIsTidy(s: string)
    ensures Tidy(Normalize(s)) && |Normalize(s)| <= |s|
  {
    var c := Collapse(NewlinesToSpaces(s));
    var r, a := Strip(c), StripStart(c);
    StripSlice(c);
    assert r == c[a..a + |r|];
    SingleSpacedSlice(c, a, a + |r|);
    assert SingleSpaced(r);
    assert r == [] || (!IsSpace(r[0]) && !IsSpace(r[|r| - 1]));
  }

  /** Tidy text is a fixed point of `Normalize`. */
  lemma TidyIsNormal(s: string)
    requires Tidy(s)
    ensures Normalize(s) == s
  {
    assert NewlinesToSpaces(s) == s by {
      forall i | 0 <= i < |s| ensures s[i] != '\n' {
        assert IsSpace('\n');
      }
    }
    CollapseKeepsSingleSpaced(s);
    StripKeepsTrimmed(s);
  }

  /** The whitespace normaliser is idempotent. */
  lemma NormalizeIdempotent(s: string)
    ensures Normalize(Normalize(s)) == Normalize(s)
  {
    NormalizeIsTidy(s);
    TidyIsNormal(Normalize(s));
  }

  // ---------------------------------------------------------------------------
  // The later cleaning steps introduce no `[ ... ]` pair
  // ---------------------------------------------------------------------------

  lemma {:induction false} RemoveAllNoClose(s: string, pat: string)
    requires pat != [] && NoClose(s)
    ensures NoClose(RemoveAll(s, pat))
    decreases |s|
  {
    if |s| >= |pat| {
      var n := if s[..|pat|] == pat then |pat| else 1;
      var t := s[n..];
      assert NoClose(t) by {
        forall k | 0 <= k < |t| ensures t[k] != ']' {
          assert t[k] == s[k + n];
        }
      }
      RemoveAllNoClose(t, pat);
    }
  }

  lemma {:induction false} CollapseNoClose(s: string)
    requires NoClose(s)
    ensures NoClose(Collapse(s))
    decreases |s|
  {
    if s != [] {
      var n := if IsSpace(s[0]) then SkipSpace(s, 0) else 1;
      var t := s[n..];
      assert NoClose(t) by {
        forall k | 0 <= k < |t| ensures t[k] != ']' {
          assert t[k] == s[k + n];
        }
      }
      CollapseNoClose(t);
    }
  }

  lemma {:induction false} RemoveAllKeepsNoPair(s: string, pat: string)
    requires pat != [] && NoBracketPair(s)
    ensures NoBracketPair(RemoveAll(s, pat))
    decreases |s|
  {
    if |s| >= |pat| {
      if s[..|pat|] == pat {
        var t := s[|pat|..];
        assert NoBracketPair(t) by {
          forall i, j | 0 <= i < j < |t| && t[i] == '[' ensures t[j] != ']' {
            assert t[i] == s[i + |pat|] && t[j] == s[j + |pat|];
          }
        }
        RemoveAllKeepsNoPair(t, pat);
      } else {
        var t := s[1..];
        assert NoBracketPair(t) by {
          forall i, j | 0 <= i < j < |t| && t[i] == '[' ensures t[j] != ']' {
            assert t[i] == s[i + 1] && t[j] == s[j + 1];
          }
        }
        RemoveAllKeepsNoPair(t, pat);
        var rest := RemoveAll(t, pat);
        var r := [s[0]] + rest;
        assert r == RemoveAll(s, pat);
        forall i, j | 0 <= i < j < |r| && r[i] == '[' ensures r[j] != ']' {
          if i == 0 {
            assert NoClose(t) by {
              forall k | 0 <= k < |t| ensures t[k] != ']' {
                assert t[k] == s[k + 1];
              }
            }
            RemoveAllNoClose(t, pat);
          } else {
            assert rest[i - 1] == r[i] && rest[j - 1] == r[j];
          }
        }
      }
    }
  }

  lemma {:induction false} CollapseKeepsNoPair(s: string)
    requires NoBracketPair(s)
    ensures NoBracketPair(Collapse(s))
    decreases |s|
  {
    if s != [] {
      var n := if IsSpace(s[0]) then SkipSpace(s, 0) else 1;
      var t := s[n..];
      assert NoBracketPair(t) by {
        forall i, j | 0 <= i < j < |t| && t[i] == '[' ensures t[j] != ']' {
          assert t[i] == s[i + n] && t[j] == s[j + n];
        }
      }
      CollapseKeepsNoPair(t);
      var rest := Collapse(t);
      var r := [if IsSpace(s[0]) then ' ' else s[0]] + rest;
      assert r == Collapse(s);
      forall i, j | 0 <= i < j < |r| && r[i] == '[' ensures r[j] != ']' {
        if i == 0 {
          assert NoClose(t) by {
            forall k | 0 <= k < |t| ensures t[k] != ']' {
              assert t[k] == s[k + n];
            }
          }
          CollapseNoClose(t);
        } else {
          assert rest[i - 1] == r[i] && rest[j - 1] == r[j];
        }
      }
    }
  }

  lemma NoBracketPairSlice(s: string, a: nat, b: nat)
    requires NoBracketPair(s) && a <= b <= |s|
    ensures NoBracketPair(s[a..b])
  {
    var t := s[a..b];
    forall i, j | 0 <= i < j < |t| && t[i] == '[' ensures t[j] != ']' {
      assert t[i] == s[a + i] && t[j] == s[a + j];
    }
  }

  lemma NewlinesToSpacesKeepsNoPair(s: string)
    requires NoBracketPair(s)
    ensures NoBracketPair(NewlinesToSpaces(s))
  {
    var u := NewlinesToSpaces(s);
    forall i, j | 0 <= i < j < |u| && u[i] == '[' ensures u[j] != ']' {
      assert s[i] == '[';
    }
  }

  lemma NormalizeKeepsNoPair(s: string)
    requires NoBracketPair(s)
    ensures NoBracketPair(Normalize(s))
  {
    NewlinesToSpacesKeepsNoPair(s);
    var c := Collapse(NewlinesToSpaces(s));
    CollapseKeepsNoPair(NewlinesToSpaces(s));
    StripSlice(c);
    NoBracketPairSlice(c, StripStart(c), StripStart(c) + |Strip(c)|);
  }
}
