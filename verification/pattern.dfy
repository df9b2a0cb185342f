/** The small fragment of Python's `re` that the safety tables use: word
    boundaries, literal runs, alternation between literals, an optional
    character from a class, and `.*`; and `re.search`, which asks whether the
    pattern matches starting at some index of the text. */
module Pattern {
  import opened Text

  /** One element of a pattern. */
  datatype Item =
    | Boundary                   // `\b`
    | Lit(word: string)          // a literal run of characters
    | Alt(choices: seq<string>)  // `(a|b|c)` over literal alternatives
    | OptChar(chars: seq<char>)  // `[...]?`: at most one character of the class
    | AnyRun                     // `.*`: any run of characters other than a newline

  /** A pattern is its items in order. */
  type Regex = seq<Item>

  /** The character before index `i` is a word character. */
  predicate WordBefore(s: string, i: int)
    requires 0 <= i <= |s|
  {
    i > 0 && IsWordChar(s[i - 1])
  }

  /** The character at index `i` is a word character. */
  predicate WordAt(s: string, i: int)
    requires 0 <= i <= |s|
  {
    i < |s| && IsWordChar(s[i])
  }

  /** `\b` holds at index `i`: exactly one side of `i` is a word character,
      the ends of the text counting as non-word. */
  predicate AtBoundary(s: string, i: int)
    requires 0 <= i <= |s|
  {
    WordBefore(s, i) != WordAt(s, i)
  }

  /** The literal `w` occurs in `s` at index `i`. */
  predicate LitAt(s: string, w: string, i: int) {
    0 <= i && i + |w| <= |s| && s[i..i + |w|] == w
  }

  /** The items of `p` match `s` starting at index `i` (the match may end
      anywhere: `re.search` does not anchor the end). */
  predicate MatchFrom(p: Regex, s: string, i: int)
    requires 0 <= i <= |s|
    decreases |p|
  {
    if |p| == 0 then true
    else match p[0]
      case Boundary =>
        AtBoundary(s, i) && MatchFrom(p[1..], s, i)
      case Lit(w) =>
        LitAt(s, w, i) && MatchFrom(p[1..], s, i + |w|)
      case Alt(ws) =>
        exists k :: 0 <= k < |ws| && LitAt(s, ws[k], i) && MatchFrom(p[1..], s, i + |ws[k]|)
      case OptChar(cs) =>
        || MatchFrom(p[1..], s, i)
        || (i < |s| && s[i] in cs && MatchFrom(p[1..], s, i + 1))
      case AnyRun =>
        exists j :: i <= j <= |s| && '\n' !in s[i..j] && MatchFrom(p[1..], s, j)
  }

  /** Python's `re.search(p, s)` succeeds: the pattern matches from some index. */
  predicate Search(p: Regex, s: string) {
    exists i :: 0 <= i <= |s| && MatchFrom(p, s, i)
  }

  /** `\bkw\b` as a pattern. */
  function WholeWordPattern(kw: string): (p: Regex)
    ensures |p| == 3 && p[1] == Lit(kw)
  {
    [Boundary, Lit(kw), Boundary]
  }

  /** A keyword made only of word characters. */
  predicate IsWord(kw: string) {
    |kw| > 0 && forall i :: 0 <= i < |kw| ==> IsWordChar(kw[i])
  }

  /** Reference meaning of a whole-word hit: `kw` occurs in `s` with no word
      character immediately before or after it. */
  ghost predicate WholeWord(s: string, kw: string) {
    exists i ::
      && LitAt(s, kw, i)
      && (i == 0 || !IsWordChar(s[i - 1]))
      && (i + |kw| == |s| || !IsWordChar(s[i + |kw|]))
  }

  /** Searching for `\bkw\b` finds exactly the whole-word occurrences of a
      keyword made of word characters. */
  lemma WholeWordSearch(s: string, kw: string)
    requires IsWord(kw)
    ensures Search(WholeWordPattern(kw), s) <==> WholeWord(s, kw)
  {
    var p := WholeWordPattern(kw);
    if Search(p, s) {
      var i :| 0 <= i <= |s| && MatchFrom(p, s, i);
      assert MatchFrom(p[1..], s, i);
      assert LitAt(s, kw, i);
      assert s[i] == kw[0];
      assert s[i + |kw| - 1] == kw[|kw| - 1];
      assert MatchFrom(p[2..], s, i + |kw|);
    }
    if WholeWord(s, kw) {
      var i :| && LitAt(s, kw, i)
               && (i == 0 || !IsWordChar(s[i - 1]))
               && (i + |kw| == |s| || !IsWordChar(s[i + |kw|]));
      assert s[i] == kw[0];
      assert s[i + |kw| - 1] == kw[|kw| - 1];
      assert IsWordChar(kw[0]) && IsWordChar(kw[|kw| - 1]);
      assert AtBoundary(s, i) && AtBoundary(s, i + |kw|);
      assert MatchFrom([], s, i + |kw|);
      assert [Boundary][1..] == [];
      assert MatchFrom([Boundary], s, i + |kw|);
      assert p[2..] == [Boundary];
      assert MatchFrom(p[1..], s, i);
      assert MatchFrom(p, s, i);
    }
  }

  /** A literal occurs at `i` when each of its characters does. */
  lemma LitAtByChars(s: string, w: string, i: int)
    requires 0 <= i && i + |w| <= |s|
    requires forall d :: 0 <= d < |w| ==> s[i + d] == w[d]
    ensures LitAt(s, w, i)
  {
    assert s[i..i + |w|] == w;
  }

  /** An occurrence inside `a` is still an occurrence once `b` is appended. */
  lemma LitAtAppend(a: string, b: string, w: string, i: int)
    requires LitAt(a, w, i)
    ensures LitAt(a + b, w, i)
  {
    assert (a + b)[i..i + |w|] == a[i..i + |w|];
  }

  /** One step of a match through an alternation: choice `k` occurs at `i`
      and the rest of the pattern matches after it. */
  lemma AltStep(p: Regex, s: string, i: int, k: int)
    requires 0 <= i <= |s| && |p| > 0 && p[0].Alt? && 0 <= k < |p[0].choices|
    requires LitAt(s, p[0].choices[k], i) && MatchFrom(p[1..], s, i + |p[0].choices[k]|)
    ensures MatchFrom(p, s, i)
  {
  }

  /** One step of a match through `.*`: the run from `i` to `j` holds no
      newline and the rest of the pattern matches at `j`. */
  lemma RunStep(p: Regex, s: string, i: int, j: int)
    requires 0 <= i <= j <= |s| && |p| > 0 && p[0].AnyRun?
    requires '\n' !in s[i..j] && MatchFrom(p[1..], s, j)
    ensures MatchFrom(p, s, i)
  {
  }

  /** A pattern that opens with `\bword\b` can only match where that word
      stands, bounded on its right, and the rest of the pattern must match after it. */
  lemma LeadingWord(p: Regex, s: string, i: int)
    requires 0 <= i <= |s| && |p| >= 3 && p[0] == Boundary && p[1].Lit? && p[2] == Boundary
    ensures MatchFrom(p, s, i) ==>
      && LitAt(s, p[1].word, i)
      && AtBoundary(s, i + |p[1].word|)
      && MatchFrom(p[3..], s, i + |p[1].word|)
  {
    if MatchFrom(p, s, i) {
      assert MatchFrom(p[1..], s, i);
      assert p[1..][1..] == p[2..] && p[2..][1..] == p[3..];
    }
  }

  /** A `.*` that starts on a newline covers nothing: the rest must match right there. */
  lemma RunStopsAtNewline(p: Regex, s: string, i: int)
    requires 0 <= i < |s| && s[i] == '\n' && |p| > 0 && p[0].AnyRun?
    ensures MatchFrom(p, s, i) ==> MatchFrom(p[1..], s, i)
  {
    if MatchFrom(p, s, i) {
      var j :| i <= j <= |s| && '\n' !in s[i..j] && MatchFrom(p[1..], s, j);
      assert j == i;
    }
  }

  /** The literal `w` occurs somewhere in `s`. */
  ghost predicate Occurs(s: string, w: string) {
    exists j :: LitAt(s, w, j)
  }

  /** Every literal item of a pattern, and one choice of every alternation,
      occurs in any text the pattern matches. */
  lemma {:induction false} MatchNeedsLiterals(p: Regex, s: string, i: int, k: int)
    requires 0 <= i <= |s| && MatchFrom(p, s, i)
    requires 0 <= k < |p|
    ensures p[k].Lit? ==> Occurs(s, p[k].word)
    ensures p[k].Alt? ==> exists m :: 0 <= m < |p[k].choices| && Occurs(s, p[k].choices[m])
    decreases |p|
  {
    var next: int;
    match p[0] {
      case Boundary =>
        next := i;
      case Lit(w) =>
        assert LitAt(s, w, i);
        next := i + |w|;
      case Alt(ws) =>
        var m :| 0 <= m < |ws| && LitAt(s, ws[m], i) && MatchFrom(p[1..], s, i + |ws[m]|);
        assert Occurs(s, ws[m]);
        next := i + |ws[m]|;
      case OptChar(cs) =>
        next := if MatchFrom(p[1..], s, i) then i else i + 1;
      case AnyRun =>
        var j :| i <= j <= |s| && '\n' !in s[i..j] && MatchFrom(p[1..], s, j);
        next := j;
    }
    if k > 0 {
      assert p[1..][k - 1] == p[k];
      MatchNeedsLiterals(p[1..], s, next, k - 1);
    } else if p[0].Lit? {
      assert LitAt(s, p[k].word, i);
    } else if p[0].Alt? {
      var m :| 0 <= m < |p[0].choices| && LitAt(s, p[0].choices[m], i);
      assert Occurs(s, p[k].choices[m]);
    }
  }

  /** A pattern whose `k`-th item is a literal absent from `s` does not match. */
  lemma LiteralExcludes(p: Regex, s: string, k: int)
    requires 0 <= k < |p| && p[k].Lit? && !Occurs(s, p[k].word)
    ensures !Search(p, s)
  {
    if i :| 0 <= i <= |s| && MatchFrom(p, s, i) {
      MatchNeedsLiterals(p, s, i, k);
    }
  }

  /** A pattern whose `k`-th item is an alternation with no choice in `s` does not match. */
  lemma AlternationExcludes(p: Regex, s: string, k: int)
    requires 0 <= k < |p| && p[k].Alt?
    requires forall m :: 0 <= m < |p[k].choices| ==> !Occurs(s, p[k].choices[m])
    ensures !Search(p, s)
  {
    if i :| 0 <= i <= |s| && MatchFrom(p, s, i) {
      MatchNeedsLiterals(p, s, i, k);
    }
  }

  /** A literal containing a character that `s` lacks does not occur in `s`. */
  lemma AbsentCharExcludes(s: string, w: string, c: char)
    requires c in w && c !in s
    ensures !Occurs(s, w)
  {
  }

  /** Every character of `s` is drawn from `alphabet`. */
  predicate Within(s: string, alphabet: set<char>) {
    forall k :: 0 <= k < |s| ==> s[k] in alphabet
  }

  /** A literal containing a character outside the alphabet of `s` does not occur in `s`. */
  lemma OutsideAlphabetExcludes(s: string, alphabet: set<char>, w: string, c: char)
    requires Within(s, alphabet) && c in w && c !in alphabet
    ensures !Occurs(s, w)
  {
    AbsentCharExcludes(s, w, c);
  }

  /** `a` is never immediately followed by `b` in `s`. */
  predicate NoPair(s: string, a: char, b: char) {
    forall k :: 0 <= k < |s| - 1 ==> !(s[k] == a && s[k + 1] == b)
  }

  /** A literal containing two adjacent characters that never stand adjacent in
      `s` does not occur in `s`. */
  lemma AbsentPairExcludes(s: string, w: string, d: int)
    requires 0 <= d && d + 1 < |w|
    requires NoPair(s, w[d], w[d + 1])
    ensures !Occurs(s, w)
  {
    forall j ensures !LitAt(s, w, j) {
      if 0 <= j && j + |w| <= |s| {
        assert s[j + d] == s[j..j + |w|][d];
        assert s[j + d + 1] == s[j..j + |w|][d + 1];
      }
    }
  }
}
