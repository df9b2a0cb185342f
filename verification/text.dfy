/** Character classes and string helpers that the safety gate and the
    markdown renderer share: Python's `str.strip`, `str.lower`, the regular
    expression word class `\w`, `str.join` and `str.split`. */
module Text {

  /** The characters for which Python's `str.isspace()` holds: ASCII
      whitespace, the ASCII separators 0x1C-0x1F, and the Unicode spaces. */
  predicate IsSpace(c: char) {
    || c == ' '
    || ('\t' <= c <= '\r')
    || ('\U{1c}' <= c <= '\U{1f}')
    || c == '\U{85}' || c == '\U{a0}' || c == '\U{1680}'
    || ('\U{2000}' <= c <= '\U{200a}')
    || c == '\U{2028}' || c == '\U{2029}' || c == '\U{202f}' || c == '\U{205f}' || c == '\U{3000}'
  }

  /** Every character of `s` is whitespace (vacuously so for the empty string). */
  ghost predicate IsBlank(s: string) {
    forall i :: 0 <= i < |s| ==> IsSpace(s[i])
  }

  /** Python's `str.lstrip()`: the suffix left after dropping leading whitespace. */
  function TrimStart(s: string): (r: string)
    ensures |r| <= |s| && r == s[|s| - |r|..]
    ensures IsBlank(s[..|s| - |r|])
    ensures r == [] || !IsSpace(r[0])
  {
    if |s| > 0 && IsSpace(s[0]) then
      var r := TrimStart(s[1..]);
      TrimStartStep(s, r);
      r
    else
      s
  }

  lemma TrimStartStep(s: string, r: string)
    requires |s| > 0 && IsSpace(s[0])
    requires |r| <= |s| - 1 && r == s[1..][|s| - 1 - |r|..] && IsBlank(s[1..][..|s| - 1 - |r|])
    ensures r == s[|s| - |r|..] && IsBlank(s[..|s| - |r|])
  {
    var p := s[1..];
    assert s[|s| - |r|..] == p[|p| - |r|..];
    assert s[..|s| - |r|] == [s[0]] + p[..|p| - |r|];
  }

  /** Python's `str.rstrip()`: the prefix left after dropping trailing whitespace. */
  function TrimEnd(s: string): (r: string)
    ensures |r| <= |s| && r == s[..|r|]
    ensures IsBlank(s[|r|..])
    ensures r == [] || !IsSpace(r[|r| - 1])
  {
    if |s| > 0 && IsSpace(s[|s| - 1]) then
      var r := TrimEnd(s[..|s| - 1]);
      TrimEndStep(s, r);
      r
    else
      s
  }

  lemma TrimEndStep(s: string, r: string)
    requires |s| > 0 && IsSpace(s[|s| - 1])
    requires |r| <= |s| - 1 && r == s[..|s| - 1][..|r|] && IsBlank(s[..|s| - 1][|r|..])
    ensures r == s[..|r|] && IsBlank(s[|r|..])
  {
    var p := s[..|s| - 1];
    assert p[..|r|] == s[..|r|];
    assert s[|r|..] == p[|r|..] + [s[|s| - 1]];
  }

  /** `r` occurs in `s` starting at index `a`. */
  predicate SliceAt(s: string, r: string, a: int) {
    0 <= a && a + |r| <= |s| && s[a..a + |r|] == r
  }

  /** `r` occurs in `s` at index `a` with only whitespace before and after it. */
  ghost predicate Padded(s: string, r: string, a: int) {
    SliceAt(s, r, a) && IsBlank(s[..a]) && IsBlank(s[a + |r|..])
  }

  /** Trimming the end of a string removes nothing exactly when it is blank. */
  lemma TrimEndEmpty(s: string)
    ensures TrimEnd(s) == [] <==> IsBlank(s)
  {
    var r := TrimEnd(s);
    if r != [] {
      assert s[|r| - 1] == r[|r| - 1];
    } else {
      assert s[|r|..] == s;
    }
  }

  /** Trailing whitespace is taken from the last non-blank part only. */
  lemma {:induction false} TrimEndAppend(a: string, b: string)
    requires !IsBlank(b)
    ensures TrimEnd(a + b) == a + TrimEnd(b)
    decreases |b|
  {
    if IsSpace(b[|b| - 1]) {
      var b' := b[..|b| - 1];
      assert !IsBlank(b') by {
        var i :| 0 <= i < |b| && !IsSpace(b[i]);
        assert b'[i] == b[i];
      }
      assert (a + b)[..|a + b| - 1] == a + b';
      TrimEndAppend(a, b');
    }
  }

  /** Python's `str.strip()`: the middle of `s` once whitespace is dropped at
      both ends. Only whitespace is cut off, and `StripUnique` shows that no
      other slice has these properties. */
  function Strip(s: string): (r: string)
    ensures r == [] || (!IsSpace(r[0]) && !IsSpace(r[|r| - 1]))
    ensures r == [] <==> IsBlank(s)
    ensures exists a :: Padded(s, r, a)
    decreases |s|
  {
    if |s| > 0 && IsSpace(s[0]) then
      var r := Strip(s[1..]);
      PaddedShift(s, r);
      BlankShift(s);
      r
    else
      TrimEndPadded(s);
      TrimEnd(s)
  }

  /** Stripping is trimming the start and then the end: `s.strip()` equals
      `s.lstrip().rstrip()`. */
  lemma {:induction false} StripIsTrims(s: string)
    ensures Strip(s) == TrimEnd(TrimStart(s))
    decreases |s|
  {
    if |s| > 0 && IsSpace(s[0]) {
      StripIsTrims(s[1..]);
    }
  }

  /** A slice with only whitespace around it stays so behind a leading space. */
  lemma PaddedShift(s: string, r: string)
    requires |s| > 0 && IsSpace(s[0])
    requires exists a :: Padded(s[1..], r, a)
    ensures exists a :: Padded(s, r, a)
  {
    var a :| Padded(s[1..], r, a);
    assert s[a + 1..a + 1 + |r|] == s[1..][a..a + |r|];
    assert s[..a + 1] == [s[0]] + s[1..][..a];
    assert s[a + 1 + |r|..] == s[1..][a + |r|..];
    assert Padded(s, r, a + 1);
  }

  /** A leading space does not change whether a string is blank. */
  lemma BlankShift(s: string)
    requires |s| > 0 && IsSpace(s[0])
    ensures IsBlank(s) <==> IsBlank(s[1..])
  {
    if IsBlank(s[1..]) {
      forall i | 0 <= i < |s|
        ensures IsSpace(s[i])
      {
        if i > 0 {
          assert s[i] == s[1..][i - 1];
        }
      }
    }
  }

  /** Trimming the end of a string that opens with a visible character, or is
      empty, strips it. */
  lemma TrimEndPadded(s: string)
    requires s == [] || !IsSpace(s[0])
    ensures TrimEnd(s) == [] || (!IsSpace(TrimEnd(s)[0]) && !IsSpace(TrimEnd(s)[|TrimEnd(s)| - 1]))
    ensures TrimEnd(s) == [] <==> IsBlank(s)
    ensures Padded(s, TrimEnd(s), 0)
  {
    var r := TrimEnd(s);
    TrimEndEmpty(s);
    if r != [] {
      assert r[0] == s[0];
    }
    assert s[..0] == [];
    assert s[0..|r|] == r;
  }

  /** The partner of `Strip`: a slice of `s` that leaves only whitespace
      around it and has no whitespace at its own ends is the stripped text. */
  lemma StripUnique(s: string, w: string, b: int)
    requires Padded(s, w, b)
    requires w == [] || (!IsSpace(w[0]) && !IsSpace(w[|w| - 1]))
    ensures w == Strip(s)
  {
    if w == [] {
      BlankAround(s, b);
    } else {
      TrimBothAt(s, w, b);
      StripIsTrims(s);
    }
  }

  /** Trimming both ends of a string finds a visible slice that has only
      whitespace around it. */
  lemma TrimBothAt(s: string, w: string, b: int)
    requires SliceAt(s, w, b) && IsBlank(s[..b]) && IsBlank(s[b + |w|..])
    requires w != [] && !IsSpace(w[0]) && !IsSpace(w[|w| - 1])
    ensures TrimEnd(TrimStart(s)) == w
  {
    var u := s[b..];
    assert s[b] == w[0];
    TrimStartAt(s, b);
    assert u[|w|..] == s[b + |w|..];
    assert u[|w| - 1] == w[|w| - 1];
    TrimEndAt(u, |w|);
    assert u[..|w|] == w;
  }

  /** A string with no whitespace at either end is its own stripped form. */
  lemma StripVisible(s: string)
    requires s == [] || (!IsSpace(s[0]) && !IsSpace(s[|s| - 1]))
    ensures Strip(s) == s
  {
    assert s[..0] == [] && s[|s|..] == [];
    assert s[0..|s|] == s;
    StripUnique(s, s, 0);
  }

  /** A string blank on both sides of index `b` is blank, and strips to nothing. */
  lemma BlankAround(s: string, b: int)
    requires 0 <= b <= |s| && IsBlank(s[..b]) && IsBlank(s[b..])
    ensures IsBlank(s) && Strip(s) == []
  {
    assert s == s[..b] + s[b..];
  }

  /** When the first `b` characters are whitespace and the next is not,
      trimming the start drops exactly those `b`. */
  lemma {:induction false} TrimStartAt(s: string, b: int)
    requires 0 <= b <= |s| && IsBlank(s[..b]) && (b == |s| || !IsSpace(s[b]))
    ensures TrimStart(s) == s[b..]
    decreases b
  {
    if b > 0 {
      assert s[..b][0] == s[0];
      assert s[1..][..b - 1] == s[..b][1..];
      assert s[1..][b - 1..] == s[b..];
      TrimStartAt(s[1..], b - 1);
    }
  }

  /** When everything from index `e` on is whitespace and the character
      before it is not, trimming the end keeps exactly the first `e`. */
  lemma {:induction false} TrimEndAt(s: string, e: int)
    requires 0 <= e <= |s| && IsBlank(s[e..]) && (e == 0 || !IsSpace(s[e - 1]))
    ensures TrimEnd(s) == s[..e]
    decreases |s| - e
  {
    if e < |s| {
      var p := s[..|s| - 1];
      assert s[e..][|s| - 1 - e] == s[|s| - 1];
      assert p[e..] == s[e..][..|s| - 1 - e];
      assert p[..e] == s[..e];
      TrimEndAt(p, e);
    } else {
      assert s[..e] == s;
    }
  }

  /** Python's `str.lower()` on one character; only ASCII letters change. */
  function LowerChar(c: char): (r: char)
    ensures 'A' <= c <= 'Z' ==> r != c && 'a' <= r <= 'z' && r as int == c as int + 32
    ensures !('A' <= c <= 'Z') ==> r == c
  {
    if 'A' <= c <= 'Z' then (c as int - 'A' as int + 'a' as int) as char else c
  }

  /** Python's `str.lower()`, character by character. */
  function Lower(s: string): (r: string)
    ensures |r| == |s|
    ensures forall i :: 0 <= i < |s| ==> r[i] == LowerChar(s[i])
  {
    seq(|s|, i requires 0 <= i < |s| => LowerChar(s[i]))
  }

  /** No upper-case ASCII letter remains in `s`. */
  predicate IsLowerCase(s: string) {
    forall i :: 0 <= i < |s| ==> !('A' <= s[i] <= 'Z')
  }

  /** The regular-expression word class `\w`, restricted to ASCII. */
  predicate IsWordChar(c: char) {
    ('a' <= c <= 'z') || ('A' <= c <= 'Z') || ('0' <= c <= '9') || c == '_'
  }

  /** Python's `sep.join(xs)`: the items in order with `sep` between them, so
      the result opens with the first item. */
  function Join(sep: string, xs: seq<string>): (r: string)
    ensures |xs| == 0 ==> r == []
    ensures |xs| > 0 ==> |xs[0]| <= |r| && r[..|xs[0]|] == xs[0]
  {
    if |xs| == 0 then ""
    else if |xs| == 1 then xs[0]
    else xs[0] + sep + Join(sep, xs[1..])
  }

  /** Python's `s.split(sep)` for a one-character separator. */
  function Split(s: string, sep: char): (parts: seq<string>)
    ensures |parts| >= 1
  {
    if |s| == 0 then [""]
    else
      var rest := Split(s[1..], sep);
      if s[0] == sep then [""] + rest else [[s[0]] + rest[0]] + rest[1..]
  }

  /** Lower-casing works piecewise on a concatenation. */
  lemma LowerAppend(a: string, b: string)
    ensures Lower(a + b) == Lower(a) + Lower(b)
  {
  }

  /** A string with no upper-case letter is its own lower-case form. */
  lemma LowerOfLowerCase(s: string)
    requires IsLowerCase(s)
    ensures Lower(s) == s
  {
  }

  /** Lower-casing never turns a non-space into a space or back, so trimming and
      lower-casing commute: `s.strip().lower() == s.lower().strip()`. */
  lemma {:induction false} StripLowerCommute(s: string)
    ensures Strip(Lower(s)) == Lower(Strip(s))
  {
    StripIsTrims(s);
    StripIsTrims(Lower(s));
    TrimStartLowerCommute(s);
    TrimEndLowerCommute(TrimStart(s));
  }

  lemma {:induction false} TrimStartLowerCommute(s: string)
    ensures TrimStart(Lower(s)) == Lower(TrimStart(s))
    decreases |s|
  {
    var l := Lower(s);
    if |s| > 0 {
      LowerKeepsSpace(s, 0);
      if IsSpace(s[0]) {
        LowerDrop(s, 1);
        TrimStartLowerCommute(s[1..]);
        calc {
          TrimStart(l);
          TrimStart(l[1..]);
          TrimStart(Lower(s[1..]));
          Lower(TrimStart(s[1..]));
          Lower(TrimStart(s));
        }
      } else {
        assert TrimStart(l) == l;
        assert TrimStart(s) == s;
      }
    }
  }

  lemma {:induction false} TrimEndLowerCommute(s: string)
    ensures TrimEnd(Lower(s)) == Lower(TrimEnd(s))
    decreases |s|
  {
    if |s| > 0 {
      var n := |s| - 1;
      var l := Lower(s);
      LowerKeepsSpace(s, n);
      if IsSpace(s[n]) {
        LowerTake(s, n);
        TrimEndLowerCommute(s[..n]);
        assert IsSpace(l[|l| - 1]);
        calc {
          TrimEnd(l);
          TrimEnd(l[..|l| - 1]);
          TrimEnd(l[..n]);
          TrimEnd(Lower(s[..n]));
          Lower(TrimEnd(s[..n]));
          Lower(TrimEnd(s));
        }
      } else {
        assert TrimEnd(l) == l;
        assert TrimEnd(s) == s;
      }
    }
  }

  /** Lower-casing a character keeps it a space or a non-space. */
  lemma LowerKeepsSpace(s: string, i: int)
    requires 0 <= i < |s|
    ensures IsSpace(Lower(s)[i]) == IsSpace(s[i])
  {
  }

  /** Lower-casing commutes with dropping a prefix. */
  lemma LowerDrop(s: string, i: int)
    requires 0 <= i <= |s|
    ensures Lower(s)[i..] == Lower(s[i..])
  {
  }

  /** Lower-casing commutes with taking a prefix. */
  lemma LowerTake(s: string, j: int)
    requires 0 <= j <= |s|
    ensures Lower(s)[..j] == Lower(s[..j])
  {
  }

  /** Splitting a joined list on a separator that no item contains gives the
      list back: `"\n".join(xs).split("\n") == xs`. */
  lemma {:induction false} SplitJoin(xs: seq<string>, sep: char)
    requires |xs| >= 1
    requires forall k :: 0 <= k < |xs| ==> sep !in xs[k]
    ensures Split(Join([sep], xs), sep) == xs
    decreases |xs|
  {
    if |xs| == 1 {
      SplitFree(xs[0], sep);
    } else {
      SplitJoin(xs[1..], sep);
      SplitAfter(xs[0], Join([sep], xs[1..]), sep);
      assert Join([sep], xs) == xs[0] + ([sep] + Join([sep], xs[1..]));
      assert [xs[0]] + xs[1..] == xs;
    }
  }

  /** A string without the separator splits into itself alone. */
  lemma {:induction false} SplitFree(a: string, sep: char)
    requires sep !in a
    ensures Split(a, sep) == [a]
    decreases |a|
  {
    if |a| > 0 {
      SplitFree(a[1..], sep);
      assert [a[0]] + a[1..] == a;
    }
  }

  /** The first separator-free segment of `a + sep + b` is `a`. */
  lemma {:induction false} SplitAfter(a: string, b: string, sep: char)
    requires sep !in a
    ensures Split(a + ([sep] + b), sep) == [a] + Split(b, sep)
    decreases |a|
  {
    if |a| == 0 {
      assert a + ([sep] + b) == [sep] + b;
      assert ([sep] + b)[1..] == b;
    } else {
      var s := a + ([sep] + b);
      assert s[0] == a[0];
      assert s[1..] == a[1..] + ([sep] + b);
      SplitAfter(a[1..], b, sep);
      assert [a[0]] + a[1..] == a;
    }
  }

  /** Joining the parts of a split with the same separator restores the
      string: `sep.join(s.split(sep)) == s`. */
  lemma {:induction false} JoinSplit(s: string, sep: char)
    ensures Join([sep], Split(s, sep)) == s
    decreases |s|
  {
    if |s| > 0 {
      var rest := Split(s[1..], sep);
      JoinSplit(s[1..], sep);
      if s[0] == sep {
        assert Join([sep], [""] + rest) == "" + [sep] + Join([sep], rest) by {
          assert ([""] + rest)[1..] == rest;
        }
        assert s == [s[0]] + s[1..];
      } else {
        var parts := [[s[0]] + rest[0]] + rest[1..];
        if |rest| == 1 {
          assert Join([sep], parts) == [s[0]] + rest[0];
        } else {
          assert parts[1..] == rest[1..];
          assert Join([sep], rest) == rest[0] + [sep] + Join([sep], rest[1..]);
        }
        assert s == [s[0]] + s[1..];
      }
    }
  }

  /** A character absent from every item and from the separator is absent from the join. */
  lemma {:induction false} JoinAvoids(sep: string, xs: seq<string>, c: char)
    requires c !in sep
    requires forall k :: 0 <= k < |xs| ==> c !in xs[k]
    ensures c !in Join(sep, xs)
    decreases |xs|
  {
    if |xs| > 1 {
      JoinAvoids(sep, xs[1..], c);
    }
  }
}
