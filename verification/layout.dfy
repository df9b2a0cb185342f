/** The shape of the rendered PRD: headed sections, each heading on its own
    line followed by its content, sections separated by a blank line. The
    lemmas here say where each heading lands and when it is the only
    occurrence of its text. */
module Layout {
  import opened Text
  import opened Pattern

  /** One section: its heading line, a newline, its content. */
  function Block(heading: string, content: string): string {
    heading + "\n" + content
  }

  /** The sections of a document, in order. */
  function Blocks(hs: seq<string>, cs: seq<string>): (bs: seq<string>)
    requires |hs| == |cs|
    ensures |bs| == |hs|
    ensures forall k :: 0 <= k < |hs| ==> bs[k] == Block(hs[k], cs[k])
  {
    seq(|hs|, k requires 0 <= k < |hs| => Block(hs[k], cs[k]))
  }

  /** The sections joined by blank lines. */
  function Doc(hs: seq<string>, cs: seq<string>): string
    requires |hs| == |cs|
    decreases |hs|
  {
    if |hs| == 0 then ""
    else if |hs| == 1 then Block(hs[0], cs[0])
    else Block(hs[0], cs[0]) + "\n\n" + Doc(hs[1..], cs[1..])
  }

  /** The document is Python's `"\n\n".join` of its sections. */
  lemma {:induction false} DocIsJoin(hs: seq<string>, cs: seq<string>)
    requires |hs| == |cs|
    ensures Doc(hs, cs) == Join("\n\n", Blocks(hs, cs))
    decreases |hs|
  {
    if |hs| >= 2 {
      assert Blocks(hs, cs)[1..] == Blocks(hs[1..], cs[1..]);
      DocIsJoin(hs[1..], cs[1..]);
    }
  }

  /** Where the `k`-th heading starts: the lengths of the earlier sections
      and their separators. */
  function Offset(hs: seq<string>, cs: seq<string>, k: nat): nat
    requires |hs| == |cs| && k <= |hs|
  {
    if k == 0 then 0 else Offset(hs, cs, k - 1) + |hs[k - 1]| + 1 + |cs[k - 1]| + 2
  }

  /** A document of two or more sections is its first section, a blank line,
      and the document of the rest. */
  lemma DocUnfold(hs: seq<string>, cs: seq<string>)
    requires |hs| == |cs| && |hs| >= 2
    ensures Doc(hs, cs) == Block(hs[0], cs[0]) + "\n\n" + Doc(hs[1..], cs[1..])
  {
  }

  /** The offsets of the rest of a document are those of the whole, less the
      first section and its separator. */
  lemma {:induction false} OffsetUnfold(hs: seq<string>, cs: seq<string>, k: nat)
    requires |hs| == |cs| && 1 <= k <= |hs|
    ensures Offset(hs, cs, k) == |hs[0]| + 1 + |cs[0]| + 2 + Offset(hs[1..], cs[1..], k - 1)
  {
    if k > 1 {
      OffsetUnfold(hs, cs, k - 1);
    }
  }

  /** A section found in a string: its heading there, then a newline, then
      its content. */
  lemma BlockParts(d: string, h: string, c: string, n: int)
    requires LitAt(d, Block(h, c), n)
    ensures LitAt(d, h, n)
    ensures d[n + |h|] == '\n'
    ensures LitAt(d, c, n + |h| + 1)
  {
    var b := Block(h, c);
    assert d[n..n + |h|] == b[..|h|] == h;
    assert d[n + |h|] == b[|h|];
    assert d[n + |h| + 1..n + |b|] == b[|h| + 1..] == c;
  }

  /** A document starts with its first section. */
  lemma DocStartsWithBlock(hs: seq<string>, cs: seq<string>)
    requires |hs| == |cs| >= 1
    ensures LitAt(Doc(hs, cs), Block(hs[0], cs[0]), 0)
  {
    var b := Block(hs[0], cs[0]);
    if |hs| >= 2 {
      DocUnfold(hs, cs);
      assert Doc(hs, cs)[..|b|] == b;
    } else {
      assert Doc(hs, cs)[..|b|] == b;
    }
  }

  /** Section `k` sits at `Offset(k)`. */
  lemma {:induction false} SectionAt(hs: seq<string>, cs: seq<string>, k: nat)
    requires |hs| == |cs| && k < |hs|
    ensures LitAt(Doc(hs, cs), Block(hs[k], cs[k]), Offset(hs, cs, k))
    decreases |hs|
  {
    if k == 0 {
      DocStartsWithBlock(hs, cs);
    } else {
      SectionAt(hs[1..], cs[1..], k - 1);
      assert hs[1..][k - 1] == hs[k] && cs[1..][k - 1] == cs[k];
      SectionAtStep(hs, cs, k);
    }
  }

  /** The inductive step of `SectionAt`: a section found in the rest of the
      document is found in the whole. */
  lemma SectionAtStep(hs: seq<string>, cs: seq<string>, k: nat)
    requires |hs| == |cs| && 1 <= k < |hs|
    requires LitAt(Doc(hs[1..], cs[1..]), Block(hs[k], cs[k]), Offset(hs[1..], cs[1..], k - 1))
    ensures LitAt(Doc(hs, cs), Block(hs[k], cs[k]), Offset(hs, cs, k))
  {
    var prefix := Block(hs[0], cs[0]) + "\n\n";
    OffsetUnfold(hs, cs, k);
    DocUnfold(hs, cs);
    ShiftLit(prefix, Doc(hs[1..], cs[1..]), Block(hs[k], cs[k]), Offset(hs[1..], cs[1..], k - 1));
  }

  /** Heading `k` and then, after a newline, its content sit at the `k`-th
      offset, which lies beyond the previous heading and its content. */
  lemma SectionParts(hs: seq<string>, cs: seq<string>, k: nat)
    requires |hs| == |cs| && k < |hs|
    ensures LitAt(Doc(hs, cs), hs[k], Offset(hs, cs, k))
    ensures LitAt(Doc(hs, cs), cs[k], Offset(hs, cs, k) + |hs[k]| + 1)
    ensures k > 0 ==> Offset(hs, cs, k - 1) + |hs[k - 1]| + |cs[k - 1]| < Offset(hs, cs, k)
  {
    SectionAt(hs, cs, k);
    BlockParts(Doc(hs, cs), hs[k], cs[k], Offset(hs, cs, k));
    if k > 0 {
      OffsetGrows(hs, cs, k);
    }
  }

  /** An occurrence in `b` is an occurrence in `a + b`, shifted by `|a|`. */
  lemma ShiftLit(a: string, b: string, w: string, i: int)
    requires LitAt(b, w, i)
    ensures LitAt(a + b, w, |a| + i)
  {
    assert (a + b)[|a| + i..|a| + i + |w|] == b[i..i + |w|];
  }

  /** The `e`-th character of an occurrence. */
  lemma CharOfLit(s: string, w: string, i: int, e: int)
    requires LitAt(s, w, i) && 0 <= e < |w|
    ensures s[i + e] == w[e]
  {
    assert s[i..i + |w|][e] == s[i + e];
  }

  /** Each heading starts beyond the content of the one before. */
  lemma OffsetGrows(hs: seq<string>, cs: seq<string>, k: nat)
    requires |hs| == |cs| && 0 < k <= |hs|
    ensures Offset(hs, cs, k) >= Offset(hs, cs, k - 1) + |hs[k - 1]| + 1 + |cs[k - 1]|
  {
  }

  /** A one-section document is that section. */
  lemma DocSingle(hs: seq<string>, cs: seq<string>)
    requires |hs| == |cs| == 1
    ensures Doc(hs, cs) == Block(hs[0], cs[0])
  {
  }

  /** A document of at least one section is non-empty. */
  lemma DocNonEmpty(hs: seq<string>, cs: seq<string>)
    requires |hs| == |cs| >= 1
    ensures |Doc(hs, cs)| > 0
  {
    SectionAt(hs, cs, 0);
  }

  /** Trimming the end of a document trims only its last content, when that
      content is not blank. */
  lemma {:induction false} TrimLastSection(hs: seq<string>, cs: seq<string>)
    requires |hs| == |cs| >= 1
    requires !IsBlank(cs[|cs| - 1])
    ensures TrimEnd(Doc(hs, cs)) == Doc(hs, cs[|cs| - 1 := TrimEnd(cs[|cs| - 1])])
    decreases |hs|
  {
    var n := |cs|;
    var cs' := cs[n - 1 := TrimEnd(cs[n - 1])];
    if n == 1 {
      DocSingle(hs, cs);
      DocSingle(hs, cs');
      TrimEndAppend(hs[0] + "\n", cs[0]);
    } else {
      TrimLastStep(hs, cs, cs');
    }
  }

  /** The inductive step of `TrimLastSection`. */
  lemma {:induction false} TrimLastStep(hs: seq<string>, cs: seq<string>, cs': seq<string>)
    requires |hs| == |cs| >= 2
    requires !IsBlank(cs[|cs| - 1])
    requires cs' == cs[|cs| - 1 := TrimEnd(cs[|cs| - 1])]
    ensures TrimEnd(Doc(hs, cs)) == Doc(hs, cs')
    decreases |hs|, 0
  {
    var n := |cs|;
    DocUnfold(hs, cs);
    DocUnfold(hs, cs');
    var tail := cs[1..];
    assert tail[|tail| - 1] == cs[n - 1];
    assert cs'[1..] == tail[|tail| - 1 := TrimEnd(tail[|tail| - 1])];
    TrimLastSection(hs[1..], tail);
    var rest := Doc(hs[1..], tail);
    DocNonEmpty(hs[1..], cs'[1..]);
    TrimEndEmpty(rest);
    TrimEndAppend(Block(hs[0], cs[0]) + "\n\n", rest);
  }

  /** Python's `strip()` of the document framed by newlines: the leading
      newline goes, and at the end only the last content is trimmed. */
  lemma StripFramedDoc(hs: seq<string>, cs: seq<string>)
    requires |hs| == |cs| >= 1
    requires |hs[0]| > 0 && !IsSpace(hs[0][0])
    requires !IsBlank(cs[|cs| - 1])
    ensures Strip("\n" + Doc(hs, cs) + "\n") == Doc(hs, cs[|cs| - 1 := TrimEnd(cs[|cs| - 1])])
  {
    var d := Doc(hs, cs);
    var s := "\n" + d + "\n";
    SectionAt(hs, cs, 0);
    BlockParts(d, hs[0], cs[0], 0);
    CharOfLit(d, hs[0], 0, 0);
    assert s[1..] == d + "\n";
    assert s[..1] == "\n" && s[1] == d[0];
    TrimStartAt(s, 1);
    StripIsTrims(s);
    assert (d + "\n")[..|d|] == d;
    assert TrimEnd(d + "\n") == TrimEnd(d);
    TrimLastSection(hs, cs);
  }

  /** Headings open with `## ` and hold no further `#`. */
  predicate IsHeadingLine(h: string) {
    |h| >= 3 && h[0] == '#' && h[1] == '#' && h[2] == ' ' && '#' !in h[2..]
  }

  /** The two strings differ at some index within both. */
  predicate Differ(a: string, b: string) {
    exists d :: 0 <= d < |a| && d < |b| && a[d] != b[d]
  }

  /** Two different headings differ at some index within both. */
  predicate Distinguishable(hs: seq<string>) {
    forall j, k :: 0 <= j < |hs| && 0 <= k < |hs| && j != k ==> Differ(hs[j], hs[k])
  }

  /** No content holds a `#`. */
  predicate ContentsHashFree(cs: seq<string>) {
    forall k :: 0 <= k < |cs| ==> '#' !in cs[k]
  }

  /** Trimming the end of the last content keeps the contents free of `#`. */
  lemma TrimLastHashFree(cs: seq<string>)
    requires |cs| >= 1 && ContentsHashFree(cs)
    ensures ContentsHashFree(cs[|cs| - 1 := TrimEnd(cs[|cs| - 1])])
  {
    var last := cs[|cs| - 1];
    assert '#' !in last;
    forall i | 0 <= i < |TrimEnd(last)|
      ensures TrimEnd(last)[i] != '#'
    {
      assert TrimEnd(last)[i] == last[i];
    }
  }

  /** When the contents hold no `#`, every `#` of the document is one of the
      two that open a heading. */
  lemma {:induction false} HashesOpenHeadings(hs: seq<string>, cs: seq<string>, i: int)
    requires |hs| == |cs|
    requires forall k :: 0 <= k < |hs| ==> IsHeadingLine(hs[k])
    requires ContentsHashFree(cs)
    requires 0 <= i < |Doc(hs, cs)|
    ensures Doc(hs, cs)[i] == '#' ==>
      exists k :: 0 <= k < |hs| && (i == Offset(hs, cs, k) || i == Offset(hs, cs, k) + 1)
    decreases |hs|
  {
    var d := Doc(hs, cs);
    var h, c := hs[0], cs[0];
    var b := Block(h, c);
    assert IsHeadingLine(h) && '#' !in c;
    if |hs| == 1 {
      assert d == b;
    } else {
      DocUnfold(hs, cs);
    }
    if i < |h| {
      assert d[i] == h[i];
      if i >= 2 {
        assert h[i] == h[2..][i - 2];
      }
      assert Offset(hs, cs, 0) == 0;
    } else if i < |b| {
      assert d[i] == b[i];
      if i > |h| {
        assert d[i] == c[i - |h| - 1];
      }
    } else if i < |b| + 2 {
      assert d[i] == '\n';
    } else {
      var rest := Doc(hs[1..], cs[1..]);
      var j := i - |b| - 2;
      assert d[i] == rest[j];
      assert forall k :: 0 <= k < |cs[1..]| ==> cs[1..][k] == cs[k + 1];
      HashesOpenHeadings(hs[1..], cs[1..], j);
      if rest[j] == '#' {
        var k :| 0 <= k < |hs[1..]| && (j == Offset(hs[1..], cs[1..], k) || j == Offset(hs[1..], cs[1..], k) + 1);
        OffsetUnfold(hs, cs, k + 1);
        assert i == Offset(hs, cs, k + 1) || i == Offset(hs, cs, k + 1) + 1;
      }
    }
  }

  /** A heading found in the document starts at some section's offset. */
  lemma AtSomeOffset(hs: seq<string>, cs: seq<string>, w: string, i: int) returns (k: nat)
    requires |hs| == |cs|
    requires forall k :: 0 <= k < |hs| ==> IsHeadingLine(hs[k])
    requires ContentsHashFree(cs)
    requires IsHeadingLine(w) && LitAt(Doc(hs, cs), w, i)
    ensures k < |hs| && i == Offset(hs, cs, k)
  {
    var d := Doc(hs, cs);
    CharOfLit(d, w, i, 0);
    CharOfLit(d, w, i, 1);
    HashesOpenHeadings(hs, cs, i);
    k :| 0 <= k < |hs| && (i == Offset(hs, cs, k) || i == Offset(hs, cs, k) + 1);
    var o := Offset(hs, cs, k);
    SectionAt(hs, cs, k);
    BlockParts(d, hs[k], cs[k], o);
    assert IsHeadingLine(hs[k]);
    CharOfLit(d, hs[k], o, 2);
  }

  /** Only heading `m` itself occurs at heading `k`'s offset, when headings
      are distinguishable. */
  lemma SameHeading(hs: seq<string>, cs: seq<string>, k: nat, m: nat)
    requires |hs| == |cs| && k < |hs| && m < |hs|
    requires Distinguishable(hs)
    requires LitAt(Doc(hs, cs), hs[m], Offset(hs, cs, k))
    ensures k == m
  {
    var d := Doc(hs, cs);
    var o := Offset(hs, cs, k);
    SectionAt(hs, cs, k);
    BlockParts(d, hs[k], cs[k], o);
    forall e | 0 <= e < |hs[k]| && e < |hs[m]|
      ensures hs[k][e] == hs[m][e]
    {
      CharOfLit(d, hs[k], o, e);
      CharOfLit(d, hs[m], o, e);
    }
  }

  /** With hash-free contents and distinguishable headings, heading `m`
      occurs in the document only at its own offset. */
  lemma HeadingOccursOnce(hs: seq<string>, cs: seq<string>, m: int, i: int)
    requires |hs| == |cs| && 0 <= m < |hs|
    requires forall k :: 0 <= k < |hs| ==> IsHeadingLine(hs[k])
    requires Distinguishable(hs)
    requires ContentsHashFree(cs)
    ensures LitAt(Doc(hs, cs), hs[m], i) <==> i == Offset(hs, cs, m)
  {
    SectionAt(hs, cs, m);
    BlockParts(Doc(hs, cs), hs[m], cs[m], Offset(hs, cs, m));
    if LitAt(Doc(hs, cs), hs[m], i) {
      var k := AtSomeOffset(hs, cs, hs[m], i);
      SameHeading(hs, cs, k, m);
    }
  }
}
