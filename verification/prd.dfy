/** `render_prd_markdown`: a PRD record rendered as markdown, eight headed
    sections in a fixed order, each holding the record's text or a bullet
    list, or a marker when there is nothing to show. */
module Prd {
  import opened Optional
  import opened Text
  import opened Pattern
  import opened Layout

  /** One user story record; a key the record lacks is `None`. */
  datatype Story = Story(asA: Option<string>, iWant: Option<string>, soThat: Option<string>)

  /** The `user_stories` list, taken as a whole: records, or plain items. */
  datatype Stories = Records(records: seq<Story>) | Items(items: seq<string>)

  /** The PRD record; a `None` field is a missing key, or for a list a `null` one. */
  datatype PrdRecord = PrdRecord(
    problem: Option<string>,
    users: Option<seq<string>>,
    goals: Option<seq<string>>,
    scope: Option<seq<string>>,
    nonScope: Option<seq<string>>,
    userStories: Option<Stories>,
    risks: Option<seq<string>>,
    openQuestions: Option<seq<string>>)

  /** Shown for a list with no items. */
  const NoneMarker: string := "_(none)_"

  /** Shown for a problem statement that is blank or missing. */
  const EmptyMarker: string := "_(empty)_"

  /** A second-level markdown heading. */
  function Heading(title: string): string {
    "## " + title
  }

  /** The section titles, in document order. */
  const Titles: seq<string> := [
    "Problem",
    "Users / Personas",
    "Goals (measurable)",
    "Scope (What we will build)",
    "Non-Scope (What we will NOT build)",
    "User Stories",
    "Risks",
    "Open Questions"
  ]

  /** The section headings, in document order. */
  const Headings: seq<string> := [
    Heading(Titles[0]), Heading(Titles[1]), Heading(Titles[2]), Heading(Titles[3]),
    Heading(Titles[4]), Heading(Titles[5]), Heading(Titles[6]), Heading(Titles[7])
  ]

  /** One bullet line. */
  function Bullet(x: string): string {
    "- " + x
  }

  /** The bullet line of each item. */
  function Bullets(items: seq<string>): (bs: seq<string>)
    ensures |bs| == |items|
    ensures forall k :: 0 <= k < |items| ==> bs[k] == Bullet(items[k])
  {
    seq(|items|, k requires 0 <= k < |items| => Bullet(items[k]))
  }

  /** Lines that each start with `-` join into a string that starts with `-`. */
  lemma JoinedLinesStart(lines: seq<string>)
    requires |lines| > 0
    requires forall k :: 0 <= k < |lines| ==> |lines[k]| > 0 && lines[k][0] == '-'
    ensures |Join("\n", lines)| > 0 && Join("\n", lines)[0] == '-'
  {
    if |lines| > 1 {
      assert Join("\n", lines) == lines[0] + "\n" + Join("\n", lines[1..]);
    }
  }

  /** `bullet_list`: the marker for no items, otherwise one bullet line per
      item. The marker is shown exactly when there are no items; the result
      always starts with a visible character; it holds a `#` only when an
      item does. */
  function BulletList(items: seq<string>): (r: string)
    ensures r == NoneMarker <==> |items| == 0
    ensures |r| > 0 && !IsSpace(r[0])
    ensures (forall k :: 0 <= k < |items| ==> '#' !in items[k]) ==> '#' !in r
  {
    if |items| == 0 then NoneMarker
    else
      JoinedLinesStart(Bullets(items));
      BulletsAvoid(items, '#');
      Join("\n", Bullets(items))
  }

  /** The bullet lines hold a character only when an item does. */
  lemma BulletsAvoid(items: seq<string>, c: char)
    requires c != '-' && c != ' ' && c != '\n'
    ensures (forall k :: 0 <= k < |items| ==> c !in items[k]) ==> c !in Join("\n", Bullets(items))
  {
    if forall k :: 0 <= k < |items| ==> c !in items[k] {
      JoinAvoids("\n", Bullets(items), c);
    }
  }

  /** The partner of `BulletList`: when no item holds a newline, splitting
      the list at newlines gives back one bullet line per item, in order. */
  lemma BulletListLines(items: seq<string>)
    requires |items| > 0
    requires forall k :: 0 <= k < |items| ==> '\n' !in items[k]
    ensures |Split(BulletList(items), '\n')| == |items|
    ensures forall k :: 0 <= k < |items| ==> Split(BulletList(items), '\n')[k] == "- " + items[k]
  {
    var bs := Bullets(items);
    forall k | 0 <= k < |bs|
      ensures '\n' !in bs[k]
    {
      assert bs[k] == "- " + items[k];
    }
    SplitJoin(bs, '\n');
  }

  /** One user story line; a missing key shows as empty text. The three texts
      follow the labels `**As a**`, `**I want**` and `**so that**`, and the
      line breaks or holds `#` exactly when one of the texts does. */
  function StoryLine(s: Story): (r: string)
    ensures |r| == 36 + |s.asA.GetOr("")| + |s.iWant.GetOr("")| + |s.soThat.GetOr("")|
    ensures r[..11] == "- **As a** "
    ensures r[11..11 + |s.asA.GetOr("")|] == s.asA.GetOr("")
    ensures var a, w := |s.asA.GetOr("")|, |s.iWant.GetOr("")|;
      && r[11 + a..23 + a] == " **I want** "
      && r[23 + a..23 + a + w] == s.iWant.GetOr("")
      && r[23 + a + w..36 + a + w] == " **so that** "
    ensures r[|r| - |s.soThat.GetOr("")|..] == s.soThat.GetOr("")
    ensures '\n' in r <==> !StoryAvoids(s, '\n')
    ensures '#' in r <==> !StoryAvoids(s, '#')
  {
    "- **As a** " + s.asA.GetOr("") + " **I want** " + s.iWant.GetOr("") + " **so that** " + s.soThat.GetOr("")
  }

  /** The story line of each record. */
  function StoryLines(rs: seq<Story>): (ls: seq<string>)
    ensures |ls| == |rs|
    ensures forall k :: 0 <= k < |rs| ==> ls[k] == StoryLine(rs[k])
  {
    seq(|rs|, k requires 0 <= k < |rs| => StoryLine(rs[k]))
  }

  /** How many stories there are; a missing list has none. */
  function StoryCount(stories: Option<Stories>): nat {
    match stories.GetOr(Items([]))
    case Records(rs) => |rs|
    case Items(xs) => |xs|
  }

  /** Every text a story record shows avoids `c`. */
  predicate StoryAvoids(s: Story, c: char) {
    c !in s.asA.GetOr("") && c !in s.iWant.GetOr("") && c !in s.soThat.GetOr("")
  }

  /** Every text a story list shows avoids `c`. */
  predicate StoriesAvoid(stories: Option<Stories>, c: char) {
    match stories.GetOr(Items([]))
    case Records(rs) => forall k :: 0 <= k < |rs| ==> StoryAvoids(rs[k], c)
    case Items(xs) => forall k :: 0 <= k < |xs| ==> c !in xs[k]
  }

  /** A story line holds `#` only when one of its texts does. */
  lemma StoryLineAvoidsHash(s: Story)
    requires StoryAvoids(s, '#')
    ensures '#' !in StoryLine(s)
  {
  }

  /** The User Stories section. A non-empty list of records gives one story
      line per record, and the `"_(none)_"` fallback after joining them is
      never taken, since each line is non-empty; any other list is a bullet
      list. The marker is shown exactly when there are no stories. */
  function StoriesMarkdown(stories: Option<Stories>): (r: string)
    ensures r == NoneMarker <==> StoryCount(stories) == 0
    ensures stories.Some? && stories.value.Records? && |stories.value.records| > 0 ==>
      r == Join("\n", StoryLines(stories.value.records))
    ensures stories.Some? && stories.value.Items? ==> r == BulletList(stories.value.items)
    ensures |r| > 0 && !IsSpace(r[0])
    ensures StoriesAvoid(stories, '#') ==> '#' !in r
  {
    match stories.GetOr(Items([]))
    case Records(rs) =>
      if |rs| > 0 then
        var ls := StoryLines(rs);
        JoinedLinesStart(ls);
        StoryLinesAvoidHash(rs);
        var joined := Join("\n", ls);
        if joined == [] then NoneMarker else joined
      else
        BulletList([])
    case Items(xs) => BulletList(xs)
  }

  /** The story lines hold `#` only when a record's text does. */
  lemma StoryLinesAvoidHash(rs: seq<Story>)
    ensures (forall k :: 0 <= k < |rs| ==> StoryAvoids(rs[k], '#')) ==> '#' !in Join("\n", StoryLines(rs))
  {
    if forall k :: 0 <= k < |rs| ==> StoryAvoids(rs[k], '#') {
      forall k | 0 <= k < |rs|
        ensures '#' !in StoryLines(rs)[k]
      {
        StoryLineAvoidsHash(rs[k]);
      }
      JoinAvoids("\n", StoryLines(rs), '#');
    }
  }

  /** The partner of `StoriesMarkdown` for records: when no text holds a
      newline, splitting the section at newlines gives back one story line
      per record, in order. */
  lemma StoryRecordLines(rs: seq<Story>)
    requires |rs| > 0
    requires forall k :: 0 <= k < |rs| ==> StoryAvoids(rs[k], '\n')
    ensures Split(StoriesMarkdown(Some(Records(rs))), '\n') == StoryLines(rs)
  {
    var ls := StoryLines(rs);
    forall k | 0 <= k < |ls|
      ensures '\n' !in ls[k]
    {
      assert ls[k] == StoryLine(rs[k]);
    }
    SplitJoin(ls, '\n');
  }

  /** Stripping adds no character. */
  lemma StripAvoids(s: string, c: char)
    ensures c !in s ==> c !in Strip(s)
  {
    var r := Strip(s);
    var a :| Padded(s, r, a);
    forall i | 0 <= i < |r|
      ensures r[i] == s[a + i]
    {
      assert r[i] == s[a..a + |r|][i];
    }
  }

  /** The Problem section: the statement without surrounding whitespace, or
      the empty marker when the statement is blank or missing. */
  function ProblemText(problem: Option<string>): (r: string)
    ensures IsBlank(problem.GetOr("")) ==> r == EmptyMarker
    ensures !IsBlank(problem.GetOr("")) ==> r == Strip(problem.GetOr(""))
    ensures |r| > 0 && !IsSpace(r[0]) && !IsSpace(r[|r| - 1])
    ensures '#' !in problem.GetOr("") ==> '#' !in r
  {
    var p := problem.GetOr("");
    var t := Strip(p);
    StripAvoids(p, '#');
    MarkerFacts();
    if t == [] then EmptyMarker else t
  }

  lemma MarkerFacts()
    ensures |EmptyMarker| > 0 && !IsSpace(EmptyMarker[0]) && !IsSpace(EmptyMarker[|EmptyMarker| - 1]) && '#' !in EmptyMarker
  {
    assert |EmptyMarker| == 9 && EmptyMarker[0] == '_' && EmptyMarker[8] == '_';
  }

  /** The contents of the eight sections, in heading order; a missing list
      is an empty one. */
  function Sections(prd: PrdRecord): (cs: seq<string>)
    ensures |cs| == |Headings|
    ensures IsBlank(prd.problem.GetOr("")) ==> cs[0] == EmptyMarker
    ensures !IsBlank(prd.problem.GetOr("")) ==> cs[0] == Strip(prd.problem.GetOr(""))
    ensures cs[1] == NoneMarker <==> |prd.users.GetOr([])| == 0
    ensures cs[2] == NoneMarker <==> |prd.goals.GetOr([])| == 0
    ensures cs[3] == NoneMarker <==> |prd.scope.GetOr([])| == 0
    ensures cs[4] == NoneMarker <==> |prd.nonScope.GetOr([])| == 0
    ensures cs[5] == NoneMarker <==> StoryCount(prd.userStories) == 0
    ensures cs[6] == NoneMarker <==> |prd.risks.GetOr([])| == 0
    ensures cs[7] == NoneMarker <==> |prd.openQuestions.GetOr([])| == 0
    ensures cs[1] == ListSection(prd.users) && cs[2] == ListSection(prd.goals)
    ensures cs[3] == ListSection(prd.scope) && cs[4] == ListSection(prd.nonScope)
    ensures cs[5] == StoriesMarkdown(prd.userStories)
    ensures cs[6] == ListSection(prd.risks) && cs[7] == ListSection(prd.openQuestions)
  {
    [ ProblemText(prd.problem),
      ListSection(prd.users),
      ListSection(prd.goals),
      ListSection(prd.scope),
      ListSection(prd.nonScope),
      StoriesMarkdown(prd.userStories),
      ListSection(prd.risks),
      ListSection(prd.openQuestions) ]
  }

  /** A list section: the bullet list of the field, where a missing field
      reads as an empty list. Split at newlines, it gives one `- item` line
      per item, in order. */
  function ListSection(xs: Option<seq<string>>): (r: string)
    ensures r == NoneMarker <==> |xs.GetOr([])| == 0
    ensures ItemsAvoid(xs, '#') ==> '#' !in r
    ensures |xs.GetOr([])| > 0 && ItemsAvoid(xs, '\n') ==>
      && |Split(r, '\n')| == |xs.GetOr([])|
      && forall k :: 0 <= k < |xs.GetOr([])| ==> Split(r, '\n')[k] == "- " + xs.GetOr([])[k]
  {
    var items := xs.GetOr([]);
    if |items| > 0 && ItemsAvoid(xs, '\n') then BulletListLines(items); BulletList(items)
    else BulletList(items)
  }

  /** With `#` outside every text of the record, no computed section holds it. */
  lemma SectionsAvoid(prd: PrdRecord)
    requires PrdAvoids(prd, '#')
    ensures ContentsHashFree(Sections(prd))
  {
    var cs := Sections(prd);
    assert '#' !in cs[0] && '#' !in cs[1] && '#' !in cs[2] && '#' !in cs[3];
    assert '#' !in cs[4] && '#' !in cs[5] && '#' !in cs[6] && '#' !in cs[7];
    assert |cs| == 8;
    forall k | 0 <= k < |cs|
      ensures '#' !in cs[k]
    {
      assert k in {0, 1, 2, 3, 4, 5, 6, 7};
    }
  }

  /** The sections as they stand in the output: only the last one loses its
      trailing whitespace. */
  function ShownSections(prd: PrdRecord): (cs: seq<string>)
    ensures |cs| == |Headings|
    ensures cs[..7] == Sections(prd)[..7] && cs[7] == TrimEnd(Sections(prd)[7])
  {
    var cs := Sections(prd);
    cs[|cs| - 1 := TrimEnd(cs[|cs| - 1])]
  }

  /** `render_prd_markdown`: the sections under their headings, separated by
      blank lines, framed by newlines and then stripped. The result is the
      document of headings and shown sections exactly, so the stripping
      only trims the end of the last section; it starts with the Problem
      heading and has no whitespace at either end. */
  function RenderPrdMarkdown(prd: PrdRecord): (r: string)
    ensures r == Doc(Headings, ShownSections(prd))
    ensures LitAt(r, Headings[0], 0)
    ensures |r| > 0 && !IsSpace(r[0]) && !IsSpace(r[|r| - 1])
  {
    RenderedLayout(prd);
    Strip("\n" + Doc(Headings, Sections(prd)) + "\n")
  }

  /** The stripping step of `RenderPrdMarkdown`. */
  lemma RenderedLayout(prd: PrdRecord)
    ensures Strip("\n" + Doc(Headings, Sections(prd)) + "\n") == Doc(Headings, ShownSections(prd))
    ensures LitAt(Doc(Headings, ShownSections(prd)), Headings[0], 0)
  {
    var cs := Sections(prd);
    assert !IsSpace(cs[|cs| - 1][0]);
    TitleFacts();
    HeadingIsLine(Titles[0]);
    StripFramedDoc(Headings, cs);
    SectionAt(Headings, ShownSections(prd), 0);
    BlockParts(Doc(Headings, ShownSections(prd)), Headings[0], ShownSections(prd)[0], 0);
  }

  /** Every text the record shows avoids `c`. */
  predicate PrdAvoids(prd: PrdRecord, c: char) {
    && c !in prd.problem.GetOr("")
    && ItemsAvoid(prd.users, c) && ItemsAvoid(prd.goals, c) && ItemsAvoid(prd.scope, c)
    && ItemsAvoid(prd.nonScope, c) && StoriesAvoid(prd.userStories, c)
    && ItemsAvoid(prd.risks, c) && ItemsAvoid(prd.openQuestions, c)
  }

  /** Every item of a list avoids `c`; a missing list has no items. */
  predicate ItemsAvoid(xs: Option<seq<string>>, c: char) {
    forall k :: 0 <= k < |xs.GetOr([])| ==> c !in xs.GetOr([])[k]
  }

  /** The first four titles hold no `#`. */
  lemma FirstTitlesHashFree()
    ensures '#' !in Titles[0] && '#' !in Titles[1] && '#' !in Titles[2] && '#' !in Titles[3]
  {
    assert '#' !in Titles[0] && '#' !in Titles[1];
    assert '#' !in Titles[2] && '#' !in Titles[3];
  }

  /** The last four titles hold no `#`. */
  lemma LastTitlesHashFree()
    ensures '#' !in Titles[4] && '#' !in Titles[5] && '#' !in Titles[6] && '#' !in Titles[7]
  {
    assert '#' !in Titles[4] && '#' !in Titles[5];
    assert '#' !in Titles[6] && '#' !in Titles[7];
  }

  /** No title holds `#`; each is long enough to tell apart from the rest. */
  lemma TitleFacts()
    ensures |Titles| == |Headings|
    ensures forall k :: 0 <= k < |Titles| ==> '#' !in Titles[k] && |Titles[k]| > 4
    ensures forall k :: 0 <= k < |Titles| ==> Headings[k] == Heading(Titles[k])
  {
    FirstTitlesHashFree();
    LastTitlesHashFree();
    assert |Titles| == 8 && |Headings| == 8;
    forall k | 0 <= k < |Titles|
      ensures '#' !in Titles[k] && |Titles[k]| > 4 && Headings[k] == Heading(Titles[k])
    {
      assert k in {0, 1, 2, 3, 4, 5, 6, 7};
    }
  }

  /** A heading line is `## ` followed by its title. */
  lemma HeadingIsLine(t: string)
    requires '#' !in t
    ensures IsHeadingLine(Heading(t))
    ensures |Heading(t)| == |t| + 3
    ensures forall i :: 0 <= i < |t| ==> Heading(t)[i + 3] == t[i]
  {
    assert Heading(t)[2..] == " " + t;
  }

  /** Each heading is a `## ` line with no other `#`. */
  lemma HeadingLines()
    ensures forall k :: 0 <= k < |Headings| ==> IsHeadingLine(Headings[k])
  {
    TitleFacts();
    forall k | 0 <= k < |Headings|
      ensures IsHeadingLine(Headings[k])
    {
      HeadingIsLine(Titles[k]);
    }
  }

  /** The titles differ pairwise in their first letter, or in their fifth
      for the two that start with `User`. */
  lemma TitlesDiffer(j: nat, k: nat)
    requires j < |Titles| && k < |Titles| && j != k
    ensures Titles[j][0] != Titles[k][0] || Titles[j][4] != Titles[k][4]
  {
    var initials := "PUGSNURO";
    assert Titles[0][0] == initials[0] && Titles[1][0] == initials[1];
    assert Titles[2][0] == initials[2] && Titles[3][0] == initials[3];
    assert Titles[4][0] == initials[4] && Titles[5][0] == initials[5];
    assert Titles[6][0] == initials[6] && Titles[7][0] == initials[7];
    assert Titles[1][4] != Titles[5][4];
  }

  /** Different headings differ at index 3 or index 7. */
  lemma HeadingsDistinguishable()
    ensures Distinguishable(Headings)
  {
    forall j, k | 0 <= j < |Headings| && 0 <= k < |Headings| && j != k
      ensures Differ(Headings[j], Headings[k])
    {
      var d := HeadingsDiffer(j, k);
    }
  }

  /** Where two different headings differ. */
  lemma HeadingsDiffer(j: nat, k: nat) returns (d: nat)
    requires j < |Headings| && k < |Headings| && j != k
    ensures d < |Headings[j]| && d < |Headings[k]| && Headings[j][d] != Headings[k][d]
  {
    TitleFacts();
    var hj, hk := Headings[j], Headings[k];
    var tj, tk := Titles[j], Titles[k];
    assert hj == Heading(tj) && hk == Heading(tk);
    HeadingIsLine(tj);
    HeadingIsLine(tk);
    TitlesDiffer(j, k);
    if tj[0] != tk[0] {
      assert hj[3] == tj[0] && hk[3] == tk[0];
      d := 3;
    } else {
      assert hj[7] == tj[4] && hk[7] == tk[4];
      d := 7;
    }
  }

  /** With `c` outside every text of the record, no section holds `c`. */
  lemma ShownSectionsAvoid(prd: PrdRecord)
    requires PrdAvoids(prd, '#')
    ensures ContentsHashFree(ShownSections(prd))
  {
    var cs := Sections(prd);
    SectionsAvoid(prd);
    TrimLastHashFree(cs);
  }

  /** The headings appear in order: heading `k` starts at the `k`-th offset
      and is followed by a newline and its section, which is the section as
      computed for all but the last; heading `k` starts after heading `k - 1`
      and its section end. */
  lemma RenderedSectionAt(prd: PrdRecord, k: nat)
    requires k < |Headings|
    ensures LitAt(RenderPrdMarkdown(prd), Headings[k], Offset(Headings, ShownSections(prd), k))
    ensures LitAt(RenderPrdMarkdown(prd), ShownSections(prd)[k],
                  Offset(Headings, ShownSections(prd), k) + |Headings[k]| + 1)
    ensures k < |Headings| - 1 ==> ShownSections(prd)[k] == Sections(prd)[k]
    ensures k > 0 ==> Offset(Headings, ShownSections(prd), k - 1) + |Headings[k - 1]| + |ShownSections(prd)[k - 1]|
                      < Offset(Headings, ShownSections(prd), k)
  {
    SectionParts(Headings, ShownSections(prd), k);
  }

  /** When no text of the record holds `#`, each heading occurs in the
      output exactly once, at its own offset. */
  lemma RenderedHeadingOnce(prd: PrdRecord, k: nat, i: int)
    requires k < |Headings|
    requires PrdAvoids(prd, '#')
    ensures LitAt(RenderPrdMarkdown(prd), Headings[k], i) <==> i == Offset(Headings, ShownSections(prd), k)
  {
    HeadingLines();
    HeadingsDistinguishable();
    ShownSectionsAvoid(prd);
    HeadingOccursOnce(Headings, ShownSections(prd), k, i);
  }
}
