/** `buildDigest`: the Markdown digest of a document. The frontmatter block
    comes first, then a "Jump to" table of contents linking every section
    that has entries, then those sections with their entries in digest
    order; `normalizeMarkdown` tidies the whitespace of the whole. */
module Digest {
  import opened Strings
  import opened Model
  import Runs
  import Utils
  import Generators
  import FrontmatterYaml
  import Markdown

  // ---------------------------------------------------------------------------
  // Entries

  /** The entry generators `buildDigest` chooses between. */
  datatype Renderer =
    | PublicationRenderer | JournalRenderer | EventRenderer | CallRenderer
    | MediaRenderer | ContentRenderer

  /** The `if` chain of `buildDigest`, on the `type` string of an entry; any
      other type falls through to the entry's `content`. */
  function RendererFor(typeName: string): Renderer {
    if typeName == "publication" then PublicationRenderer
    else if typeName == "journalIssue" then JournalRenderer
    else if typeName in ["conference", "exhibition", "festival"] then EventRenderer
    else if typeName == "callForPapers" then CallRenderer
    else if typeName == "media" then MediaRenderer
    else ContentRenderer
  }

  /** Each entry form reaches its own generator, the three event forms share
      one, and text entries fall through to their content. */
  lemma RendererForKind(k: EntryKind)
    ensures RendererFor(KindName(k)) == PublicationRenderer <==> k == Publication
    ensures RendererFor(KindName(k)) == JournalRenderer <==> k == JournalIssue
    ensures RendererFor(KindName(k)) == EventRenderer <==> IsEvent(k)
    ensures RendererFor(KindName(k)) == CallRenderer <==> k == CallForPapers
    ensures RendererFor(KindName(k)) == MediaRenderer <==> k == Media
    ensures RendererFor(KindName(k)) == ContentRenderer <==> k == Text
  {
  }

  function Render(r: Renderer, e: Entry): string {
    match r
    case PublicationRenderer => Generators.RenderPublication(e)
    case JournalRenderer => Generators.RenderJournal(e)
    case EventRenderer => Generators.RenderEvent(e)
    case CallRenderer => Generators.RenderCall(e)
    case MediaRenderer => Generators.RenderMedia(e)
    case ContentRenderer => e.content + "\n\n"
  }

  function RenderEntry(e: Entry): string {
    Render(RendererFor(KindName(e.kind)), e)
  }

  /** `f` applied to each element, in order. */
  function MapSeq<T>(f: T -> string, xs: seq<T>): (r: seq<string>)
    ensures |r| == |xs|
  {
    if |xs| == 0 then [] else [f(xs[0])] + MapSeq(f, xs[1..])
  }

  function RenderEntries(entries: seq<Entry>): string {
    Concat(MapSeq(RenderEntry, entries))
  }

  lemma {:induction false} MapSeqAppend<T>(f: T -> string, a: seq<T>, b: seq<T>)
    ensures MapSeq(f, a + b) == MapSeq(f, a) + MapSeq(f, b)
  {
    if |a| > 0 {
      assert (a + b)[1..] == a[1..] + b;
      MapSeqAppend(f, a[1..], b);
    } else {
      assert a + b == b;
    }
  }

  /** Mapping commutes with reordering: a permutation of the input gives a
      permutation of the mapped pieces. */
  lemma {:induction false} MapSeqPermutes<T>(f: T -> string, xs: seq<T>, ys: seq<T>)
    requires multiset(xs) == multiset(ys)
    ensures multiset(MapSeq(f, xs)) == multiset(MapSeq(f, ys))
    decreases |xs|
  {
    if |xs| == 0 {
      assert |ys| == |multiset(ys)| == 0;
    } else {
      var x := xs[0];
      assert x in multiset(ys);
      var j :| 0 <= j < |ys| && ys[j] == x;
      var front, back := ys[..j], ys[j + 1..];
      RemoveOne(xs, ys, j);
      MapSeqPermutes(f, xs[1..], front + back);
      assert MapSeq(f, xs) == [f(x)] + MapSeq(f, xs[1..]);
      MapSeqAt(f, ys, j);
    }
  }

  lemma MapSeqAt<T>(f: T -> string, ys: seq<T>, j: nat)
    requires j < |ys|
    ensures multiset(MapSeq(f, ys)) == multiset(MapSeq(f, ys[..j] + ys[j + 1..])) + multiset{f(ys[j])}
  {
    var front, back := ys[..j], ys[j + 1..];
    assert ys == front + ys[j..];
    MapSeqAppend(f, front, ys[j..]);
    assert ys[j..][1..] == back;
    assert MapSeq(f, ys[j..]) == [f(ys[j])] + MapSeq(f, back);
    MapSeqAppend(f, front, back);
  }

  lemma RemoveOne<T>(xs: seq<T>, ys: seq<T>, j: nat)
    requires multiset(xs) == multiset(ys) && |xs| > 0 && j < |ys| && ys[j] == xs[0]
    ensures multiset(xs[1..]) == multiset(ys[..j] + ys[j + 1..])
  {
    var front, back := ys[..j], ys[j + 1..];
    assert ys == front + [xs[0]] + back;
    assert xs == [xs[0]] + xs[1..];
    assert multiset(ys) == multiset(front) + multiset([xs[0]]) + multiset(back);
    assert multiset(xs) == multiset([xs[0]]) + multiset(xs[1..]);
    assert multiset(front + back) == multiset(front) + multiset(back);
    assert multiset(xs[1..]) == multiset(xs) - multiset{xs[0]};
    assert multiset(front + back) == multiset(ys) - multiset{xs[0]};
  }

  /** A section lists every one of its entries exactly once: the rendered
      pieces of its body are those of its entries in input order, rearranged. */
  lemma SectionRendersEveryEntry(entries: seq<Entry>)
    ensures multiset(MapSeq(RenderEntry, Utils.SortEntries(entries))) == multiset(MapSeq(RenderEntry, entries))
  {
    Utils.SortEntriesPermutes(entries);
    MapSeqPermutes(RenderEntry, Utils.SortEntries(entries), entries);
  }

  // ---------------------------------------------------------------------------
  // Anchors

  predicate IsAnchorChar(c: char) { IsAsciiLower(c) || IsDigit(c) }

  predicate NotAnchorChar(c: char) { !IsAnchorChar(c) }

  /** `title.toLowerCase().replace(/[^a-z0-9]+/g, "-")`. */
  function Anchor(title: string): string {
    Runs.CollapseRuns(Lower(title), NotAnchorChar, '-')
  }

  /** Lower-case letters, digits and single dashes. */
  predicate AnchorShaped(a: string) {
    && (forall i :: 0 <= i < |a| ==> IsAnchorChar(a[i]) || a[i] == '-')
    && (forall i :: 0 <= i < |a| - 1 ==> !(a[i] == '-' && a[i + 1] == '-'))
  }

  lemma AnchorShape(title: string)
    ensures AnchorShaped(Anchor(title))
  {
    Runs.CollapseRunsCollapsed(Lower(title), NotAnchorChar, '-');
    var a := Anchor(title);
    forall i | 0 <= i < |a| - 1 ensures !(a[i] == '-' && a[i + 1] == '-') {
      assert NotAnchorChar(a[i]) ==> !NotAnchorChar(a[i + 1]);
    }
  }

  /** The letters and digits of the lower-cased title all survive, in order. */
  lemma AnchorKeepsAlnum(title: string)
    ensures Runs.Only(Anchor(title), IsAnchorChar) == Runs.Only(Lower(title), IsAnchorChar)
  {
    Runs.CollapseRunsKeepsOthers(Lower(title), NotAnchorChar, '-', IsAnchorChar);
  }

  /** An anchor used as a title gives itself back. */
  lemma AnchorIdempotent(title: string)
    ensures Anchor(Anchor(title)) == Anchor(title)
  {
    var a := Anchor(title);
    AnchorShape(title);
    assert Lower(a) == a;
    Runs.CollapseRunsIdempotent(Lower(title), NotAnchorChar, '-');
  }

  /** A prefix without runs to replace is copied. */
  lemma {:induction false} CollapseRunsPlain(a: string, b: string)
    requires forall i :: 0 <= i < |a| ==> IsAnchorChar(a[i])
    ensures Runs.CollapseRuns(a + b, NotAnchorChar, '-') == a + Runs.CollapseRuns(b, NotAnchorChar, '-')
  {
    if |a| > 0 {
      assert (a + b)[1..] == a[1..] + b;
      CollapseRunsPlain(a[1..], b);
    } else {
      assert a + b == b;
    }
  }

  /** A word followed by a space and an emoji, the shape of the default
      section titles, gets the lower-cased word and a trailing dash. */
  lemma AnchorOfWordAndEmoji(w: string, e: char)
    requires forall i :: 0 <= i < |w| ==> IsAsciiAlnum(w[i])
    requires NotAnchorChar(e) && !IsAsciiUpper(e)
    ensures Anchor(w + [' ', e]) == Lower(w) + "-"
  {
    LowerAppend(w, [' ', e]);
    assert Lower([' ', e]) == [' ', e];
    CollapseRunsPlain(Lower(w), [' ', e]);
    assert Runs.RunLength([e], NotAnchorChar) == 1;
    assert Runs.CollapseRuns([' ', e], NotAnchorChar, '-') == "-" by {
      assert Runs.DropRun([' ', e][1..], NotAnchorChar) == [];
    }
  }

  lemma PublicationsAnchor()
    ensures Anchor(DefaultTitle(Publications)) == "publications-"
  {
    var w := "Publications";
    assert DefaultTitle(Publications) == w + [' ', '\U{1F4DA}'];
    AnchorOfWordAndEmoji(w, '\U{1F4DA}');
    assert Lower(w) == "publications";
  }

  // ---------------------------------------------------------------------------
  // Titles in the table of contents

  /** The code point ranges U+1F300–U+1F9FF, U+2600–U+26FF and U+2700–U+27BF. */
  predicate IsEmoji(c: char) {
    ('\U{1F300}' <= c <= '\U{1F9FF}') || ('\U{2600}' <= c <= '\U{26FF}') || ('\U{2700}' <= c <= '\U{27BF}')
  }

  predicate NotEmoji(c: char) { !IsEmoji(c) }

  /** The title with those code points removed, then trimmed. */
  function CleanTitle(title: string): string {
    Trim(Runs.Only(title, NotEmoji))
  }

  lemma {:induction false} OnlyAll(s: string, p: char -> bool)
    requires forall i :: 0 <= i < |s| ==> p(s[i])
    ensures Runs.Only(s, p) == s
  {
    if |s| > 0 {
      OnlyAll(s[1..], p);
    }
  }

  /** No emoji is left, nor whitespace at either end, and cleaning twice
      changes nothing more. */
  lemma CleanTitleClean(title: string)
    ensures var c := CleanTitle(title);
      && (forall i :: 0 <= i < |c| ==> NotEmoji(c[i]))
      && (c == [] || (!IsSpace(c[0]) && !IsSpace(c[|c| - 1])))
      && CleanTitle(c) == c
  {
    var c := CleanTitle(title);
    Runs.TrimWithin(Runs.Only(title, NotEmoji), NotEmoji);
    OnlyAll(c, NotEmoji);
    TrimUnchanged(c);
  }

  /** Cleaning keeps every other character of the title, apart from
      whitespace at the ends. */
  lemma CleanTitleKeepsText(title: string)
    ensures Runs.Only(CleanTitle(title), Markdown.NotSpace) == Runs.Only(Runs.Only(title, NotEmoji), Markdown.NotSpace)
  {
    Runs.TrimKeepsOthers(Runs.Only(title, NotEmoji), Markdown.NotSpace);
  }

  lemma TrailingSpaceTrimmed(w: string)
    requires |w| > 0 && !IsSpace(w[0]) && !IsSpace(w[|w| - 1])
    ensures Trim(w + [' ']) == w
  {
    assert TrimStart(w + [' ']) == w + [' '];
    TrimEndSnoc(w, ' ');
    TrimEndSnoc(w[..|w| - 1], w[|w| - 1]);
    assert w[..|w| - 1] + [w[|w| - 1]] == w;
  }

  /** The default title shape loses its emoji and the space before it. */
  lemma CleanTitleOfWordAndEmoji(w: string, e: char)
    requires |w| > 0 && !IsSpace(w[0]) && !IsSpace(w[|w| - 1])
    requires forall i :: 0 <= i < |w| ==> NotEmoji(w[i])
    requires IsEmoji(e)
    ensures CleanTitle(w + [' ', e]) == w
  {
    Runs.OnlyAppend(w, [' ', e], NotEmoji);
    OnlyAll(w, NotEmoji);
    assert Runs.Only([' ', e], NotEmoji) == [' '];
    TrailingSpaceTrimmed(w);
  }

  /** A character after the emoji outside the three ranges, such as the
      variation selector U+FE0F, stays, and with it the space before it. */
  lemma CleanTitleKeepsSelector(w: string, e: char, v: char)
    requires forall i :: 0 <= i < |w| ==> NotEmoji(w[i])
    requires |w| > 0 && !IsSpace(w[0])
    requires IsEmoji(e) && !IsEmoji(v) && !IsSpace(v)
    ensures CleanTitle(w + [' ', e, v]) == w + [' ', v]
  {
    Runs.OnlyAppend(w, [' ', e, v], NotEmoji);
    OnlyAll(w, NotEmoji);
    assert Runs.Only([v], NotEmoji) == [v];
    assert Runs.Only([e, v], NotEmoji) == [v] by {
      assert [e, v][1..] == [v];
    }
    assert Runs.Only([' ', e, v], NotEmoji) == [' ', v] by {
      assert [' ', e, v][1..] == [e, v];
    }
    TrimUnchanged(w + [' ', v]);
  }

  lemma ExhibitionsTitle()
    ensures CleanTitle(DefaultTitle(Exhibitions)) == "Exhibitions \U{FE0F}"
  {
    var w := "Exhibitions";
    assert forall i :: 0 <= i < |w| ==> NotEmoji(w[i]) by {
      assert forall i :: 0 <= i < |w| ==> 'A' <= w[i] <= 'z';
    }
    CleanTitleKeepsSelector(w, '\U{1F5BC}', '\U{FE0F}');
    assert DefaultTitle(Exhibitions) == w + [' ', '\U{1F5BC}', '\U{FE0F}'];
    assert w + [' ', '\U{FE0F}'] == "Exhibitions \U{FE0F}";
  }

  // ---------------------------------------------------------------------------
  // Table of contents and body

  predicate Listed(s: Section) { |s.entries| > 0 }

  /** The sections the digest shows, in order. */
  function ListedSections(sections: seq<Section>): (r: seq<Section>)
    ensures forall i :: 0 <= i < |r| ==> Listed(r[i])
    ensures forall i :: 0 <= i < |sections| && Listed(sections[i]) ==> sections[i] in r
  {
    if |sections| == 0 then []
    else
      var rest := ListedSections(sections[1..]);
      assert forall i :: 1 <= i < |sections| ==> sections[i] == sections[1..][i - 1];
      (if Listed(sections[0]) then [sections[0]] else []) + rest
  }

  /** The filter distributes over concatenation, so the listed sections
      keep their document order. */
  lemma {:induction false} ListedSectionsAppend(a: seq<Section>, b: seq<Section>)
    ensures ListedSections(a + b) == ListedSections(a) + ListedSections(b)
  {
    if |a| > 0 {
      var h := if Listed(a[0]) then [a[0]] else [];
      assert (a + b)[1..] == a[1..] + b;
      ListedSectionsAppend(a[1..], b);
      assert h + (ListedSections(a[1..]) + ListedSections(b)) == (h + ListedSections(a[1..])) + ListedSections(b);
    } else {
      assert a + b == b;
    }
  }

  function TocItem(s: Section): string {
    "- [" + CleanTitle(s.title) + "](#" + Anchor(s.title) + ")"
  }

  /** The table of contents: one line per section with entries. */
  function Toc(sections: seq<Section>): string {
    if |sections| == 0 then ""
    else (if Listed(sections[0]) then TocItem(sections[0]) + "\n" else "") + Toc(sections[1..])
  }

  function SectionBlock(s: Section): string {
    "## " + s.title + "\n\n" + RenderEntries(Utils.SortEntries(s.entries))
  }

  /** The sections with entries, each under its heading. */
  function Body(sections: seq<Section>): string {
    if |sections| == 0 then ""
    else (if Listed(sections[0]) then SectionBlock(sections[0]) else "") + Body(sections[1..])
  }

  /** The text before normalisation. */
  function RawDigest(d: Document): string {
    var locations := FrontmatterYaml.CollectLocations(d.sections, d.overrides);
    FrontmatterYaml.GenerateFrontmatter(d.frontmatter, locations) + "\n\n"
      + "## Jump to\n\n" + Toc(d.sections) + "\n" + Body(d.sections)
  }

  /** `buildDigest`. */
  function BuildDigest(d: Document): (r: string)
    ensures |r| > 0 && r[|r| - 1] == '\n'
  {
    Markdown.NormalizeMarkdown(RawDigest(d))
  }

  function TocItems(sections: seq<Section>): (r: seq<string>)
    ensures |r| == |sections|
  {
    if |sections| == 0 then [] else [TocItem(sections[0])] + TocItems(sections[1..])
  }

  /** The table of contents holds one line per listed section, in order,
      as long as no title spans lines. */
  lemma {:induction false} TocLines(sections: seq<Section>)
    requires forall i :: 0 <= i < |sections| ==> '\n' !in sections[i].title
    ensures Split(Toc(sections), '\n') == TocItems(ListedSections(sections)) + [""]
  {
    TocUnlines(sections);
    TocItemsSingleLine(ListedSections(sections), sections);
    SplitUnlines(TocItems(ListedSections(sections)));
  }

  lemma {:induction false} TocUnlines(sections: seq<Section>)
    ensures Toc(sections) == Unlines(TocItems(ListedSections(sections)))
  {
    if |sections| > 0 {
      TocUnlines(sections[1..]);
      var rest := ListedSections(sections[1..]);
      if Listed(sections[0]) {
        assert ListedSections(sections) == [sections[0]] + rest;
        assert TocItems([sections[0]] + rest) == [TocItem(sections[0])] + TocItems(rest);
      } else {
        assert ListedSections(sections) == rest;
      }
    }
  }

  /** Every section kept is one of the input's. */
  lemma {:induction false} ListedFrom(sections: seq<Section>)
    ensures forall i :: 0 <= i < |ListedSections(sections)| ==> ListedSections(sections)[i] in sections
  {
    if |sections| > 0 {
      ListedFrom(sections[1..]);
    }
  }

  lemma TocItemsSingleLine(listed: seq<Section>, sections: seq<Section>)
    requires listed == ListedSections(sections)
    requires forall i :: 0 <= i < |sections| ==> '\n' !in sections[i].title
    ensures forall i :: 0 <= i < |listed| ==> '\n' !in TocItems(listed)[i]
  {
    ListedFrom(sections);
    forall i | 0 <= i < |listed| ensures '\n' !in TocItems(listed)[i] {
      TocItemAt(listed, i);
      TocItemSingleLine(listed[i]);
    }
  }

  lemma {:induction false} TocItemAt(listed: seq<Section>, i: nat)
    requires i < |listed|
    ensures TocItems(listed)[i] == TocItem(listed[i])
  {
    if i > 0 {
      TocItemAt(listed[1..], i - 1);
    }
  }

  lemma TocItemSingleLine(s: Section)
    requires '\n' !in s.title
    ensures '\n' !in TocItem(s)
  {
    var clean := CleanTitle(s.title);
    var anchor := Anchor(s.title);
    assert '\n' !in clean by {
      var raw := Runs.Only(s.title, NotEmoji);
      OnlyWithin(s.title, NotEmoji);
      assert forall i :: 0 <= i < |raw| ==> Markdown.NotNewline(raw[i]);
      Runs.TrimWithin(raw, Markdown.NotNewline);
    }
    assert '\n' !in anchor by {
      AnchorShape(s.title);
    }
    assert TocItem(s) == "- [" + clean + "](#" + anchor + ")";
  }

  /** Filtering keeps a subsequence, so a character absent from the input is
      absent from the result. */
  lemma {:induction false} OnlyWithin(s: string, p: char -> bool)
    ensures forall i :: 0 <= i < |Runs.Only(s, p)| ==> Runs.Only(s, p)[i] in s
  {
    if |s| > 0 {
      OnlyWithin(s[1..], p);
    }
  }

  /** Sections without entries leave no trace: not in the table of contents,
      not in the body, and no locations in the frontmatter. */
  lemma EmptySectionsInvisible(d: Document)
    ensures BuildDigest(d.(sections := ListedSections(d.sections))) == BuildDigest(d)
  {
    ListedKeepsEntries(d.sections);
    ListedToc(d.sections);
    ListedBody(d.sections);
  }

  lemma {:induction false} ListedKeepsEntries(sections: seq<Section>)
    ensures AllEntries(ListedSections(sections)) == AllEntries(sections)
  {
    if |sections| > 0 {
      ListedKeepsEntries(sections[1..]);
      var rest := ListedSections(sections[1..]);
      if Listed(sections[0]) {
        assert ListedSections(sections) == [sections[0]] + rest;
        AllEntriesAppend([sections[0]], rest);
      } else {
        assert ListedSections(sections) == rest;
      }
    }
  }

  lemma {:induction false} ListedToc(sections: seq<Section>)
    ensures Toc(ListedSections(sections)) == Toc(sections)
  {
    if |sections| > 0 {
      ListedToc(sections[1..]);
      var rest := ListedSections(sections[1..]);
      if Listed(sections[0]) {
        assert ListedSections(sections) == [sections[0]] + rest;
        assert ([sections[0]] + rest)[1..] == rest;
      } else {
        assert ListedSections(sections) == rest;
      }
    }
  }

  lemma {:induction false} ListedBody(sections: seq<Section>)
    ensures Body(ListedSections(sections)) == Body(sections)
  {
    if |sections| > 0 {
      ListedBody(sections[1..]);
      var rest := ListedSections(sections[1..]);
      if Listed(sections[0]) {
        assert ListedSections(sections) == [sections[0]] + rest;
        assert ([sections[0]] + rest)[1..] == rest;
      } else {
        assert ListedSections(sections) == rest;
      }
    }
  }

  /** The body is the blocks of the listed sections, in document order. */
  lemma {:induction false} BodyBlocks(sections: seq<Section>)
    ensures Body(sections) == Concat(Blocks(ListedSections(sections)))
  {
    if |sections| > 0 {
      BodyBlocks(sections[1..]);
      var rest := ListedSections(sections[1..]);
      if Listed(sections[0]) {
        assert ListedSections(sections) == [sections[0]] + rest;
        assert Blocks([sections[0]] + rest) == [SectionBlock(sections[0])] + Blocks(rest);
      } else {
        assert ListedSections(sections) == rest;
      }
    }
  }

  function Blocks(sections: seq<Section>): (r: seq<string>)
    ensures |r| == |sections|
  {
    if |sections| == 0 then [] else [SectionBlock(sections[0])] + Blocks(sections[1..])
  }

  // ---------------------------------------------------------------------------
  // The finished digest

  /** Normalisation only changes whitespace: every other character of the
      frontmatter, contents and sections reaches the digest, in order. */
  lemma DigestKeepsText(d: Document)
    ensures Runs.Only(BuildDigest(d), Markdown.NotSpace) == Runs.Only(RawDigest(d), Markdown.NotSpace)
  {
    Markdown.NormalizeMarkdownKeepsText(RawDigest(d));
  }

  /** No line of the digest ends in a space or a tab. */
  lemma DigestLines(d: Document)
    ensures Markdown.NoTrailingBlank(BuildDigest(d))
  {
    Markdown.NormalizeMarkdownLines(RawDigest(d));
  }
}
