/** The markdown renderers of the digest, one per entry kind, and the text
    helpers they share: Jekyll hard line breaks, the choice of link text, the
    author list and the MLA date. Each renderer returns the block of text it
    appends for one entry. */
module Generators {
  import opened Base
  import opened Strings
  import opened Model
  import Doi
  import FrontmatterYaml

  // ---------------------------------------------------------------------------
  // Hard line breaks

  /** The markdown hard line break Jekyll needs: two spaces before the newline. */
  const HardBreak := "  \n"

  /** `formatJekyllText`: every newline becomes a hard line break. */
  function JekyllText(text: string): string {
    ReplaceChar(text, '\n', HardBreak)
  }

  /** Reads a hard-broken text back: each "  \n" becomes a plain newline. */
  function UnJekyll(s: string): string
    decreases |s|
  {
    if |s| >= 3 && s[0] == ' ' && s[1] == ' ' && s[2] == '\n' then "\n" + UnJekyll(s[3..])
    else if |s| == 0 then ""
    else [s[0]] + UnJekyll(s[1..])
  }

  /** Every newline of `s` closes a hard line break. */
  predicate AllBreaksHard(s: string) {
    forall i :: 0 <= i < |s| && s[i] == '\n' ==> 2 <= i && s[i - 2] == ' ' && s[i - 1] == ' '
  }

  lemma JekyllTextCons(c: char, t: string)
    ensures JekyllText([c] + t) == (if c == '\n' then HardBreak else [c]) + JekyllText(t)
  {
    assert ([c] + t)[1..] == t;
  }

  /** The converted text never starts with a newline, nor with " \n". */
  lemma JekyllTextStart(t: string)
    ensures var r := JekyllText(t);
      (|r| > 0 ==> r[0] != '\n') && (|r| > 1 && r[0] == ' ' ==> r[1] != '\n')
  {
    if |t| > 0 {
      assert t == [t[0]] + t[1..];
      JekyllTextCons(t[0], t[1..]);
      if t[0] != '\n' && |t| > 1 {
        assert t[1..] == [t[1]] + t[2..];
        JekyllTextCons(t[1], t[2..]);
      }
    }
  }

  /** The conversion loses nothing: reading the hard breaks back gives the
      original text. */
  lemma {:induction false} JekyllTextRoundTrip(t: string)
    ensures UnJekyll(JekyllText(t)) == t
  {
    if |t| > 0 {
      var rest := JekyllText(t[1..]);
      JekyllTextRoundTrip(t[1..]);
      assert t == [t[0]] + t[1..];
      JekyllTextCons(t[0], t[1..]);
      if t[0] == '\n' {
        assert (HardBreak + rest)[3..] == rest;
      } else {
        JekyllTextStart(t[1..]);
        assert ([t[0]] + rest)[1..] == rest;
      }
    }
  }

  /** Text without newlines passes through unchanged, the empty text
      included. */
  lemma JekyllTextPlain(t: string)
    requires '\n' !in t
    ensures JekyllText(t) == t
  {
    ReplaceCharAbsent(t, '\n', HardBreak);
  }

  lemma AllBreaksHardAppend(a: string, b: string)
    requires AllBreaksHard(a) && AllBreaksHard(b)
    ensures AllBreaksHard(a + b)
  {
    var s := a + b;
    forall i | 0 <= i < |s| && s[i] == '\n' ensures 2 <= i && s[i - 2] == ' ' && s[i - 1] == ' ' {
      if i >= |a| {
        assert b[i - |a|] == '\n';
      } else {
        assert a[i] == '\n';
      }
    }
  }

  /** Every newline of the converted text is a hard line break. */
  lemma {:induction false} JekyllTextHardBreaks(t: string)
    ensures AllBreaksHard(JekyllText(t))
  {
    if |t| > 0 {
      JekyllTextHardBreaks(t[1..]);
      assert t == [t[0]] + t[1..];
      JekyllTextCons(t[0], t[1..]);
      var head := if t[0] == '\n' then HardBreak else [t[0]];
      assert AllBreaksHard(head);
      AllBreaksHardAppend(head, JekyllText(t[1..]));
    }
  }

  /** A line without newlines closed by a hard break. */
  lemma HardLine(x: string)
    requires '\n' !in x
    ensures AllBreaksHard(x + HardBreak)
  {
    var s := x + HardBreak;
    forall i | 0 <= i < |s| && s[i] == '\n' ensures 2 <= i && s[i - 2] == ' ' && s[i - 1] == ' ' {
    }
  }

  /** Converted text followed by a hard break. */
  lemma HardText(t: string)
    ensures AllBreaksHard(JekyllText(t) + HardBreak)
  {
    JekyllTextHardBreaks(t);
    HardLine("");
    AllBreaksHardAppend(JekyllText(t), HardBreak);
  }

  // ---------------------------------------------------------------------------
  // Links

  /** The Open Access badge that replaces the link text of open-access items,
      an inline-styled span written here in four pieces. */
  const BadgeStart := "<span style=\"background-color: #5a96d0;"
  const BadgeColour := " color: white; padding: 0.25em 0.4em;"
  const BadgeShape := " border-radius: 0.25rem; font-size: 75%;"
  const BadgeEnd := " line-height: 1;\">Open Access</span>"
  const OpenAccessBadge := BadgeStart + BadgeColour + BadgeShape + BadgeEnd

  /** A markdown inline link. */
  function MarkdownLink(text: string, url: string): string {
    "[" + text + "](" + url + ")"
  }

  /** The text `formatURL` shows for a URL. */
  function LinkLabel(url: string, customText: string, isOpenAccess: bool): string {
    if isOpenAccess then OpenAccessBadge
    else if Contains(url, "doi.org/") && Doi.Search(url).Some? then "DOI"
    else if customText != "" then customText
    else "link"
  }

  /** `formatURL`: nothing without a URL, else a space and a link to it. */
  function FormatUrl(url: string, customText: string, isOpenAccess: bool): string {
    if url == "" then "" else " " + MarkdownLink(LinkLabel(url, customText, isOpenAccess), url)
  }

  /** Some substring of `url` is a DOI. */
  ghost predicate HasDoi(url: string) {
    exists a, b :: 0 <= a <= b <= |url| && Doi.IsDoi(url[a..b])
  }

  /** The link text is chosen in priority order: the badge for open access,
      "DOI" for a doi.org URL that holds a DOI, then the custom text, then
      "link"; the target is always the URL itself. */
  lemma FormatUrlChoice(url: string, customText: string, isOpenAccess: bool)
    ensures url == "" ==> FormatUrl(url, customText, isOpenAccess) == ""
    ensures url != "" && isOpenAccess ==>
      FormatUrl(url, customText, isOpenAccess) == " " + MarkdownLink(OpenAccessBadge, url)
    ensures url != "" && !isOpenAccess && Contains(url, "doi.org/") && HasDoi(url) ==>
      FormatUrl(url, customText, isOpenAccess) == " " + MarkdownLink("DOI", url)
    ensures url != "" && !isOpenAccess && !(Contains(url, "doi.org/") && HasDoi(url)) ==>
      FormatUrl(url, customText, isOpenAccess)
        == " " + MarkdownLink(if customText != "" then customText else "link", url)
  {
    Doi.SearchNone(url);
  }

  // ---------------------------------------------------------------------------
  // Authors

  predicate IsBlank(a: Author) {
    a.name == "" && a.surname == ""
  }

  /** The authors with a name or a surname, in order. */
  function NamedAuthors(authors: seq<Author>): seq<Author> {
    if |authors| == 0 then []
    else (if IsBlank(authors[0]) then [] else [authors[0]]) + NamedAuthors(authors[1..])
  }

  lemma {:induction false} NamedAuthorsAppend(a: seq<Author>, b: seq<Author>)
    ensures NamedAuthors(a + b) == NamedAuthors(a) + NamedAuthors(b)
  {
    if |a| > 0 {
      assert (a + b)[1..] == a[1..] + b;
      NamedAuthorsAppend(a[1..], b);
    } else {
      assert a + b == b;
    }
  }

  lemma {:induction false} NamedAuthorsEmpty(authors: seq<Author>)
    ensures NamedAuthors(authors) == [] <==> forall i :: 0 <= i < |authors| ==> IsBlank(authors[i])
  {
    if |authors| > 0 {
      NamedAuthorsEmpty(authors[1..]);
      assert forall i :: 1 <= i < |authors| ==> authors[i] == authors[1..][i - 1];
    }
  }

  /** The first author inverted as "surname, name", later ones "name surname". */
  function AuthorNames(kept: seq<Author>, first: bool): seq<string> {
    if |kept| == 0 then []
    else
      var a := kept[0];
      [if first then a.surname + ", " + a.name else a.name + " " + a.surname]
        + AuthorNames(kept[1..], false)
  }

  /** The author list of a citation, followed by ". " when it is not empty. */
  function AuthorsPrefix(authors: seq<Author>): string {
    var text := Join(AuthorNames(NamedAuthors(authors), true), ", ");
    if text != "" then text + ". " else ""
  }

  /** Blank authors make no difference, wherever they stand. */
  lemma AuthorsBlankIgnored(a: seq<Author>, x: Author, b: seq<Author>)
    requires IsBlank(x)
    ensures AuthorsPrefix(a + [x] + b) == AuthorsPrefix(a + b)
  {
    NamedAuthorsAppend(a + [x], b);
    NamedAuthorsAppend(a, [x]);
    NamedAuthorsAppend(a, b);
    assert NamedAuthors([x]) == [] by {
      assert [x][1..] == [];
    }
    assert NamedAuthors(a) + [] == NamedAuthors(a);
  }

  /** The author part is empty exactly when every author is blank; otherwise
      it opens with the first named author, surname first, and closes with
      ". ". */
  lemma AuthorsPrefixShape(authors: seq<Author>)
    ensures AuthorsPrefix(authors) == "" <==> forall i :: 0 <= i < |authors| ==> IsBlank(authors[i])
    ensures NamedAuthors(authors) != [] ==>
      var a := NamedAuthors(authors)[0];
      && StartsWith(AuthorsPrefix(authors), a.surname + ", " + a.name)
      && EndsWith(AuthorsPrefix(authors), ". ")
  {
    NamedAuthorsEmpty(authors);
    var kept := NamedAuthors(authors);
    if kept != [] {
      var names := AuthorNames(kept, true);
      var a := kept[0];
      var first := a.surname + ", " + a.name;
      assert names[0] == first;
      JoinHead(names, ", ");
      var text := Join(names, ", ");
      assert |text| >= |first| >= 2;
      StartsWithExtend(text, first, ". ");
      EndsWithAppend(text, ". ");
    }
  }

  lemma JoinHead(parts: seq<string>, sep: string)
    requires |parts| > 0
    ensures StartsWith(Join(parts, sep), parts[0])
  {
    if |parts| > 1 {
      assert Join(parts, sep)[..|parts[0]|] == parts[0];
    }
  }

  lemma StartsWithExtend(s: string, p: string, t: string)
    requires StartsWith(s, p)
    ensures StartsWith(s + t, p)
  {
    assert (s + t)[..|p|] == s[..|p|];
  }

  /** One author renders inverted. */
  lemma AuthorsPrefixOne(a: Author)
    requires !IsBlank(a)
    ensures AuthorsPrefix([a]) == a.surname + ", " + a.name + ". "
  {
    assert NamedAuthors([a]) == [a] by {
      assert [a][1..] == [];
    }
    assert AuthorNames([a], true) == [a.surname + ", " + a.name] by {
      assert [a][1..] == [];
    }
  }

  /** A second author renders in reading order after a comma. */
  lemma AuthorsPrefixTwo(a: Author, b: Author)
    requires !IsBlank(a) && !IsBlank(b)
    ensures AuthorsPrefix([a, b]) == a.surname + ", " + a.name + ", " + b.name + " " + b.surname + ". "
  {
    assert [a, b][1..] == [b];
    assert [b][1..] == [];
    assert NamedAuthors([b]) == [b];
    assert NamedAuthors([a, b]) == [a] + [b];
    var second := AuthorNames([b], false);
    assert AuthorNames([], false) == [];
    assert second == [b.name + " " + b.surname] + AuthorNames([b][1..], false);
    var names := AuthorNames([a, b], true);
    assert names == [a.surname + ", " + a.name] + second;
    JoinCons(a.surname + ", " + a.name, second, ", ");
  }

  lemma AuthorsPrefixExample()
    ensures AuthorsPrefix([Author("Jane", "Doe")]) == "Doe, Jane. "
  {
    AuthorsPrefixOne(Author("Jane", "Doe"));
  }

  // ---------------------------------------------------------------------------
  // Composing hard-broken text

  lemma NoNewlineHard(x: string)
    requires '\n' !in x
    ensures AllBreaksHard(x)
  {
  }

  /** One line whose middle is converted text keeps every break hard. */
  lemma HardWrapped(prefix: string, t: string, suffix: string)
    requires '\n' !in prefix && '\n' !in suffix
    ensures AllBreaksHard(prefix + JekyllText(t) + suffix + HardBreak)
  {
    NoNewlineHard(prefix);
    JekyllTextHardBreaks(t);
    HardLine(suffix);
    AllBreaksHardAppend(prefix, JekyllText(t));
    AllBreaksHardAppend(prefix + JekyllText(t), suffix + HardBreak);
    assert prefix + JekyllText(t) + suffix + HardBreak == (prefix + JekyllText(t)) + (suffix + HardBreak);
  }

  // ---------------------------------------------------------------------------
  // Publications

  /** `if (value) md += prefix + value + suffix`. */
  function Opt(prefix: string, value: string, suffix: string): string {
    if value == "" then "" else prefix + value + suffix
  }

  /** The year of a date: the text before its first "-". */
  function Year(date: string): string {
    Split(date, '-')[0]
  }

  lemma YearOfDate(y: string, rest: string)
    requires '-' !in y
    ensures Year(y) == y
    ensures Year(y + "-" + rest) == y
  {
    var s := y + "-" + rest;
    assert s[|y|] == '-' && s[..|y|] == y;
    SplitAt(s, '-', |y|);
  }

  /** The publication types whose citation ends with the link, after the
      closing period, and whose summary is an annotation. */
  predicate BookLike(pubType: string) {
    pubType == "Book" || pubType == "Chapter" || pubType == "Thesis"
  }

  /** The link of an entry as citations show it. */
  function Link(e: Entry): string {
    FormatUrl(e.url, e.urlText, e.openAccess)
  }

  /** The year of a dated entry, after `sep`. */
  function YearPart(sep: string, date: string): string {
    if date != "" then sep + Year(date) else ""
  }

  /** The title as the citation writes it: a publication made by `addEntry`
      has no `title` property until one is written, and the template
      literal turns the missing value into "undefined". */
  function CitedTitle(e: Entry): (t: string)
    ensures e.titled ==> t == e.title
    ensures !e.titled ==> t == "undefined"
  {
    if e.titled then e.title else "undefined"
  }

  /** The citation of a book up to its closing period. */
  function BookBody(e: Entry): string {
    "*" + CitedTitle(e) + "*" + Opt(". ", e.publisher, "") + YearPart(", ", e.date)
  }

  function ChapterBody(e: Entry): string {
    "\"" + CitedTitle(e) + ".\"" + Opt(" *", e.containerTitle, "*") + Opt(", ", e.publisher, "")
      + YearPart(", ", e.date)
  }

  function ArticleBody(e: Entry): string {
    "\"" + CitedTitle(e) + ".\"" + Opt(" *", e.containerTitle, "*")
      + Opt(", vol. ", e.volume, "") + Opt(", no. ", e.issue, "")
      + (if e.date != "" then ", " + FormatMlaDate(e.date) else "")
  }

  function ThesisBody(e: Entry): string {
    "*" + CitedTitle(e) + "*" + YearPart(". ", e.date) + Opt(". ", e.publisher, "")
  }

  /** The citation of any other type, which shows the whole date. */
  function FallbackBody(e: Entry): string {
    "\"" + CitedTitle(e) + ".\"" + Opt(" *", e.containerTitle, "*")
      + Opt(", vol. ", e.volume, "") + Opt(", no. ", e.issue, "")
      + Opt(", ", e.publisher, "") + Opt(", ", e.date, "")
  }

  /** The MLA-style citation after the author list, by publication type. */
  function Citation(e: Entry): string {
    if e.pubType == "Book" then BookBody(e) + "." + Link(e)
    else if e.pubType == "Chapter" then ChapterBody(e) + "." + Link(e)
    else if e.pubType == "Article" || e.pubType == "Online Article" then ArticleBody(e) + Link(e) + "."
    else if e.pubType == "Thesis" then ThesisBody(e) + "." + Link(e)
    else FallbackBody(e) + Link(e) + "."
  }

  lemma EndsWithAppend(a: string, b: string)
    ensures EndsWith(a + b, b)
  {
    assert (a + b)[|a + b| - |b|..] == b;
  }

  lemma LinkAfterPeriod(body: string, link: string)
    ensures EndsWith(body + "." + link, "." + link)
  {
    assert body + "." + link == body + ("." + link);
    EndsWithAppend(body, "." + link);
  }

  lemma LinkBeforePeriod(body: string, link: string)
    ensures EndsWith(body + link + ".", link + ".")
  {
    assert body + link + "." == body + (link + ".");
    EndsWithAppend(body, link + ".");
  }

  /** Books, chapters and theses put the link after the closing period;
      every other type puts it before. */
  lemma CitationLinkPlacement(e: Entry)
    ensures BookLike(e.pubType) ==> EndsWith(Citation(e), "." + Link(e))
    ensures !BookLike(e.pubType) ==> EndsWith(Citation(e), Link(e) + ".")
  {
    if e.pubType == "Book" {
      LinkAfterPeriod(BookBody(e), Link(e));
    } else if e.pubType == "Chapter" {
      LinkAfterPeriod(ChapterBody(e), Link(e));
    } else if e.pubType == "Article" || e.pubType == "Online Article" {
      LinkBeforePeriod(ArticleBody(e), Link(e));
    } else if e.pubType == "Thesis" {
      LinkAfterPeriod(ThesisBody(e), Link(e));
    } else {
      LinkBeforePeriod(FallbackBody(e), Link(e));
    }
  }

  /** Books, chapters and theses cite only the year of a "Y-..." date. */
  lemma CitationYear(e: Entry, y: string, rest: string)
    requires e.date == y + "-" + rest && '-' !in y
    ensures e.pubType == "Book" ==> BookBody(e) == "*" + CitedTitle(e) + "*" + Opt(". ", e.publisher, "") + ", " + y
    ensures e.pubType == "Chapter" ==> EndsWith(ChapterBody(e), ", " + y)
    ensures e.pubType == "Thesis" ==> StartsWith(ThesisBody(e), "*" + CitedTitle(e) + "*. " + y)
  {
    YearOfDate(y, rest);
    assert YearPart(", ", e.date) == ", " + y;
    EndsWithAppend("\"" + CitedTitle(e) + ".\"" + Opt(" *", e.containerTitle, "*") + Opt(", ", e.publisher, ""), ", " + y);
    var t := ThesisBody(e);
    assert t == ("*" + CitedTitle(e) + "*. " + y) + Opt(". ", e.publisher, "");
  }

  /** `months[v - 1]` in a template literal: the month name, in full for
      May, June and July, or "undefined" when `v` is not a month. */
  function MonthName(v: int): string {
    if v == 1 then "Jan." else if v == 2 then "Feb." else if v == 3 then "Mar."
    else if v == 4 then "Apr." else if v == 5 then "May" else if v == 6 then "June"
    else if v == 7 then "July" else if v == 8 then "Aug." else if v == 9 then "Sept."
    else if v == 10 then "Oct." else if v == 11 then "Nov." else if v == 12 then "Dec."
    else "undefined"
  }

  /** The name of month `parseInt(m)`; `NaN - 1` is no index either. */
  function MonthText(m: string): string {
    match ParseInt(m)
    case Some(v) => MonthName(v)
    case None => "undefined"
  }

  /** `parseInt(d)` in a template literal. */
  function DayText(d: string): string {
    match ParseInt(d)
    case Some(v) => IntToString(v)
    case None => "NaN"
  }

  /** `formatMLADate`. */
  function FormatMlaDate(date: string): string {
    if date == "" then ""
    else
      var parts := Split(date, '-');
      if |parts| == 3 then DayText(parts[2]) + " " + MonthText(parts[1]) + " " + parts[0]
      else if |parts| == 2 then MonthText(parts[1]) + " " + parts[0]
      else if |parts| == 1 then parts[0]
      else date
  }

  lemma DigitsNoDash(ds: string)
    requires AllDigits(ds)
    ensures '-' !in ds
  {
  }

  lemma SplitCons(a: string, t: string)
    requires '-' !in a
    ensures Split(a + "-" + t, '-') == [a] + Split(t, '-')
  {
    var s := a + "-" + t;
    assert s[|a|] == '-' && s[..|a|] == a && s[|a| + 1..] == t;
    SplitAt(s, '-', |a|);
  }

  lemma SplitTwo(a: string, b: string)
    requires '-' !in a && '-' !in b
    ensures Split(a + "-" + b, '-') == [a, b]
  {
    SplitCons(a, b);
  }

  lemma SplitThree(a: string, b: string, c: string)
    requires '-' !in a && '-' !in b && '-' !in c
    ensures Split(a + "-" + b + "-" + c, '-') == [a, b, c]
  {
    var dash := "-";
    calc {
      a + dash + b + dash + c;
      { assert a + dash + b + dash == (a + dash) + (b + dash); }
      (a + dash) + (b + dash) + c;
      { assert (a + dash) + (b + dash) + c == (a + dash) + (b + dash + c); }
      a + dash + (b + dash + c);
    }
    SplitCons(a, b + dash + c);
    SplitTwo(b, c);
  }

  /** "Y-M-D" reads "D Mon Y", the day as a plain number. */
  lemma MlaDateFull(y: string, m: string, d: string)
    requires '-' !in y
    requires |m| > 0 && AllDigits(m)
    requires |d| > 0 && AllDigits(d)
    ensures FormatMlaDate(y + "-" + m + "-" + d)
      == NatToString(DigitsValue(d)) + " " + MonthName(DigitsValue(m)) + " " + y
  {
    DigitsNoDash(m);
    DigitsNoDash(d);
    SplitThree(y, m, d);
    ParseIntDigits(m);
    ParseIntDigits(d);
  }

  /** "Y-M" reads "Mon Y". */
  lemma MlaDateMonth(y: string, m: string)
    requires '-' !in y
    requires |m| > 0 && AllDigits(m)
    ensures FormatMlaDate(y + "-" + m) == MonthName(DigitsValue(m)) + " " + y
  {
    DigitsNoDash(m);
    SplitTwo(y, m);
    ParseIntDigits(m);
  }

  /** A bare year, and any text without "-", is returned as it is; so is a
      date of four or more parts. */
  lemma MlaDateUnchanged(date: string)
    ensures '-' !in date ==> FormatMlaDate(date) == date
    ensures |Split(date, '-')| >= 4 ==> FormatMlaDate(date) == date
  {
  }

  lemma DayFifteen()
    ensures AllDigits("15") && DigitsValue("15") == 15 && NatToString(15) == "15"
  {
    assert "15"[..1] == "1";
    assert "1"[..0] == "";
  }

  lemma MonthThree()
    ensures AllDigits("03") && DigitsValue("03") == 3
  {
    assert "03"[..1] == "0";
    assert "0"[..0] == "";
  }

  lemma MlaDateExampleParts(date: string)
    requires date == "2025-03-15"
    ensures FormatMlaDate(date) == NatToString(DigitsValue("15")) + " " + MonthName(DigitsValue("03")) + " " + "2025"
  {
    var y, m, d := "2025", "03", "15";
    assert y + "-" + m + "-" + d == date;
    DayFifteen();
    MonthThree();
    MlaDateFull(y, m, d);
  }

  lemma MlaDateExampleText(x: string, y: string)
    requires x == "15" && y == "Mar."
    ensures x + " " + y + " " + "2025" == "15 Mar. 2025"
  {
  }

  /** "2025-03-15" reads "15 Mar. 2025". */
  lemma MlaDateExample(date: string)
    requires date == "2025-03-15"
    ensures FormatMlaDate(date) == "15 Mar. 2025"
  {
    MlaDateExampleParts(date);
    DayFifteen();
    MonthThree();
    MlaDateExampleText(NatToString(DigitsValue("15")), MonthName(DigitsValue("03")));
  }

  /** A month written "0x…" or "0X…" is read in base 16, because
      `parseInt` is called without a radix. */
  lemma MlaDateHexMonth(y: string, x: char, hm: string, d: string)
    requires '-' !in y
    requires x == 'x' || x == 'X'
    requires |hm| > 0 && AllHexDigits(hm)
    requires |d| > 0 && AllDigits(d)
    ensures FormatMlaDate(y + "-" + (['0', x] + hm) + "-" + d)
      == NatToString(DigitsValue(d)) + " " + MonthName(HexValue(hm)) + " " + y
  {
    var m := ['0', x] + hm;
    HexNoDash(x, hm);
    DigitsNoDash(d);
    SplitThree(y, m, d);
    MlaDateHexParts(y, x, hm, d);
  }

  lemma HexNoDash(x: char, hm: string)
    requires x == 'x' || x == 'X'
    requires AllHexDigits(hm)
    ensures '-' !in ['0', x] + hm
  {
    var m := ['0', x] + hm;
    forall i | 0 <= i < |m| ensures m[i] != '-' {
      if i >= 2 {
        assert m[i] == hm[i - 2];
      }
    }
  }

  lemma MlaDateHexParts(y: string, x: char, hm: string, d: string)
    requires x == 'x' || x == 'X'
    requires |hm| > 0 && AllHexDigits(hm)
    requires |d| > 0 && AllDigits(d)
    ensures DayText(d) + " " + MonthText(['0', x] + hm) + " " + y
      == NatToString(DigitsValue(d)) + " " + MonthName(HexValue(hm)) + " " + y
  {
    ParseIntHex(x, hm);
    ParseIntDigits(d);
  }

  lemma DayOne()
    ensures AllDigits("01") && DigitsValue("01") == 1 && NatToString(1) == "1"
  {
    assert "01"[..1] == "0";
    assert "0"[..0] == "";
  }

  lemma HexThree()
    ensures AllHexDigits("3") && HexValue("3") == 3
  {
    assert "3"[..0] == "";
  }

  /** "2025-0x3-01" reads "1 Mar. 2025", the month taken as hexadecimal 3. */
  lemma MlaDateHexExample(date: string)
    requires date == "2025-0x3-01"
    ensures FormatMlaDate(date) == "1 Mar. 2025"
  {
    assert "2025" + "-" + (['0', 'x'] + "3") + "-" + "01" == date;
    DayOne();
    HexThree();
    MlaDateHexMonth("2025", 'x', "3", "01");
    MlaDateHexExampleText(NatToString(DigitsValue("01")), MonthName(HexValue("3")));
  }

  lemma MlaDateHexExampleText(x: string, y: string)
    requires x == "1" && y == "Mar."
    ensures x + " " + y + " " + "2025" == "1 Mar. 2025"
  {
  }

  /** The summary label: an annotation for books, chapters and theses. */
  function AbstractLabel(pubType: string): string {
    if BookLike(pubType) then "Annotation" else "Abstract"
  }

  function DetailsOpen(summary: string): string {
    "<details markdown=\"1\"><summary>" + summary + "</summary>\n"
  }

  const DetailsClose := "\n</details>\n"

  /** The collapsible abstract, absent without an abstract. */
  function AbstractBlock(e: Entry): string {
    if e.abstractText == "" then ""
    else DetailsOpen(AbstractLabel(e.pubType)) + JekyllText(e.abstractText) + DetailsClose
  }

  /** The block is present exactly when there is an abstract, is labelled by
      the publication type, and gives the abstract back between its opening
      and closing tags. */
  lemma AbstractBlockShape(e: Entry)
    ensures AbstractBlock(e) == "" <==> e.abstractText == ""
    ensures AbstractLabel(e.pubType) == "Annotation" <==> BookLike(e.pubType)
    ensures AbstractLabel(e.pubType) == "Abstract" <==> !BookLike(e.pubType)
    ensures e.abstractText != "" ==>
      var b := AbstractBlock(e);
      var o := DetailsOpen(AbstractLabel(e.pubType));
      && StartsWith(b, o) && EndsWith(b, DetailsClose)
      && |o| + |DetailsClose| <= |b|
      && UnJekyll(b[|o|..|b| - |DetailsClose|]) == e.abstractText
  {
    if e.abstractText != "" {
      var b := AbstractBlock(e);
      var o := DetailsOpen(AbstractLabel(e.pubType));
      var j := JekyllText(e.abstractText);
      assert b == o + j + DetailsClose;
      assert b[..|o|] == o;
      assert b[|b| - |DetailsClose|..] == DetailsClose;
      assert b[|o|..|b| - |DetailsClose|] == j;
      JekyllTextRoundTrip(e.abstractText);
    }
  }

  /** The author list and citation line. */
  function PublicationHead(e: Entry): string {
    AuthorsPrefix(e.authors.GetOr([])) + Citation(e) + "\n"
  }

  /** The "why it matters" and signal lines. */
  function PublicationNotes(e: Entry): string {
    (if e.whyItMatters != "" then "*" + JekyllText(e.whyItMatters) + "*\n" else "")
      + (if e.signal != "" then "**Signal**: " + e.signal + "\n" else "")
  }

  /** `generatePublicationMarkdown`. An entry without an author list renders
      as one with an empty list. */
  function RenderPublication(e: Entry): string {
    PublicationHead(e) + PublicationNotes(e) + AbstractBlock(e) + "\n"
  }

  predicate EndsInNewline(s: string) {
    |s| > 0 && s[|s| - 1] == '\n'
  }

  lemma EndsInNewlineAppend(a: string, b: string)
    requires EndsInNewline(a) && (b == "" || EndsInNewline(b))
    ensures EndsInNewline(a + b)
  {
    if b == "" {
      assert a + b == a;
    }
  }

  lemma BlockShape(head: string, notes: string, block: string)
    requires EndsInNewline(head)
    requires notes == "" || EndsInNewline(notes)
    requires block == "" || EndsInNewline(block)
    ensures StartsWith(head + notes + block + "\n", head)
    ensures EndsWith(head + notes + block + "\n", block + "\n")
    ensures EndsWith(head + notes + block + "\n", "\n\n")
  {
    var r := head + notes + block + "\n";
    assert r == head + (notes + block + "\n");
    StartsWithAppend(head, notes + block + "\n");
    assert r == (head + notes) + (block + "\n");
    EndsWithAppend(head + notes, block + "\n");
    EndsInNewlineAppend(head, notes);
    EndsInNewlineAppend(head + notes, block);
    NewlineThenNewline(head + notes + block);
  }

  lemma StartsWithAppend(a: string, b: string)
    ensures StartsWith(a + b, a)
  {
    assert (a + b)[..|a|] == a;
  }

  lemma NewlineThenNewline(s: string)
    requires EndsInNewline(s)
    ensures EndsWith(s + "\n", "\n\n")
  {
    assert (s + "\n")[|s| - 1..] == "\n\n";
  }

  /** A publication opens with its author list and citation on one line and
      closes with a blank line, right after the abstract block. */
  lemma RenderPublicationShape(e: Entry)
    ensures StartsWith(RenderPublication(e), AuthorsPrefix(e.authors.GetOr([])) + Citation(e) + "\n")
    ensures EndsWith(RenderPublication(e), AbstractBlock(e) + "\n")
    ensures EndsWith(RenderPublication(e), "\n\n")
  {
    var notes := PublicationNotes(e);
    if notes != "" {
      var why := if e.whyItMatters != "" then "*" + JekyllText(e.whyItMatters) + "*\n" else "";
      var signal := if e.signal != "" then "**Signal**: " + e.signal + "\n" else "";
      assert why == "" || EndsInNewline(why);
      assert signal == "" || EndsInNewline(signal);
      if signal == "" {
        assert notes == why;
      } else if why == "" {
        assert notes == signal;
      } else {
        EndsInNewlineAppend(why, signal);
      }
    }
    BlockShape(PublicationHead(e), notes, AbstractBlock(e));
  }

  // ---------------------------------------------------------------------------
  // Journal issues, events, calls and media

  /** A field shown inside one line of output. */
  predicate SingleLine(s: string) {
    '\n' !in s
  }

  /** A line that is written only when `present`, closed by a hard break. */
  function Line(present: bool, text: string): string {
    if present then text + HardBreak else ""
  }

  /** `value || fallback` on strings. */
  function OrElse(value: string, fallback: string): string {
    if value != "" then value else fallback
  }

  /** The "why it matters" and signal lines of the non-publication renderers;
      unlike a publication's, they close with hard breaks. */
  function HardNotes(e: Entry): string {
    Line(e.whyItMatters != "", "*" + JekyllText(e.whyItMatters) + "*")
      + Line(e.signal != "", "**Signal**: " + e.signal)
  }

  lemma LineHard(present: bool, text: string)
    requires SingleLine(text)
    ensures AllBreaksHard(Line(present, text))
  {
    HardLine(text);
  }

  lemma JekyllLineHard(present: bool, prefix: string, t: string, suffix: string)
    requires SingleLine(prefix) && SingleLine(suffix)
    ensures AllBreaksHard(Line(present, prefix + JekyllText(t) + suffix))
  {
    HardWrapped(prefix, t, suffix);
  }

  lemma HardNotesHard(e: Entry)
    requires SingleLine(e.signal)
    ensures AllBreaksHard(HardNotes(e))
  {
    JekyllLineHard(e.whyItMatters != "", "*", e.whyItMatters, "*");
    LineHard(e.signal != "", "**Signal**: " + e.signal);
    AllBreaksHardAppend(Line(e.whyItMatters != "", "*" + JekyllText(e.whyItMatters) + "*"),
      Line(e.signal != "", "**Signal**: " + e.signal));
  }

  /** A rendered block whose newlines are all hard breaks except the last
      `plain` ones, which end it. */
  predicate HardUntil(r: string, plain: nat) {
    plain <= |r| && AllBreaksHard(r[..|r| - plain])
      && forall i :: |r| - plain <= i < |r| ==> r[i] == '\n'
  }

  lemma HardUntilOne(body: string)
    requires AllBreaksHard(body)
    ensures HardUntil(body + "\n", 1)
  {
    assert (body + "\n")[..|body|] == body;
  }

  lemma HardUntilTwo(body: string, link: string)
    requires AllBreaksHard(body) && SingleLine(link)
    ensures HardUntil(body + link + "\n\n", 2)
  {
    NoNewlineHard(link);
    AllBreaksHardAppend(body, link);
    assert (body + link + "\n\n")[..|body + link|] == body + link;
  }

  /** The description-less heading of a journal issue: each present field in
      a fixed order, then a period. */
  function JournalHeading(e: Entry): string {
    Opt("*", e.journalName, "*") + Opt(", Vol. ", e.volume, "") + Opt(", No. ", e.issue, "")
      + Opt(" (", e.date, ")") + Opt(": \"", e.theme, "\"") + Opt(", edited by ", e.guestEditor, "")
      + "."
  }

  /** The journal link: no leading space, no "DOI" label, and "Link" rather
      than "link" by default. */
  function JournalLink(e: Entry): string {
    if e.url == "" then ""
    else if e.openAccess then MarkdownLink(OpenAccessBadge, e.url)
    else MarkdownLink(OrElse(e.urlText, "Link"), e.url)
  }

  function JournalBody(e: Entry): string {
    Line(true, JournalHeading(e)) + Line(e.description != "", JekyllText(e.description)) + HardNotes(e)
  }

  /** `generateJournalMarkdown`. */
  function RenderJournal(e: Entry): string {
    JournalBody(e) + JournalLink(e) + "\n\n"
  }

  predicate JournalSingleLines(e: Entry) {
    && SingleLine(e.journalName) && SingleLine(e.volume) && SingleLine(e.issue)
    && SingleLine(e.date) && SingleLine(e.theme) && SingleLine(e.guestEditor)
    && SingleLine(e.signal) && SingleLine(e.url) && SingleLine(e.urlText)
  }

  lemma BadgeStartSingleLine() ensures SingleLine(BadgeStart) {}
  lemma BadgeColourSingleLine() ensures SingleLine(BadgeColour) {}
  lemma BadgeShapeSingleLine() ensures SingleLine(BadgeShape) {}
  lemma BadgeEndSingleLine() ensures SingleLine(BadgeEnd) {}

  lemma BadgeSingleLine()
    ensures SingleLine(OpenAccessBadge)
  {
    BadgeStartSingleLine();
    BadgeColourSingleLine();
    BadgeShapeSingleLine();
    BadgeEndSingleLine();
  }

  lemma MarkdownLinkSingleLine(text: string, url: string)
    requires SingleLine(text) && SingleLine(url)
    ensures SingleLine(MarkdownLink(text, url))
  {
  }

  lemma JournalLinkSingleLine(e: Entry)
    requires SingleLine(e.url) && SingleLine(e.urlText)
    ensures SingleLine(JournalLink(e))
  {
    if e.url != "" {
      if e.openAccess {
        BadgeSingleLine();
        MarkdownLinkSingleLine(OpenAccessBadge, e.url);
      } else {
        MarkdownLinkSingleLine(OrElse(e.urlText, "Link"), e.url);
      }
    }
  }

  /** With single-line fields, the heading, description and note lines end in
      hard breaks, the link line does not, and the block closes with a blank
      line. */
  lemma RenderJournalHardBreaks(e: Entry)
    requires JournalSingleLines(e)
    ensures HardUntil(RenderJournal(e), 2)
  {
    LineHard(true, JournalHeading(e));
    JekyllLineHard(e.description != "", "", e.description, "");
    assert "" + JekyllText(e.description) + "" == JekyllText(e.description);
    HardNotesHard(e);
    AllBreaksHardAppend(Line(true, JournalHeading(e)), Line(e.description != "", JekyllText(e.description)));
    AllBreaksHardAppend(Line(true, JournalHeading(e)) + Line(e.description != "", JekyllText(e.description)), HardNotes(e));
    JournalLinkSingleLine(e);
    HardUntilTwo(JournalBody(e), JournalLink(e));
  }

  /** The heading line is written even when every field is empty. */
  lemma RenderJournalEmpty(e: Entry)
    requires e.journalName == "" && e.volume == "" && e.issue == "" && e.date == ""
    requires e.theme == "" && e.guestEditor == "" && e.description == ""
    requires e.whyItMatters == "" && e.signal == "" && e.url == ""
    ensures RenderJournal(e) == ".  \n\n\n"
  {
  }

  /** Against `formatURL`: the journal link is the same link without the
      leading space when a custom text is given and the URL holds no DOI,
      and it differs in the default text otherwise. */
  lemma JournalLinkVsFormatUrl(e: Entry)
    ensures JournalLink(e) == "" <==> e.url == ""
    ensures e.url != "" && (e.openAccess || (e.urlText != "" && !(Contains(e.url, "doi.org/") && HasDoi(e.url)))) ==>
      FormatUrl(e.url, e.urlText, e.openAccess) == " " + JournalLink(e)
    ensures e.url != "" && !e.openAccess && e.urlText == "" ==>
      JournalLink(e) == MarkdownLink("Link", e.url)
      && FormatUrl(e.url, e.urlText, e.openAccess) != " " + JournalLink(e)
  {
    FormatUrlChoice(e.url, e.urlText, e.openAccess);
    if e.url != "" && !e.openAccess && e.urlText == "" {
      var f := FormatUrl(e.url, e.urlText, e.openAccess);
      var l := LinkLabel(e.url, e.urlText, e.openAccess);
      assert f == " " + MarkdownLink(l, e.url);
      assert l == "DOI" || l == "link";
      assert f[2] == l[0];
      assert (" " + MarkdownLink("Link", e.url))[2] == 'L';
    }
  }

  /** The dates of an event line: the end date follows " to " whenever it is
      given, even when it equals the start date. */
  function EventDates(start: string, end: string): string {
    start + Opt(" to ", end, "")
  }

  /** The event block keeps an end date equal to the start date, where the
      front matter's `formatEventDate` collapses the range to one date. */
  lemma EventDatesKeepEqualEnd(d: string)
    requires d != ""
    ensures EventDates(d, d) == d + " to " + d
    ensures FrontmatterYaml.FormatEventDate(d, d) == d
    ensures EventDates(d, d) != FrontmatterYaml.FormatEventDate(d, d)
  {
    assert |EventDates(d, d)| > |d|;
  }

  /** Each present date is shown, start first; nothing else is added. */
  lemma EventDatesParts(start: string, end: string)
    ensures StartsWith(EventDates(start, end), start)
    ensures EventDates(start, end) == start <==> end == ""
    ensures end != "" ==> EndsWith(EventDates(start, end), " to " + end)
  {
    var r := EventDates(start, end);
    assert r[..|start|] == start;
    if end != "" {
      assert r == start + " to " + end;
      assert |r| > |start|;
      assert r[|r| - |" to " + end|..] == " to " + end;
    } else {
      assert r == start;
    }
  }

  lemma HardLines4(a: string, b: string, c: string, d: string)
    requires AllBreaksHard(a) && AllBreaksHard(b) && AllBreaksHard(c) && AllBreaksHard(d)
    ensures HardUntil(a + b + c + d + "\n", 1)
  {
    HardAppend3(a, b, c);
    AllBreaksHardAppend(a + b + c, d);
    HardUntilOne(a + b + c + d);
  }

  lemma HardLines5(a: string, b: string, c: string, d: string, f: string)
    requires AllBreaksHard(a) && AllBreaksHard(b) && AllBreaksHard(c) && AllBreaksHard(d) && AllBreaksHard(f)
    ensures HardUntil(a + b + c + d + f + "\n", 1)
  {
    HardAppend3(a, b, c);
    HardAppend3(a + b + c, d, f);
    HardUntilOne(a + b + c + d + f);
  }

  lemma HardLines7(a: string, b: string, c: string, d: string, f: string, g: string, h: string)
    requires AllBreaksHard(a) && AllBreaksHard(b) && AllBreaksHard(c) && AllBreaksHard(d)
    requires AllBreaksHard(f) && AllBreaksHard(g) && AllBreaksHard(h)
    ensures HardUntil(a + b + c + d + f + g + h + "\n", 1)
  {
    HardAppend3(a, b, c);
    HardAppend3(a + b + c, d, f);
    HardAppend3(a + b + c + d + f, g, h);
    HardUntilOne(a + b + c + d + f + g + h);
  }

  lemma FirstOf5(a: string, b: string, c: string, d: string, f: string)
    ensures StartsWith(a + b + c + d + f, a)
  {
    assert (a + b + c + d + f)[..|a|] == a;
  }

  lemma FirstOf6(a: string, b: string, c: string, d: string, f: string, g: string)
    ensures StartsWith(a + b + c + d + f + g, a)
  {
    assert (a + b + c + d + f + g)[..|a|] == a;
  }

  function EventTitleLine(e: Entry): string {
    Line(e.title != "", "**" + e.title + "**" + Opt(" \"", e.theme, "\""))
  }

  function EventDatesLine(e: Entry): string {
    Line(e.dateStart != "", "Dates: " + EventDates(e.dateStart, e.dateEnd))
  }

  function EventPlaceLine(e: Entry): string {
    Line(e.place != "", "Place: " + e.place + Opt(", ", e.venue, ""))
  }

  function EventDescriptionLine(e: Entry): string {
    Line(e.description != "", "Description: " + JekyllText(e.description))
  }

  function EventBody(e: Entry): string {
    EventTitleLine(e) + EventDatesLine(e)
      + Line(e.cfpDeadline != "", "CfP Deadline: " + e.cfpDeadline)
      + EventPlaceLine(e) + EventDescriptionLine(e) + HardNotes(e)
      + Line(e.url != "", MarkdownLink("Website", e.url))
  }

  /** `generateEventMarkdown`. */
  function RenderEvent(e: Entry): string {
    EventBody(e) + "\n"
  }

  predicate EventSingleLines(e: Entry) {
    && SingleLine(e.title) && SingleLine(e.theme) && SingleLine(e.dateStart) && SingleLine(e.dateEnd)
    && SingleLine(e.cfpDeadline) && SingleLine(e.place) && SingleLine(e.venue)
    && SingleLine(e.signal) && SingleLine(e.url)
  }

  lemma EventHeadLinesHard(e: Entry)
    requires EventSingleLines(e)
    ensures AllBreaksHard(EventTitleLine(e)) && AllBreaksHard(EventDatesLine(e))
  {
    LineHard(e.title != "", "**" + e.title + "**" + Opt(" \"", e.theme, "\""));
    LineHard(e.dateStart != "", "Dates: " + EventDates(e.dateStart, e.dateEnd));
  }

  lemma EventMiddleLinesHard(e: Entry)
    requires EventSingleLines(e)
    ensures AllBreaksHard(EventPlaceLine(e)) && AllBreaksHard(EventDescriptionLine(e))
  {
    LineHard(e.place != "", "Place: " + e.place + Opt(", ", e.venue, ""));
    JekyllLineHard(e.description != "", "Description: ", e.description, "");
    assert "Description: " + JekyllText(e.description) + "" == "Description: " + JekyllText(e.description);
  }

  lemma HardAppend3(a: string, b: string, c: string)
    requires AllBreaksHard(a) && AllBreaksHard(b) && AllBreaksHard(c)
    ensures AllBreaksHard(a + b + c)
  {
    AllBreaksHardAppend(a, b);
    AllBreaksHardAppend(a + b, c);
  }

  /** With single-line fields, every line of an event ends in a hard break
      and only the closing blank line is a plain newline. */
  lemma RenderEventHardBreaks(e: Entry)
    requires EventSingleLines(e)
    ensures HardUntil(RenderEvent(e), 1)
  {
    EventHeadLinesHard(e);
    EventMiddleLinesHard(e);
    LineHard(e.cfpDeadline != "", "CfP Deadline: " + e.cfpDeadline);
    HardNotesHard(e);
    MarkdownLinkSingleLine("Website", e.url);
    LineHard(e.url != "", MarkdownLink("Website", e.url));
    HardLines7(EventTitleLine(e), EventDatesLine(e), Line(e.cfpDeadline != "", "CfP Deadline: " + e.cfpDeadline),
      EventPlaceLine(e), EventDescriptionLine(e), HardNotes(e), Line(e.url != "", MarkdownLink("Website", e.url)));
  }

  lemma LastOf(front: string, last: string)
    ensures EndsWith(front + last + "\n", last + "\n")
  {
    assert front + last + "\n" == front + (last + "\n");
    EndsWithAppend(front, last + "\n");
  }

  /** An event whose link is given closes with it, then a blank line. */
  lemma RenderEventLinkLast(e: Entry)
    requires e.url != ""
    ensures EndsWith(RenderEvent(e), MarkdownLink("Website", e.url) + HardBreak + "\n")
  {
    var link := Line(e.url != "", MarkdownLink("Website", e.url));
    LastOf(EventTitleLine(e) + EventDatesLine(e) + Line(e.cfpDeadline != "", "CfP Deadline: " + e.cfpDeadline)
      + EventPlaceLine(e) + EventDescriptionLine(e) + HardNotes(e), link);
  }

  /** An event with nothing to show contributes a blank line only. */
  lemma RenderEventEmpty(e: Entry)
    requires e.title == "" && e.dateStart == "" && e.cfpDeadline == "" && e.place == ""
    requires e.description == "" && e.whyItMatters == "" && e.signal == "" && e.url == ""
    ensures RenderEvent(e) == "\n"
  {
  }

  function CallBody(e: Entry): string {
    Line(e.title != "", "**" + e.title + "** - " + e.theme)
      + Line(e.deadline != "", "Deadline: " + e.deadline)
      + HardNotes(e)
      + Line(e.url != "", MarkdownLink("Apply", e.url))
  }

  /** `generateCallMarkdown`: the title line is written with its dash even
      when the theme is empty. */
  function RenderCall(e: Entry): string {
    CallBody(e) + "\n"
  }

  predicate CallSingleLines(e: Entry) {
    SingleLine(e.title) && SingleLine(e.theme) && SingleLine(e.deadline) && SingleLine(e.signal) && SingleLine(e.url)
  }

  /** With single-line fields, only the closing blank line of a call is a
      plain newline. */
  lemma RenderCallHardBreaks(e: Entry)
    requires CallSingleLines(e)
    ensures HardUntil(RenderCall(e), 1)
  {
    LineHard(e.title != "", "**" + e.title + "** - " + e.theme);
    LineHard(e.deadline != "", "Deadline: " + e.deadline);
    HardNotesHard(e);
    MarkdownLinkSingleLine("Apply", e.url);
    LineHard(e.url != "", MarkdownLink("Apply", e.url));
    HardLines4(Line(e.title != "", "**" + e.title + "** - " + e.theme),
      Line(e.deadline != "", "Deadline: " + e.deadline),
      HardNotes(e), Line(e.url != "", MarkdownLink("Apply", e.url)));
  }

  /** A titled call with no theme keeps the dash after its title. */
  lemma RenderCallDash(e: Entry)
    requires e.title != "" && e.theme == ""
    ensures StartsWith(RenderCall(e), "**" + e.title + "** - " + HardBreak)
  {
    var l1 := Line(e.title != "", "**" + e.title + "** - " + e.theme);
    assert l1 == "**" + e.title + "** - " + HardBreak by {
      assert "**" + e.title + "** - " + e.theme == "**" + e.title + "** - ";
    }
    FirstOf5(l1, Line(e.deadline != "", "Deadline: " + e.deadline), HardNotes(e),
      Line(e.url != "", MarkdownLink("Apply", e.url)), "\n");
  }

  function MediaTitleLine(e: Entry): string {
    Line(e.title != "", "**" + e.title + "** (" + OrElse(e.mediaType, "Media") + ")")
  }

  function MediaBody(e: Entry): string {
    MediaTitleLine(e) + Line(e.creator != "", "By: " + e.creator)
      + Line(e.description != "", JekyllText(e.description))
      + HardNotes(e)
      + Line(e.url != "", MarkdownLink("Watch/Listen", e.url))
  }

  /** `generateMediaMarkdown`. */
  function RenderMedia(e: Entry): string {
    MediaBody(e) + "\n"
  }

  predicate MediaSingleLines(e: Entry) {
    SingleLine(e.title) && SingleLine(e.mediaType) && SingleLine(e.creator) && SingleLine(e.signal) && SingleLine(e.url)
  }

  lemma MediaTopLinesHard(e: Entry)
    requires MediaSingleLines(e)
    ensures AllBreaksHard(MediaTitleLine(e)) && AllBreaksHard(Line(e.creator != "", "By: " + e.creator))
    ensures AllBreaksHard(Line(e.description != "", JekyllText(e.description)))
  {
    LineHard(e.title != "", "**" + e.title + "** (" + OrElse(e.mediaType, "Media") + ")");
    LineHard(e.creator != "", "By: " + e.creator);
    JekyllLineHard(e.description != "", "", e.description, "");
    assert "" + JekyllText(e.description) + "" == JekyllText(e.description);
  }

  /** With single-line fields, only the closing blank line of a media item
      is a plain newline. */
  lemma RenderMediaHardBreaks(e: Entry)
    requires MediaSingleLines(e)
    ensures HardUntil(RenderMedia(e), 1)
  {
    MediaTopLinesHard(e);
    HardNotesHard(e);
    MarkdownLinkSingleLine("Watch/Listen", e.url);
    LineHard(e.url != "", MarkdownLink("Watch/Listen", e.url));
    HardLines5(MediaTitleLine(e), Line(e.creator != "", "By: " + e.creator),
      Line(e.description != "", JekyllText(e.description)),
      HardNotes(e), Line(e.url != "", MarkdownLink("Watch/Listen", e.url)));
  }

  /** A titled item without a media type is labelled "Media". */
  lemma RenderMediaDefaultType(e: Entry)
    requires e.title != "" && e.mediaType == ""
    ensures StartsWith(RenderMedia(e), "**" + e.title + "** (Media)" + HardBreak)
  {
    assert MediaTitleLine(e) == "**" + e.title + "** (Media)" + HardBreak;
    FirstOf6(MediaTitleLine(e), Line(e.creator != "", "By: " + e.creator), Line(e.description != "", JekyllText(e.description)),
      HardNotes(e), Line(e.url != "", MarkdownLink("Watch/Listen", e.url)), "\n");
  }
}
