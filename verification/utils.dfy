/** The text helpers and the entry order shared by the preview and the export:
    `sortEntries`, `toTitleCase`, `mapCSLType`, `formatCSLDate`,
    `sanitizeFilename` and `validateDate`. */
module Utils {
  import opened Base
  import opened Strings
  import opened Model
  import Sorting

  // ---------------------------------------------------------------------------
  // Entry order

  /** `importance || 2`: an unset (0) importance counts as 2. */
  function EffectiveImportance(e: Entry): int {
    if e.importance == 0 then 2 else e.importance
  }

  /** The comparator of `sortEntries`: importance ascending, then, when both
      dates are present and differ, newest first (dates are ISO strings, so
      newer means lexicographically larger), then title ascending. */
  function CompareEntries(a: Entry, b: Entry): int {
    var ia := EffectiveImportance(a);
    var ib := EffectiveImportance(b);
    if ia != ib then (if ia < ib then -1 else 1)
    else if a.date != "" && b.date != "" && a.date != b.date then (if LexLess(b.date, a.date) then -1 else 1)
    else LexCompare(a.title, b.title)
  }

  /** `sortEntries`: a sorted copy; the input sequence is a value and so is
      never modified. */
  function SortEntries(entries: seq<Entry>): seq<Entry> {
    Sorting.SortBy(CompareEntries, entries)
  }

  /** The order the comparator induces when every entry of an importance group
      has a date or none has: importance ascending, then date descending, then
      title ascending. Unlike `CompareEntries` it is transitive on all entries. */
  function DigestOrder(a: Entry, b: Entry): int {
    var ia := EffectiveImportance(a);
    var ib := EffectiveImportance(b);
    if ia != ib then (if ia < ib then -1 else 1)
    else if a.date != b.date then (if LexLess(b.date, a.date) then -1 else 1)
    else LexCompare(a.title, b.title)
  }

  /** Within each importance group either every entry has a date or none has.
      Only then is the comparator of `sortEntries` a consistent order. */
  ghost predicate DatesUniform(entries: seq<Entry>) {
    forall i, j ::
      (0 <= i < |entries| && 0 <= j < |entries| &&
       EffectiveImportance(entries[i]) == EffectiveImportance(entries[j])) ==>
      (entries[i].date == "" <==> entries[j].date == "")
  }

  /** `a` may precede `b` in the digest: lower importance value first; within
      one importance the newer date first; with equal (or no) dates the
      smaller title first. */
  ghost predicate MayPrecede(a: Entry, b: Entry) {
    || EffectiveImportance(a) < EffectiveImportance(b)
    || (&& EffectiveImportance(a) == EffectiveImportance(b)
        && (|| LexLess(b.date, a.date)
            || (a.date == b.date && !LexLess(b.title, a.title))))
  }

  lemma DigestOrderIsTotalPreorder()
    ensures Sorting.TotalPreorder(DigestOrder)
  {
    forall a: Entry, b: Entry | DigestOrder(a, b) > 0
      ensures DigestOrder(b, a) < 0
    {
      LexLessAsymmetric(a.date, b.date);
      LexLessAsymmetric(a.title, b.title);
      if a.date == b.date && a.title != b.title {
        LexLessTotal(a.title, b.title);
      }
      if a.date != b.date {
        LexLessTotal(a.date, b.date);
      }
    }
    forall a: Entry, b: Entry | DigestOrder(a, b) < 0
      ensures DigestOrder(b, a) > 0
    {
      LexLessAsymmetric(a.date, b.date);
      LexLessAsymmetric(a.title, b.title);
    }
    forall a: Entry, b: Entry, c: Entry | DigestOrder(a, b) <= 0 && DigestOrder(b, c) <= 0
      ensures DigestOrder(a, c) <= 0
    {
      DigestOrderTransitive(a, b, c);
    }
  }

  lemma DigestOrderTransitive(a: Entry, b: Entry, c: Entry)
    requires DigestOrder(a, b) <= 0 && DigestOrder(b, c) <= 0
    ensures DigestOrder(a, c) <= 0
  {
    var ia, ib, ic := EffectiveImportance(a), EffectiveImportance(b), EffectiveImportance(c);
    if ia == ib && ib == ic {
      if a.date != b.date && b.date != c.date {
        LexLessTransitive(c.date, b.date, a.date);
        LexLessIrreflexive(a.date);
      } else if a.date == b.date && b.date == c.date {
        if a.title != b.title && b.title != c.title {
          LexLessTransitive(a.title, b.title, c.title);
          LexLessIrreflexive(a.title);
        }
      }
    }
  }

  lemma DigestOrderMeansMayPrecede(a: Entry, b: Entry)
    requires DigestOrder(a, b) <= 0
    ensures MayPrecede(a, b)
  {
    if a.title != b.title {
      LexLessAsymmetric(a.title, b.title);
    } else {
      LexLessIrreflexive(a.title);
    }
  }

  /** Under `DatesUniform` the source comparator and `DigestOrder` agree. */
  lemma CompareAgreesWithDigestOrder(entries: seq<Entry>)
    requires DatesUniform(entries)
    ensures forall a, b :: a in entries && b in entries ==> CompareEntries(a, b) == DigestOrder(a, b)
  {
  }

  lemma SortEntriesIsDigestSort(entries: seq<Entry>)
    requires DatesUniform(entries)
    ensures SortEntries(entries) == Sorting.SortBy(DigestOrder, entries)
  {
    CompareAgreesWithDigestOrder(entries);
    Sorting.SortAgree(CompareEntries, DigestOrder, entries);
  }

  /** `sortEntries` returns a permutation of its input. */
  lemma SortEntriesPermutes(entries: seq<Entry>)
    ensures multiset(SortEntries(entries)) == multiset(entries)
  {
    Sorting.SortPermutes(CompareEntries, entries);
  }

  /** Importance never decreases along the output, for every input. */
  lemma SortEntriesByImportance(entries: seq<Entry>)
    ensures var r := SortEntries(entries);
      forall i, j :: 0 <= i < j < |r| ==> EffectiveImportance(r[i]) <= EffectiveImportance(r[j])
  {
    Sorting.SortKeySorted(CompareEntries, EffectiveImportance, entries);
  }

  /** With consistent dates, the output is in digest order: importance
      ascending, newest date first, then title ascending. */
  lemma SortEntriesOrdered(entries: seq<Entry>)
    requires DatesUniform(entries)
    ensures var r := SortEntries(entries);
      forall i, j :: 0 <= i < j < |r| ==> MayPrecede(r[i], r[j])
  {
    SortEntriesIsDigestSort(entries);
    DigestOrderIsTotalPreorder();
    Sorting.SortSorted(DigestOrder, entries);
    var r := SortEntries(entries);
    forall i, j | 0 <= i < j < |r|
      ensures MayPrecede(r[i], r[j])
    {
      DigestOrderMeansMayPrecede(r[i], r[j]);
    }
  }

  /** With consistent dates, entries equal in importance, date and title keep
      their input order (the sort is stable). */
  lemma SortEntriesStable(entries: seq<Entry>, x: Entry)
    requires DatesUniform(entries)
    ensures Sorting.Ties(DigestOrder, SortEntries(entries), x) == Sorting.Ties(DigestOrder, entries, x)
  {
    SortEntriesIsDigestSort(entries);
    DigestOrderIsTotalPreorder();
    Sorting.SortStable(DigestOrder, entries, x);
  }

  /** The entries `DigestOrder` ties are those equal in importance, date and title. */
  lemma DigestOrderTies(a: Entry, b: Entry)
    ensures DigestOrder(a, b) == 0 <==>
      EffectiveImportance(a) == EffectiveImportance(b) && a.date == b.date && a.title == b.title
  {
  }

  // ---------------------------------------------------------------------------
  // Title case

  /** The words `toTitleCase` keeps lower-case inside a title. */
  const SmallWords: set<string> := {
    "a", "an", "the", "and", "but", "or", "nor", "for", "yet", "so", "at", "by",
    "in", "of", "on", "to", "up", "as", "is", "if", "it", "from", "into", "with",
    "via", "per", "vs"
  }

  /** The treatment of the word at `index` of `count` lower-cased words. */
  function TitleWord(w: string, index: nat, count: nat): string {
    if index == 0 || index == count - 1 then Capitalize(w)
    else if w in SmallWords then w
    else Capitalize(w)
  }

  function TitleWords(ws: seq<string>): (r: seq<string>)
    ensures |r| == |ws|
    ensures forall i :: 0 <= i < |ws| ==> r[i] == TitleWord(ws[i], i, |ws|)
  {
    seq(|ws|, i requires 0 <= i < |ws| => TitleWord(ws[i], i, |ws|))
  }

  /** `toTitleCase`: the empty string unchanged; otherwise lower-case, split
      on single spaces, capitalise each word except small words strictly
      inside, and join with single spaces. */
  function ToTitleCase(s: string): string {
    if s == "" then s else Join(TitleWords(Split(Lower(s), ' ')), " ")
  }

  function LowerAll(ws: seq<string>): (r: seq<string>)
    ensures |r| == |ws|
    ensures forall i :: 0 <= i < |ws| ==> r[i] == Lower(ws[i])
  {
    seq(|ws|, i requires 0 <= i < |ws| => Lower(ws[i]))
  }

  /** Lower-casing commutes with splitting on a space. */
  lemma {:induction false} SplitLower(s: string)
    ensures Split(Lower(s), ' ') == LowerAll(Split(s, ' '))
    decreases |s|
  {
    if ' ' in s {
      var i := IndexOf(s, ' ');
      var rest := Split(s[i + 1..], ' ');
      LowerAt(s, i);
      SplitAt(s, ' ', i);
      SplitAt(Lower(s), ' ', i);
      SplitLower(s[i + 1..]);
      LowerAllCons(s[..i], rest);
    } else {
      LowerNoSpace(s);
      assert LowerAll([s]) == [Lower(s)];
    }
  }

  /** Lower-casing keeps the first space where it is. */
  lemma LowerAt(s: string, i: nat)
    requires i < |s| && s[i] == ' ' && ' ' !in s[..i]
    ensures var l := Lower(s);
      l[i] == ' ' && ' ' !in l[..i] && l[..i] == Lower(s[..i]) && l[i + 1..] == Lower(s[i + 1..])
  {
    var l := Lower(s);
    forall k | 0 <= k < i ensures l[..i][k] != ' ' {
      assert s[..i][k] == s[k];
    }
  }

  lemma LowerNoSpace(s: string)
    requires ' ' !in s
    ensures ' ' !in Lower(s)
  {
    var l := Lower(s);
    forall k | 0 <= k < |l| ensures l[k] != ' ' {
      assert s[k] != ' ';
    }
  }

  lemma LowerAllCons(w: string, ws: seq<string>)
    ensures LowerAll([w] + ws) == [Lower(w)] + LowerAll(ws)
  {
  }

  lemma {:induction false} LowerJoin(ws: seq<string>, sep: string)
    ensures Lower(Join(ws, sep)) == Join(LowerAll(ws), Lower(sep))
  {
    if |ws| > 1 {
      LowerJoin(ws[1..], sep);
      LowerAppend(ws[0] + sep, Join(ws[1..], sep));
      LowerAppend(ws[0], sep);
      assert LowerAll(ws)[1..] == LowerAll(ws[1..]);
    }
  }

  lemma TitleWordLower(w: string, index: nat, count: nat)
    requires Lower(w) == w
    ensures Lower(TitleWord(w, index, count)) == w
    ensures ' ' !in w ==> ' ' !in TitleWord(w, index, count)
  {
    if |w| > 0 {
      var c := Capitalize(w);
      assert Lower(c) == [LowerChar(UpperChar(w[0]))] + Lower(w[1..]);
      assert LowerChar(w[0]) == w[0];
      assert Lower(w[1..]) == w[1..] by {
        assert Lower(w)[1..] == Lower(w[1..]);
      }
      assert ' ' !in w ==> ' ' !in c by {
        if ' ' !in w {
          forall k | 0 <= k < |c| ensures c[k] != ' ' {
            if k > 0 {
              assert c[k] == w[k];
            }
          }
        }
      }
    }
  }

  /** The lower-cased words of `s`. */
  function LowerWords(s: string): seq<string> {
    Split(Lower(s), ' ')
  }

  lemma LowerWordsAreLower(s: string)
    ensures var ws := LowerWords(s);
      forall i :: 0 <= i < |ws| ==> Lower(ws[i]) == ws[i] && ' ' !in ws[i]
  {
    SplitLower(s);
    var ws := LowerWords(s);
    forall i | 0 <= i < |ws| ensures Lower(ws[i]) == ws[i] {
      LowerIdempotent(Split(s, ' ')[i]);
    }
  }

  /** Title-casing changes letter case only: lower-casing its output gives the
      lower-cased input. */
  lemma TitleCaseLower(s: string)
    ensures Lower(ToTitleCase(s)) == Lower(s)
  {
    if s != "" {
      var ws := LowerWords(s);
      var tw := TitleWords(ws);
      LowerWordsAreLower(s);
      LowerJoin(tw, " ");
      assert Lower(" ") == " ";
      forall i | 0 <= i < |ws| ensures LowerAll(tw)[i] == ws[i] {
        TitleWordLower(ws[i], i, |ws|);
      }
      assert LowerAll(tw) == ws;
      JoinSplit(Lower(s), ' ');
      assert [' '] == " ";
    }
  }

  /** Splitting the output on spaces gives the title-cased words of the
      lower-cased input. */
  lemma TitleCaseSplit(s: string)
    requires s != ""
    ensures Split(ToTitleCase(s), ' ') == TitleWords(LowerAll(Split(s, ' ')))
  {
    var ws := LowerWords(s);
    var tw := TitleWords(ws);
    LowerWordsAreLower(s);
    SplitLower(s);
    forall i | 0 <= i < |tw| ensures ' ' !in tw[i] {
      TitleWordLower(ws[i], i, |ws|);
    }
    SplitJoin(tw, ' ');
    assert [' '] == " ";
  }

  /** The words of the output are the title-cased words of the input: their
      number is preserved, only letter case changes, first and last are
      capitalised, small words strictly inside stay lower-case and all other
      words are capitalised. */
  lemma TitleCaseWords(s: string)
    requires s != ""
    ensures |Split(ToTitleCase(s), ' ')| == |Split(s, ' ')|
    ensures forall i :: 0 <= i < |Split(s, ' ')| ==>
      Lower(Split(ToTitleCase(s), ' ')[i]) == Lower(Split(s, ' ')[i])
    ensures Split(ToTitleCase(s), ' ')[0] == Capitalize(Lower(Split(s, ' ')[0]))
    ensures var n := |Split(s, ' ')|;
      Split(ToTitleCase(s), ' ')[n - 1] == Capitalize(Lower(Split(s, ' ')[n - 1]))
    ensures forall i :: 0 < i < |Split(s, ' ')| - 1 && Lower(Split(s, ' ')[i]) in SmallWords ==>
      Split(ToTitleCase(s), ' ')[i] == Lower(Split(s, ' ')[i])
    ensures forall i :: 0 < i < |Split(s, ' ')| - 1 && Lower(Split(s, ' ')[i]) !in SmallWords ==>
      Split(ToTitleCase(s), ' ')[i] == Capitalize(Lower(Split(s, ' ')[i]))
  {
    var ws := Split(s, ' ');
    var rs := Split(ToTitleCase(s), ' ');
    TitleCaseSplit(s);
    LowerWordsAreLower(s);
    SplitLower(s);
    assert LowerWords(s) == LowerAll(ws);
    forall i | 0 <= i < |ws| ensures Lower(rs[i]) == Lower(ws[i]) {
      TitleWordLower(Lower(ws[i]), i, |ws|);
    }
  }

  /** Applying `toTitleCase` twice gives the same result as once, which the
      "normalize titles" command relies on to count only real changes. */
  lemma TitleCaseIdempotent(s: string)
    ensures ToTitleCase(ToTitleCase(s)) == ToTitleCase(s)
  {
    var t := ToTitleCase(s);
    TitleCaseLower(s);
    if s != "" {
      assert |t| == |s| by {
        assert |Lower(t)| == |Lower(s)|;
      }
    }
  }

  // ---------------------------------------------------------------------------
  // CSL-JSON helpers

  /** The table of `mapCSLType`. */
  const CslTypeTable: map<string, string> := map[
    "book" := "Book",
    "chapter" := "Chapter",
    "article-journal" := "Article",
    "article-magazine" := "Article",
    "article-newspaper" := "Article",
    "paper-conference" := "Article",
    "thesis" := "Thesis",
    "webpage" := "Online Article",
    "post-weblog" := "Blog Post"
  ]

  /** `mapCSLType`: the tabled publication type, "Article" for anything else. */
  function MapCslType(cslType: string): string {
    if cslType in CslTypeTable then CslTypeTable[cslType] else "Article"
  }

  /** The result is one of six publication types, and any type outside the
      nine tabled ones yields "Article". */
  lemma MapCslTypeRange(cslType: string)
    ensures MapCslType(cslType) in {"Book", "Chapter", "Article", "Thesis", "Online Article", "Blog Post"}
    ensures cslType !in CslTypeTable ==> MapCslType(cslType) == "Article"
  {
  }

  /** Every type but "Article" comes from exactly one CSL type; in particular
      only "post-weblog" yields "Blog Post", the one type no citation
      template of its own handles. */
  lemma MapCslTypeInverse(cslType: string)
    ensures MapCslType(cslType) == "Blog Post" <==> cslType == "post-weblog"
    ensures MapCslType(cslType) == "Online Article" <==> cslType == "webpage"
    ensures MapCslType(cslType) == "Book" <==> cslType == "book"
    ensures MapCslType(cslType) == "Chapter" <==> cslType == "chapter"
    ensures MapCslType(cslType) == "Thesis" <==> cslType == "thesis"
  {
  }

  /** The `issued` field of a CSL-JSON item: optional `date-parts` rows of
      numbers and an optional `raw` string ("" when absent). */
  datatype Issued = Issued(dateParts: Option<seq<seq<int>>>, raw: string)

  function IntsToStrings(ns: seq<int>): (r: seq<string>)
    ensures |r| == |ns|
    ensures forall i :: 0 <= i < |ns| ==> r[i] == IntToString(ns[i])
  {
    seq(|ns|, i requires 0 <= i < |ns| => IntToString(ns[i]))
  }

  /** `formatCSLDate`: the first `date-parts` row joined with "-", else the
      raw string, else "". */
  function FormatCslDate(issued: Option<Issued>): string {
    match issued
    case None => ""
    case Some(d) =>
      if d.dateParts.Some? && |d.dateParts.value| > 0 then Join(IntsToStrings(d.dateParts.value[0]), "-")
      else d.raw
  }

  /** Splitting the formatted date on "-" and parsing each part gives back the
      first `date-parts` row, when it is non-empty and non-negative; without
      a row the raw string is returned, and without `issued` the empty string. */
  lemma FormatCslDateRoundTrip(issued: Option<Issued>)
    ensures issued.None? ==> FormatCslDate(issued) == ""
    ensures issued.Some? && (issued.value.dateParts.None? || |issued.value.dateParts.value| == 0) ==>
      FormatCslDate(issued) == issued.value.raw
    ensures (&& issued.Some? && issued.value.dateParts.Some? && |issued.value.dateParts.value| > 0
             && |issued.value.dateParts.value[0]| > 0
             && (forall k :: 0 <= k < |issued.value.dateParts.value[0]| ==> issued.value.dateParts.value[0][k] >= 0)) ==>
      var row := issued.value.dateParts.value[0];
      var parts := Split(FormatCslDate(issued), '-');
      |parts| == |row| && forall k :: 0 <= k < |row| ==> ParseInt(parts[k]) == Some(row[k])
  {
    if issued.Some? && issued.value.dateParts.Some? && |issued.value.dateParts.value| > 0 {
      var row := issued.value.dateParts.value[0];
      if |row| > 0 && forall k :: 0 <= k < |row| ==> row[k] >= 0 {
        var strs := IntsToStrings(row);
        forall k | 0 <= k < |strs| ensures '-' !in strs[k] && ParseInt(strs[k]) == Some(row[k]) {
          var n: nat := row[k];
          assert strs[k] == NatToString(n);
          ParseIntOfNat(n);
        }
        SplitJoin(strs, '-');
        assert ['-'] == "-";
      }
    }
  }

  // ---------------------------------------------------------------------------
  // File names and dates

  predicate IsFilenameChar(c: char) {
    IsDigit(c) || IsAsciiLower(c) || c == '-' || c == '_'
  }

  function SanitizeChar(c: char): char {
    if IsAsciiAlnum(c) || c == '-' || c == '_' then LowerChar(c) else '-'
  }

  /** `sanitizeFilename`: every character outside `[A-Za-z0-9_-]` becomes
      "-", then the result is lower-cased. */
  function SanitizeFilename(name: string): (r: string)
    ensures |r| == |name|
    ensures forall i :: 0 <= i < |r| ==> IsFilenameChar(r[i])
  {
    seq(|name|, i requires 0 <= i < |name| => SanitizeChar(name[i]))
  }

  /** A name already made of `[a-z0-9_-]` is kept, so sanitising twice is
      sanitising once. */
  lemma SanitizeFilenameKeepsSafeNames(name: string)
    requires forall i :: 0 <= i < |name| ==> IsFilenameChar(name[i])
    ensures SanitizeFilename(name) == name
  {
  }

  lemma SanitizeFilenameIdempotent(name: string)
    ensures SanitizeFilename(SanitizeFilename(name)) == SanitizeFilename(name)
  {
    SanitizeFilenameKeepsSafeNames(SanitizeFilename(name));
  }

  /** `validateDate`: empty, or exactly `\d{4}-\d{2}-\d{2}`. */
  predicate ValidateDate(s: string) {
    || s == ""
    || (&& |s| == 10
        && AllDigits(s[..4]) && s[4] == '-'
        && AllDigits(s[5..7]) && s[7] == '-'
        && AllDigits(s[8..]))
  }

  /** A valid non-empty date splits on "-" into a four-digit year and
      two-digit month and day, the shape the citation date formatter reads. */
  lemma ValidDateParts(s: string)
    requires ValidateDate(s) && s != ""
    ensures Split(s, '-') == [s[..4], s[5..7], s[8..]]
  {
    var parts := [s[..4], s[5..7], s[8..]];
    forall k | 0 <= k < 3 ensures '-' !in parts[k] {
      assert AllDigits(parts[k]);
    }
    assert parts[1..] == [s[5..7], s[8..]];
    assert parts[1..][1..] == [s[8..]];
    assert Join(parts[1..], "-") == s[5..7] + "-" + s[8..];
    assert Join(parts, "-") == s[..4] + "-" + (s[5..7] + "-" + s[8..]);
    assert s == s[..4] + "-" + (s[5..7] + "-" + s[8..]);
    assert Join(parts, ['-']) == s;
    SplitJoin(parts, '-');
  }
}
