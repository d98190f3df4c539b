/** The two imports of the editor with the file reading left to the caller:
    `handleZoteroImport` receives parsed CSL-JSON and adds the records that
    are not duplicates to the publications section, and `handleJSONImport`
    receives a parsed draft and replaces the document. Each returns the new
    store and the message the user is shown. */
module Importer {
  import opened Base
  import opened Strings
  import opened Model
  import Runs
  import Doi
  import Utils
  import State
  import Generators

  // ---------------------------------------------------------------------------
  // Comparing titles

  predicate NotSpace(c: char) { !IsSpace(c) }

  predicate LowerFixed(c: char) { LowerChar(c) == c }

  /** `toLowerCase().trim().replace(/\s+/g, " ")`. */
  function NormalizeTitle(t: string): string {
    Runs.CollapseRuns(Trim(Lower(t)), IsSpace, ' ')
  }

  /** A title in normal form: lower case, whitespace only as single spaces,
      and none at either end. */
  predicate Normal(s: string) {
    && (forall i :: 0 <= i < |s| ==> LowerFixed(s[i]))
    && Runs.Collapsed(s, IsSpace, ' ')
    && (s == [] || (!IsSpace(s[0]) && !IsSpace(s[|s| - 1])))
  }

  /** Normalising yields a normal title and keeps every non-whitespace
      character of the lower-cased input, in order. */
  lemma NormalizeTitleNormal(t: string)
    ensures Normal(NormalizeTitle(t))
    ensures Runs.Only(NormalizeTitle(t), NotSpace) == Runs.Only(Lower(t), NotSpace)
  {
    NormalizeTitleIsNormal(t);
    NormalizeTitleKeepsText(t);
  }

  lemma NormalizeTitleIsNormal(t: string)
    ensures Normal(NormalizeTitle(t))
  {
    var l := Lower(t);
    var m := Trim(l);
    assert forall i :: 0 <= i < |m| ==> LowerFixed(m[i]) by {
      LowerIdempotent(t);
      assert forall i :: 0 <= i < |l| ==> LowerFixed(l[i]) by {
        forall i | 0 <= i < |l| ensures LowerFixed(l[i]) {
          assert Lower(l)[i] == l[i];
        }
      }
      Runs.TrimWithin(l, LowerFixed);
    }
    Runs.CollapseRunsWithin(m, IsSpace, ' ', LowerFixed);
    Runs.CollapseRunsCollapsed(m, IsSpace, ' ');
    if |m| > 0 {
      Runs.CollapseRunsLast(m, IsSpace, ' ');
    }
  }

  lemma NormalizeTitleKeepsText(t: string)
    ensures Runs.Only(NormalizeTitle(t), NotSpace) == Runs.Only(Lower(t), NotSpace)
  {
    Runs.TrimKeepsOthers(Lower(t), NotSpace);
    Runs.CollapseRunsKeepsOthers(Trim(Lower(t)), IsSpace, ' ', NotSpace);
  }

  /** The normal titles are exactly the ones normalising leaves alone. */
  lemma NormalIffFixed(s: string)
    ensures Normal(s) <==> NormalizeTitle(s) == s
  {
    if Normal(s) {
      assert Lower(s) == s;
      TrimUnchanged(s);
      Runs.CollapsedFixed(s, IsSpace, ' ');
    }
    NormalizeTitleNormal(s);
  }

  /** Normalising twice is normalising once. */
  lemma NormalizeTitleIdempotent(t: string)
    ensures NormalizeTitle(NormalizeTitle(t)) == NormalizeTitle(t)
  {
    NormalizeTitleNormal(t);
    NormalIffFixed(NormalizeTitle(t));
  }

  /** Case and surrounding whitespace do not matter. */
  lemma NormalizeTitleInsensitive(t: string)
    ensures NormalizeTitle(Lower(t)) == NormalizeTitle(t)
    ensures NormalizeTitle(" " + t) == NormalizeTitle(t)
  {
    LowerIdempotent(t);
    LowerAppend(" ", t);
    assert Lower(" ") == " ";
    assert (" " + Lower(t))[1..] == Lower(t);
  }

  // ---------------------------------------------------------------------------
  // The duplicate rule

  /** A CSL name; absent parts are the empty string. */
  datatype CslName = CslName(given: string, family: string)

  /** The fields of a CSL-JSON record that the import reads; absent strings
      are the empty string. */
  datatype CslItem = CslItem(
    title: string,
    doi: string,
    url: string,
    authors: Option<seq<CslName>>,
    cslType: string,
    containerTitle: string,
    publisher: string,
    issued: Option<Utils.Issued>,
    abstractText: string,
    volume: string,
    issue: string)

  /** Both titles are set and agree once normalised. */
  predicate TitleMatch(a: string, b: string) {
    a != "" && b != "" && NormalizeTitle(a) == NormalizeTitle(b)
  }

  /** The record's DOI is set and equals, ignoring case, the DOI found in the
      entry's URL. */
  predicate DoiMatch(doi: string, url: string) {
    doi != "" && url != "" && Doi.ExtractDoi(url).Some? && Lower(doi) == Lower(Doi.ExtractDoi(url).value)
  }

  predicate IsDuplicateOf(item: CslItem, e: Entry) {
    TitleMatch(item.title, e.title) || DoiMatch(item.doi, e.url)
  }

  /** `entries.some(...)` over the duplicate rule. */
  predicate AnyDuplicate(item: CslItem, entries: seq<Entry>) {
    |entries| > 0 && (IsDuplicateOf(item, entries[0]) || AnyDuplicate(item, entries[1..]))
  }

  lemma {:induction false} AnyDuplicateExists(item: CslItem, entries: seq<Entry>)
    ensures AnyDuplicate(item, entries) <==> exists k :: 0 <= k < |entries| && IsDuplicateOf(item, entries[k])
  {
    if |entries| > 0 {
      AnyDuplicateExists(item, entries[1..]);
      if exists k :: 0 <= k < |entries| && IsDuplicateOf(item, entries[k]) {
        var k :| 0 <= k < |entries| && IsDuplicateOf(item, entries[k]);
        if k > 0 {
          assert entries[1..][k - 1] == entries[k];
        }
      }
    }
  }

  /** An entry list that is a duplicate source stays one when it grows. */
  lemma AnyDuplicateGrows(item: CslItem, entries: seq<Entry>, more: seq<Entry>)
    requires AnyDuplicate(item, entries)
    ensures AnyDuplicate(item, entries + more)
  {
    AnyDuplicateExists(item, entries);
    AnyDuplicateExists(item, entries + more);
    var k :| 0 <= k < |entries| && IsDuplicateOf(item, entries[k]);
    assert (entries + more)[k] == entries[k];
  }

  // ---------------------------------------------------------------------------
  // The entry built from a record

  const DoiResolver := "https://doi.org/"

  /** `URL`, else a resolver link for the DOI, else nothing. */
  function ImportedUrl(item: CslItem): string {
    if item.url != "" then item.url else if item.doi != "" then DoiResolver + item.doi else ""
  }

  function ImportedAuthors(names: Option<seq<CslName>>): seq<Author> {
    match names
    case None => [Author("", "")]
    case Some(ns) => seq(|ns|, i requires 0 <= i < |ns| => Author(ns[i].given, ns[i].family))
  }

  /** The publication entry made from a record that is not a duplicate. */
  function ImportedEntry(item: CslItem, id: Id): (e: Entry)
    ensures e.id == id && e.kind == Publication && e.title == item.title && e.titled
    ensures e.urlText == "link" && !e.openAccess && e.importance == 0
  {
    BareEntry(id, Publication).(
      authors := Some(ImportedAuthors(item.authors)),
      title := item.title,
      titled := true,
      pubType := Utils.MapCslType(item.cslType),
      containerTitle := item.containerTitle,
      publisher := item.publisher,
      date := Utils.FormatCslDate(item.issued),
      url := ImportedUrl(item),
      urlText := "link",
      openAccess := false,
      abstractText := item.abstractText,
      volume := item.volume,
      issue := item.issue)
  }

  /** The DOI found in a resolver link is the DOI it was made from. */
  lemma ResolverLinkDoi(d: string)
    requires Doi.IsDoi(d)
    ensures Doi.ExtractDoi(DoiResolver + d) == Some(d)
  {
    var u := DoiResolver + d;
    var n := |DoiResolver|;
    assert u[n..|u|] == d;
    Doi.SearchNone(u);
    var span := Doi.Search(u).value;
    Doi.SearchSome(u, span.0, span.1);
    if span.0 < n {
      ResolverHasNoDoi(d, span.0, span.1);
    }
  }

  /** No DOI starts inside the resolver prefix, which holds no "1". */
  lemma ResolverHasNoDoi(d: string, a: nat, b: nat)
    requires a < |DoiResolver| && a <= b <= |DoiResolver + d|
    ensures !Doi.IsDoi((DoiResolver + d)[a..b])
  {
    var u := DoiResolver + d;
    assert u[a] == DoiResolver[a] != '1';
  }

  /** Whether a record can be recognised again: it has a title, or it has
      no URL and a well-formed DOI, so the entry gets a resolver link. */
  predicate Recognisable(item: CslItem) {
    item.title != "" || (item.url == "" && Doi.IsDoi(item.doi))
  }

  /** The entry made from a recognisable record is a duplicate of it. */
  lemma ImportedEntryRecognised(item: CslItem, id: Id)
    requires Recognisable(item)
    ensures IsDuplicateOf(item, ImportedEntry(item, id))
  {
    if item.title == "" {
      Doi.DoiNoSpace(item.doi);
      ResolverLinkDoi(item.doi);
    }
  }

  /** A resolver link for a well-formed DOI is labelled "DOI" by the link
      formatter of the publication renderer. */
  lemma ResolverLinkLabel(d: string)
    requires Doi.IsDoi(d)
    ensures Generators.FormatUrl(DoiResolver + d, "link", false)
         == " " + Generators.MarkdownLink("DOI", DoiResolver + d)
  {
    var u := DoiResolver + d;
    ResolverContains(d);
    assert Doi.Search(u).Some? by {
      ResolverLinkDoi(d);
    }
    assert Generators.LinkLabel(u, "link", false) == "DOI";
  }

  lemma ResolverContains(d: string)
    ensures Contains(DoiResolver + d, "doi.org/")
  {
    assert DoiResolver + d == "https://" + "doi.org/" + d;
    ContainsInside("https://", "doi.org/", d);
  }

  /** A record with only a DOI gets a resolver link, which the publication
      renderer labels "DOI". */
  lemma ImportedDoiLinkLabel(item: CslItem, id: Id)
    requires item.url == "" && Doi.IsDoi(item.doi)
    ensures var e := ImportedEntry(item, id);
      Generators.FormatUrl(e.url, e.urlText, e.openAccess) == " " + Generators.MarkdownLink("DOI", e.url)
  {
    Doi.DoiNoSpace(item.doi);
    assert ImportedEntry(item, id).url == DoiResolver + item.doi;
    ResolverLinkLabel(item.doi);
  }

  lemma {:induction false} ContainsInside(pre: string, sub: string, post: string)
    ensures Contains(pre + sub + post, sub)
  {
    if |pre| > 0 {
      ContainsInside(pre[1..], sub, post);
      assert (pre + sub + post)[1..] == pre[1..] + sub + post;
    } else {
      assert pre + sub + post == sub + post;
    }
  }

  // ---------------------------------------------------------------------------
  // The import loop

  /** The entries after the loop, how many records were added and the titles
      of the skipped ones. */
  datatype Batch = Batch(entries: seq<Entry>, imported: nat, skipped: seq<string>)

  /** The `forEach` over the records: each one is checked against the
      entries present at that moment, those added earlier in the batch
      included, and is added under the next fresh id or skipped. */
  function ImportItems(entries: seq<Entry>, items: seq<CslItem>, ids: seq<Id>): (r: Batch)
    requires |ids| == |items|
    ensures r.imported + |r.skipped| == |items|
    ensures |r.entries| == |entries| + r.imported && r.entries[..|entries|] == entries
    decreases |items|
  {
    if |items| == 0 then Batch(entries, 0, [])
    else if AnyDuplicate(items[0], entries) then
      var r := ImportItems(entries, items[1..], ids[1..]);
      Batch(r.entries, r.imported, [items[0].title] + r.skipped)
    else
      var r := ImportItems(entries + [ImportedEntry(items[0], ids[0])], items[1..], ids[1..]);
      PrefixShrink(r.entries, entries, ImportedEntry(items[0], ids[0]));
      Batch(r.entries, r.imported + 1, r.skipped)
  }

  lemma PrefixShrink<T>(s: seq<T>, a: seq<T>, x: T)
    requires |a| + 1 <= |s| && s[..|a| + 1] == a + [x]
    ensures s[..|a|] == a
  {
    assert s[..|a|] == s[..|a| + 1][..|a|];
  }

  function Titles(items: seq<CslItem>): (r: seq<string>)
    ensures |r| == |items|
  {
    seq(|items|, i requires 0 <= i < |items| => items[i].title)
  }

  /** After the loop every recognisable record has a duplicate among the
      entries: the one it was skipped for or the one made from it. */
  lemma {:induction false} ImportItemsCovers(entries: seq<Entry>, items: seq<CslItem>, ids: seq<Id>)
    requires |ids| == |items|
    ensures forall i :: 0 <= i < |items| && Recognisable(items[i]) ==>
      AnyDuplicate(items[i], ImportItems(entries, items, ids).entries)
    decreases |items|
  {
    if |items| > 0 {
      var out := ImportItems(entries, items, ids).entries;
      var next := if AnyDuplicate(items[0], entries) then entries else entries + [ImportedEntry(items[0], ids[0])];
      ImportItemsCovers(next, items[1..], ids[1..]);
      assert out == ImportItems(next, items[1..], ids[1..]).entries;
      if Recognisable(items[0]) {
        CoversFirst(entries, items, ids);
      }
      CoversCons(items, out);
    }
  }

  /** Covering the first record and the rest covers them all. */
  lemma CoversCons(items: seq<CslItem>, out: seq<Entry>)
    requires |items| > 0
    requires Recognisable(items[0]) ==> AnyDuplicate(items[0], out)
    requires forall i :: 0 <= i < |items[1..]| && Recognisable(items[1..][i]) ==> AnyDuplicate(items[1..][i], out)
    ensures forall i :: 0 <= i < |items| && Recognisable(items[i]) ==> AnyDuplicate(items[i], out)
  {
    forall i | 0 <= i < |items| && Recognisable(items[i])
      ensures AnyDuplicate(items[i], out)
    {
      if i > 0 {
        assert items[i] == items[1..][i - 1];
      }
    }
  }

  lemma CoversFirst(entries: seq<Entry>, items: seq<CslItem>, ids: seq<Id>)
    requires |ids| == |items| > 0 && Recognisable(items[0])
    ensures AnyDuplicate(items[0], ImportItems(entries, items, ids).entries)
  {
    var out := ImportItems(entries, items, ids).entries;
    if AnyDuplicate(items[0], entries) {
      AnyDuplicateExists(items[0], entries);
      var k :| 0 <= k < |entries| && IsDuplicateOf(items[0], entries[k]);
      assert out[..|entries|][k] == out[k];
      AnyDuplicateAt(items[0], out, k);
    } else {
      var e := ImportedEntry(items[0], ids[0]);
      var r1 := ImportItems(entries + [e], items[1..], ids[1..]);
      assert out == r1.entries;
      assert r1.entries[..|entries| + 1][|entries|] == e;
      ImportedEntryRecognised(items[0], ids[0]);
      AnyDuplicateAt(items[0], out, |entries|);
    }
  }

  lemma AnyDuplicateAt(item: CslItem, entries: seq<Entry>, k: nat)
    requires k < |entries| && IsDuplicateOf(item, entries[k])
    ensures AnyDuplicate(item, entries)
  {
    AnyDuplicateExists(item, entries);
  }

  /** Records that all have duplicates are all skipped and change nothing. */
  lemma {:induction false} AllDuplicatesSkipped(entries: seq<Entry>, items: seq<CslItem>, ids: seq<Id>)
    requires |ids| == |items|
    requires forall i :: 0 <= i < |items| ==> AnyDuplicate(items[i], entries)
    ensures ImportItems(entries, items, ids) == Batch(entries, 0, Titles(items))
    decreases |items|
  {
    if |items| > 0 {
      assert AnyDuplicate(items[0], entries);
      AllDuplicatesSkipped(entries, items[1..], ids[1..]);
      assert Titles(items) == [items[0].title] + Titles(items[1..]);
    }
  }

  /** Importing the same recognisable records a second time adds nothing
      and skips every one of them. */
  lemma ReimportAddsNothing(entries: seq<Entry>, items: seq<CslItem>, ids: seq<Id>, ids2: seq<Id>)
    requires |ids| == |items| && |ids2| == |items|
    requires forall i :: 0 <= i < |items| ==> Recognisable(items[i])
    ensures var first := ImportItems(entries, items, ids).entries;
      ImportItems(first, items, ids2) == Batch(first, 0, Titles(items))
  {
    ImportItemsCovers(entries, items, ids);
    AllDuplicatesSkipped(ImportItems(entries, items, ids).entries, items, ids2);
  }

  /** Two records whose titles agree once normalised, the first new: the
      first is added and the second skipped as its duplicate. */
  lemma SameTitleTwice(entries: seq<Entry>, items: seq<CslItem>, ids: seq<Id>)
    requires |items| == 2 && |ids| == 2
    requires !AnyDuplicate(items[0], entries)
    requires TitleMatch(items[1].title, items[0].title)
    ensures ImportItems(entries, items, ids)
      == Batch(entries + [ImportedEntry(items[0], ids[0])], 1, [items[1].title])
  {
    var e := ImportedEntry(items[0], ids[0]);
    var added := entries + [e];
    assert IsDuplicateOf(items[1], added[|entries|]);
    AnyDuplicateExists(items[1], added);
    var rest := items[1..];
    assert rest[0] == items[1] && rest[1..] == [];
    assert ImportItems(added, rest, ids[1..]) == Batch(added, 0, [items[1].title]);
  }

  // ---------------------------------------------------------------------------
  // The CSL-JSON import

  /** What `JSON.parse` gave: an array of records or anything else. */
  datatype CslPayload = CslArray(items: seq<CslItem>) | NotArray

  const ZoteroErrorPrefix := "Error importing Zotero data: "
  const NotArrayMessage := "Invalid CSL-JSON: Expected an array of items"

  /** The first section of type publications, as `find`. */
  function FindPublications(sections: seq<Section>): (r: Option<nat>)
    ensures r.Some? ==> r.value < |sections| && sections[r.value].sectionType == Publications
    ensures r.Some? ==> forall j :: 0 <= j < r.value ==> sections[j].sectionType != Publications
    ensures r.None? ==> forall j :: 0 <= j < |sections| ==> sections[j].sectionType != Publications
  {
    if |sections| == 0 then None
    else if sections[0].sectionType == Publications then Some(0)
    else match FindPublications(sections[1..])
      case Some(i) => Some(i + 1)
      case None => None
  }

  /** The publications section to import into, added (which notifies) when
      there is none. */
  function PublicationsSection(st: Store, sectionId: Id): (r: (Store, nat))
    ensures r.1 < |r.0.data.sections| && r.0.data.sections[r.1].sectionType == Publications
  {
    match FindPublications(st.data.sections)
    case Some(i) => (st, i)
    case None => (State.AddSection(st, Publications, "", sectionId).0, |st.data.sections|)
  }

  /** `handleZoteroImport` after parsing: a payload that is not an array is
      rejected before anything changes; otherwise the records go through the
      loop into the publications section, subscribers are told, and the
      summary is returned. `sectionId` and `ids` are the fresh identifiers
      for a new section and for the records. */
  function ImportCsl(st: Store, payload: CslPayload, sectionId: Id, ids: seq<Id>): (r: (Store, Result<string>))
    requires payload.CslArray? ==> |ids| == |payload.items|
    ensures payload.NotArray? ==> r == (st, Err(ZoteroErrorPrefix + NotArrayMessage))
    ensures payload.CslArray? ==> r.1.Ok?
    ensures r.0.data.frontmatter == st.data.frontmatter && r.0.data.overrides == st.data.overrides
  {
    match payload
    case NotArray => (st, Err(ZoteroErrorPrefix + NotArrayMessage))
    case CslArray(items) =>
      var (st1, i) := PublicationsSection(st, sectionId);
      var b := ImportItems(st1.data.sections[i].entries, items, ids);
      (State.Notify(State.WithEntries(st1, i, b.entries)), Ok(ImportMessage(b.imported, b.skipped)))
  }

  /** With a publications section present, its entries grow by the added
      records, every other section stays as it was, the summary reports the
      batch and subscribers are told once. */
  lemma ImportCslIntoExisting(st: Store, items: seq<CslItem>, sectionId: Id, ids: seq<Id>, i: nat)
    requires |ids| == |items|
    requires FindPublications(st.data.sections) == Some(i)
    ensures var r := ImportCsl(st, CslArray(items), sectionId, ids);
      var b := ImportItems(st.data.sections[i].entries, items, ids);
      && |r.0.data.sections| == |st.data.sections|
      && r.0.data.sections[i] == st.data.sections[i].(entries := b.entries)
      && (forall j :: 0 <= j < |st.data.sections| && j != i ==> r.0.data.sections[j] == st.data.sections[j])
      && r.0.notifications == st.notifications + 1
      && r.1 == Ok(ImportMessage(b.imported, b.skipped))
  {
    assert PublicationsSection(st, sectionId) == (st, i);
  }

  /** Without a publications section one is added at the end, holding just
      the added records, and subscribers are told twice. */
  lemma ImportCslCreatesSection(st: Store, items: seq<CslItem>, sectionId: Id, ids: seq<Id>)
    requires |ids| == |items|
    requires FindPublications(st.data.sections).None?
    ensures var r := ImportCsl(st, CslArray(items), sectionId, ids);
      var b := ImportItems([], items, ids);
      && r.0.data.sections == st.data.sections + [State.NewSection(sectionId, Publications, "").(entries := b.entries)]
      && r.0.notifications == st.notifications + 2
      && r.1 == Ok(ImportMessage(b.imported, b.skipped))
  {
    var st1 := State.AddSection(st, Publications, "", sectionId).0;
    var n := |st.data.sections|;
    assert PublicationsSection(st, sectionId) == (st1, n);
    var b := ImportItems([], items, ids);
    FillLast(st.data.sections, State.NewSection(sectionId, Publications, ""), b.entries);
  }

  /** Setting the entries of a section appended last. */
  lemma FillLast(secs: seq<Section>, s: Section, es: seq<Entry>)
    ensures s.entries == [] ==> (secs + [s])[|secs|].entries == []
    ensures (secs + [s])[|secs| := (secs + [s])[|secs|].(entries := es)] == secs + [s.(entries := es)]
  {
  }

  // ---------------------------------------------------------------------------
  // The summary message

  /** The bullet the source writes before each skipped title: the UTF-8
      bytes of "•" read back as Mac Roman text. */
  const Bullet := "\U{201A}\U{00C4}\U{00A2} "

  function BulletLines(titles: seq<string>): (r: seq<string>)
    ensures |r| == |titles|
  {
    seq(|titles|, i requires 0 <= i < |titles| => Bullet + titles[i])
  }

  function Min(a: nat, b: nat): nat { if a < b then a else b }

  function CountLine(imported: nat): string {
    "Successfully imported " + NatToString(imported) + " new item(s) from Zotero!"
  }

  function SkipCountLine(skipped: nat): string {
    "Skipped " + NatToString(skipped) + " duplicate(s):"
  }

  function MoreLine(others: nat): string {
    "... and " + NatToString(others) + " more"
  }

  /** The message shown after a CSL-JSON import: the count, then, when
      records were skipped, their number, the first five titles as bullets
      and how many more there were. */
  function ImportMessage(imported: nat, skipped: seq<string>): string {
    CountLine(imported) + SkipReport(skipped)
  }

  function SkipReport(skipped: seq<string>): string {
    if |skipped| == 0 then ""
    else
      "\n" + "\n" + SkipCountLine(|skipped|) + "\n" + Join(BulletLines(skipped[..Min(|skipped|, 5)]), "\n")
      + (if |skipped| > 5 then "\n" + MoreLine(|skipped| - 5) else "")
  }

  /** Read line by line, the message is the count line, an empty line, the
      skip count line, one bullet per title up to five, and a line with
      the number of the others when there are more than five; without
      skips it is the count line alone. */
  lemma ImportMessageLines(imported: nat, skipped: seq<string>)
    requires forall i :: 0 <= i < |skipped| ==> '\n' !in skipped[i]
    ensures var lines := Split(ImportMessage(imported, skipped), '\n');
      && |lines| == (if |skipped| == 0 then 1 else 3 + Min(|skipped|, 5) + (if |skipped| > 5 then 1 else 0))
      && lines[0] == CountLine(imported)
      && (|skipped| > 0 ==> forall k :: 0 <= k < Min(|skipped|, 5) ==> lines[3 + k] == Bullet + skipped[k])
  {
    if |skipped| == 0 {
      MessageWithoutSkips(imported, skipped);
    } else {
      MessageWithSkips(imported, skipped);
      MessageLinesShape(imported, skipped);
    }
  }

  lemma MessageLinesShape(imported: nat, skipped: seq<string>)
    requires |skipped| > 0
    ensures var lines := MessageLines(imported, skipped);
      && |lines| == 3 + Min(|skipped|, 5) + (if |skipped| > 5 then 1 else 0)
      && lines[0] == CountLine(imported)
      && forall k :: 0 <= k < Min(|skipped|, 5) ==> lines[3 + k] == Bullet + skipped[k]
  {
    var head := [CountLine(imported), "", SkipCountLine(|skipped|)];
    var shown := BulletLines(skipped[..Min(|skipped|, 5)]);
    var tail := if |skipped| > 5 then [MoreLine(|skipped| - 5)] else [];
    var front := head + shown;
    assert MessageLines(imported, skipped) == front + tail;
    forall k | 0 <= k < Min(|skipped|, 5) ensures (front + tail)[3 + k] == Bullet + skipped[k] {
      assert (front + tail)[3 + k] == front[3 + k] == shown[k];
    }
  }

  lemma MessageWithoutSkips(imported: nat, skipped: seq<string>)
    requires |skipped| == 0
    ensures Split(ImportMessage(imported, skipped), '\n') == [CountLine(imported)]
  {
    CountLineSingle(imported);
    assert ImportMessage(imported, skipped) == Join([CountLine(imported)], "\n");
    SplitJoin([CountLine(imported)], '\n');
  }

  lemma MessageWithSkips(imported: nat, skipped: seq<string>)
    requires |skipped| > 0
    requires forall i :: 0 <= i < |skipped| ==> '\n' !in skipped[i]
    ensures Split(ImportMessage(imported, skipped), '\n') == MessageLines(imported, skipped)
  {
    MessageLinesJoin(imported, skipped);
    MessageLinesSingle(imported, skipped);
    SplitJoin(MessageLines(imported, skipped), '\n');
  }

  /** The lines of a message that reports skips. */
  function MessageLines(imported: nat, skipped: seq<string>): seq<string>
    requires |skipped| > 0
  {
    [CountLine(imported), "", SkipCountLine(|skipped|)] + BulletLines(skipped[..Min(|skipped|, 5)])
    + (if |skipped| > 5 then [MoreLine(|skipped| - 5)] else [])
  }

  lemma MessageLinesJoin(imported: nat, skipped: seq<string>)
    requires |skipped| > 0
    ensures ImportMessage(imported, skipped) == Join(MessageLines(imported, skipped), "\n")
  {
    var tail := if |skipped| > 5 then [MoreLine(|skipped| - 5)] else [];
    MessageAsJoin(CountLine(imported), SkipCountLine(|skipped|), BulletLines(skipped[..Min(|skipped|, 5)]), tail, "\n");
  }

  lemma MessageLinesSingle(imported: nat, skipped: seq<string>)
    requires |skipped| > 0
    requires forall i :: 0 <= i < |skipped| ==> '\n' !in skipped[i]
    ensures forall k :: 0 <= k < |MessageLines(imported, skipped)| ==> '\n' !in MessageLines(imported, skipped)[k]
  {
    var lines := MessageLines(imported, skipped);
    var shown := skipped[..Min(|skipped|, 5)];
    CountLineSingle(imported);
    SkipCountLineSingle(|skipped|);
    if |skipped| > 5 {
      MoreLineSingle(|skipped| - 5);
    }
    BulletLinesSingle(shown);
    forall k | 0 <= k < |lines| ensures '\n' !in lines[k] {
      if 3 <= k < 3 + |shown| {
        assert lines[k] == BulletLines(shown)[k - 3];
      }
    }
  }

  lemma CountLineSingle(n: nat)
    ensures '\n' !in CountLine(n)
  {
    DigitsNoNewline(NatToString(n));
  }

  lemma SkipCountLineSingle(n: nat)
    ensures '\n' !in SkipCountLine(n)
  {
    DigitsNoNewline(NatToString(n));
  }

  lemma MoreLineSingle(n: nat)
    ensures '\n' !in MoreLine(n)
  {
    DigitsNoNewline(NatToString(n));
  }

  lemma BulletLinesSingle(titles: seq<string>)
    requires forall i :: 0 <= i < |titles| ==> '\n' !in titles[i]
    ensures forall i :: 0 <= i < |titles| ==> '\n' !in BulletLines(titles)[i]
  {
    forall i | 0 <= i < |titles| ensures '\n' !in BulletLines(titles)[i] {
      assert BulletLines(titles)[i] == Bullet + titles[i];
    }
  }

  lemma DigitsNoNewline(ds: string)
    requires AllDigits(ds)
    ensures '\n' !in ds
  {
  }

  lemma MessageAsJoin(head: string, count: string, bullets: seq<string>, tail: seq<string>, sep: string)
    requires |bullets| > 0 && |tail| <= 1
    ensures Join([head, "", count] + bullets + tail, sep)
         == head + (sep + sep + count + sep + Join(bullets, sep) + (if |tail| == 1 then sep + tail[0] else ""))
  {
    var x := if |tail| == 1 then sep + tail[0] else "";
    var jb := Join(bullets, sep);
    var rest := bullets + tail;
    assert [head, "", count] + bullets + tail == [head, "", count] + rest;
    JoinThreeFirst(head, "", count, rest, sep);
    JoinAppend(bullets, tail, sep);
    assert "" + sep + (count + sep + (jb + x)) == sep + (count + sep + (jb + x));
    var ss := sep + sep;
    calc {
      head + sep + (sep + (count + sep + (jb + x)));
      { Assoc(head, sep, sep + (count + sep + (jb + x))); }
      head + (sep + (sep + (count + sep + (jb + x))));
      { Assoc(sep, sep, count + sep + (jb + x)); }
      head + (ss + (count + sep + (jb + x)));
      { Assoc(ss, count + sep, jb + x); }
      head + (ss + (count + sep) + (jb + x));
      { Assoc(ss, count, sep); }
      head + (ss + count + sep + (jb + x));
      { Assoc(ss + count + sep, jb, x); }
      head + (ss + count + sep + jb + x);
    }
  }

  lemma Assoc(a: string, b: string, c: string)
    ensures a + (b + c) == a + b + c
  {
  }

  lemma JoinThreeFirst(a: string, b: string, c: string, rest: seq<string>, sep: string)
    requires |rest| > 0
    ensures Join([a, b, c] + rest, sep) == a + sep + (b + sep + (c + sep + Join(rest, sep)))
  {
    var r2 := [c] + rest;
    var r1 := [b] + r2;
    assert [a, b, c] + rest == [a] + r1;
    JoinCons(c, rest, sep);
    JoinCons(b, r2, sep);
    JoinCons(a, r1, sep);
  }

  lemma {:induction false} JoinAppend(a: seq<string>, b: seq<string>, sep: string)
    requires |a| > 0 && |b| <= 1
    ensures Join(a + b, sep) == Join(a, sep) + (if |b| == 1 then sep + b[0] else "")
  {
    if |b| == 0 {
      assert a + b == a;
    } else if |a| == 1 {
      assert a + b == [a[0], b[0]];
    } else {
      JoinAppend(a[1..], b, sep);
      assert (a + b)[1..] == a[1..] + b;
    }
  }

  // ---------------------------------------------------------------------------
  // The draft import

  /** A parsed draft file; each top-level key may be missing. */
  datatype DraftFile = DraftFile(
    frontmatter: Option<Frontmatter>,
    sections: Option<seq<Section>>,
    overrides: Option<seq<LocationOverride>>)

  const DraftErrorPrefix := "Error importing draft: "
  const InvalidDraft := "Invalid digest file structure"
  const DraftImported := "Draft imported successfully!"

  /** `handleJSONImport` after parsing: a file without frontmatter or
      sections is rejected and the store kept; otherwise `set` replaces the
      document. */
  function ImportJson(st: Store, f: DraftFile): (r: (Store, Result<string>))
    ensures f.frontmatter.None? || f.sections.None? ==> r == (st, Err(DraftErrorPrefix + InvalidDraft))
    ensures f.frontmatter.Some? && f.sections.Some? ==>
      r.1 == Ok(DraftImported) && r.0.notifications == st.notifications + 1
  {
    if f.frontmatter.None? || f.sections.None? then (st, Err(DraftErrorPrefix + InvalidDraft))
    else (State.Set(st, f.frontmatter.value, f.sections.value, f.overrides), Ok(DraftImported))
  }

  /** The draft `exportJSON` writes: the whole document. */
  function ExportJson(d: Document): DraftFile {
    DraftFile(Some(d.frontmatter), Some(d.sections), Some(d.overrides))
  }

  /** Importing an exported draft gives back the document, and a draft
      without the override list gets an empty one. */
  lemma ImportJsonRoundTrip(st: Store, d: Document)
    ensures ImportJson(st, ExportJson(d)).0.data == d
    ensures ImportJson(st, ExportJson(d).(overrides := None)).0.data == d.(overrides := [])
  {
  }
}
