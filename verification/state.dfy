/** The transitions of the document store. Each operation takes the store
    and returns the next one; the notification counter grows by one exactly
    when the source calls `notify`, so "no notification on a no-op" can be
    stated. Identifiers the source draws from `generateId` are parameters. */
module State {
  import opened Base
  import opened Model
  import Sorting
  import Generators
  import FrontmatterYaml
  import Strings

  /** `notify`: subscribers are told once more. */
  function Notify(st: Store): Store {
    Store(st.data, st.notifications + 1)
  }

  function WithSections(st: Store, sections: seq<Section>): Store {
    Store(st.data.(sections := sections), st.notifications)
  }

  /** `set`: the whole document is replaced, a missing override list
      becoming the empty one, and subscribers are told. */
  function Set(st: Store, frontmatter: Frontmatter, sections: seq<Section>,
               overrides: Option<seq<LocationOverride>>): Store {
    Notify(Store(Document(frontmatter, sections, overrides.GetOr([])), st.notifications))
  }

  // ---------------------------------------------------------------------------
  // Array.prototype.splice

  /** The start index `splice` uses: a negative index counts from the end,
      and the result is clamped to `0..len`. */
  function SpliceIndex(k: int, len: nat): (r: nat)
    ensures r <= len
    ensures 0 <= k <= len ==> r == k
    ensures k > len ==> r == len
    ensures k < 0 ==> r == (if len + k < 0 then 0 else len + k)
  {
    if k < 0 then (if len + k < 0 then 0 else len + k) else if k > len then len else k
  }

  /** `splice(i, 1)` for an index inside the array. */
  function RemoveAt<T>(s: seq<T>, i: nat): (r: seq<T>)
    requires i < |s|
    ensures |r| == |s| - 1
    ensures multiset(r) + multiset{s[i]} == multiset(s)
  {
    assert s == s[..i] + [s[i]] + s[i + 1..];
    s[..i] + s[i + 1..]
  }

  /** `splice(i, 0, x)` for an index inside `0..|s|`. */
  function InsertAt<T>(s: seq<T>, i: nat, x: T): (r: seq<T>)
    requires i <= |s|
    ensures |r| == |s| + 1 && r[i] == x
    ensures multiset(r) == multiset(s) + multiset{x}
  {
    assert s == s[..i] + s[i..];
    s[..i] + [x] + s[i..]
  }

  /** Putting back what was removed at the same place gives the array back. */
  lemma InsertRemoved<T>(s: seq<T>, i: nat)
    requires i < |s|
    ensures InsertAt(RemoveAt(s, i), i, s[i]) == s
  {
    var r := RemoveAt(s, i);
    assert r[..i] == s[..i] && r[i..] == s[i + 1..];
  }

  /** Neighbours `i` and `i + 1` exchanged. */
  function Swap<T>(s: seq<T>, i: nat): seq<T>
    requires i + 1 < |s|
  {
    s[i := s[i + 1]][i + 1 := s[i]]
  }

  /** Taking out element `i + 1` and putting it back at `i` swaps the two
      neighbours, and nothing else moves. */
  lemma MoveBackIsSwap<T>(s: seq<T>, j: nat)
    requires 0 < j < |s|
    ensures InsertAt(RemoveAt(s, j), j - 1, s[j]) == Swap(s, j - 1)
  {
    var i := j - 1;
    var r := RemoveAt(s, j);
    var t := InsertAt(r, i, s[j]);
    assert |t| == |s|;
    forall k | 0 <= k < |s| ensures t[k] == Swap(s, i)[k] {
      if k < i {
        assert t[k] == r[k];
      } else if k > i + 1 {
        assert t[k] == r[k - 1];
      }
    }
  }

  /** Taking out element `i` and putting it back at `i + 1` swaps the two
      neighbours, and nothing else moves. */
  lemma MoveForwardIsSwap<T>(s: seq<T>, i: nat)
    requires i + 1 < |s|
    ensures InsertAt(RemoveAt(s, i), i + 1, s[i]) == Swap(s, i)
  {
    var r := RemoveAt(s, i);
    var t := InsertAt(r, i + 1, s[i]);
    assert |t| == |s|;
    forall k | 0 <= k < |s| ensures t[k] == Swap(s, i)[k] {
      if k < i {
        assert t[k] == r[k];
      } else if k == i {
        assert t[k] == r[i] == s[i + 1];
      } else if k > i + 1 {
        assert t[k] == r[k - 1];
      }
    }
  }

  // ---------------------------------------------------------------------------
  // Sections

  /** The section `addSection` creates: no entries, and the custom title
      when one is given, else the default title of its type. */
  function NewSection(id: Id, t: SectionType, customTitle: string): Section {
    Section(id, t, if customTitle != "" then customTitle else DefaultTitle(t), [])
  }

  /** `addSection`: the new section goes last; `id` is the fresh identifier. */
  function AddSection(st: Store, t: SectionType, customTitle: string, id: Id): (r: (Store, Section))
    ensures r.1 == NewSection(id, t, customTitle)
    ensures r.0.data.sections == st.data.sections + [r.1]
    ensures r.0.data.frontmatter == st.data.frontmatter && r.0.data.overrides == st.data.overrides
    ensures r.0.notifications == st.notifications + 1
  {
    var s := NewSection(id, t, customTitle);
    (Notify(WithSections(st, st.data.sections + [s])), s)
  }

  /** The sections whose identifier is not `id`, in order. */
  function SectionsWithout(sections: seq<Section>, id: Id): (r: seq<Section>)
    ensures |r| <= |sections|
    ensures forall k :: 0 <= k < |r| ==> r[k].id != id && r[k] in sections
    ensures forall k :: 0 <= k < |sections| && sections[k].id != id ==> sections[k] in r
  {
    if |sections| == 0 then []
    else
      var rest := SectionsWithout(sections[1..], id);
      assert forall k :: 1 <= k < |sections| ==> sections[k] == sections[1..][k - 1];
      (if sections[0].id == id then [] else [sections[0]]) + rest
  }

  lemma {:induction false} SectionsWithoutAppend(a: seq<Section>, b: seq<Section>, id: Id)
    ensures SectionsWithout(a + b, id) == SectionsWithout(a, id) + SectionsWithout(b, id)
  {
    if |a| > 0 {
      var h := if a[0].id == id then [] else [a[0]];
      assert (a + b)[1..] == a[1..] + b;
      assert SectionsWithout(a + b, id) == h + SectionsWithout(a[1..] + b, id);
      SectionsWithoutAppend(a[1..], b, id);
      assert h + (SectionsWithout(a[1..], id) + SectionsWithout(b, id))
          == (h + SectionsWithout(a[1..], id)) + SectionsWithout(b, id);
    } else {
      assert a + b == b;
    }
  }

  /** Deleting keeps the order: a section with another identifier sits
      between what survives of the sections before it and of those after. */
  lemma SectionsWithoutAround(sections: seq<Section>, id: Id, k: nat)
    requires k < |sections| && sections[k].id != id
    ensures SectionsWithout(sections, id)
         == SectionsWithout(sections[..k], id) + [sections[k]] + SectionsWithout(sections[k + 1..], id)
  {
    var s := sections[k];
    assert sections == sections[..k] + ([s] + sections[k + 1..]);
    SectionsWithoutAppend(sections[..k], [s] + sections[k + 1..], id);
    SectionsWithoutAppend([s], sections[k + 1..], id);
    assert SectionsWithout([s], id) == [s] by {
      assert [s][1..] == [];
    }
  }

  lemma SectionsWithoutAroundAll(sections: seq<Section>, id: Id)
    ensures forall k :: 0 <= k < |sections| && sections[k].id != id ==>
      SectionsWithout(sections, id)
        == SectionsWithout(sections[..k], id) + [sections[k]] + SectionsWithout(sections[k + 1..], id)
  {
    forall k | 0 <= k < |sections| && sections[k].id != id
      ensures SectionsWithout(sections, id)
           == SectionsWithout(sections[..k], id) + [sections[k]] + SectionsWithout(sections[k + 1..], id)
    {
      SectionsWithoutAround(sections, id, k);
    }
  }

  lemma {:induction false} SectionsWithoutAbsent(sections: seq<Section>, id: Id)
    requires forall k :: 0 <= k < |sections| ==> sections[k].id != id
    ensures SectionsWithout(sections, id) == sections
  {
    if |sections| > 0 {
      SectionsWithoutAbsent(sections[1..], id);
      assert sections == [sections[0]] + sections[1..];
    }
  }

  /** `deleteSection`: every section with that identifier goes, every other
      section stays in its place relative to the rest, the location
      overrides of its entries stay, and subscribers are told even when no
      section matched. */
  function DeleteSection(st: Store, id: Id): (r: Store)
    ensures forall k :: 0 <= k < |r.data.sections| ==> r.data.sections[k].id != id && r.data.sections[k] in st.data.sections
    ensures forall k :: 0 <= k < |st.data.sections| && st.data.sections[k].id != id ==> st.data.sections[k] in r.data.sections
    ensures forall k :: 0 <= k < |st.data.sections| && st.data.sections[k].id != id ==>
      r.data.sections == SectionsWithout(st.data.sections[..k], id) + [st.data.sections[k]]
                         + SectionsWithout(st.data.sections[k + 1..], id)
    ensures r.data.overrides == st.data.overrides && r.data.frontmatter == st.data.frontmatter
    ensures r.notifications == st.notifications + 1
  {
    SectionsWithoutAroundAll(st.data.sections, id);
    Notify(WithSections(st, SectionsWithout(st.data.sections, id)))
  }

  /** Deleting a section just added with a fresh identifier gives the
      document back; only the two notifications remain. */
  lemma DeleteSectionUndoesAdd(st: Store, t: SectionType, customTitle: string, id: Id)
    requires forall k :: 0 <= k < |st.data.sections| ==> st.data.sections[k].id != id
    ensures DeleteSection(AddSection(st, t, customTitle, id).0, id) == Store(st.data, st.notifications + 2)
  {
    var s := NewSection(id, t, customTitle);
    var added := AddSection(st, t, customTitle, id).0;
    assert SectionsWithout(added.data.sections, id) == st.data.sections by {
      SectionsWithoutAppend(st.data.sections, [s], id);
      SectionsWithoutAbsent(st.data.sections, id);
      assert SectionsWithout([s], id) == [] by {
        assert [s][1..] == [];
      }
      assert st.data.sections + [] == st.data.sections;
    }
    assert DeleteSection(added, id) == Notify(WithSections(added, st.data.sections));
  }

  /** Deleting an identifier no section has changes nothing but the count
      of notifications. */
  lemma DeleteSectionAbsent(st: Store, id: Id)
    requires forall k :: 0 <= k < |st.data.sections| ==> st.data.sections[k].id != id
    ensures DeleteSection(st, id) == Store(st.data, st.notifications + 1)
  {
    SectionsWithoutAbsent(st.data.sections, id);
  }

  /** `moveSection`: the section at `fromIdx` (as `splice` reads it) is
      taken out and put back at `toIdx`, read against the shortened list;
      subscribers are always told. */
  function MoveSection(st: Store, fromIdx: int, toIdx: int): (r: Store)
    ensures |r.data.sections| == |st.data.sections|
    ensures multiset(r.data.sections) == multiset(st.data.sections)
    ensures r.data.overrides == st.data.overrides && r.data.frontmatter == st.data.frontmatter
    ensures r.notifications == st.notifications + 1
  {
    var secs := st.data.sections;
    var k := SpliceIndex(fromIdx, |secs|);
    if k < |secs| then
      var rest := RemoveAt(secs, k);
      Notify(WithSections(st, InsertAt(rest, SpliceIndex(toIdx, |rest|), secs[k])))
    else Notify(st)
  }

  /** Moving a section one slot back is `moveSectionUp` on its identifier,
      up to the notification the latter skips at the top. */
  lemma MoveSectionGeneralisesUp(st: Store, id: Id, i: nat)
    requires FindSection(st.data.sections, id) == Some(i) && i > 0
    ensures MoveSection(st, i, i - 1) == MoveSectionUp(st, id)
  {
  }

  /** `moveSectionUp`: the section trades places with the one before it;
      the first section and an unknown identifier are left alone, without a
      notification. */
  function MoveSectionUp(st: Store, id: Id): (r: Store)
    ensures |r.data.sections| == |st.data.sections|
    ensures multiset(r.data.sections) == multiset(st.data.sections)
    ensures r.data.overrides == st.data.overrides && r.data.frontmatter == st.data.frontmatter
  {
    var secs := st.data.sections;
    match FindSection(secs, id)
    case Some(i) =>
      if i > 0 then Notify(WithSections(st, InsertAt(RemoveAt(secs, i), i - 1, secs[i])))
      else st
    case None => st
  }

  /** `moveSectionDown`: the section trades places with the one after it;
      the last section and an unknown identifier are left alone, without a
      notification. */
  function MoveSectionDown(st: Store, id: Id): (r: Store)
    ensures |r.data.sections| == |st.data.sections|
    ensures multiset(r.data.sections) == multiset(st.data.sections)
    ensures r.data.overrides == st.data.overrides && r.data.frontmatter == st.data.frontmatter
  {
    var secs := st.data.sections;
    match FindSection(secs, id)
    case Some(i) =>
      if i < |secs| - 1 then Notify(WithSections(st, InsertAt(RemoveAt(secs, i), i + 1, secs[i])))
      else st
    case None => st
  }

  /** A found section past the first place trades places with the one
      before it, with one notification. */
  lemma MoveSectionUpSwaps(st: Store, id: Id, i: nat)
    requires FindSection(st.data.sections, id) == Some(i) && i > 0
    ensures MoveSectionUp(st, id) == Notify(WithSections(st, Swap(st.data.sections, i - 1)))
  {
    var secs := st.data.sections;
    assert MoveSectionUp(st, id) == Notify(WithSections(st, InsertAt(RemoveAt(secs, i), i - 1, secs[i])));
    MoveBackIsSwap(secs, i);
  }

  /** A found section before the last place trades places with the one
      after it, with one notification. */
  lemma MoveSectionDownSwaps(st: Store, id: Id, i: nat)
    requires FindSection(st.data.sections, id) == Some(i) && i < |st.data.sections| - 1
    ensures MoveSectionDown(st, id) == Notify(WithSections(st, Swap(st.data.sections, i)))
  {
    MoveForwardIsSwap(st.data.sections, i);
  }

  /** Moving up leaves the store as it is, notifications included, exactly
      when the section is missing or already first. */
  lemma MoveSectionUpNoOp(st: Store, id: Id)
    ensures MoveSectionUp(st, id) == st <==>
      (FindSection(st.data.sections, id).None? || FindSection(st.data.sections, id) == Some(0))
  {
  }

  /** Moving down leaves the store as it is, notifications included, exactly
      when the section is missing or already last. */
  lemma MoveSectionDownNoOp(st: Store, id: Id)
    ensures MoveSectionDown(st, id) == st <==>
      (FindSection(st.data.sections, id).None? || FindSection(st.data.sections, id) == Some(|st.data.sections| - 1))
  {
  }

  lemma {:induction false} FindSectionAfterSwap(secs: seq<Section>, id: Id, i: nat)
    requires 0 < i < |secs| && FindSection(secs, id) == Some(i)
    ensures FindSection(Swap(secs, i - 1), id) == Some(i - 1)
  {
    var t := Swap(secs, i - 1);
    if i - 1 == 0 {
      assert t[0] == secs[i];
    } else {
      assert secs[0].id != id;
      assert t[0] == secs[0];
      assert t[1..] == Swap(secs[1..], i - 2);
      FindSectionAfterSwap(secs[1..], id, i - 1);
    }
  }

  lemma SwapTwice<T>(s: seq<T>, i: nat)
    requires i + 1 < |s|
    ensures Swap(Swap(s, i), i) == s
  {
  }

  /** Moving a section down undoes moving it up: the sections come back in
      their old order, after two notifications. */
  lemma MoveSectionDownUndoesUp(st: Store, id: Id, i: nat)
    requires FindSection(st.data.sections, id) == Some(i) && i > 0
    ensures MoveSectionDown(MoveSectionUp(st, id), id) == Store(st.data, st.notifications + 2)
  {
    var secs := st.data.sections;
    var swapped := Swap(secs, i - 1);
    MoveSectionUpSwaps(st, id, i);
    var up := Store(st.data.(sections := swapped), st.notifications + 1);
    assert MoveSectionUp(st, id) == up;
    FindSectionAfterSwap(secs, id, i);
    assert FindSection(up.data.sections, id) == Some(i - 1);
    MoveSectionDownSwaps(up, id, i - 1);
    SwapTwice(secs, i - 1);
    assert MoveSectionDown(up, id) == Store(up.data.(sections := secs), st.notifications + 2);
  }

  /** The position of `id` in `order`, or -1, as `indexOf`. */
  function IndexIn(order: seq<Id>, id: Id): (r: int)
    ensures -1 <= r < |order|
    ensures r >= 0 ==> order[r] == id && forall k :: 0 <= k < r ==> order[k] != id
    ensures r == -1 <==> id !in order
  {
    if |order| == 0 then -1
    else if order[0] == id then 0
    else
      var k := IndexIn(order[1..], id);
      if k == -1 then -1 else k + 1
  }

  /** The comparator of `reorderSections`. */
  function ByOrder(order: seq<Id>): (Section, Section) -> int {
    (a: Section, b: Section) => IndexIn(order, a.id) - IndexIn(order, b.id)
  }

  function OrderKey(order: seq<Id>): Section -> int {
    (s: Section) => IndexIn(order, s.id)
  }

  /** `reorderSections`: a stable sort by position in `order`; subscribers
      are always told. */
  function ReorderSections(st: Store, order: seq<Id>): (r: Store)
    ensures r.data.overrides == st.data.overrides && r.data.frontmatter == st.data.frontmatter
    ensures r.notifications == st.notifications + 1
  {
    Notify(WithSections(st, Sorting.SortBy(ByOrder(order), st.data.sections)))
  }

  /** The sections are permuted into the order of `order`; sections it does
      not list have position -1 and so come before every listed one. */
  lemma ReorderSectionsOrders(st: Store, order: seq<Id>)
    ensures var r := ReorderSections(st, order).data.sections;
      && multiset(r) == multiset(st.data.sections)
      && (forall i, j :: 0 <= i < j < |r| ==> IndexIn(order, r[i].id) <= IndexIn(order, r[j].id))
      && (forall i, j :: 0 <= i < j < |r| && r[i].id in order ==> r[j].id in order)
  {
    var cmp := ByOrder(order);
    var key := OrderKey(order);
    Sorting.SortPermutes(cmp, st.data.sections);
    assert Sorting.RespectsKey(cmp, key);
    Sorting.SortKeySorted(cmp, key, st.data.sections);
    var r := Sorting.SortBy(cmp, st.data.sections);
    forall i, j | 0 <= i < j < |r| ensures IndexIn(order, r[i].id) <= IndexIn(order, r[j].id) {
      assert key(r[i]) <= key(r[j]);
    }
  }

  /** Sections at the same position of `order` (in particular all the
      unlisted ones) keep their relative order. */
  lemma ReorderSectionsStable(st: Store, order: seq<Id>, x: Section)
    ensures Sorting.Ties(ByOrder(order), ReorderSections(st, order).data.sections, x)
         == Sorting.Ties(ByOrder(order), st.data.sections, x)
  {
    var cmp := ByOrder(order);
    assert Sorting.TiesInterchangeable(cmp, x);
    StableByKey(cmp, st.data.sections, x);
  }

  lemma {:induction false} StableByKey(cmp: (Section, Section) -> int, s: seq<Section>, x: Section)
    requires Sorting.TiesInterchangeable(cmp, x)
    ensures Sorting.Ties(cmp, Sorting.SortBy(cmp, s), x) == Sorting.Ties(cmp, s, x)
  {
    if |s| > 0 {
      StableByKey(cmp, s[1..], x);
      Sorting.InsertTies(cmp, s[0], Sorting.SortBy(cmp, s[1..]), x);
    }
  }

  // ---------------------------------------------------------------------------
  // Entries

  /** Section `i` given new entries. */
  function WithEntries(st: Store, i: nat, entries: seq<Entry>): Store
    requires i < |st.data.sections|
  {
    WithSections(st, st.data.sections[i := st.data.sections[i].(entries := entries)])
  }

  /** The entry `addEntry` creates: importance 2 and empty notes; a
      publication also gets one empty author, type "Article" and link text
      "link", a journal issue the link text "link". */
  function NewEntry(id: Id, kind: EntryKind): Entry {
    var e := BareEntry(id, kind).(importance := 2);
    if kind == Publication then e.(authors := Some([Author("", "")]), pubType := "Article", urlText := "link")
    else if kind == JournalIssue then e.(urlText := "link")
    else e
  }

  /** `addEntry`: `None` and no change when the section is missing; else the
      new entry goes last in that section. */
  function AddEntry(st: Store, sectionId: Id, kind: EntryKind, id: Id): (r: (Store, Option<Entry>))
    ensures r.1.None? <==> FindSection(st.data.sections, sectionId).None?
    ensures r.1.None? ==> r.0 == st
    ensures r.1.Some? ==> r.1.value == NewEntry(id, kind) && r.0.notifications == st.notifications + 1
  {
    match FindSection(st.data.sections, sectionId)
    case None => (st, None)
    case Some(i) =>
      var e := NewEntry(id, kind);
      (Notify(WithEntries(st, i, st.data.sections[i].entries + [e])), Some(e))
  }

  /** The new entry is appended to the first section with that identifier,
      and the other sections, the overrides and the front matter are as
      they were. */
  lemma AddEntryAppends(st: Store, sectionId: Id, kind: EntryKind, id: Id, i: nat)
    requires FindSection(st.data.sections, sectionId) == Some(i)
    ensures var r := AddEntry(st, sectionId, kind, id).0.data;
      && |r.sections| == |st.data.sections|
      && r.sections[i].entries == st.data.sections[i].entries + [NewEntry(id, kind)]
      && r.sections[i].id == sectionId
      && (forall k :: 0 <= k < |r.sections| && k != i ==> r.sections[k] == st.data.sections[k])
      && r.overrides == st.data.overrides && r.frontmatter == st.data.frontmatter
  {
  }

  /** The default author of a new publication is blank and so renders no
      author list at all. */
  lemma NewPublicationRendersNoAuthors(id: Id)
    ensures NewEntry(id, Publication).authors == Some([Author("", "")])
    ensures Generators.AuthorsPrefix(NewEntry(id, Publication).authors.value) == ""
  {
    Generators.AuthorsPrefixShape([Author("", "")]);
  }

  /** A new publication has no title yet, so its citation reads
      "undefined"; its whole rendering opens with that citation line. */
  lemma NewPublicationCitesUndefined(id: Id)
    ensures !NewEntry(id, Publication).titled
    ensures Generators.Citation(NewEntry(id, Publication)) == "\"undefined.\"."
    ensures Strings.StartsWith(Generators.RenderPublication(NewEntry(id, Publication)), "\"undefined.\".\n")
  {
    var e := NewEntry(id, Publication);
    assert e.pubType == "Article" && !e.titled && e.url == "" && e.date == "";
    assert e.containerTitle == "" && e.volume == "" && e.issue == "";
    UntitledArticleCitation(e);
    NewPublicationRendersNoAuthors(id);
    Generators.RenderPublicationShape(e);
    assert "" + Generators.Citation(e) + "\n" == "\"undefined.\".\n";
  }

  lemma UntitledArticleCitation(e: Entry)
    requires e.pubType == "Article" && !e.titled && e.url == "" && e.date == ""
    requires e.containerTitle == "" && e.volume == "" && e.issue == ""
    ensures Generators.Citation(e) == "\"undefined.\"."
  {
    assert Generators.ArticleBody(e) == "\"undefined.\"";
  }

  /** Once a title is written, even an empty one, the citation shows it. */
  lemma WrittenTitleCited(e: Entry, v: string)
    ensures Generators.CitedTitle(SetText(e, Title, v)) == v
  {
  }

  /** The elements of `s` that satisfy `p`, in order: `filter`. */
  function Keep<T>(s: seq<T>, p: T -> bool): (r: seq<T>)
    ensures |r| <= |s|
    ensures forall k :: 0 <= k < |r| ==> p(r[k]) && r[k] in s
  {
    if |s| == 0 then []
    else (if p(s[0]) then [s[0]] else []) + Keep(s[1..], p)
  }

  lemma {:induction false} KeepAppend<T>(a: seq<T>, b: seq<T>, p: T -> bool)
    ensures Keep(a + b, p) == Keep(a, p) + Keep(b, p)
  {
    if |a| > 0 {
      assert (a + b)[1..] == a[1..] + b;
      KeepAppend(a[1..], b, p);
    } else {
      assert a + b == b;
    }
  }

  lemma {:induction false} KeepAll<T>(s: seq<T>, p: T -> bool)
    requires forall k :: 0 <= k < |s| ==> p(s[k])
    ensures Keep(s, p) == s
  {
    if |s| > 0 {
      KeepAll(s[1..], p);
      assert s == [s[0]] + s[1..];
    }
  }

  function OtherEntry(id: Id): Entry -> bool {
    (e: Entry) => e.id != id
  }

  function OtherOverride(id: Id): LocationOverride -> bool {
    (o: LocationOverride) => o.entryId != id
  }

  /** `deleteEntry`: nothing happens when the section is missing; else the
      entry leaves the section, every location override for it goes too,
      and subscribers are told even when no entry matched. */
  function DeleteEntry(st: Store, sectionId: Id, entryId: Id): (r: Store)
    ensures FindSection(st.data.sections, sectionId).None? ==> r == st
    ensures FindSection(st.data.sections, sectionId).Some? ==>
      && r.notifications == st.notifications + 1
      && (forall k :: 0 <= k < |r.data.overrides| ==> r.data.overrides[k].entryId != entryId)
  {
    match FindSection(st.data.sections, sectionId)
    case None => st
    case Some(i) =>
      var kept := Keep(st.data.sections[i].entries, OtherEntry(entryId));
      var st1 := WithEntries(st, i, kept);
      Notify(Store(st1.data.(overrides := Keep(st.data.overrides, OtherOverride(entryId))), st1.notifications))
  }

  /** The entry is gone from its section, the other sections are untouched,
      and exactly the overrides for other entries remain. */
  lemma DeleteEntryRemoves(st: Store, sectionId: Id, entryId: Id, i: nat)
    requires FindSection(st.data.sections, sectionId) == Some(i)
    ensures var r := DeleteEntry(st, sectionId, entryId).data;
      && |r.sections| == |st.data.sections|
      && (forall k :: 0 <= k < |r.sections[i].entries| ==> r.sections[i].entries[k].id != entryId)
      && r.sections[i].entries == Keep(st.data.sections[i].entries, OtherEntry(entryId))
      && (forall k :: 0 <= k < |r.sections| && k != i ==> r.sections[k] == st.data.sections[k])
      && r.overrides == Keep(st.data.overrides, OtherOverride(entryId))
  {
    var kept := Keep(st.data.sections[i].entries, OtherEntry(entryId));
    forall k | 0 <= k < |kept| ensures kept[k].id != entryId {
      assert OtherEntry(entryId)(kept[k]);
    }
  }

  /** Filtering out a last element that fails the test, from elements
      that all pass it, gives the elements back. */
  lemma KeepDropsLast<T>(s: seq<T>, x: T, p: T -> bool)
    requires forall k :: 0 <= k < |s| ==> p(s[k])
    requires !p(x)
    ensures Keep(s + [x], p) == s
  {
    KeepAppend(s, [x], p);
    KeepAll(s, p);
    assert Keep([x], p) == [] by {
      assert [x][1..] == [];
    }
    assert s + [] == s;
  }

  lemma FindSectionSameIds(a: seq<Section>, b: seq<Section>, id: Id)
    requires |a| == |b| && forall k :: 0 <= k < |a| ==> a[k].id == b[k].id
    ensures FindSection(a, id) == FindSection(b, id)
  {
    if |a| > 0 {
      FindSectionSameIds(a[1..], b[1..], id);
    }
  }

  /** Deleting an entry just added under a fresh identifier, with no
      override for it, gives the document back after two notifications. */
  lemma DeleteEntryUndoesAdd(st: Store, sectionId: Id, kind: EntryKind, id: Id, i: nat)
    requires FindSection(st.data.sections, sectionId) == Some(i)
    requires forall k :: 0 <= k < |st.data.sections[i].entries| ==> st.data.sections[i].entries[k].id != id
    requires forall k :: 0 <= k < |st.data.overrides| ==> st.data.overrides[k].entryId != id
    ensures DeleteEntry(AddEntry(st, sectionId, kind, id).0, sectionId, id) == Store(st.data, st.notifications + 2)
  {
    var secs := st.data.sections;
    var es := secs[i].entries;
    var e := NewEntry(id, kind);
    var added := Notify(WithEntries(st, i, es + [e]));
    assert AddEntry(st, sectionId, kind, id).0 == added;
    FindSectionSameIds(added.data.sections, secs, sectionId);
    DeleteAppended(added, sectionId, id, i, es, e);
    EntriesBack(secs, i, es + [e]);
  }

  /** Deleting the last entry of a section, when no other entry and no
      override carries its identifier, drops just that entry. */
  lemma DeleteAppended(st: Store, sectionId: Id, id: Id, i: nat, es: seq<Entry>, e: Entry)
    requires FindSection(st.data.sections, sectionId) == Some(i)
    requires st.data.sections[i].entries == es + [e] && e.id == id
    requires forall k :: 0 <= k < |es| ==> es[k].id != id
    requires forall k :: 0 <= k < |st.data.overrides| ==> st.data.overrides[k].entryId != id
    ensures DeleteEntry(st, sectionId, id) == Notify(WithEntries(st, i, es))
  {
    KeepDropsLast(es, e, OtherEntry(id));
    KeepAll(st.data.overrides, OtherOverride(id));
  }

  /** Writing a section's entries and then its old entries back restores
      the section list. */
  lemma EntriesBack(secs: seq<Section>, i: nat, entries: seq<Entry>)
    requires i < |secs|
    ensures var s1 := secs[i := secs[i].(entries := entries)];
      s1[i := s1[i].(entries := secs[i].entries)] == secs
  {
  }

  // ---------------------------------------------------------------------------
  // Field updates

  /** The text fields of an entry, by their names in the source. */
  datatype TextField =
    | Title | WhyItMatters | Signal | PubType | ContainerTitle | Publisher | Date | Url | UrlText
    | Abstract | Volume | Issue | JournalName | Theme | GuestEditor | Description | DateStart
    | DateEnd | CfpDeadline | Place | Venue | Coords | CustomEventType | Deadline | MediaType
    | Creator | Content

  function GetText(e: Entry, f: TextField): string {
    match f
    case Title => e.title
    case WhyItMatters => e.whyItMatters
    case Signal => e.signal
    case PubType => e.pubType
    case ContainerTitle => e.containerTitle
    case Publisher => e.publisher
    case Date => e.date
    case Url => e.url
    case UrlText => e.urlText
    case Abstract => e.abstractText
    case Volume => e.volume
    case Issue => e.issue
    case JournalName => e.journalName
    case Theme => e.theme
    case GuestEditor => e.guestEditor
    case Description => e.description
    case DateStart => e.dateStart
    case DateEnd => e.dateEnd
    case CfpDeadline => e.cfpDeadline
    case Place => e.place
    case Venue => e.venue
    case Coords => e.coords
    case CustomEventType => e.customEventType
    case Deadline => e.deadline
    case MediaType => e.mediaType
    case Creator => e.creator
    case Content => e.content
  }

  function SetText(e: Entry, f: TextField, v: string): Entry {
    match f
    case Title => e.(title := v, titled := true)
    case WhyItMatters => e.(whyItMatters := v)
    case Signal => e.(signal := v)
    case PubType => e.(pubType := v)
    case ContainerTitle => e.(containerTitle := v)
    case Publisher => e.(publisher := v)
    case Date => e.(date := v)
    case Url => e.(url := v)
    case UrlText => e.(urlText := v)
    case Abstract => e.(abstractText := v)
    case Volume => e.(volume := v)
    case Issue => e.(issue := v)
    case JournalName => e.(journalName := v)
    case Theme => e.(theme := v)
    case GuestEditor => e.(guestEditor := v)
    case Description => e.(description := v)
    case DateStart => e.(dateStart := v)
    case DateEnd => e.(dateEnd := v)
    case CfpDeadline => e.(cfpDeadline := v)
    case Place => e.(place := v)
    case Venue => e.(venue := v)
    case Coords => e.(coords := v)
    case CustomEventType => e.(customEventType := v)
    case Deadline => e.(deadline := v)
    case MediaType => e.(mediaType := v)
    case Creator => e.(creator := v)
    case Content => e.(content := v)
  }

  /** The two fields `updateEntry` stores as booleans. */
  datatype FlagField = OpenAccess | Draft

  /** A value handed to `updateEntry` for a boolean field. */
  datatype JsValue = JsBool(b: bool) | JsString(s: string) | JsNumber(n: int) | JsNull | JsUndefined

  /** `!!value`. */
  predicate Truthy(v: JsValue) {
    match v
    case JsBool(b) => b
    case JsString(s) => s != ""
    case JsNumber(n) => n != 0
    case JsNull => false
    case JsUndefined => false
  }

  /** One `updateEntry(sectionId, entryId, field, value)` call, by the kind
      of field it writes. */
  datatype FieldUpdate =
    | SetTextField(field: TextField, text: string)
    | SetFlag(flag: FlagField, value: JsValue)
    | SetImportance(importance: int)

  function ApplyUpdate(e: Entry, u: FieldUpdate): Entry {
    match u
    case SetTextField(f, v) => SetText(e, f, v)
    case SetFlag(OpenAccess, v) => e.(openAccess := Truthy(v))
    case SetFlag(Draft, v) => e.(draft := Truthy(v))
    case SetImportance(n) => e.(importance := n)
  }

  /** A text field reads back what was written to it. */
  lemma SetTextGet(e: Entry, f: TextField, v: string)
    ensures GetText(SetText(e, f, v), f) == v
  {
    match f
    case Title =>
    case WhyItMatters =>
    case Signal =>
    case PubType =>
    case ContainerTitle =>
    case Publisher =>
    case Date =>
    case Url =>
    case UrlText =>
    case Abstract =>
    case Volume =>
    case Issue =>
    case JournalName =>
    case Theme =>
    case GuestEditor =>
    case Description =>
    case DateStart =>
    case DateEnd =>
    case CfpDeadline =>
    case Place =>
    case Venue =>
    case Coords =>
    case CustomEventType =>
    case Deadline =>
    case MediaType =>
    case Creator =>
    case Content =>
  }

  /** Writing a text field changes no other field: writing the old value
      back restores the entry, except that an entry without a title has one
      once a title has been written, even an empty one. */
  lemma SetTextRestore(e: Entry, f: TextField, v: string)
    ensures f != Title ==> SetText(SetText(e, f, v), f, GetText(e, f)) == e
    ensures f == Title ==> SetText(SetText(e, f, v), f, GetText(e, f)) == e.(titled := true)
  {
    match f
    case Title =>
    case WhyItMatters =>
    case Signal =>
    case PubType =>
    case ContainerTitle =>
    case Publisher =>
    case Date =>
    case Url =>
    case UrlText =>
    case Abstract =>
    case Volume =>
    case Issue =>
    case JournalName =>
    case Theme =>
    case GuestEditor =>
    case Description =>
    case DateStart =>
    case DateEnd =>
    case CfpDeadline =>
    case Place =>
    case Venue =>
    case Coords =>
    case CustomEventType =>
    case Deadline =>
    case MediaType =>
    case Creator =>
    case Content =>
  }

  /** Writing a text field keeps the identity, type, importance, authors and
      flags; writing back the value it holds changes nothing. */
  lemma SetTextFrame(e: Entry, f: TextField, v: string)
    ensures var r := SetText(e, f, v);
      && r.id == e.id && r.kind == e.kind && r.importance == e.importance && r.authors == e.authors
      && r.openAccess == e.openAccess && r.draft == e.draft
    ensures var r := SetText(e, f, v); r.titled == (e.titled || f == Title)
    ensures f != Title ==> SetText(e, f, GetText(e, f)) == e
    ensures f == Title ==> SetText(e, f, GetText(e, f)) == e.(titled := true)
  {
    match f
    case Title =>
    case WhyItMatters =>
    case Signal =>
    case PubType =>
    case ContainerTitle =>
    case Publisher =>
    case Date =>
    case Url =>
    case UrlText =>
    case Abstract =>
    case Volume =>
    case Issue =>
    case JournalName =>
    case Theme =>
    case GuestEditor =>
    case Description =>
    case DateStart =>
    case DateEnd =>
    case CfpDeadline =>
    case Place =>
    case Venue =>
    case Coords =>
    case CustomEventType =>
    case Deadline =>
    case MediaType =>
    case Creator =>
    case Content =>
  }

  /** A boolean field stores the truthiness of the value and nothing else
      changes. */
  lemma SetFlagCoerces(e: Entry, v: JsValue)
    ensures ApplyUpdate(e, SetFlag(OpenAccess, v)).openAccess == Truthy(v)
    ensures ApplyUpdate(e, SetFlag(Draft, v)).draft == Truthy(v)
    ensures ApplyUpdate(e, SetFlag(OpenAccess, v)).(openAccess := e.openAccess) == e
    ensures ApplyUpdate(e, SetFlag(Draft, v)).(draft := e.draft) == e
    ensures Truthy(JsString("false")) && !Truthy(JsNumber(0)) && !Truthy(JsString(""))
  {
  }

  /** The section and entry positions `updateEntry` and the author
      operations act on, when both exist. */
  function Locate(st: Store, sectionId: Id, entryId: Id): (r: Option<(nat, nat)>)
    ensures r.Some? ==> r.value.0 < |st.data.sections| && r.value.1 < |st.data.sections[r.value.0].entries|
  {
    match FindSection(st.data.sections, sectionId)
    case None => None
    case Some(i) =>
      match FindEntry(st.data.sections[i].entries, entryId)
      case None => None
      case Some(j) => Some((i, j))
  }

  function WithEntry(st: Store, i: nat, j: nat, e: Entry): Store
    requires i < |st.data.sections| && j < |st.data.sections[i].entries|
  {
    WithEntries(st, i, st.data.sections[i].entries[j := e])
  }

  /** `updateEntry`: an unknown section or entry means no change and no
      notification. */
  function UpdateEntry(st: Store, sectionId: Id, entryId: Id, u: FieldUpdate): (r: Store)
    ensures Locate(st, sectionId, entryId).None? ==> r == st
    ensures Locate(st, sectionId, entryId).Some? ==> r.notifications == st.notifications + 1
  {
    match Locate(st, sectionId, entryId)
    case None => st
    case Some((i, j)) => Notify(WithEntry(st, i, j, ApplyUpdate(st.data.sections[i].entries[j], u)))
  }

  /** Only the addressed entry changes, by exactly the update. */
  lemma UpdateEntryOnly(st: Store, sectionId: Id, entryId: Id, u: FieldUpdate, i: nat, j: nat)
    requires Locate(st, sectionId, entryId) == Some((i, j))
    ensures var r := UpdateEntry(st, sectionId, entryId, u).data;
      && |r.sections| == |st.data.sections|
      && |r.sections[i].entries| == |st.data.sections[i].entries|
      && r.sections[i].entries[j] == ApplyUpdate(st.data.sections[i].entries[j], u)
      && (forall k :: 0 <= k < |r.sections[i].entries| && k != j ==> r.sections[i].entries[k] == st.data.sections[i].entries[k])
      && (forall k :: 0 <= k < |r.sections| && k != i ==> r.sections[k] == st.data.sections[k])
      && r.overrides == st.data.overrides && r.frontmatter == st.data.frontmatter
  {
  }

  // ---------------------------------------------------------------------------
  // Moving entries

  /** `moveEntry`: nothing happens unless both sections exist. The entry at
      `fromIdx` (as `splice` reads it) leaves its section and is inserted at
      `toIdx` in the target, read against the target after the removal, so
      that a move inside one section sees the shortened list. An index that
      selects no entry moves nothing. */
  function MoveEntry(st: Store, fromId: Id, toId: Id, fromIdx: int, toIdx: int): (r: Store)
    ensures FindSection(st.data.sections, fromId).None? || FindSection(st.data.sections, toId).None? ==> r == st
    ensures r.data.overrides == st.data.overrides && r.data.frontmatter == st.data.frontmatter
    ensures |r.data.sections| == |st.data.sections|
  {
    match (FindSection(st.data.sections, fromId), FindSection(st.data.sections, toId))
    case (Some(i), Some(j)) =>
      var src := st.data.sections[i].entries;
      var k := SpliceIndex(fromIdx, |src|);
      if k < |src| then
        var st1 := WithEntries(st, i, RemoveAt(src, k));
        var dst := st1.data.sections[j].entries;
        Notify(WithEntries(st1, j, InsertAt(dst, SpliceIndex(toIdx, |dst|), src[k])))
      else Notify(st)
    case _ => st
  }

  lemma {:induction false} AllEntriesSplit(secs: seq<Section>, i: nat)
    requires i < |secs|
    ensures AllEntries(secs) == AllEntries(secs[..i]) + secs[i].entries + AllEntries(secs[i + 1..])
  {
    assert secs == secs[..i] + ([secs[i]] + secs[i + 1..]);
    AllEntriesAppend(secs[..i], [secs[i]] + secs[i + 1..]);
    assert ([secs[i]] + secs[i + 1..])[1..] == secs[i + 1..];
  }

  /** Replacing the entries of one section changes the entries of the whole
      document by exactly the removed and added ones. */
  lemma AllEntriesWith(secs: seq<Section>, i: nat, es: seq<Entry>)
    requires i < |secs|
    ensures multiset(AllEntries(secs[i := secs[i].(entries := es)])) + multiset(secs[i].entries)
         == multiset(AllEntries(secs)) + multiset(es)
  {
    var t := secs[i := secs[i].(entries := es)];
    AllEntriesSplit(secs, i);
    AllEntriesSplit(t, i);
    assert t[..i] == secs[..i] && t[i + 1..] == secs[i + 1..];
  }

  /** The sections after a move that selects entry `k` of section `i` and
      inserts it at `t` in section `j`. */
  function MovedSections(secs: seq<Section>, i: nat, j: nat, k: nat, t: nat): seq<Section>
    requires i < |secs| && j < |secs| && k < |secs[i].entries|
    requires t <= |secs[i := secs[i].(entries := RemoveAt(secs[i].entries, k))][j].entries|
  {
    var secs1 := secs[i := secs[i].(entries := RemoveAt(secs[i].entries, k))];
    secs1[j := secs1[j].(entries := InsertAt(secs1[j].entries, t, secs[i].entries[k]))]
  }

  lemma MovedSectionsKeepEntries(secs: seq<Section>, i: nat, j: nat, k: nat, t: nat)
    requires i < |secs| && j < |secs| && k < |secs[i].entries|
    requires t <= |secs[i := secs[i].(entries := RemoveAt(secs[i].entries, k))][j].entries|
    ensures multiset(AllEntries(MovedSections(secs, i, j, k, t))) == multiset(AllEntries(secs))
  {
    var src := secs[i].entries;
    var removed := RemoveAt(src, k);
    var secs1 := secs[i := secs[i].(entries := removed)];
    var inserted := InsertAt(secs1[j].entries, t, src[k]);
    var secs2 := secs1[j := secs1[j].(entries := inserted)];
    var x := multiset{src[k]};
    AllEntriesWith(secs, i, removed);
    AllEntriesWith(secs1, j, inserted);
    assert multiset(AllEntries(secs2)) + multiset(secs1[j].entries)
        == multiset(AllEntries(secs1)) + x + multiset(secs1[j].entries);
    MultisetCancel(multiset(AllEntries(secs2)), multiset(AllEntries(secs1)) + x, multiset(secs1[j].entries));
    assert multiset(AllEntries(secs1)) + x + multiset(removed) == multiset(AllEntries(secs)) + multiset(removed);
    MultisetCancel(multiset(AllEntries(secs1)) + x, multiset(AllEntries(secs)), multiset(removed));
  }

  lemma MultisetCancel<T>(a: multiset<T>, b: multiset<T>, c: multiset<T>)
    requires a + c == b + c
    ensures a == b
  {
    forall v ensures a[v] == b[v] {
      assert (a + c)[v] == (b + c)[v];
    }
  }

  /** A move that selects an entry keeps every entry of the document, the
      moved one included, and tells subscribers once. */
  lemma MoveEntryKeepsEntries(st: Store, fromId: Id, toId: Id, fromIdx: int, toIdx: int, i: nat, j: nat)
    requires FindSection(st.data.sections, fromId) == Some(i)
    requires FindSection(st.data.sections, toId) == Some(j)
    requires SpliceIndex(fromIdx, |st.data.sections[i].entries|) < |st.data.sections[i].entries|
    ensures var r := MoveEntry(st, fromId, toId, fromIdx, toIdx);
      && multiset(AllEntries(r.data.sections)) == multiset(AllEntries(st.data.sections))
      && r.notifications == st.notifications + 1
  {
    var secs := st.data.sections;
    var k := SpliceIndex(fromIdx, |secs[i].entries|);
    var room := |secs[i := secs[i].(entries := RemoveAt(secs[i].entries, k))][j].entries|;
    var t := SpliceIndex(toIdx, room);
    assert MoveEntry(st, fromId, toId, fromIdx, toIdx).data.sections == MovedSections(secs, i, j, k, t);
    MovedSectionsKeepEntries(secs, i, j, k, t);
  }

  /** The moved entry lands at the target index, clamped as `splice` clamps
      it against the target list; within one section that list is the one
      without the moved entry. */
  lemma MoveEntryPlaces(st: Store, fromId: Id, toId: Id, fromIdx: int, toIdx: int, i: nat, j: nat)
    requires FindSection(st.data.sections, fromId) == Some(i)
    requires FindSection(st.data.sections, toId) == Some(j)
    requires SpliceIndex(fromIdx, |st.data.sections[i].entries|) < |st.data.sections[i].entries|
    ensures var src := st.data.sections[i].entries;
      var room := if i == j then |src| - 1 else |st.data.sections[j].entries|;
      var target := MoveEntry(st, fromId, toId, fromIdx, toIdx).data.sections[j].entries;
      && |target| == room + 1
      && target[SpliceIndex(toIdx, room)] == src[SpliceIndex(fromIdx, |src|)]
  {
    var secs := st.data.sections;
    var k := SpliceIndex(fromIdx, |secs[i].entries|);
    var room := |secs[i := secs[i].(entries := RemoveAt(secs[i].entries, k))][j].entries|;
    var t := SpliceIndex(toIdx, room);
    assert MoveEntry(st, fromId, toId, fromIdx, toIdx).data.sections == MovedSections(secs, i, j, k, t);
  }

  /** Putting an entry back where it was leaves its section as it was. */
  lemma MoveEntryInPlace(st: Store, id: Id, idx: nat, i: nat)
    requires FindSection(st.data.sections, id) == Some(i)
    requires idx < |st.data.sections[i].entries|
    ensures MoveEntry(st, id, id, idx, idx) == Store(st.data, st.notifications + 1)
  {
    var secs := st.data.sections;
    var src := secs[i].entries;
    InsertRemoved(src, idx);
    var secs1 := secs[i := secs[i].(entries := RemoveAt(src, idx))];
    assert secs1[i := secs1[i].(entries := src)] == secs;
  }

  // ---------------------------------------------------------------------------
  // Authors

  const BlankAuthor := Author("", "")

  /** `addAuthor`: a blank author is appended when the entry exists and has
      an author list; otherwise nothing happens. */
  function AddAuthor(st: Store, sectionId: Id, entryId: Id): (r: Store)
  {
    match Locate(st, sectionId, entryId)
    case None => st
    case Some((i, j)) =>
      var e := st.data.sections[i].entries[j];
      if e.authors.None? then st
      else Notify(WithEntry(st, i, j, e.(authors := Some(e.authors.value + [BlankAuthor]))))
  }

  datatype AuthorField = Name | Surname

  /** `updateAuthor`: the field of author `idx` is set when the entry has an
      author at that index; otherwise nothing happens. */
  function UpdateAuthor(st: Store, sectionId: Id, entryId: Id, idx: int, field: AuthorField, value: string): (r: Store)
  {
    match Locate(st, sectionId, entryId)
    case None => st
    case Some((i, j)) =>
      var e := st.data.sections[i].entries[j];
      if e.authors.None? || !(0 <= idx < |e.authors.value|) then st
      else
        var a := e.authors.value[idx];
        var a' := match field case Name => a.(name := value) case Surname => a.(surname := value);
        Notify(WithEntry(st, i, j, e.(authors := Some(e.authors.value[idx := a']))))
  }

  /** `deleteAuthor`: `splice(idx, 1)` on the author list, with a negative
      index counting from the end; subscribers are told whenever the list
      exists, even if the index selects no author. */
  function DeleteAuthor(st: Store, sectionId: Id, entryId: Id, idx: int): (r: Store)
  {
    match Locate(st, sectionId, entryId)
    case None => st
    case Some((i, j)) =>
      var e := st.data.sections[i].entries[j];
      if e.authors.None? then st
      else
        var authors := e.authors.value;
        var k := SpliceIndex(idx, |authors|);
        Notify(WithEntry(st, i, j, e.(authors := Some(if k < |authors| then RemoveAt(authors, k) else authors))))
  }

  /** The author of entry `j` in section `i`, when both exist. */
  function AuthorsAt(st: Store, loc: Option<(nat, nat)>): Option<seq<Author>>
  {
    match loc
    case Some((i, j)) =>
      if i < |st.data.sections| && j < |st.data.sections[i].entries| then st.data.sections[i].entries[j].authors
      else None
    case None => None
  }

  /** Without the entry or without an author list, the three author
      operations change nothing and tell no one. */
  lemma AuthorOpsNeedAuthors(st: Store, sectionId: Id, entryId: Id, idx: int, field: AuthorField, value: string)
    requires AuthorsAt(st, Locate(st, sectionId, entryId)).None?
    ensures AddAuthor(st, sectionId, entryId) == st
    ensures UpdateAuthor(st, sectionId, entryId, idx, field, value) == st
    ensures DeleteAuthor(st, sectionId, entryId, idx) == st
  {
  }

  /** Adding an author appends one blank author, which changes nothing in
      the rendered author list. */
  lemma AddAuthorAppendsBlank(st: Store, sectionId: Id, entryId: Id, i: nat, j: nat, authors: seq<Author>)
    requires Locate(st, sectionId, entryId) == Some((i, j))
    requires st.data.sections[i].entries[j].authors == Some(authors)
    ensures var r := AddAuthor(st, sectionId, entryId);
      && r.data.sections[i].entries[j] == st.data.sections[i].entries[j].(authors := Some(authors + [BlankAuthor]))
      && r.notifications == st.notifications + 1
    ensures Generators.AuthorsPrefix(authors + [BlankAuthor]) == Generators.AuthorsPrefix(authors)
  {
    Generators.AuthorsBlankIgnored(authors, BlankAuthor, []);
    assert authors + [BlankAuthor] + [] == authors + [BlankAuthor];
    assert authors + [] == authors;
  }

  /** Replacing an entry by one with the same identifier leaves it where
      `Locate` finds it. */
  lemma LocateAfterWithEntry(st: Store, sectionId: Id, entryId: Id, i: nat, j: nat, e: Entry)
    requires Locate(st, sectionId, entryId) == Some((i, j))
    requires e.id == st.data.sections[i].entries[j].id
    ensures Locate(WithEntry(st, i, j, e), sectionId, entryId) == Some((i, j))
  {
    var secs := st.data.sections;
    var es := secs[i].entries[j := e];
    var secs1 := secs[i := secs[i].(entries := es)];
    assert WithEntry(st, i, j, e).data.sections == secs1;
    FindSectionSameIds(secs1, secs, sectionId);
    FindEntrySameIds(es, secs[i].entries, entryId);
  }

  /** Deleting the last author (index -1) undoes adding one. */
  lemma DeleteAuthorUndoesAdd(st: Store, sectionId: Id, entryId: Id, i: nat, j: nat, authors: seq<Author>)
    requires Locate(st, sectionId, entryId) == Some((i, j))
    requires st.data.sections[i].entries[j].authors == Some(authors)
    ensures DeleteAuthor(AddAuthor(st, sectionId, entryId), sectionId, entryId, -1) == Store(st.data, st.notifications + 2)
  {
    var secs := st.data.sections;
    var e := secs[i].entries[j];
    var longer := authors + [BlankAuthor];
    var e1 := e.(authors := Some(longer));
    var mid := WithEntry(st, i, j, e1);
    var added := Notify(mid);
    assert AddAuthor(st, sectionId, entryId) == added;
    LocateAfterWithEntry(st, sectionId, entryId, i, j, e1);
    assert Locate(added, sectionId, entryId) == Some((i, j));
    assert added.data.sections[i].entries[j] == e1;
    assert RemoveAt(longer, |authors|) == authors;
    assert SpliceIndex(-1, |longer|) == |authors|;
    var back := WithEntry(added, i, j, e);
    assert DeleteAuthor(added, sectionId, entryId, -1) == Notify(back);
    assert secs[i].entries[j := e1][j := e] == secs[i].entries;
    assert back.data.sections == secs;
  }

  lemma FindEntrySameIds(a: seq<Entry>, b: seq<Entry>, id: Id)
    requires |a| == |b| && forall k :: 0 <= k < |a| ==> a[k].id == b[k].id
    ensures FindEntry(a, id) == FindEntry(b, id)
  {
    if |a| > 0 {
      FindEntrySameIds(a[1..], b[1..], id);
    }
  }

  /** Updating an author changes that one field of that one author; an index
      outside the list changes nothing and tells no one. */
  lemma UpdateAuthorOnly(st: Store, sectionId: Id, entryId: Id, i: nat, j: nat, authors: seq<Author>,
                         idx: int, field: AuthorField, value: string)
    requires Locate(st, sectionId, entryId) == Some((i, j))
    requires st.data.sections[i].entries[j].authors == Some(authors)
    ensures !(0 <= idx < |authors|) ==> UpdateAuthor(st, sectionId, entryId, idx, field, value) == st
    ensures 0 <= idx < |authors| ==>
      var r := UpdateAuthor(st, sectionId, entryId, idx, field, value);
      var after := r.data.sections[i].entries[j].authors;
      && after.Some? && |after.value| == |authors|
      && (field == Name ==> after.value[idx] == authors[idx].(name := value))
      && (field == Surname ==> after.value[idx] == authors[idx].(surname := value))
      && (forall k :: 0 <= k < |authors| && k != idx ==> after.value[k] == authors[k])
      && r.notifications == st.notifications + 1
  {
  }

  // ---------------------------------------------------------------------------
  // Location overrides

  datatype OverrideField = OverrideTitle | OverrideDescription

  function SetOverride(o: LocationOverride, field: OverrideField, value: string): LocationOverride {
    match field
    case OverrideTitle => o.(title := value)
    case OverrideDescription => o.(description := value)
  }

  /** At most one override per entry. */
  predicate UniqueOverrides(os: seq<LocationOverride>) {
    forall a, b :: 0 <= a < b < |os| ==> os[a].entryId != os[b].entryId
  }

  /** `updateFrontmatterLocation`: the override for the entry is created
      when there is none, then the field is set; subscribers are always
      told. */
  function UpdateFrontmatterLocation(st: Store, entryId: Id, field: OverrideField, value: string): (r: Store)
    ensures r.data.sections == st.data.sections && r.data.frontmatter == st.data.frontmatter
    ensures r.notifications == st.notifications + 1
  {
    var os := st.data.overrides;
    var os' := match FindOverride(os, entryId)
      case Some(k) => os[k := SetOverride(os[k], field, value)]
      case None => os + [SetOverride(LocationOverride(entryId, "", ""), field, value)];
    Notify(Store(st.data.(overrides := os'), st.notifications))
  }

  /** The upsert appends only when the entry has no override yet, keeps
      at most one override per entry, sets the field on the entry's override
      and leaves every other override as it was. */
  lemma UpdateFrontmatterLocationUpserts(st: Store, entryId: Id, field: OverrideField, value: string)
    ensures var os := st.data.overrides;
      var r := UpdateFrontmatterLocation(st, entryId, field, value).data.overrides;
      && |r| == |os| + (if FindOverride(os, entryId).None? then 1 else 0)
      && (UniqueOverrides(os) ==> UniqueOverrides(r))
      && FindOverride(r, entryId).Some?
      && var k := FindOverride(r, entryId).value;
         && (field == OverrideTitle ==> r[k].title == value)
         && (field == OverrideDescription ==> r[k].description == value)
         && (forall m :: 0 <= m < |os| && m != k ==> r[m] == os[m])
  {
    var os := st.data.overrides;
    var r := UpdateFrontmatterLocation(st, entryId, field, value).data.overrides;
    match FindOverride(os, entryId)
    case Some(k) =>
      assert r == os[k := SetOverride(os[k], field, value)];
      FindOverrideSameIds(r, os, entryId);
    case None =>
      assert r == os + [SetOverride(LocationOverride(entryId, "", ""), field, value)];
      FindOverrideAppended(os, r[|os|], entryId);
  }

  lemma FindOverrideSameIds(a: seq<LocationOverride>, b: seq<LocationOverride>, id: Id)
    requires |a| == |b| && forall k :: 0 <= k < |a| ==> a[k].entryId == b[k].entryId
    ensures FindOverride(a, id) == FindOverride(b, id)
  {
    if |a| > 0 {
      FindOverrideSameIds(a[1..], b[1..], id);
    }
  }

  lemma {:induction false} FindOverrideAppended(os: seq<LocationOverride>, o: LocationOverride, id: Id)
    requires FindOverride(os, id).None? && o.entryId == id
    ensures FindOverride(os + [o], id) == Some(|os|)
  {
    if |os| > 0 {
      FindOverrideAppended(os[1..], o, id);
      assert (os + [o])[1..] == os[1..] + [o];
    }
  }

  /** A title written through the upsert is the title of the location
      derived from that event. */
  lemma UpdatedTitleReachesLocation(st: Store, e: Entry, value: string)
    requires value != ""
    ensures FrontmatterYaml.DeriveLocation(e,
      UpdateFrontmatterLocation(st, e.id, OverrideTitle, value).data.overrides).title == value
  {
    UpdateFrontmatterLocationUpserts(st, e.id, OverrideTitle, value);
    FrontmatterYaml.DeriveLocationPrecedence(e, UpdateFrontmatterLocation(st, e.id, OverrideTitle, value).data.overrides);
  }
}
