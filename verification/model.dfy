/** The document tree of the digest editor: a frontmatter record, an ordered
    list of sections holding ordered entries, and the list of user overrides
    for derived map locations. Optional text fields of an entry are the empty
    string when absent, because the consumers test them for truthiness; the
    one exception is the title of a publication, which the citation writes
    untested, so whether an entry has a title at all is kept apart. */
module Model {
  import opened Base

  /** Section and entry identifiers are opaque strings. */
  type Id = string

  datatype Author = Author(name: string, surname: string)

  /** The `type` tag of an entry, one per entry form of the editor. */
  datatype EntryKind =
    | Publication | JournalIssue | Conference | Festival | Exhibition
    | CallForPapers | Media | Text

  /** The tag as stored in the `type` field of an entry. */
  function KindName(k: EntryKind): string {
    match k
    case Publication => "publication"
    case JournalIssue => "journalIssue"
    case Conference => "conference"
    case Festival => "festival"
    case Exhibition => "exhibition"
    case CallForPapers => "callForPapers"
    case Media => "media"
    case Text => "text"
  }

  predicate IsEvent(k: EntryKind) {
    k == Conference || k == Festival || k == Exhibition
  }

  /** One entry. Which fields a renderer reads depends on `kind`; the others
      stay empty. `authors` is `None` when the entry has no author list at
      all, which the author operations observe. `importance` is 0 when unset. */
  datatype Entry = Entry(
    id: Id,
    kind: EntryKind,
    importance: int,
    whyItMatters: string,
    signal: string,
    title: string,
    authors: Option<seq<Author>>,
    pubType: string,
    containerTitle: string,
    publisher: string,
    date: string,
    url: string,
    urlText: string,
    openAccess: bool,
    abstractText: string,
    volume: string,
    issue: string,
    journalName: string,
    theme: string,
    guestEditor: string,
    description: string,
    dateStart: string,
    dateEnd: string,
    cfpDeadline: string,
    place: string,
    venue: string,
    coords: string,
    customEventType: string,
    deadline: string,
    mediaType: string,
    creator: string,
    content: string,
    draft: bool,
    /** Whether the entry has a `title` property at all; `title` is "" when
        it has none. */
    titled: bool)

  /** An entry carrying only an id and a type tag. */
  function BareEntry(id: Id, kind: EntryKind): Entry {
    Entry(id, kind, 0, "", "", "", None, "", "", "", "", "", "", false, "", "", "",
          "", "", "", "", "", "", "", "", "", "", "", "", "", "", "", false, false)
  }

  datatype SectionType =
    | Publications | JournalIssues | Conferences | CallsForPapers | Festivals
    | Exhibitions | News | MediaAndPodcasts | QuickLinks | Custom

  /** The default section titles of the section-type table. */
  function DefaultTitle(t: SectionType): string {
    match t
    case Publications => "Publications \U{1F4DA}"
    case JournalIssues => "New Journal Issues \U{1F4D6}"
    case Conferences => "Conferences \U{1F4E2}"
    case CallsForPapers => "Call for Papers \U{1F4DD}"
    case Festivals => "Festivals & Screenings \U{1F3AC}"
    case Exhibitions => "Exhibitions \U{1F5BC}\U{FE0F}"
    case News => "News \U{1F4F0}"
    case MediaAndPodcasts => "Media & Podcasts \U{1F3A7}"
    case QuickLinks => "Quick Links \U{1F517}"
    case Custom => "Custom Section \U{270F}\U{FE0F}"
  }

  datatype Section = Section(id: Id, sectionType: SectionType, title: string, entries: seq<Entry>)

  /** Document metadata. `tags` is `None` when it is not an array; `draft` is
      `None` when it is null or undefined. */
  datatype Frontmatter = Frontmatter(title: string, date: string, tags: Option<seq<string>>, draft: Option<bool>)

  /** A user override of the title and description of the location derived
      from the event entry `entryId`; an empty field means "not overridden". */
  datatype LocationOverride = LocationOverride(entryId: Id, title: string, description: string)

  datatype Document = Document(frontmatter: Frontmatter, sections: seq<Section>, overrides: seq<LocationOverride>)

  /** The store: the document and the number of change notifications sent
      to subscribers so far. */
  datatype Store = Store(data: Document, notifications: nat)

  const EmptyFrontmatter := Frontmatter("", "", None, None)
  const EmptyDocument := Document(EmptyFrontmatter, [], [])

  /** The location record derived for one event entry. */
  datatype Location = Location(
    title: string,
    city: string,
    venue: string,
    country: string,
    coords: seq<string>,
    date: string,
    description: string,
    entryId: Id)

  /** All entries of all sections, in section order then entry order. */
  function AllEntries(sections: seq<Section>): seq<Entry> {
    if |sections| == 0 then [] else sections[0].entries + AllEntries(sections[1..])
  }

  lemma {:induction false} AllEntriesAppend(a: seq<Section>, b: seq<Section>)
    ensures AllEntries(a + b) == AllEntries(a) + AllEntries(b)
  {
    if |a| > 0 {
      assert (a + b)[1..] == a[1..] + b;
      AllEntriesAppend(a[1..], b);
    } else {
      assert a + b == b;
    }
  }

  /** The index of the first element whose key is `id`: the lookup behind
      every `find` and `findIndex` of the store. */
  function FindFirst<T>(xs: seq<T>, key: T -> Id, id: Id): (r: Option<nat>)
    ensures r.Some? ==> r.value < |xs| && key(xs[r.value]) == id
    ensures r.Some? ==> forall j :: 0 <= j < r.value ==> key(xs[j]) != id
    ensures r.None? ==> forall j :: 0 <= j < |xs| ==> key(xs[j]) != id
  {
    if |xs| == 0 then None
    else if key(xs[0]) == id then Some(0)
    else
      match FindFirst(xs[1..], key, id)
      case None => None
      case Some(k) => Some(k + 1)
  }

  /** The index of the first section with identifier `id`, as `findIndex`. */
  function FindSection(sections: seq<Section>, id: Id): (r: Option<nat>)
    ensures r.Some? ==> r.value < |sections| && sections[r.value].id == id
    ensures r.Some? ==> forall j :: 0 <= j < r.value ==> sections[j].id != id
    ensures r.None? ==> forall j :: 0 <= j < |sections| ==> sections[j].id != id
  {
    FindFirst(sections, (s: Section) => s.id, id)
  }

  /** The index of the first entry with identifier `id`, as `find`. */
  function FindEntry(entries: seq<Entry>, id: Id): (r: Option<nat>)
    ensures r.Some? ==> r.value < |entries| && entries[r.value].id == id
    ensures r.Some? ==> forall j :: 0 <= j < r.value ==> entries[j].id != id
    ensures r.None? ==> forall j :: 0 <= j < |entries| ==> entries[j].id != id
  {
    FindFirst(entries, (e: Entry) => e.id, id)
  }

  /** The first override for `entryId`, as `find`. */
  function FindOverride(overrides: seq<LocationOverride>, entryId: Id): (r: Option<nat>)
    ensures r.Some? ==> r.value < |overrides| && overrides[r.value].entryId == entryId
    ensures r.Some? ==> forall j :: 0 <= j < r.value ==> overrides[j].entryId != entryId
    ensures r.None? ==> forall j :: 0 <= j < |overrides| ==> overrides[j].entryId != entryId
  {
    FindFirst(overrides, (o: LocationOverride) => o.entryId, entryId)
  }
}
