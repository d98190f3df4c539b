# Digest editor: a verified model of the document pipeline

The digest editor is a browser tool. It assembles a research digest and exports it as a Jekyll post. This project models the deterministic part of that tool in Dafny and proves properties of the model. That part is:

- the document store and its transitions (`js/state.js`);
- the entry order and the text helpers (`js/utils.js`);
- the YAML front matter and the map locations derived from event entries (`js/frontmatter.js`);
- one Markdown renderer per entry kind (`js/generators.js`);
- DOI extraction, the duplicate-aware CSL-JSON import, the draft import and the digest assembler with its whitespace pass (`js/io.js`).

The document is an immutable value of type `Document`, made of:

- a front-matter record;
- the sections, each holding its entries;
- the user's location overrides.

The store is `Store(data, notifications)`. Its counter grows by one exactly when the source calls `notify`, so "a no-op tells no one" can be stated and proved. Every store operation is a pure function from one store to the next. An unknown identifier gives back the same store, as in the source.

Every entry kind shares one flat `Entry` record tagged with an `EntryKind`. An absent text field is the empty string, because the consumers test those fields for truthiness. The exception is the publication citation, which writes `title` without testing it, so a title that was never set shows as "undefined". The record therefore keeps a `titled` flag: it is false for an entry made by `addEntry`, and true once the importer or `updateEntry` has written a title. An absent author list is `None`, because the author operations tell that case apart.

The modules follow the source:

| module | file | what it holds |
|---|---|---|
| `Base` | `base.dfy` | option and result types |
| `Strings` | `strings.dfy` | the string built-ins the source relies on: `split`, `join`, `trim`, `toLowerCase`, `parseInt` and a lexicographic order |
| `Runs` | `runs.dfy` | `filter` on characters, and `replace(/[class]+/g, c)` |
| `Sorting` | `sorting.dfy` | the stable comparator sort of `Array.prototype.sort` |
| `Model` | `model.dfy` | the data model and the `find` lookups |
| `Utils` | `utils.dfy` | `js/utils.js` |
| `FrontmatterYaml` | `frontmatter.dfy` | `js/frontmatter.js` |
| `Doi` | `doi.dfy` | the DOI regular expression that `js/io.js` and `js/generators.js` share |
| `Generators` | `generators.dfy` | `js/generators.js` |
| `State` | `state.dfy` | `js/state.js` |
| `Importer` | `importer.dfy` | the two imports of `js/io.js` |
| `Markdown` | `markdown.dfy` | `normalizeMarkdown` |
| `Digest` | `digest.dfy` | `buildDigest` |

## Model

| member | source | states |
|---|---|---|
| Model.FindFirst | js/state.js:89-91 | the index found holds the first element whose key is the id; `None` means no element has it |
| Model.FindSection | js/state.js:89-91 | the index found holds the first section with that id; `None` means no section has it |
| Model.FindEntry | js/state.js:146 | the index found holds the first entry with that id; `None` means no entry has it |
| Model.FindOverride | js/state.js:210-212 | the index found holds the first override for that entry; `None` means there is none |
| Utils.SortEntriesPermutes | js/utils.js:114 | the sorted copy holds exactly the input entries, with multiplicity |
| Utils.SortEntriesByImportance | js/utils.js:116-118 | for every input, importance (an unset 0 counting as 2) never decreases along the output |
| Utils.SortEntriesOrdered | js/utils.js:113-128 | when each importance group is dated throughout or undated throughout, every earlier entry may precede every later one: lower importance first, then the newer ISO date, then the smaller title |
| Utils.SortEntriesStable | js/utils.js:113-128 | under the same condition, entries equal in importance, date and title keep their input order |
| Utils.SortEntriesIsDigestSort | js/utils.js:113-128 | under that condition, sorting with the source comparator equals sorting with the transitive reference order `DigestOrder` |
| Utils.CompareAgreesWithDigestOrder | js/utils.js:114-127 | under that condition, the source comparator and the reference order agree on every pair of entries |
| Utils.DigestOrderIsTotalPreorder | js/utils.js:114-127 | swapping the arguments flips the sign of the reference order, and "goes no later than" is transitive, so it is a total preorder |
| Utils.DigestOrderTransitive | js/utils.js:114-127 | the reference order is transitive |
| Utils.DigestOrderMeansMayPrecede | js/utils.js:115-126 | an entry that the reference order puts first may precede the other by importance, then date, then title |
| Utils.DigestOrderTies | js/utils.js:115-126 | two entries tie exactly when importance, date and title are all equal |
| Utils.TitleCaseLower | js/utils.js:38-52 | title-casing changes letter case only |
| Utils.TitleCaseSplit | js/utils.js:38-52 | the words of the output are the treated lower-cased words of the input, in order |
| Utils.TitleCaseWords | js/utils.js:38-52 | the word count is kept; the first and last words are capitalised; listed small words strictly inside stay lower-case; every other word is capitalised |
| Utils.TitleCaseIdempotent | js/utils.js:4-53 | title-casing twice equals title-casing once, the empty string included |
| Utils.MapCslTypeRange | js/utils.js:55-68 | the result is one of six publication types, and any type outside the nine tabled ones maps to "Article" |
| Utils.MapCslTypeInverse | js/utils.js:55-68 | "Book", "Chapter", "Thesis", "Online Article" and "Blog Post" each come from exactly one CSL type |
| Utils.FormatCslDateRoundTrip | js/utils.js:70-77 | splitting the formatted date on "-" and parsing each part gives back the first `date-parts` row; without a row the result is `raw`, and without `issued` it is "" |
| Utils.SanitizeFilename | js/utils.js:95-97 | the length is kept, and every character is in `[a-z0-9_-]` |
| Utils.SanitizeFilenameKeepsSafeNames | js/utils.js:95-97 | a name made only of `[a-z0-9_-]` is unchanged |
| Utils.SanitizeFilenameIdempotent | js/utils.js:95-97 | sanitising twice equals sanitising once |
| Utils.ValidDateParts | js/utils.js:80-83 | a valid non-empty date splits on "-" into its four-digit year, its month and its day |
| FrontmatterYaml.YamlEscape | js/frontmatter.js:1-7 | the escaped text has no newline and no whitespace at either end |
| FrontmatterYaml.TwoPassEscape | js/frontmatter.js:3-4 | doubling backslashes and then escaping quotes escapes each character once, so no quote escape is doubled |
| FrontmatterYaml.CollapseEscape | js/frontmatter.js:3-5 | escaping and collapsing newline runs commute |
| FrontmatterYaml.YamlEscapeIsEscapeOfTrimmed | js/frontmatter.js:1-7 | the result is the per-character escape of the collapsed, trimmed value |
| FrontmatterYaml.UnescapeEscape | js/frontmatter.js:3-4 | a YAML reader reads the escaped text back as the original |
| FrontmatterYaml.EscapeQuotedBody | js/frontmatter.js:3-4 | the escaped text of a one-line value is a well-formed double-quoted scalar body |
| FrontmatterYaml.YamlEscapeRoundTrip | js/frontmatter.js:1-7 | the output is a well-formed quoted body; reading it back gives the value with newline runs turned into spaces and the ends trimmed, and nothing else is lost |
| FrontmatterYaml.YamlEscapeInvertible | js/frontmatter.js:1-7 | a one-line value without whitespace at its ends reads back exactly |
| FrontmatterYaml.YamlEscapeIdentity | js/frontmatter.js:1-7 | such a value without `\` or `"` is written unchanged |
| FrontmatterYaml.YamlEscapeQuotes | js/frontmatter.js:4 | quotes around a plain word are escaped once and nothing else changes |
| FrontmatterYaml.YamlEscapeJoinsLines | js/frontmatter.js:5-6 | any run of line breaks between two trimmed one-line values becomes a single space |
| FrontmatterYaml.CollapseNewlines | js/frontmatter.js:5 | collapsing newline runs leaves no newline |
| FrontmatterYaml.ParseCoordinates | js/frontmatter.js:93-100 | every kept coordinate is a complete decimal literal |
| FrontmatterYaml.DecimalPrefixOfDecimal | js/frontmatter.js:97 | the number reader consumes a whole decimal literal |
| FrontmatterYaml.DecimalPrefixIsDecimal | js/frontmatter.js:97-98 | whatever the number reader consumes is a decimal literal |
| FrontmatterYaml.ParseCoordinatesRoundTrip | js/frontmatter.js:93-100 | decimal literals joined by ", " parse back to the same literals, in order |
| FrontmatterYaml.ParsePlace | js/frontmatter.js:102-108 | an empty place gives an empty city |
| FrontmatterYaml.ParsePlaceRoundTrip | js/frontmatter.js:102-108 | "first, ..., last" reads back its first part as the city; the last part is the country only when there are at least two parts |
| FrontmatterYaml.ParsePlaceExample | js/frontmatter.js:102-108 | "Paris, France" gives city "Paris" and country "France" |
| FrontmatterYaml.FormatEventDateCases | js/frontmatter.js:110-113 | the date is empty exactly without a start; the start always leads; a range is written exactly when both dates are present and differ |
| FrontmatterYaml.DeriveLocation | js/frontmatter.js:52-86 | each derived location carries the id of its entry |
| FrontmatterYaml.Events | js/frontmatter.js:46-48 | exactly the conference, festival and exhibition entries of the input are kept: each kept entry is an event from the input, and every event entry of the input is kept |
| FrontmatterYaml.EventsAppend | js/frontmatter.js:46-48 | the event filter distributes over concatenation, so the kept entries stay in document order |
| FrontmatterYaml.CollectLocationsOnePerEvent | js/frontmatter.js:42-91 | there is exactly one location per event entry, in section-then-entry order, each tagged with its entry's id |
| FrontmatterYaml.DeriveLocationPrecedence | js/frontmatter.js:52-85 | the title is a non-empty override title, else "<type label>: <title>"; the description is the override's, else the entry's |
| FrontmatterYaml.OverridesOnlyTitleAndDescription | js/frontmatter.js:63-85 | city, venue, country, coordinates, date and id never depend on overrides |
| FrontmatterYaml.StrayOverrideIgnored | js/frontmatter.js:59-61 | an override for an entry that is not in the document changes no location |
| FrontmatterYaml.TagsTextOneLine | js/frontmatter.js:17-20 | the tags text never spans lines |
| FrontmatterYaml.TitleLineOneLine | js/frontmatter.js:13 | the title line never spans lines |
| FrontmatterYaml.DateLineOneLine | js/frontmatter.js:14 | the date line is one line when the date is |
| FrontmatterYaml.HeaderOneLine | js/frontmatter.js:10-22 | the six opening lines are one line each when the date is |
| FrontmatterYaml.LinesOneLine | js/frontmatter.js:9-40 | no line of the block spans lines when the date and coordinates do not |
| FrontmatterYaml.GenerateFrontmatterLines | js/frontmatter.js:9-40 | splitting the generated text at newlines gives back exactly the intended lines followed by an empty one |
| FrontmatterYaml.FrontmatterLinesFrame | js/frontmatter.js:9-40 | the block opens with `---`, then the layout, title, date, tags and draft lines in that order; it closes with `---` and an empty line |
| FrontmatterYaml.FrontmatterLinesLocations | js/frontmatter.js:24-36 | `locations:` appears exactly when there is a location, followed by seven lines per location in input order |
| FrontmatterYaml.LocationsBlockAt | js/frontmatter.js:25-36 | the locations block is the key followed by line `j` of location `i` at position `1 + 7i + j` |
| Doi.PatternAtIsDoi | js/io.js:139 | a match found at the start of a text is a DOI, and it ends at whitespace or at the end |
| Doi.DoiIsPattern | js/io.js:139 | wherever a DOI starts, the matcher finds a match at least as long |
| Doi.SearchNone | js/io.js:139 | the search finds nothing exactly when no substring is a DOI |
| Doi.SearchSome | js/io.js:139 | the match found is a DOI; no DOI starts earlier, and none starting there is longer |
| Doi.ExtractDoi | js/io.js:137-141 | an empty URL gives `None`; a DOI found starts with "10.", holds no whitespace and matches the pattern |
| Doi.ExtractDoiNone | js/io.js:137-141 | nothing is extracted exactly when no part of the URL is a DOI |
| Doi.DoiNoSpace | js/io.js:139 | every DOI starts with "10." and holds no whitespace |
| Generators.JekyllTextRoundTrip | js/generators.js:4-8 | reading the hard breaks back gives the original text, so the conversion loses nothing |
| Generators.JekyllTextHardBreaks | js/generators.js:4-8 | every newline of the converted text is a hard break |
| Generators.JekyllTextPlain | js/generators.js:4-8 | text without newlines, the empty text included, is unchanged |
| Generators.FormatUrlChoice | js/generators.js:11-29 | no URL gives ""; otherwise the link text is the badge for open access, then "DOI" for a doi.org URL that holds a DOI, then the custom text, then "link"; the target is always the URL |
| Generators.NamedAuthorsEmpty | js/generators.js:38 | no author is kept exactly when every author is blank |
| Generators.AuthorsBlankIgnored | js/generators.js:37-49 | a blank author makes no difference to the author list, wherever it stands |
| Generators.AuthorsPrefixShape | js/generators.js:37-49 | the author part is empty exactly when every author is blank; otherwise it opens with "surname, name" of the first named author and closes with ". " |
| Generators.AuthorsPrefixOne | js/generators.js:37-49 | one author renders as "surname, name. " |
| Generators.AuthorsPrefixTwo | js/generators.js:37-49 | a second author follows in reading order after ", " |
| Generators.AuthorsPrefixExample | js/generators.js:37-49 | Jane Doe renders as "Doe, Jane. " |
| Generators.YearOfDate | js/generators.js:57 | the year of "Y-..." is Y, and a text without "-" is its own year |
| Generators.CitationLinkPlacement | js/generators.js:52-121 | books, chapters and theses put the link after the closing period; every other type puts it before |
| Generators.CitationYear | js/generators.js:52-108 | books, chapters and theses cite only the year of a dated entry |
| Generators.MlaDateFull | js/generators.js:164-169 | "Y-M-D" reads "D Mon Y", with the day as a plain number |
| Generators.MlaDateMonth | js/generators.js:170-173 | "Y-M" reads "Mon Y" |
| Generators.MlaDateUnchanged | js/generators.js:146-179 | text without "-", and a date of four or more parts, is returned unchanged |
| Generators.MlaDateExample | js/generators.js:146-179 | "2025-03-15" reads "15 Mar. 2025" |
| Generators.MlaDateHexMonth | js/generators.js:164-169 | a month written "0x…" or "0X…" is read in base 16, because `parseInt` gets no radix |
| Generators.MlaDateHexExample | js/generators.js:164-169 | "2025-0x3-01" reads "1 Mar. 2025" |
| Strings.ParseIntHex | js/generators.js:167 | `parseInt` without a radix reads "0x" or "0X" followed by hexadecimal digits in base 16 |
| Strings.ParseIntHexPrefixAlone | js/generators.js:167 | a "0x" prefix with no hexadecimal digit after it reads as `NaN`, not as the 0 before the x |
| Generators.SplitThree | js/generators.js:164 | a dash-free year, month and day split back into their three parts |
| Generators.AbstractBlockShape | js/generators.js:132-140 | the block appears exactly when there is an abstract; it is labelled "Annotation" exactly for books, chapters and theses; it gives the abstract back between its tags |
| Generators.RenderPublicationShape | js/generators.js:33-144 | a publication opens with its author list and citation on one line, and closes with its abstract block and a blank line |
| Generators.RenderJournalHardBreaks | js/generators.js:181-213 | with one-line fields, every line but the link line ends in a hard break, and the block closes with a blank line |
| Generators.RenderJournalEmpty | js/generators.js:181-213 | with every field empty, the heading line is still written |
| Generators.JournalLinkVsFormatUrl | js/generators.js:203-209 | the journal link appears exactly with a URL; it defaults to "Link" where the shared link formatter says "link" or "DOI" |
| Generators.EventDatesParts | js/generators.js:222-223 | the start date leads, and " to <end>" follows exactly when an end date is given |
| Generators.EventDatesKeepEqualEnd | js/generators.js:222-223 | an end date equal to the start is still written, unlike in the front-matter date |
| Generators.RenderEventHardBreaks | js/generators.js:215-240 | with one-line fields, only the closing blank line of an event is a plain newline |
| Generators.RenderEventLinkLast | js/generators.js:237-238 | an event with a URL closes with its "Website" link and a blank line |
| Generators.RenderEventEmpty | js/generators.js:215-240 | an event with nothing to show contributes one blank line |
| Generators.RenderCallHardBreaks | js/generators.js:242-257 | with one-line fields, only the closing blank line of a call is a plain newline |
| Generators.RenderCallDash | js/generators.js:244 | a titled call without a theme keeps the dash after its title |
| Generators.RenderMediaHardBreaks | js/generators.js:259-276 | with one-line fields, only the closing blank line of a media item is a plain newline |
| Generators.RenderMediaDefaultType | js/generators.js:261-262 | a titled item without a media type is labelled "Media" |
| State.SpliceIndex | js/state.js:56-60 | the start index lies in `0..len`; a negative index counts from the end and a larger one is clamped |
| State.RemoveAt | js/state.js:57 | one element fewer, and exactly the removed one is missing |
| State.InsertAt | js/state.js:58 | one element more, placed at the index |
| State.InsertRemoved | js/state.js:56-60 | putting a removed element back at its index restores the list |
| State.MoveBackIsSwap | js/state.js:66-67 | removing element `j` and inserting it at `j - 1` swaps the two neighbours |
| State.MoveForwardIsSwap | js/state.js:76-77 | removing element `i` and inserting it at `i + 1` swaps the two neighbours |
| State.AddSection | js/state.js:39-49 | one section is appended last, empty and titled by the custom title or the type's default; everything else is kept, and subscribers are told once |
| State.DeleteSection | js/state.js:51-54 | no section with the id remains and nothing new appears; every section with another id stays, between what survives of the sections before it and of those after it; the overrides and front matter stay; subscribers are always told |
| State.SectionsWithoutAround | js/state.js:52 | the filter keeps a section with another id in place between the filtered sections before it and after it |
| State.DeleteSectionUndoesAdd | js/state.js:39-54 | deleting a section just added under a fresh id gives the document back |
| State.DeleteSectionAbsent | js/state.js:51-54 | deleting an unknown id changes only the notification count |
| State.MoveSection | js/state.js:56-60 | the sections are permuted; everything else is kept; subscribers are told once |
| State.MoveSectionGeneralisesUp | js/state.js:56-70 | a one-slot move back is `moveSectionUp` on that section |
| State.MoveSectionUp | js/state.js:63-70 | the sections are permuted, and everything else is kept |
| State.MoveSectionDown | js/state.js:73-80 | the sections are permuted, and everything else is kept |
| State.MoveSectionUpSwaps | js/state.js:63-70 | a section past the first place trades places with the one before it, with one notification |
| State.MoveSectionDownSwaps | js/state.js:73-80 | a section before the last place trades places with the one after it, with one notification |
| State.MoveSectionUpNoOp | js/state.js:63-70 | the store, notifications included, stays as it is exactly when the section is missing or first |
| State.MoveSectionDownNoOp | js/state.js:73-80 | the store, notifications included, stays as it is exactly when the section is missing or last |
| State.MoveSectionDownUndoesUp | js/state.js:63-80 | moving a section down after moving it up restores the order |
| State.IndexIn | js/state.js:84 | the position of the first occurrence, or -1 exactly when the id is absent |
| State.ReorderSections | js/state.js:82-87 | only the sections change, and subscribers are told once |
| State.ReorderSectionsOrders | js/state.js:82-87 | the sections are permuted into the order of the id list, and unlisted sections come before every listed one |
| State.ReorderSectionsStable | js/state.js:82-87 | sections at the same position of the list, all unlisted ones included, keep their relative order |
| State.AddEntry | js/state.js:94-126 | a missing section gives `None` and no change; otherwise the new entry with its type defaults is returned, and subscribers are told once |
| State.AddEntryAppends | js/state.js:94-126 | the new entry goes last in the first section with that id, and nothing else changes |
| State.NewPublicationRendersNoAuthors | js/state.js:107-110 | a new publication has one blank author, which renders no author list |
| State.NewPublicationCitesUndefined | js/state.js:98-121 | a new publication has no title, so its citation is `"undefined.".` and its rendering opens with that line |
| State.WrittenTitleCited | js/state.js:153 | once `updateEntry` writes a title, even an empty one, the citation shows exactly that text |
| State.DeleteEntry | js/state.js:128-140 | a missing section changes nothing; otherwise no override for the entry remains, and subscribers are told |
| State.DeleteEntryRemoves | js/state.js:128-140 | the entry leaves its section, other sections are untouched, and exactly the overrides of other entries remain |
| State.DeleteEntryUndoesAdd | js/state.js:94-140 | deleting an entry just added under a fresh id gives the document back |
| State.SetTextGet | js/state.js:153 | a text field reads back what was written to it |
| State.SetTextRestore | js/state.js:153 | writing a field's old value back restores the entry, so a write changes no other field; the one trace left is that an untitled entry now has a title |
| State.SetTextFrame | js/state.js:149-154 | a text write keeps the id, type, importance, authors and flags, and the entry has a title afterwards exactly when it had one or the write was to the title |
| State.SetFlagCoerces | js/state.js:149-151 | a boolean field stores the truthiness of the value, and nothing else changes |
| State.Locate | js/state.js:143-147 | a located section and entry are in range |
| State.UpdateEntry | js/state.js:142-157 | an unknown section or entry changes nothing and tells no one; otherwise subscribers are told once |
| State.UpdateEntryOnly | js/state.js:142-157 | only the addressed entry changes, and it changes by exactly the update |
| State.MoveEntry | js/state.js:159-168 | a missing section changes nothing; otherwise the section count, the overrides and the front matter are kept |
| State.MoveEntryKeepsEntries | js/state.js:159-168 | a move that selects an entry keeps every entry of the document and tells subscribers once |
| State.MoveEntryPlaces | js/state.js:165-166 | the moved entry lands at the target index, clamped against the target list without the moved entry |
| State.MoveEntryInPlace | js/state.js:159-168 | moving an entry to its own place leaves the document as it was |
| State.AuthorOpsNeedAuthors | js/state.js:171-202 | without the entry or its author list, the three author operations change nothing and tell no one |
| State.AddAuthorAppendsBlank | js/state.js:171-180 | one blank author is appended, which changes nothing in the rendered author list |
| State.DeleteAuthorUndoesAdd | js/state.js:171-202 | deleting the last author (index -1) undoes adding one |
| State.UpdateAuthorOnly | js/state.js:182-191 | one field of one author changes; an index outside the list changes nothing and tells no one |
| State.UpdateFrontmatterLocation | js/state.js:205-221 | only the overrides change, and subscribers are told once |
| State.UpdateFrontmatterLocationUpserts | js/state.js:205-221 | an override is appended only when the entry has none; at most one override per entry is kept; the field is set on it; every other override is unchanged |
| State.UpdatedTitleReachesLocation | js/state.js:205-221 | a title written through the upsert becomes the title of that event's location |
| Importer.NormalizeTitleNormal | js/io.js:175-182 | the normalised title is lower-case, with single inner spaces and no outer whitespace, and it keeps every other character in order |
| Importer.NormalIffFixed | js/io.js:175-182 | normalisation leaves a title unchanged exactly when the title is already normal |
| Importer.NormalizeTitleIdempotent | js/io.js:175-182 | normalising twice equals normalising once |
| Importer.NormalizeTitleInsensitive | js/io.js:175-182 | case and leading whitespace do not matter |
| Importer.AnyDuplicateExists | js/io.js:172-194 | a record is a duplicate exactly when some entry matches it by title or by DOI |
| Importer.AnyDuplicateGrows | js/io.js:172-194 | a duplicate stays a duplicate when entries are added |
| Importer.ImportedEntry | js/io.js:203-223 | the new entry is a publication under the fresh id, with the record's title, link text "link", no open access and unset importance |
| Importer.ResolverLinkDoi | js/io.js:217 | the DOI extracted from a resolver link is the DOI it was made from |
| Importer.ImportedEntryRecognised | js/io.js:172-223 | the entry made from a record with a title, or with only a well-formed DOI, is a duplicate of that record |
| Importer.ResolverLinkLabel | js/io.js:217 | a resolver link made from a well-formed DOI gets the label "DOI" from the link formatter |
| Importer.ImportedDoiLinkLabel | js/io.js:203-223 | a record with only a DOI renders its link as "DOI" |
| Importer.ImportItems | js/io.js:167-226 | added plus skipped equals the number of records, and the entries grow by the added ones at the end |
| Importer.ImportItemsCovers | js/io.js:167-226 | afterwards every recognisable record has a duplicate among the entries |
| Importer.AllDuplicatesSkipped | js/io.js:196-200 | records that all have duplicates are all skipped, and nothing changes |
| Importer.ReimportAddsNothing | js/io.js:167-226 | importing the same recognisable records again adds nothing and skips every one |
| Importer.SameTitleTwice | js/io.js:167-226 | two records whose normalised titles agree, the first new, give one added entry and one skip |
| Importer.FindPublications | js/io.js:156-158 | the index found holds the first publications section; `None` means there is none |
| Importer.PublicationsSection | js/io.js:156-161 | the section imported into exists and is a publications section |
| Importer.ImportCsl | js/io.js:149-246 | a payload that is not an array is rejected before any change; an array of CSL records always succeeds; the front matter and overrides are kept |
| Importer.ImportCslIntoExisting | js/io.js:156-242 | with a publications section, only its entries grow by the batch, the summary reports the batch, and subscribers are told once |
| Importer.ImportCslCreatesSection | js/io.js:156-242 | without one, a publications section holding just the added records is appended, and subscribers are told twice |
| Importer.ImportMessageLines | js/io.js:230-240 | the summary reads as the count line, then, with skips, a blank line, the skip count, up to five bulleted titles and a line counting the rest |
| Importer.ImportJson | js/io.js:284-295 | a draft without front matter or sections is rejected and the store kept; otherwise the import succeeds and subscribers are told once |
| Importer.ImportJsonRoundTrip | js/io.js:284-302 | importing an exported draft gives back the document, and a draft without overrides gets an empty list |
| Markdown.CollapseNewlines | js/io.js:373 | a text that starts with something other than a newline keeps its first character |
| Markdown.StripTrailingBlanks | js/io.js:374 | a text that starts with something other than a blank keeps its first character |
| Markdown.NormalizeMarkdown | js/io.js:370-377 | the result ends with one newline, preceded by a non-whitespace character unless the result is "\n" |
| Markdown.StripTrailingBlanksClean | js/io.js:374 | no line ends in a space or a tab after stripping |
| Markdown.NormalizeMarkdownLines | js/io.js:370-377 | no line of the result ends in a space or a tab |
| Markdown.NormalizeMarkdownKeepsText | js/io.js:370-377 | only whitespace changes; every other character stays, in order |
| Markdown.CollapseNewlinesNoTriple | js/io.js:373 | the collapse on its own leaves no three newlines in a row |
| Markdown.WhitespaceLineLeavesTriple | js/io.js:370-377 | a line holding only a space between blank lines gets past the collapse, so the result can hold three newlines in a row |
| Markdown.NormalizeMarkdownNotIdempotent | js/io.js:370-377 | normalising that result again changes it, so the pass is not idempotent |
| Digest.RendererForKind | js/io.js:348-363 | each entry kind reaches its own renderer, the three event kinds share one, and text entries fall through to their content |
| Digest.SectionRendersEveryEntry | js/io.js:346-364 | a section renders every one of its entries exactly once |
| Digest.AnchorShape | js/io.js:327 | an anchor holds only lower-case letters, digits and single dashes |
| Digest.AnchorKeepsAlnum | js/io.js:327 | every letter and digit of the lower-cased title survives, in order |
| Digest.AnchorIdempotent | js/io.js:327 | the anchor of an anchor is itself |
| Digest.AnchorOfWordAndEmoji | js/io.js:327 | a word followed by a space and an emoji gives the lower-cased word and a trailing dash |
| Digest.PublicationsAnchor | js/io.js:327 | the default publications title anchors as "publications-" |
| Digest.CleanTitleClean | js/io.js:329-334 | the cleaned title has no emoji in the three ranges and no outer whitespace, and cleaning it again changes nothing |
| Digest.CleanTitleKeepsText | js/io.js:329-334 | cleaning keeps every other non-whitespace character, in order |
| Digest.CleanTitleOfWordAndEmoji | js/io.js:329-334 | a word followed by a space and an emoji cleans to the word |
| Digest.CleanTitleKeepsSelector | js/io.js:329-334 | a character outside the three ranges after the emoji stays, and so does the space before it |
| Digest.ExhibitionsTitle | js/io.js:329-334 | the default exhibitions title keeps its variation selector |
| Digest.ListedSections | js/io.js:326 | exactly the sections with entries are listed: each listed section has entries, and every section with entries is listed |
| Digest.ListedSectionsAppend | js/io.js:326 | the filter distributes over concatenation, so the listed sections stay in document order |
| Digest.TocLines | js/io.js:324-337 | with one-line titles, the table of contents holds one line per section with entries, in order |
| Digest.BodyBlocks | js/io.js:341-365 | the body is the blocks of the sections with entries, in document order |
| Digest.EmptySectionsInvisible | js/io.js:315-368 | dropping the sections without entries does not change the digest |
| Digest.BuildDigest | js/io.js:315-368 | the digest is non-empty and ends with a newline |
| Digest.DigestKeepsText | js/io.js:315-368 | every non-whitespace character of the front matter, contents and sections reaches the digest, in order |
| Digest.DigestLines | js/io.js:315-368 | no line of the digest ends in a space or a tab |
| Sorting.SortPermutes | js/utils.js:114 | the sort returns a permutation of its input |
| Sorting.SortSorted | js/utils.js:114 | under a total preorder, the output is ordered by it |
| Sorting.SortStable | js/utils.js:114 | under a total preorder, elements tied with any element keep their input order |
| Sorting.SortKeySorted | js/state.js:83-85 | a comparator that decides by an integer key leaves the output ordered by that key |
| Runs.CollapseRunsIdempotent | js/io.js:178 | replacing each run of a class by one member of the class is idempotent |

## Left out

- The user interface is not part of this model: `js/ui.js`, `js/main.js`, the DOM forms, dialogs and the preview. `buildDigest` is the model of the rendered digest.
- Drag and drop is left out. It is DOM geometry; only the `moveEntry` call it ends in is modelled.
- Browser I/O is left out: `FileReader`, `Blob` and `URL.createObjectURL` downloads, `localStorage`, and the GitHub gist client (`js/gist.js`). The imports take the already parsed file as a parameter. A `JSON.parse` failure and its error message are not modelled.
- Subscriber lists (`subscribe`, `notify` calling listeners) are left out. `notify` is modelled as a counter of notifications.
- `debounce` is left out, because it is timer-driven.
- `generateId` is left out, because it draws on the clock and randomness. Fresh identifiers are parameters of the operations that need them.
- `validateURL` is left out, because it relies on the `URL` constructor.
- `js/config.js` is folded into `Model.DefaultTitle` as a constant table.
- The copies of `mapCSLType` and `formatCSLDate` in `js/io.js` are identical to those in `js/utils.js` and are modelled once, in `Utils`.
- Case mapping is ASCII only. `toLowerCase` and `toUpperCase` change only A–Z and a–z, so titles and anchors with other letters are not modelled faithfully.
- Strings are sequences of code points, not UTF-16 code units. The emoji ranges of the table of contents are code-point ranges.
- `localeCompare` is modelled as plain lexicographic order on code points.
- `new Date(...)` in the entry comparator is modelled as comparison of date strings. This agrees with the source only when both dates are full `YYYY-MM-DD` dates. Three other kinds of date are not modelled faithfully:
  - partial dates: "2025-03" and "2025-03-01" are the same instant to the source, so the comparator returns 0 and the two keep their input order whatever their titles, while the model puts "2025-03-01" first;
  - unpadded dates, such as the "2025-3-15" that `formatCSLDate` writes: the source compares the instants, the model the characters;
  - unparsable free-text dates: the source gets `NaN`, which `sort` treats as a tie.
- Numbers are unbounded integers. `String(n)` switching to exponent form from 1e21 on, the precision lost past 2^53, and non-integer `date-parts` values are left out. They reach the day of `formatMLADate` and the dates written by `formatCSLDate`.
- FrontmatterYaml.ParseCoordinates: `parseFloat` is modelled as the decimal literal it reads, kept as text. The conversion to a floating-point number and its re-printing by `join` are left out, and so are exponents, `Infinity` and hexadecimal forms.
- Utils.SortEntriesOrdered: order is proved only when each importance group is dated throughout or undated throughout. Otherwise the source comparator is not transitive, and the result depends on the engine's sorting algorithm.
- Utils.SortEntriesStable: stability is proved under the same condition.
- Utils.SortEntriesIsDigestSort: the equality with the reference sort also needs that condition.
- FrontmatterYaml.GenerateFrontmatterLines: it requires a one-line date and one-line coordinates, because the source writes the date unescaped.
- FrontmatterYaml.LinesOneLine: it requires a one-line date and one-line coordinates, for the same reason.
- `moveEntry` and `moveSection` with an index that selects no element are not modelled faithfully. The source inserts `undefined` in that case; the model inserts nothing. `State.MoveEntryKeepsEntries` and `State.MoveEntryPlaces` require an index that selects an entry.
- `updateEntry` writing a non-string into a text field is left out. Text fields are typed strings; the boolean fields take any JavaScript value and store its truthiness.
- A new override's absent `title` or `description` is modelled as "". Every reader of those fields treats the two alike.
- `generatePublicationMarkdown` on an entry without an author list throws a `TypeError` in the source. The model renders it as an empty list. Entries made by `addEntry` and by the importer always have a list.
- Reading a section without an `entries` array is left out. Every section the store or the importer makes has one.
- Utils.MapCslTypeRange: only the table's own keys are modelled. In the source, `typeMap[cslType]` also reads inherited properties, so "constructor", "toString", "valueOf" and "__proto__" give back a function or an object, not "Article".
- Importer.ImportCsl: only arrays of CSL records are modelled. An item that is not an object, such as the `null` in `[null]`, makes `item.title` throw a `TypeError` part-way through the batch. The error handler then reports it, but the publications section created before the loop and the entries pushed before the failing item stay in place, and the final `notify` is never called.
- Importer.ImportItemsCovers: covering is proved only for records that have a title or a well-formed DOI without a URL. Other records need not be recognisable afterwards.
- Markdown.CollapseNewlines: its own contract says only that the first character is kept. Its properties are stated by `Markdown.CollapseNewlinesNoTriple` and `Markdown.CollapseNewlinesKeepsText`.
- Markdown.StripTrailingBlanks: its own contract says only that the first character is kept. Its properties are stated by `Markdown.StripTrailingBlanksClean` and `Markdown.StripTrailingBlanksKeepsText`.
- FrontmatterYaml.ParsePlace: its own contract covers only the empty place. The split into city and country is stated by `FrontmatterYaml.ParsePlaceRoundTrip`.
- State.Locate: its own contract states only that the positions are in range. That they are the first matches comes from `Model.FindSection` and `Model.FindEntry`.
- State.MoveSectionUp: its own contract leaves out the notification. `State.MoveSectionUpSwaps` and `State.MoveSectionUpNoOp` state when one is sent.
- State.MoveSectionDown: its own contract leaves out the notification. `State.MoveSectionDownSwaps` and `State.MoveSectionDownNoOp` state when one is sent.
- State.ReorderSections: its own contract leaves out the order. `State.ReorderSectionsOrders` and `State.ReorderSectionsStable` state it.
- Digest.BuildDigest: its own contract states only the final newline. `Digest.DigestLines`, `Digest.DigestKeepsText` and `Digest.EmptySectionsInvisible` state the rest.
