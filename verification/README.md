# clidms catalog, modelled in Dafny

clidms is a command-line document manager. It keeps a SQLite database with
three tables: `Document` (an integer key and a file name), `Tag` (an integer
key and a text value) and `association` (pairs of document key and tag key).
Four commands act on these tables:

- `index` lists the document directory, keeps the entries whose extension is
  supported and adds one `Document` row per kept entry.
- `tag DOCUMENT_ID TAGS` looks up one document. It splits `TAGS` on commas,
  reuses or creates a `Tag` for each piece and links it to the document.
- `find [--name N] [--tag T]` returns the documents that pass the filters.
- `list` returns every document.

This project models the database as an immutable value, `Schema.Store`. The
store holds three sequences in insertion order. Each command is a pure
function from one store to the next, or to a query result. Lemmas state the
invariants and frame conditions the commands keep.

Files and modules:

- `wrappers.dfy` (`Wrappers`): the `Option` type.
- `text.dfy` (`Text`): Python's `str.split(sep)` and `sep.join`, with both
  round trips, and substring containment.
- `schema.dfy` (`Schema`): rows, the store, SQLite key assignment, lookups,
  what it means for a document to carry a tag, and the well-formedness
  invariant `Valid` (unique keys, unique tag values, no repeated association
  row, and every association row resolving).
- `indexing.dfy` (`Indexing`): extension filter and the `index` command.
- `tagging.dfy` (`Tagging`): lookup-or-create of tags, the duplicate-free
  association step and the `tag` command.
- `query.dfy` (`Query`): `find` and `list`.
- `catalog.dfy` (`Catalog`): the two state-changing commands as a state
  machine started from the freshly created schema.

Behaviour of the code that the model keeps:

- `index` does not check for existing rows. Indexing the same directory
  twice adds every supported file twice (`Indexing.IndexTwiceDuplicates`).
- A file name with no dot has the whole name as its extension, because the
  code takes the last piece of `split(".")`.
- `tag` adds an association row only when the document does not already
  carry the tag. `document.tags` is reloaded after every commit, and a flush
  inserts rows only for tags the loaded collection did not hold. So
  `tag 1 a,a`, or `tag 1 a` run twice, leaves one row for document 1 and tag
  `a` (`Tagging.RepeatedPieceAddsOneRow`, `Tagging.TagDocumentIdempotent`).
- Nothing in the schema makes tag values unique. The look-up-or-create step
  of `tag` keeps them unique, and `Catalog.ReachableStoresAreValid` proves
  this for every database the commands can build.

Keys follow SQLite's rule for an integer primary key: one more than the
largest key in the table, or 1 for an empty table (`Schema.NextId`). Nothing
is ever deleted, so this rule is exact.

## Model

| member | source | states |
|---|---|---|
| `Text.Split` | clidms.py:116 | `str.split(",")` never returns an empty list; a single piece means the separator does not occur; no piece contains the separator |
| `Text.SplitCount` | clidms.py:116 | there is exactly one more piece than there are separators, so empty pieces are kept |
| `Text.JoinSplit` | clidms.py:116 | joining the pieces with the separator gives back the argument: nothing is lost or reordered |
| `Text.SplitJoin` | clidms.py:116 | splitting the join of separator-free pieces gives back those pieces |
| `Text.LastPieceIsFinalSegment` | clidms.py:76 | the last piece of a split is the separator-free suffix after the final separator, or the whole string when none occurs |
| `Text.ContainsIffOccurs` | clidms.py:141 | the substring test holds exactly when the needle occurs at some position |
| `Schema.NextId` | clidms.py:19-32 | a new key is larger than every key in the table, and it is one more than an existing key or 1 for an empty table |
| `Schema.FindDocument` | clidms.py:118 | the lookup by id finds a row exactly when a document with that id exists, and the row has that id |
| `Schema.FindTag` | clidms.py:125 | the lookup by value finds a row exactly when a tag with that value exists, and the row has that value |
| `Schema.FoundDocumentIsOnlyMatch` | clidms.py:118 | with unique keys the document found is the only row with that id, so `.one()` cannot see several rows |
| `Schema.FoundTagIsOnlyMatch` | clidms.py:125 | with unique tag values the tag found is the only row with that value |
| `Schema.DocumentHasTag` | clidms.py:23-24 | a document carries a value only when some tag has that value |
| `Schema.CarriedIffLinked` | clidms.py:125-131 | with unique tag values a document carries a value exactly when the association row to the tag the lookup by value finds is present |
| `Indexing.Extension` | clidms.py:76 | `f.split(".")[-1]` is the dot-free tail after the last dot; a name without a dot is its own extension |
| `Indexing.SupportedFiles` | clidms.py:76 | the selection keeps each directory entry with a supported extension as often as it occurs in the listing, and no other entry |
| `Indexing.SupportedIff` | clidms.py:76 | an entry is selected iff it is in the listing and its extension is supported |
| `Indexing.SupportedFilesAppend` | clidms.py:76 | the selection keeps listing order: selecting a concatenation concatenates the selections |
| `Indexing.AddDocument` | clidms.py:79-80 | adding a file appends one row with that file name and a key no existing document has; tags, links and old rows are unchanged; the invariant is kept |
| `Indexing.AddDocuments` | clidms.py:78-81 | the loop appends one row per file in order, each with a new key, and changes nothing else |
| `Indexing.Index` | clidms.py:75-81 | `index` appends one document per supported entry in listing order, reports that many as found, keeps all old rows, tags and links, gives every new row a new key and keeps the invariant |
| `Indexing.IndexTwiceDuplicates` | clidms.py:78-81 | indexing the same listing twice appends its supported files twice and reports the same count both times |
| `Indexing.ReindexAddsDuplicateRow` | clidms.py:78-81 | re-indexing a directory holding `a.txt` leaves two `a.txt` rows |
| `Tagging.LookupOrCreateTag` | clidms.py:124-129 | an existing tag with the value is reused and the store is unchanged; otherwise one tag with that value and a new key is appended; value uniqueness and the invariant are kept |
| `Tagging.AttachTag` | clidms.py:123-133 | one loop step creates a tag only when none has the value; it appends at most one association row, and that row joins the document to a tag with that value; the invariant is kept |
| `Tagging.ResolvedLinkPresent` | clidms.py:124-131 | the association row to the resolved tag is already present exactly when the document already carries the value |
| `Tagging.AttachTagCarries` | clidms.py:131 | after one step the document carries the value |
| `Tagging.AttachTagAddsIffMissing` | clidms.py:131-133 | in a well-formed store a step adds a row iff the document did not carry the value, and changes nothing when it did |
| `Tagging.AttachTags` | clidms.py:123-133 | the loop keeps documents, old tags and old links, appends at most one link per value, and keeps the invariant for an existing document |
| `Tagging.AttachTagCarriedValues` | clidms.py:123-133 | one step adds exactly its own value to the values the document carries |
| `Tagging.AttachTagsAttachesEach` | clidms.py:123-133 | after the loop the document carries every value |
| `Tagging.AttachTagsCarriedValues` | clidms.py:123-133 | the values the document carries afterwards are the old ones plus the loop's values, and no others |
| `Tagging.AttachTagsAlreadyCarried` | clidms.py:123-133 | the loop changes nothing when the document already carries every value |
| `Tagging.AttachTagsNewLinkValue` | clidms.py:123-133 | every row the loop adds points at a tag whose value is one of the values attached (that the value was not carried before is `Tagging.TagDocumentLinksPiece`) |
| `Tagging.AttachTagsLinkCount` | clidms.py:123-133 | the loop adds one row per distinct value the document did not carry; repeats and carried values add none |
| `Tagging.AttachTagsOnlyLinksDocument` | clidms.py:131 | every appended link belongs to the tagged document |
| `Tagging.AttachTagValues` | clidms.py:123-131 | one loop step adds exactly its own value to the set of tag values |
| `Tagging.AttachTagsTagValues` | clidms.py:123-133 | a tag value exists after the loop iff it existed before or was one of the values |
| `Tagging.AttachTagsCreatesOnlyMissing` | clidms.py:123-129 | every tag the loop creates has one of the values, a value no earlier tag had, and a new key |
| `Tagging.AttachTagsGainsNothingElsewhere` | clidms.py:123-133 | no other document gains a tag from the loop |
| `Tagging.AttachTagsKeepsTags` | clidms.py:123-133 | no document loses a tag it carried |
| `Tagging.TagDocument` | clidms.py:115-133 | an unknown document id leaves the whole store unchanged; documents are never changed; old tags and links are kept as prefixes; the invariant is kept |
| `Tagging.TagDocumentCarriedValues` | clidms.py:115-133 | for a known document, the values it carries afterwards are the old ones plus the comma-separated pieces |
| `Tagging.TagDocumentLinkCount` | clidms.py:115-133 | for a known document, old links are kept and one link is appended per distinct piece it did not carry, so never more than one more than the commas |
| `Tagging.TagDocumentLinksPiece` | clidms.py:115-133 | each appended link belongs to the tagged document and points at the tag of a piece the document did not carry before |
| `Tagging.TagDocumentIdempotent` | clidms.py:115-133 | running the same `tag` command twice has the effect of running it once |
| `Tagging.RepeatedPieceAddsOneRow` | clidms.py:115-133 | `tag 1 a,a` on a catalog holding only document 1 creates one tag and one association row |
| `Tagging.TagDocumentReusesTags` | clidms.py:123-129 | old tags are kept, new tags only carry values no old tag had, and the tag values afterwards are the old values plus the pieces |
| `Tagging.TagDocumentLeavesOthers` | clidms.py:115-133 | tagging one document adds no link for any other document and does not change which tags any other document carries |
| `Query.Matches` | clidms.py:140-143 | a document passes the filters iff the name filter, when applied, occurs at some position of its file name, and the tag filter, when applied, is the value of a tag an association row joins it to |
| `Query.Select` | clidms.py:139-145 | a row is selected iff it is in the input and passes every applied filter |
| `Query.Find` | clidms.py:139-145 | `find` returns exactly the documents that pass the applied filters, and no more than there are documents |
| `Query.SelectAppend` | clidms.py:145 | results keep table order: selecting a concatenation concatenates the selections |
| `Query.SelectWithoutFilters` | clidms.py:139-145 | with no filter applied every row is selected, in order |
| `Query.FindWithoutFilters` | clidms.py:139-145 | an absent or empty `name` and `tag` make `find` return all documents in table order |
| `Query.FindByName` | clidms.py:140-141 | `find --name n` returns exactly the documents whose file name contains `n` at some position |
| `Query.FindByTag` | clidms.py:142-143 | `find --tag t` returns exactly the documents with an association to a tag whose value is `t` |
| `Query.List` | clidms.py:84-85 | `list` returns the same documents as `find` with no filters |
| `Catalog.Apply` | clidms.py:65-133 | one `index` or `tag` command only appends rows to each table and keeps the invariant |
| `Catalog.Run` | clidms.py:65-133 | any sequence of commands only appends rows to each table and keeps the invariant |
| `Catalog.ReachableStoresAreValid` | clidms.py:14-32 | every database the commands build from the empty schema has unique keys, resolving association rows, and unique tag values even though the schema declares no such constraint |

## Left out

- Configuration discovery and import (clidms.py:38-59): environment and file I/O. The supported extensions are a parameter of `Indexing.Index`.
- The `click` command wiring (clidms.py:61-66, 112-114, 135-137, 150-151) and the table rendering in `print_table` (clidms.py:88-100): presentation only.
- `os.listdir` (clidms.py:75): the directory listing is a parameter. A missing directory makes the command fail before any change, which the model does not represent. The `recursive` flag is never used by the code.
- The empty-database probe and `create_db` (clidms.py:68-72, 103-104): schema creation has no logical content here; `Schema.Empty` is the store right after it. The probe uses `.one()`, which also fails when there are two or more documents. The code then prints a misleading message and re-runs an idempotent `create_all`.
- The single-argument `add_tag(tagname)` (clidms.py:106-110): dead code, redefined at line 115.
- The `MultipleResultsFound` case of the tag lookup (clidms.py:125-127): it cannot happen while tag values are unique. `Schema.Valid` makes that uniqueness an invariant, and `Schema.FindTag` returns the first match.
- The document id argument is a string passed to SQLite, which converts it to an integer for the comparison. The model takes the id as an integer, so ids that do not parse are not represented.
- Sessions, flushes and commits: each command is one atomic state change. The tag command commits after every tag. A failure part-way would leave the earlier links in place. The model has no failures. The rule that a flush inserts an association row only for a tag the reloaded `document.tags` did not hold is SQLAlchemy's collection behaviour; the model states its effect in `Tagging.AttachTag` rather than modelling the session.
- Printed messages, including "Found n files to index", are not modelled as text. The count is `Indexing.IndexReport.found`.
- Query.Matches, Query.FindByName: SQL `LIKE` is ASCII case-insensitive and treats `%` and `_` inside `name` as wildcards. The model uses plain case-sensitive substring matching (`Text.Contains`). `Query.Select` and `Query.Find` filter through `Query.Matches`, so they inherit this simplification.
- Query.Find: SQL gives no order without `ORDER BY`. The model returns table (insertion) order, which is what SQLite does for this plain query.
- Schema.NextId: SQLite picks a random unused key once the largest key reaches 2^63-1; the model always uses the largest key plus one. Column lengths (`String(250)`, `String(50)`) are not enforced by SQLite and are not modelled.
