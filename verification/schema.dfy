/**
 * The catalog's three tables as an immutable value: `Document` rows,
 * `Tag` rows and the `association` rows that link them, with the rules a
 * well-formed catalog keeps.
 */
module Schema {
  import opened Wrappers

  /** A row of the `Document` table: an integer primary key and the file name. */
  datatype Document = Document(id: int, filename: string)

  /** A row of the `Tag` table: an integer primary key and the tag text. */
  datatype Tag = Tag(id: int, value: string)

  /** A row of the `association` table: `(document_id, tag_id)`. */
  datatype Link = Link(documentId: int, tagId: int)

  /** The whole database; each table in row (insertion) order. */
  datatype Store = Store(documents: seq<Document>, tags: seq<Tag>, links: seq<Link>)

  /** The database right after the schema has been created. */
  const Empty := Store([], [], [])

  function DocumentIds(docs: seq<Document>): seq<int>
  {
    seq(|docs|, k requires 0 <= k < |docs| => docs[k].id)
  }

  function TagIds(tags: seq<Tag>): seq<int>
  {
    seq(|tags|, k requires 0 <= k < |tags| => tags[k].id)
  }

  function Filenames(docs: seq<Document>): seq<string>
  {
    seq(|docs|, k requires 0 <= k < |docs| => docs[k].filename)
  }

  /** The key SQLite gives a new row of an integer-primary-key table: one
      more than the largest key present, or 1 when the table is empty. */
  function NextId(ids: seq<int>): (r: int)
    ensures forall k :: 0 <= k < |ids| ==> ids[k] < r
    ensures (|ids| == 0 && r == 1) || r - 1 in ids
    decreases |ids|
  {
    if |ids| == 0 then 1
    else if |ids| == 1 then ids[0] + 1
    else
      var rest := NextId(ids[1..]);
      if ids[0] + 1 < rest then rest else ids[0] + 1
  }

  predicate HasDocument(docs: seq<Document>, id: int)
  {
    exists k :: 0 <= k < |docs| && docs[k].id == id
  }

  predicate HasTagId(tags: seq<Tag>, id: int)
  {
    exists k :: 0 <= k < |tags| && tags[k].id == id
  }

  predicate HasTagValue(tags: seq<Tag>, value: string)
  {
    exists k :: 0 <= k < |tags| && tags[k].value == value
  }

  /** `Document.tags` as the association table sees it: some link from the
      document reaches a tag whose value is `value`. */
  predicate DocumentHasTag(s: Store, documentId: int, value: string)
    ensures DocumentHasTag(s, documentId, value) ==> HasTagValue(s.tags, value)
  {
    exists k, j ::
      && 0 <= k < |s.links| && 0 <= j < |s.tags|
      && s.links[k].documentId == documentId
      && s.links[k].tagId == s.tags[j].id
      && s.tags[j].value == value
  }

  predicate UniqueDocumentIds(docs: seq<Document>)
  {
    forall i, j :: 0 <= i < j < |docs| ==> docs[i].id != docs[j].id
  }

  predicate UniqueTagIds(tags: seq<Tag>)
  {
    forall i, j :: 0 <= i < j < |tags| ==> tags[i].id != tags[j].id
  }

  /** No two tags carry the same text: the lookup-or-create discipline of
      the tag command keeps this, though the schema does not enforce it. */
  predicate UniqueTagValues(tags: seq<Tag>)
  {
    forall i, j :: 0 <= i < j < |tags| ==> tags[i].value != tags[j].value
  }

  /** No association row is repeated: `document.tags.append(tag)` inserts a
      row only for a tag the loaded collection does not already hold. */
  predicate UniqueLinks(links: seq<Link>)
  {
    forall i, j :: 0 <= i < j < |links| ==> links[i] != links[j]
  }

  /** Every association row refers to an existing document and tag. */
  predicate LinksResolve(s: Store)
  {
    forall k :: 0 <= k < |s.links| ==>
      HasDocument(s.documents, s.links[k].documentId) && HasTagId(s.tags, s.links[k].tagId)
  }

  predicate Valid(s: Store)
  {
    && UniqueDocumentIds(s.documents)
    && UniqueTagIds(s.tags)
    && UniqueTagValues(s.tags)
    && UniqueLinks(s.links)
    && LinksResolve(s)
  }

  /** `session.query(Document).filter_by(id=id)`, first row. */
  function FindDocument(docs: seq<Document>, id: int): (r: Option<Document>)
    ensures r.Some? <==> HasDocument(docs, id)
    ensures r.Some? ==> r.value in docs && r.value.id == id
    decreases |docs|
  {
    if |docs| == 0 then None
    else if docs[0].id == id then Some(docs[0])
    else
      assert forall k :: 1 <= k < |docs| ==> docs[k] == docs[1..][k - 1];
      FindDocument(docs[1..], id)
  }

  /** `session.query(Tag).filter_by(value=value)`, first row. */
  function FindTag(tags: seq<Tag>, value: string): (r: Option<Tag>)
    ensures r.Some? <==> HasTagValue(tags, value)
    ensures r.Some? ==> r.value in tags && r.value.value == value
    decreases |tags|
  {
    if |tags| == 0 then None
    else if tags[0].value == value then Some(tags[0])
    else
      assert forall k :: 1 <= k < |tags| ==> tags[k] == tags[1..][k - 1];
      FindTag(tags[1..], value)
  }

  /** With unique keys the document found is the only row with that id, so
      the `.one()` in the tag command never sees several rows. */
  lemma FoundDocumentIsOnlyMatch(docs: seq<Document>, id: int, k: int)
    requires UniqueDocumentIds(docs)
    requires FindDocument(docs, id).Some?
    requires 0 <= k < |docs| && docs[k].id == id
    ensures docs[k] == FindDocument(docs, id).value
  {
  }

  /** With unique tag values the tag found is the only row with that value. */
  lemma FoundTagIsOnlyMatch(tags: seq<Tag>, value: string, k: int)
    requires UniqueTagValues(tags)
    requires FindTag(tags, value).Some?
    requires 0 <= k < |tags| && tags[k].value == value
    ensures tags[k] == FindTag(tags, value).value
  {
  }

  /** With unique tag values a document carries a value exactly when the
      association row to the tag the lookup by value finds is present: the
      row `document.tags.append(tag)` would add. */
  lemma CarriedIffLinked(s: Store, documentId: int, value: string)
    requires UniqueTagValues(s.tags)
    ensures DocumentHasTag(s, documentId, value) <==>
      FindTag(s.tags, value).Some? && Link(documentId, FindTag(s.tags, value).value.id) in s.links
  {
    if DocumentHasTag(s, documentId, value) {
      var k, j :| && 0 <= k < |s.links| && 0 <= j < |s.tags|
        && s.links[k].documentId == documentId
        && s.links[k].tagId == s.tags[j].id
        && s.tags[j].value == value;
      FoundTagIsOnlyMatch(s.tags, value, j);
      assert s.links[k] == Link(documentId, FindTag(s.tags, value).value.id);
    }
  }

  /** A document carries a value exactly when an association row joins it
      to a tag with that value. */
  lemma LinkedIffCarried(s: Store, documentId: int, t: string)
    ensures DocumentHasTag(s, documentId, t) <==>
      exists k, j ::
        && 0 <= k < |s.links| && 0 <= j < |s.tags|
        && s.links[k] == Link(documentId, s.tags[j].id)
        && s.tags[j].value == t
  {
    if DocumentHasTag(s, documentId, t) {
      var k, j :| && 0 <= k < |s.links| && 0 <= j < |s.tags|
        && s.links[k].documentId == documentId
        && s.links[k].tagId == s.tags[j].id
        && s.tags[j].value == t;
      assert s.links[k] == Link(documentId, s.tags[j].id);
    }
  }
}
