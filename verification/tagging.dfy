/**
 * The `tag` command: resolve a document by id, then for each
 * comma-separated value reuse the tag with that value or create it, and
 * add the association row unless the document already carries that tag.
 */
module Tagging {
  import opened Wrappers
  import opened Text
  import opened Schema

  /** The tag row a value resolved to, and the store after resolving it. */
  datatype Resolved = Resolved(store: Store, tagId: int)

  /** The `try: ... .one() except: Tag(value=...)` step of the tag loop. */
  function LookupOrCreateTag(s: Store, value: string): (r: Resolved)
    ensures r.store.documents == s.documents && r.store.links == s.links
    ensures HasTagValue(s.tags, value) ==> r.store == s
    ensures !HasTagValue(s.tags, value) ==>
      r.store.tags == s.tags + [Tag(r.tagId, value)] && !HasTagId(s.tags, r.tagId)
    ensures Tag(r.tagId, value) in r.store.tags
    ensures Valid(s) ==> Valid(r.store)
  {
    match FindTag(s.tags, value)
    case Some(t) => Resolved(s, t.id)
    case None =>
      var id := NextId(TagIds(s.tags));
      assert forall k :: 0 <= k < |s.tags| ==> TagIds(s.tags)[k] == s.tags[k].id;
      var tags := s.tags + [Tag(id, value)];
      assert forall k :: 0 <= k < |s.tags| ==> tags[k] == s.tags[k];
      Resolved(Store(s.documents, tags, s.links), id)
  }

  /** One iteration of the tag loop: resolve the value, then
      `document.tags.append(tag)`. The collection is reloaded after every
      commit and a flush inserts only the tags it did not hold, so an
      association row is added only when the document does not already
      carry the tag (`AttachTagAddsIffMissing`). */
  function AttachTag(s: Store, documentId: int, value: string): (r: Store)
    ensures r.documents == s.documents
    ensures HasTagValue(s.tags, value) ==> r.tags == s.tags
    ensures !HasTagValue(s.tags, value) ==>
      |r.tags| == |s.tags| + 1 && r.tags[..|s.tags|] == s.tags
      && r.tags[|s.tags|].value == value && !HasTagId(s.tags, r.tags[|s.tags|].id)
    ensures |s.links| <= |r.links| <= |s.links| + 1 && r.links[..|s.links|] == s.links
    ensures forall k :: |s.links| <= k < |r.links| ==>
      r.links[k].documentId == documentId && Tag(r.links[k].tagId, value) in r.tags
    ensures Valid(s) && HasDocument(s.documents, documentId) ==> Valid(r)
  {
    var resolved := LookupOrCreateTag(s, value);
    var s1 := resolved.store;
    var link := Link(documentId, resolved.tagId);
    if link in s1.links then s1
    else
      var r := Store(s1.documents, s1.tags, s1.links + [link]);
      assert r.links[..|s.links|] == s.links;
      assert Tag(link.tagId, value) in s1.tags;
      if Valid(s1) && HasDocument(s1.documents, documentId) then
        NewLinkKeepsValid(s1, link);
        r
      else
        r
  }

  /** Appending an association row that is not yet present and resolves
      keeps the store well formed. */
  lemma NewLinkKeepsValid(s: Store, link: Link)
    requires Valid(s)
    requires link !in s.links
    requires HasDocument(s.documents, link.documentId)
    requires HasTagId(s.tags, link.tagId)
    ensures Valid(Store(s.documents, s.tags, s.links + [link]))
  {
  }

  /** The association row to the resolved tag is already present exactly
      when the document already carries the value. */
  lemma ResolvedLinkPresent(s: Store, documentId: int, value: string)
    requires Valid(s)
    ensures Link(documentId, LookupOrCreateTag(s, value).tagId) in s.links
      <==> DocumentHasTag(s, documentId, value)
  {
    var resolved := LookupOrCreateTag(s, value);
    if HasTagValue(s.tags, value) {
      var t := FindTag(s.tags, value).value;
      var j :| 0 <= j < |s.tags| && s.tags[j] == Tag(resolved.tagId, value);
      FoundTagIsOnlyMatch(s.tags, value, j);
      assert t.id == resolved.tagId;
    }
    CarriedIffLinked(s, documentId, value);
  }

  /** After one step the document carries the value. */
  lemma AttachTagCarries(s: Store, documentId: int, value: string)
    ensures DocumentHasTag(AttachTag(s, documentId, value), documentId, value)
  {
    var resolved := LookupOrCreateTag(s, value);
    var link := Link(documentId, resolved.tagId);
    var r := AttachTag(s, documentId, value);
    var j :| 0 <= j < |r.tags| && r.tags[j] == Tag(resolved.tagId, value);
    if link in resolved.store.links {
      var k :| 0 <= k < |r.links| && r.links[k] == link;
    } else {
      assert r.links[|s.links|] == link;
    }
  }

  /** In a well-formed store one step adds an association row iff the
      document did not carry the value, and changes nothing at all when it
      did. */
  lemma AttachTagAddsIffMissing(s: Store, documentId: int, value: string)
    requires Valid(s)
    ensures AttachTag(s, documentId, value).links == s.links <==> DocumentHasTag(s, documentId, value)
    ensures DocumentHasTag(s, documentId, value) ==> AttachTag(s, documentId, value) == s
  {
    var resolved := LookupOrCreateTag(s, value);
    var r := AttachTag(s, documentId, value);
    ResolvedLinkPresent(s, documentId, value);
    if Link(documentId, resolved.tagId) !in s.links {
      assert r.links[|s.links|] == Link(documentId, resolved.tagId);
    }
  }

  /** The loop over the tag values, attaching each to one document. */
  function AttachTags(s: Store, documentId: int, values: seq<string>): (r: Store)
    ensures r.documents == s.documents
    ensures |r.tags| >= |s.tags| && r.tags[..|s.tags|] == s.tags
    ensures |s.links| <= |r.links| <= |s.links| + |values| && r.links[..|s.links|] == s.links
    ensures Valid(s) && HasDocument(s.documents, documentId) ==> Valid(r)
    decreases |values|
  {
    if |values| == 0 then s
    else
      var s1 := AttachTag(s, documentId, values[0]);
      var r := AttachTags(s1, documentId, values[1..]);
      assert r.tags[..|s.tags|] == r.tags[..|s1.tags|][..|s.tags|];
      assert r.links[..|s.links|] == r.links[..|s1.links|][..|s.links|];
      r
  }

  /** The `tag DOCUMENT_ID TAGS` command. An unknown id changes nothing. */
  function TagDocument(s: Store, documentId: int, tags: string): (r: Store)
    ensures !HasDocument(s.documents, documentId) ==> r == s
    ensures r.documents == s.documents
    ensures |r.tags| >= |s.tags| && r.tags[..|s.tags|] == s.tags
    ensures |r.links| >= |s.links| && r.links[..|s.links|] == s.links
    ensures Valid(s) ==> Valid(r)
  {
    if FindDocument(s.documents, documentId).None? then s
    else AttachTags(s, documentId, Split(tags, ','))
  }

  /** Whatever a prefix of a tag table holds, the table holds. */
  lemma TagPrefixKeepsRows(small: seq<Tag>, large: seq<Tag>, v: string, id: int)
    requires |small| <= |large| && large[..|small|] == small
    ensures HasTagValue(small, v) ==> HasTagValue(large, v)
    ensures HasTagId(small, id) ==> HasTagId(large, id)
  {
    if HasTagValue(small, v) {
      var j :| 0 <= j < |small| && small[j].value == v;
      assert large[j] == small[j];
    }
    if HasTagId(small, id) {
      var j :| 0 <= j < |small| && small[j].id == id;
      assert large[j] == small[j];
    }
  }

  /** One step adds exactly its own value to the set of tag values. */
  lemma AttachTagValues(s: Store, documentId: int, value: string, v: string)
    ensures HasTagValue(AttachTag(s, documentId, value).tags, v) <==> HasTagValue(s.tags, v) || v == value
  {
  }

  /** A tag value exists afterwards iff it existed before or was attached. */
  lemma {:induction false} AttachTagsTagValues(s: Store, documentId: int, values: seq<string>, v: string)
    ensures HasTagValue(AttachTags(s, documentId, values).tags, v) <==> HasTagValue(s.tags, v) || v in values
    decreases |values|
  {
    if |values| > 0 {
      var rest := values[1..];
      assert values == [values[0]] + rest;
      AttachTagsTagValues(AttachTag(s, documentId, values[0]), documentId, rest, v);
      AttachTagValues(s, documentId, values[0], v);
    }
  }

  /** A tag row is created only for a value that had none, and its key is
      new: every existing tag is reused. */
  lemma {:induction false} AttachTagsCreatesOnlyMissing(s: Store, documentId: int, values: seq<string>, k: int)
    requires |s.tags| <= k < |AttachTags(s, documentId, values).tags|
    ensures var t := AttachTags(s, documentId, values).tags[k];
      && t.value in values
      && !HasTagValue(s.tags, t.value)
      && !HasTagId(s.tags, t.id)
    decreases |values|
  {
    var s1 := AttachTag(s, documentId, values[0]);
    var r := AttachTags(s1, documentId, values[1..]);
    assert r == AttachTags(s, documentId, values);
    if k < |s1.tags| {
      assert r.tags[k] == r.tags[..|s1.tags|][k];
    } else {
      AttachTagsCreatesOnlyMissing(s1, documentId, values[1..], k);
      var t := r.tags[k];
      assert t.value in values;
      assert s1.tags[..|s.tags|] == s.tags;
      TagPrefixKeepsRows(s.tags, s1.tags, t.value, t.id);
    }
  }

  /** For a known document the command is the tag loop over the pieces of
      `tags.split(",")`. */
  lemma TagDocumentAttachesPieces(s: Store, documentId: int, tags: string)
    requires HasDocument(s.documents, documentId)
    ensures TagDocument(s, documentId, tags) == AttachTags(s, documentId, Split(tags, ','))
  {
  }

  /** A store whose tables extend those of `s` keeps every tag `s` gives a
      document. */
  lemma PrefixKeepsCarried(s: Store, r: Store, documentId: int, v: string)
    requires |s.tags| <= |r.tags| && r.tags[..|s.tags|] == s.tags
    requires |s.links| <= |r.links| && r.links[..|s.links|] == s.links
    ensures DocumentHasTag(s, documentId, v) ==> DocumentHasTag(r, documentId, v)
  {
    if DocumentHasTag(s, documentId, v) {
      var k, j :| && 0 <= k < |s.links| && 0 <= j < |s.tags|
        && s.links[k].documentId == documentId
        && s.links[k].tagId == s.tags[j].id
        && s.tags[j].value == v;
      assert r.links[k] == r.links[..|s.links|][k];
      assert r.tags[j] == r.tags[..|s.tags|][j];
    }
  }

  /** Every association row `r` has beyond those of `s` links `documentId`
      to a tag whose value is one of `values`. */
  ghost predicate NewLinksAttach(s: Store, r: Store, documentId: int, values: seq<string>)
  {
    forall k :: |s.links| <= k < |r.links| ==>
      r.links[k].documentId == documentId
      && exists w :: w in values && Tag(r.links[k].tagId, w) in r.tags
  }

  /** A store that extends `s` by tags and by links from `documentId` to
      tags with values in `values` gives `documentId` no value outside
      `values` that it did not carry in `s`. */
  lemma ExtensionCarriesOnly(s: Store, r: Store, documentId: int, values: seq<string>, v: string)
    requires |s.tags| <= |r.tags| && r.tags[..|s.tags|] == s.tags
    requires |s.links| <= |r.links| && r.links[..|s.links|] == s.links
    requires NewLinksAttach(s, r, documentId, values)
    requires UniqueTagIds(r.tags) && LinksResolve(s)
    ensures DocumentHasTag(r, documentId, v) ==> DocumentHasTag(s, documentId, v) || v in values
  {
    if DocumentHasTag(r, documentId, v) && v !in values {
      var k, j :| && 0 <= k < |r.links| && 0 <= j < |r.tags|
        && r.links[k].documentId == documentId
        && r.links[k].tagId == r.tags[j].id
        && r.tags[j].value == v;
      if k < |s.links| {
        assert r.links[k] == r.links[..|s.links|][k];
        var j' :| 0 <= j' < |s.tags| && s.tags[j'].id == r.links[k].tagId;
        assert r.tags[j'] == r.tags[..|s.tags|][j'];
        assert j == j';
      }
    }
  }

  /** One step adds exactly its own value to the values the document
      carries. */
  lemma AttachTagCarriedValues(s: Store, documentId: int, value: string, v: string)
    requires Valid(s) && HasDocument(s.documents, documentId)
    ensures DocumentHasTag(AttachTag(s, documentId, value), documentId, v)
      <==> DocumentHasTag(s, documentId, v) || v == value
  {
    var r := AttachTag(s, documentId, value);
    AttachTagCarries(s, documentId, value);
    PrefixKeepsCarried(s, r, documentId, v);
    assert r.tags[..|s.tags|] == s.tags;
    assert NewLinksAttach(s, r, documentId, [value]) by {
      assert value in [value];
    }
    ExtensionCarriesOnly(s, r, documentId, [value], v);
  }

  /** After the loop the document carries every attached value. */
  lemma {:induction false} AttachTagsAttachesEach(s: Store, documentId: int, values: seq<string>, v: string)
    ensures v in values ==> DocumentHasTag(AttachTags(s, documentId, values), documentId, v)
    decreases |values|
  {
    if |values| > 0 {
      if v == values[0] {
        AttachTagsAttachesFirst(s, documentId, values);
      } else {
        var rest := values[1..];
        assert values == [values[0]] + rest;
        AttachTagsAttachesEach(AttachTag(s, documentId, values[0]), documentId, rest, v);
      }
    }
  }

  /** After the loop the document carries the first value. */
  lemma AttachTagsAttachesFirst(s: Store, documentId: int, values: seq<string>)
    requires |values| > 0
    ensures DocumentHasTag(AttachTags(s, documentId, values), documentId, values[0])
  {
    var s1 := AttachTag(s, documentId, values[0]);
    assert AttachTags(s, documentId, values) == AttachTags(s1, documentId, values[1..]);
    AttachTagCarries(s, documentId, values[0]);
    AttachTagsKeepsTags(s1, documentId, values[1..], documentId, values[0]);
  }

  /** For a known document, the values it carries after the loop are the
      values it carried before plus the attached values. */
  lemma AttachTagsCarriedValues(s: Store, documentId: int, values: seq<string>, v: string)
    requires Valid(s) && HasDocument(s.documents, documentId)
    ensures DocumentHasTag(AttachTags(s, documentId, values), documentId, v)
      <==> DocumentHasTag(s, documentId, v) || v in values
  {
    var r := AttachTags(s, documentId, values);
    AttachTagsAttachesEach(s, documentId, values, v);
    PrefixKeepsCarried(s, r, documentId, v);
    assert NewLinksAttach(s, r, documentId, values) by {
      forall k | |s.links| <= k < |r.links|
        ensures r.links[k].documentId == documentId
          && exists w :: w in values && Tag(r.links[k].tagId, w) in r.tags
      {
        AttachTagsOnlyLinksDocument(s, documentId, values, k);
        AttachTagsNewLinkValue(s, documentId, values, k);
      }
    }
    ExtensionCarriesOnly(s, r, documentId, values, v);
  }

  /** The loop changes nothing when the document already carries every
      value. */
  lemma {:induction false} AttachTagsAlreadyCarried(s: Store, documentId: int, values: seq<string>)
    requires Valid(s)
    requires forall v :: v in values ==> DocumentHasTag(s, documentId, v)
    ensures AttachTags(s, documentId, values) == s
    decreases |values|
  {
    if |values| > 0 {
      AttachTagAddsIffMissing(s, documentId, values[0]);
      assert AttachTag(s, documentId, values[0]) == s;
      assert forall v :: v in values[1..] ==> v in values;
      AttachTagsAlreadyCarried(s, documentId, values[1..]);
    }
  }

  /** Every association row the loop adds points at a tag whose value is
      one of the values. */
  lemma {:induction false} AttachTagsNewLinkValue(s: Store, documentId: int, values: seq<string>, i: int)
    requires |s.links| <= i < |AttachTags(s, documentId, values).links|
    ensures var r := AttachTags(s, documentId, values);
      exists v :: v in values && Tag(r.links[i].tagId, v) in r.tags
    decreases |values|
  {
    if i < |AttachTag(s, documentId, values[0]).links| {
      AttachTagsNewLinkFirst(s, documentId, values, i);
      assert values[0] in values;
    } else {
      var rest := values[1..];
      assert values == [values[0]] + rest;
      AttachTagsNewLinkValue(AttachTag(s, documentId, values[0]), documentId, rest, i);
    }
  }

  /** The row the loop's first step adds points at the tag of the first
      value. */
  lemma AttachTagsNewLinkFirst(s: Store, documentId: int, values: seq<string>, i: int)
    requires |values| > 0
    requires |s.links| <= i < |AttachTag(s, documentId, values[0]).links|
    ensures var r := AttachTags(s, documentId, values);
      i < |r.links| && Tag(r.links[i].tagId, values[0]) in r.tags
  {
    var s1 := AttachTag(s, documentId, values[0]);
    var r := AttachTags(s1, documentId, values[1..]);
    assert r == AttachTags(s, documentId, values);
    assert r.links[i] == r.links[..|s1.links|][i];
    assert Tag(s1.links[i].tagId, values[0]) in r.tags[..|s1.tags|];
  }

  /** In a well-formed extension of `s`, an association row beyond those of
      `s` joins its document to a value the document did not carry in `s`:
      otherwise it would repeat an old row. */
  lemma NewRowMeansMissing(s: Store, r: Store, documentId: int, i: int, v: string)
    requires |s.tags| <= |r.tags| && r.tags[..|s.tags|] == s.tags
    requires |s.links| <= i < |r.links| && r.links[..|s.links|] == s.links
    requires UniqueTagValues(r.tags) && UniqueLinks(r.links)
    requires r.links[i].documentId == documentId && Tag(r.links[i].tagId, v) in r.tags
    ensures !DocumentHasTag(s, documentId, v)
  {
  }

  /** The values of `values` the document does not carry in `s`. */
  ghost function Missing(s: Store, documentId: int, values: seq<string>): set<string>
  {
    set v | v in values && !DocumentHasTag(s, documentId, v)
  }

  /** When a step adds exactly `x` to the carried values, the missing values
      of `[x] + rest` are those of `rest` afterwards, plus `x` if it was
      missing. */
  lemma MissingStep(s: Store, s1: Store, documentId: int, x: string, rest: seq<string>)
    requires forall v :: DocumentHasTag(s1, documentId, v) <==> DocumentHasTag(s, documentId, v) || v == x
    ensures x !in Missing(s1, documentId, rest)
    ensures DocumentHasTag(s, documentId, x) ==>
      Missing(s, documentId, [x] + rest) == Missing(s1, documentId, rest)
    ensures !DocumentHasTag(s, documentId, x) ==>
      Missing(s, documentId, [x] + rest) == Missing(s1, documentId, rest) + {x}
  {
  }

  /** The loop adds one association row per distinct value the document
      did not carry: repeats and values already carried add none. */
  lemma {:induction false} AttachTagsLinkCount(s: Store, documentId: int, values: seq<string>)
    requires Valid(s) && HasDocument(s.documents, documentId)
    ensures |AttachTags(s, documentId, values).links| == |s.links| + |Missing(s, documentId, values)|
    decreases |values|
  {
    if |values| == 0 {
      assert Missing(s, documentId, values) == {};
    } else {
      var x := values[0];
      var s1 := AttachTag(s, documentId, x);
      assert AttachTags(s, documentId, values) == AttachTags(s1, documentId, values[1..]);
      AttachTagsLinkCount(s1, documentId, values[1..]);
      AttachTagAddsIffMissing(s, documentId, x);
      forall v
        ensures DocumentHasTag(s1, documentId, v) <==> DocumentHasTag(s, documentId, v) || v == x
      {
        AttachTagCarriedValues(s, documentId, x, v);
      }
      MissingStep(s, s1, documentId, x, values[1..]);
      assert values == [x] + values[1..];
    }
  }

  /** For a known document, the command gives it exactly the values it
      carried plus the comma-separated pieces. */
  lemma TagDocumentCarriedValues(s: Store, documentId: int, tags: string, v: string)
    requires Valid(s) && HasDocument(s.documents, documentId)
    ensures DocumentHasTag(TagDocument(s, documentId, tags), documentId, v)
      <==> DocumentHasTag(s, documentId, v) || v in Split(tags, ',')
  {
    TagDocumentAttachesPieces(s, documentId, tags);
    AttachTagsCarriedValues(s, documentId, Split(tags, ','), v);
  }

  /** For a known document, old links are kept and one link is appended per
      distinct piece the document did not carry; so never more than one
      more than the commas in the argument. */
  lemma TagDocumentLinkCount(s: Store, documentId: int, tags: string)
    requires Valid(s) && HasDocument(s.documents, documentId)
    ensures var r := TagDocument(s, documentId, tags);
      && r.links[..|s.links|] == s.links
      && |r.links| == |s.links| + |Missing(s, documentId, Split(tags, ','))|
      && |r.links| <= |s.links| + multiset(tags)[','] + 1
  {
    TagDocumentAttachesPieces(s, documentId, tags);
    AttachTagsLinkCount(s, documentId, Split(tags, ','));
    SplitCount(tags, ',');
  }

  /** Every association row the command appends belongs to the tagged
      document and points at the tag of a piece the document did not carry
      before. */
  lemma TagDocumentLinksPiece(s: Store, documentId: int, tags: string, i: int)
    requires Valid(s) && HasDocument(s.documents, documentId)
    requires |s.links| <= i < |TagDocument(s, documentId, tags).links|
    ensures var r := TagDocument(s, documentId, tags);
      && r.links[i].documentId == documentId
      && exists v :: v in Split(tags, ',') && !DocumentHasTag(s, documentId, v) && Tag(r.links[i].tagId, v) in r.tags
  {
    var pieces := Split(tags, ',');
    var r := TagDocument(s, documentId, tags);
    TagDocumentAttachesPieces(s, documentId, tags);
    AttachTagsOnlyLinksDocument(s, documentId, pieces, i);
    AttachTagsNewLinkValue(s, documentId, pieces, i);
    var v :| v in pieces && Tag(r.links[i].tagId, v) in r.tags;
    NewRowMeansMissing(s, r, documentId, i, v);
  }

  /** Running the same `tag` command twice has the effect of running it
      once. */
  lemma TagDocumentIdempotent(s: Store, documentId: int, tags: string)
    requires Valid(s)
    ensures var r := TagDocument(s, documentId, tags);
      TagDocument(r, documentId, tags) == r
  {
    if HasDocument(s.documents, documentId) {
      var pieces := Split(tags, ',');
      var r := TagDocument(s, documentId, tags);
      TagDocumentAttachesPieces(s, documentId, tags);
      TagDocumentAttachesPieces(r, documentId, tags);
      forall v | v in pieces
        ensures DocumentHasTag(r, documentId, v)
      {
        AttachTagsCarriedValues(s, documentId, pieces, v);
      }
      AttachTagsAlreadyCarried(r, documentId, pieces);
    }
  }

  /** `tag 1 a,a` on a catalog holding only document 1 creates one tag and
      one association row. */
  lemma RepeatedPieceAddsOneRow()
    ensures TagDocument(Store([Document(1, "x.txt")], [], []), 1, "a,a")
      == Store([Document(1, "x.txt")], [Tag(1, "a")], [Link(1, 1)])
  {
    var s := Store([Document(1, "x.txt")], [], []);
    var s1 := Store([Document(1, "x.txt")], [Tag(1, "a")], [Link(1, 1)]);
    assert Split("a,a", ',') == ["a", "a"] by {
      SplitJoin(["a", "a"], ',');
      assert Join(["a", "a"], ',') == "a,a";
    }
    assert HasDocument(s.documents, 1) by {
      assert s.documents[0].id == 1;
    }
    FirstTagOfEmptyCatalog(s, 1, "a");
    assert AttachTag(s, 1, "a") == s1;
    RepeatedPieceStep();
    AttachTagsSingle(s1, 1, "a");
    assert ["a", "a"][1..] == ["a"];
  }

  /** Attaching `a` to document 1 again, once it carries `a`, changes
      nothing. */
  lemma RepeatedPieceStep()
    ensures var s1 := Store([Document(1, "x.txt")], [Tag(1, "a")], [Link(1, 1)]);
      AttachTag(s1, 1, "a") == s1
  {
    var s1 := Store([Document(1, "x.txt")], [Tag(1, "a")], [Link(1, 1)]);
    assert s1.documents[0].id == 1 && s1.tags[0].id == 1;
    assert s1.links[0].tagId == s1.tags[0].id;
    AttachTagAddsIffMissing(s1, 1, "a");
  }

  /** The loop over one value is one step. */
  lemma AttachTagsSingle(s: Store, documentId: int, value: string)
    ensures AttachTags(s, documentId, [value]) == AttachTag(s, documentId, value)
  {
    assert [value][1..] == [];
  }

  /** Attaching to a catalog with no tags and no links creates tag 1 and
      its one association row. */
  lemma FirstTagOfEmptyCatalog(s: Store, documentId: int, value: string)
    requires s.tags == [] && s.links == []
    ensures AttachTag(s, documentId, value) == Store(s.documents, [Tag(1, value)], [Link(documentId, 1)])
  {
    assert LookupOrCreateTag(s, value).tagId == 1;
  }

  /** Tagging reuses every existing tag; a new tag row appears only for a
      piece whose value no tag had, and the set of tag values grows by
      exactly the pieces. */
  lemma TagDocumentReusesTags(s: Store, documentId: int, tags: string, v: string)
    requires HasDocument(s.documents, documentId)
    ensures var r := TagDocument(s, documentId, tags);
      && r.tags[..|s.tags|] == s.tags
      && (forall k :: |s.tags| <= k < |r.tags| ==> !HasTagValue(s.tags, r.tags[k].value))
      && (HasTagValue(r.tags, v) <==> HasTagValue(s.tags, v) || v in Split(tags, ','))
  {
    var pieces := Split(tags, ',');
    TagDocumentAttachesPieces(s, documentId, tags);
    var r := AttachTags(s, documentId, pieces);
    forall k | |s.tags| <= k < |r.tags|
      ensures !HasTagValue(s.tags, r.tags[k].value)
    {
      AttachTagsCreatesOnlyMissing(s, documentId, pieces, k);
    }
    AttachTagsTagValues(s, documentId, pieces, v);
  }

  /** Every association row the loop adds belongs to the tagged document. */
  lemma {:induction false} AttachTagsOnlyLinksDocument(s: Store, documentId: int, values: seq<string>, k: int)
    requires |s.links| <= k < |AttachTags(s, documentId, values).links|
    ensures AttachTags(s, documentId, values).links[k].documentId == documentId
    decreases |values|
  {
    var s1 := AttachTag(s, documentId, values[0]);
    var r := AttachTags(s1, documentId, values[1..]);
    assert r == AttachTags(s, documentId, values);
    if k < |s1.links| {
      assert r.links[k] == r.links[..|s1.links|][k];
    } else {
      AttachTagsOnlyLinksDocument(s1, documentId, values[1..], k);
    }
  }

  /** A document other than the tagged one gains no tag: its links are old
      and the old tag rows they reach are unchanged. */
  lemma AttachTagsGainsNothingElsewhere(s: Store, documentId: int, values: seq<string>, other: int, v: string)
    requires LinksResolve(s)
    requires other != documentId
    ensures DocumentHasTag(AttachTags(s, documentId, values), other, v) ==> DocumentHasTag(s, other, v)
  {
    var r := AttachTags(s, documentId, values);
    if DocumentHasTag(r, other, v) {
      var k, j :| && 0 <= k < |r.links| && 0 <= j < |r.tags|
        && r.links[k].documentId == other
        && r.links[k].tagId == r.tags[j].id
        && r.tags[j].value == v;
      if k >= |s.links| {
        AttachTagsOnlyLinksDocument(s, documentId, values, k);
      }
      assert r.links[k] == s.links[k];
      assert HasTagId(s.tags, r.tags[j].id);
      if j >= |s.tags| {
        AttachTagsCreatesOnlyMissing(s, documentId, values, j);
      }
      assert r.tags[j] == s.tags[j];
    }
  }

  /** Tags a document already carries stay attached. */
  lemma AttachTagsKeepsTags(s: Store, documentId: int, values: seq<string>, other: int, v: string)
    ensures DocumentHasTag(s, other, v) ==> DocumentHasTag(AttachTags(s, documentId, values), other, v)
  {
  }

  /** Tagging one document leaves which tags every other document carries
      unchanged, and adds no association row for it. */
  lemma TagDocumentLeavesOthers(s: Store, documentId: int, tags: string, other: int, v: string)
    requires Valid(s)
    requires other != documentId
    ensures var r := TagDocument(s, documentId, tags);
      && (forall k :: |s.links| <= k < |r.links| ==> r.links[k].documentId != other)
      && (DocumentHasTag(r, other, v) <==> DocumentHasTag(s, other, v))
  {
    if HasDocument(s.documents, documentId) {
      var pieces := Split(tags, ',');
      TagDocumentAttachesPieces(s, documentId, tags);
      var r := AttachTags(s, documentId, pieces);
      forall k | |s.links| <= k < |r.links|
        ensures r.links[k].documentId != other
      {
        AttachTagsOnlyLinksDocument(s, documentId, pieces, k);
      }
      AttachTagsGainsNothingElsewhere(s, documentId, pieces, other, v);
      AttachTagsKeepsTags(s, documentId, pieces, other, v);
    }
  }
}
