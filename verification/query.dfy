/**
 * The read side of the catalog: `find` with its optional filename and tag
 * filters, and `list`.
 */
module Query {
  import opened Wrappers
  import opened Text
  import opened Schema

  /** A click option filter is applied only when it was given and is not
      empty (`if name:` / `if tag:`). */
  predicate Active(filter: Option<string>)
  {
    filter.Some? && filter.value != ""
  }

  /** The conjunction of the applied filters: the file name contains the
      name filter, and some associated tag has exactly the tag filter's value. */
  predicate Matches(s: Store, d: Document, name: Option<string>, tag: Option<string>)
    ensures Matches(s, d, name, tag) <==>
      && (Active(name) ==> exists i :: OccursAt(d.filename, name.value, i))
      && (Active(tag) ==> exists k, j ::
           && 0 <= k < |s.links| && 0 <= j < |s.tags|
           && s.links[k] == Link(d.id, s.tags[j].id)
           && s.tags[j].value == tag.value)
  {
    var n := if name.Some? then name.value else "";
    var t := if tag.Some? then tag.value else "";
    ContainsIffOccurs(d.filename, n);
    LinkedIffCarried(s, d.id, t);
    && (Active(name) ==> Contains(d.filename, name.value))
    && (Active(tag) ==> DocumentHasTag(s, d.id, tag.value))
  }

  /** The rows of `docs` that pass the filters, in their order. */
  function Select(s: Store, docs: seq<Document>, name: Option<string>, tag: Option<string>): (r: seq<Document>)
    ensures |r| <= |docs|
    ensures forall d :: d in r <==> d in docs && Matches(s, d, name, tag)
    decreases |docs|
  {
    if |docs| == 0 then []
    else
      assert docs == [docs[0]] + docs[1..];
      var rest := Select(s, docs[1..], name, tag);
      if Matches(s, docs[0], name, tag) then [docs[0]] + rest else rest
  }

  /** The `find` command's query, in table order. */
  function Find(s: Store, name: Option<string>, tag: Option<string>): (r: seq<Document>)
    ensures |r| <= |s.documents|
    ensures forall d :: d in r <==> d in s.documents && Matches(s, d, name, tag)
  {
    Select(s, s.documents, name, tag)
  }

  /** Selection keeps table order: it distributes over concatenation. */
  lemma {:induction false} SelectAppend(s: Store, a: seq<Document>, b: seq<Document>, name: Option<string>, tag: Option<string>)
    ensures Select(s, a + b, name, tag) == Select(s, a, name, tag) + Select(s, b, name, tag)
    decreases |a|
  {
    if |a| > 0 {
      var ab := a + b;
      assert ab[0] == a[0];
      assert ab[1..] == a[1..] + b;
      SelectAppend(s, a[1..], b, name, tag);
      var tail := Select(s, a[1..], name, tag) + Select(s, b, name, tag);
      if Matches(s, a[0], name, tag) {
        assert Select(s, ab, name, tag) == [a[0]] + tail;
        assert Select(s, a, name, tag) == [a[0]] + Select(s, a[1..], name, tag);
      } else {
        assert Select(s, ab, name, tag) == tail;
        assert Select(s, a, name, tag) == Select(s, a[1..], name, tag);
      }
    } else {
      assert a + b == b;
    }
  }

  /** With no filter applied every row is selected, in order. */
  lemma {:induction false} SelectWithoutFilters(s: Store, docs: seq<Document>, name: Option<string>, tag: Option<string>)
    requires !Active(name) && !Active(tag)
    ensures Select(s, docs, name, tag) == docs
    decreases |docs|
  {
    if |docs| > 0 {
      SelectWithoutFilters(s, docs[1..], name, tag);
      assert [docs[0]] + docs[1..] == docs;
    }
  }

  /** An absent or empty filter is skipped: with neither, `find` returns
      every document. */
  lemma FindWithoutFilters(s: Store, name: Option<string>, tag: Option<string>)
    requires !Active(name) && !Active(tag)
    ensures Find(s, name, tag) == s.documents
  {
    SelectWithoutFilters(s, s.documents, name, tag);
  }

  /** `find --name n` returns exactly the documents whose file name has `n`
      as a substring at some position. */
  lemma FindByName(s: Store, n: string, d: Document)
    requires n != ""
    ensures d in Find(s, Some(n), None) <==> d in s.documents && exists i :: OccursAt(d.filename, n, i)
  {
  }

  /** `find --tag t` returns exactly the documents linked to a tag whose
      value is `t`. */
  lemma FindByTag(s: Store, t: string, d: Document)
    requires t != ""
    ensures d in Find(s, None, Some(t)) <==>
      d in s.documents
      && exists k, j ::
        && 0 <= k < |s.links| && 0 <= j < |s.tags|
        && s.links[k] == Link(d.id, s.tags[j].id)
        && s.tags[j].value == t
  {
  }

  /** The `list` command: every document, in table order. */
  function List(s: Store): (r: seq<Document>)
    ensures r == Find(s, None, None)
  {
    FindWithoutFilters(s, None, None);
    s.documents
  }
}
