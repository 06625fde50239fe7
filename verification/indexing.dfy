/**
 * The `index` command: keep the directory entries whose extension is
 * supported and append one `Document` row per kept entry. There is no
 * check for rows that already exist.
 */
module Indexing {
  import opened Text
  import opened Schema

  /** `f.split(".")[-1]`: the dot-free tail of the name after its last
      dot; a name without a dot is its own extension. */
  function Extension(filename: string): (e: string)
    ensures IsFinalSegment(filename, '.', e)
  {
    LastPieceIsFinalSegment(filename, '.');
    var pieces := Split(filename, '.');
    pieces[|pieces| - 1]
  }

  /** The list comprehension selecting the supported directory entries. */
  function SupportedFiles(files: seq<string>, extensions: set<string>): (r: seq<string>)
    ensures |r| <= |files|
    ensures forall f :: multiset(r)[f] == if Extension(f) in extensions then multiset(files)[f] else 0
    decreases |files|
  {
    if |files| == 0 then []
    else
      assert files == [files[0]] + files[1..];
      var rest := SupportedFiles(files[1..], extensions);
      if Extension(files[0]) in extensions then [files[0]] + rest else rest
  }

  /** An entry is selected iff its extension is supported. */
  lemma SupportedIff(files: seq<string>, extensions: set<string>, f: string)
    ensures f in SupportedFiles(files, extensions) <==> f in files && Extension(f) in extensions
  {
    assert f in SupportedFiles(files, extensions) <==> multiset(SupportedFiles(files, extensions))[f] > 0;
    assert f in files <==> multiset(files)[f] > 0;
  }

  /** Selection keeps listing order: it distributes over concatenation. */
  lemma {:induction false} SupportedFilesAppend(a: seq<string>, b: seq<string>, extensions: set<string>)
    ensures SupportedFiles(a + b, extensions) == SupportedFiles(a, extensions) + SupportedFiles(b, extensions)
    decreases |a|
  {
    if |a| > 0 {
      var ab := a + b;
      assert ab[0] == a[0];
      assert ab[1..] == a[1..] + b;
      SupportedFilesAppend(a[1..], b, extensions);
      var tail := SupportedFiles(a[1..], extensions) + SupportedFiles(b, extensions);
      if Extension(a[0]) in extensions {
        assert SupportedFiles(ab, extensions) == [a[0]] + tail;
        assert SupportedFiles(a, extensions) == [a[0]] + SupportedFiles(a[1..], extensions);
        assert [a[0]] + tail
          == ([a[0]] + SupportedFiles(a[1..], extensions)) + SupportedFiles(b, extensions);
      } else {
        assert SupportedFiles(ab, extensions) == tail;
        assert SupportedFiles(a, extensions) == SupportedFiles(a[1..], extensions);
      }
    } else {
      assert a + b == b;
    }
  }

  /** `session.add(Document(filename=f))`: one new row with a fresh key. */
  function AddDocument(s: Store, filename: string): (r: Store)
    ensures r.tags == s.tags && r.links == s.links
    ensures |r.documents| == |s.documents| + 1
    ensures r.documents[..|s.documents|] == s.documents
    ensures r.documents[|s.documents|].filename == filename
    ensures !HasDocument(s.documents, r.documents[|s.documents|].id)
    ensures Filenames(r.documents) == Filenames(s.documents) + [filename]
    ensures Valid(s) ==> Valid(r)
  {
    var id := NextId(DocumentIds(s.documents));
    assert forall k :: 0 <= k < |s.documents| ==> DocumentIds(s.documents)[k] == s.documents[k].id;
    var r := Store(s.documents + [Document(id, filename)], s.tags, s.links);
    assert forall k :: 0 <= k < |s.documents| ==> r.documents[k] == s.documents[k];
    r
  }

  /** Whatever a prefix of the document table holds, the table holds. */
  lemma DocumentPrefixKeepsRows(small: seq<Document>, large: seq<Document>, id: int)
    requires |small| <= |large| && large[..|small|] == small
    ensures HasDocument(small, id) ==> HasDocument(large, id)
  {
    if HasDocument(small, id) {
      var j :| 0 <= j < |small| && small[j].id == id;
      assert large[j] == small[j];
    }
  }

  /** The loop over the supported files, adding one document each. */
  function AddDocuments(s: Store, files: seq<string>): (r: Store)
    ensures r.tags == s.tags && r.links == s.links
    ensures |r.documents| == |s.documents| + |files|
    ensures r.documents[..|s.documents|] == s.documents
    ensures Filenames(r.documents) == Filenames(s.documents) + files
    ensures forall k :: |s.documents| <= k < |r.documents| ==> !HasDocument(s.documents, r.documents[k].id)
    ensures Valid(s) ==> Valid(r)
    decreases |files|
  {
    if |files| == 0 then s
    else
      var s1 := AddDocument(s, files[0]);
      var r := AddDocuments(s1, files[1..]);
      assert r.documents[..|s.documents|] == s1.documents[..|s.documents|];
      assert files == [files[0]] + files[1..];
      forall k | |s.documents| <= k < |r.documents|
        ensures !HasDocument(s.documents, r.documents[k].id)
      {
        if k == |s.documents| {
          assert r.documents[k] == s1.documents[k];
        } else {
          DocumentPrefixKeepsRows(s.documents, s1.documents, r.documents[k].id);
        }
      }
      r
  }

  /** What `index` reports ("Found n files to index") and the new state. */
  datatype IndexReport = IndexReport(store: Store, found: nat)

  /** The `index` command on a directory listing and the configured set of
      supported file types. */
  function Index(s: Store, listing: seq<string>, extensions: set<string>): (r: IndexReport)
    ensures r.store.tags == s.tags && r.store.links == s.links
    ensures |r.store.documents| == |s.documents| + r.found
    ensures r.store.documents[..|s.documents|] == s.documents
    ensures Filenames(r.store.documents) == Filenames(s.documents) + SupportedFiles(listing, extensions)
    ensures forall k :: |s.documents| <= k < |r.store.documents| ==>
      !HasDocument(s.documents, r.store.documents[k].id)
    ensures Valid(s) ==> Valid(r.store)
  {
    var supported := SupportedFiles(listing, extensions);
    IndexReport(AddDocuments(s, supported), |supported|)
  }

  /** Indexing the same listing twice appends its supported files twice:
      nothing is de-duplicated. */
  lemma IndexTwiceDuplicates(s: Store, listing: seq<string>, extensions: set<string>)
    ensures var once := Index(s, listing, extensions);
      var twice := Index(once.store, listing, extensions);
      && Filenames(twice.store.documents)
         == Filenames(s.documents) + SupportedFiles(listing, extensions) + SupportedFiles(listing, extensions)
      && twice.found == once.found
  {
  }

  /** Re-running `index` over an unchanged directory holding `a.txt` adds a
      second `a.txt` row. */
  lemma ReindexAddsDuplicateRow()
    ensures var once := Index(Empty, ["a.txt"], {"txt"});
      var twice := Index(once.store, ["a.txt"], {"txt"});
      Filenames(twice.store.documents) == ["a.txt", "a.txt"] && twice.found == 1
  {
    TxtExtension();
    var listing := ["a.txt"];
    assert listing[1..] == [];
    assert SupportedFiles(listing, {"txt"}) == listing;
    IndexTwiceDuplicates(Empty, listing, {"txt"});
  }

  lemma TxtExtension()
    ensures Extension("a.txt") == "txt"
  {
    SplitJoin(["a", "txt"], '.');
    assert Join(["a", "txt"], '.') == "a.txt";
  }
}
