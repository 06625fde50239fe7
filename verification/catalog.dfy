/**
 * The catalog as a state machine: the two commands that change the
 * database, applied one after another from the freshly created schema.
 */
module Catalog {
  import opened Schema
  import Indexing
  import Tagging

  /** A state-changing command line: `index` with the directory listing and
      supported types it sees, or `tag DOCUMENT_ID TAGS`. */
  datatype Command =
    | IndexCommand(listing: seq<string>, extensions: set<string>)
    | TagCommand(documentId: int, tags: string)

  /** Rows are only ever appended: every table of `s` is a prefix of the
      same table of `r`. */
  predicate AppendOnly(s: Store, r: Store)
  {
    && |s.documents| <= |r.documents| && r.documents[..|s.documents|] == s.documents
    && |s.tags| <= |r.tags| && r.tags[..|s.tags|] == s.tags
    && |s.links| <= |r.links| && r.links[..|s.links|] == s.links
  }

  /** Appending twice is appending. */
  lemma AppendOnlyTransitive(s: Store, m: Store, r: Store)
    requires AppendOnly(s, m) && AppendOnly(m, r)
    ensures AppendOnly(s, r)
  {
    assert r.documents[..|s.documents|] == r.documents[..|m.documents|][..|s.documents|];
    assert r.tags[..|s.tags|] == r.tags[..|m.tags|][..|s.tags|];
    assert r.links[..|s.links|] == r.links[..|m.links|][..|s.links|];
  }

  /** One command: no row is changed or removed and the invariant is kept. */
  function Apply(s: Store, c: Command): (r: Store)
    ensures AppendOnly(s, r)
    ensures Valid(s) ==> Valid(r)
  {
    match c
    case IndexCommand(listing, extensions) => Indexing.Index(s, listing, extensions).store
    case TagCommand(documentId, tags) => Tagging.TagDocument(s, documentId, tags)
  }

  /** A sequence of commands, applied in order. */
  function Run(s: Store, commands: seq<Command>): (r: Store)
    ensures AppendOnly(s, r)
    ensures Valid(s) ==> Valid(r)
    decreases |commands|
  {
    if |commands| == 0 then s
    else
      var m := Apply(s, commands[0]);
      var r := Run(m, commands[1..]);
      AppendOnlyTransitive(s, m, r);
      r
  }

  /** Every database the commands can produce from a fresh schema has
      unique document keys, unique tag keys, unique tag values and only
      resolving association rows. */
  lemma ReachableStoresAreValid(commands: seq<Command>)
    ensures Valid(Run(Empty, commands))
  {
    assert Valid(Empty);
  }
}
