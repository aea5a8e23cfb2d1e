/**
 The session store of the language service: open documents, a generation counter that every edit advances,
 and three caches over them (analysed documents, hydrated snapshots, the last completion).

 Generations are 64-bit and wrap around; the largest value doubles as the mark "no base cache".
 */
module Session {
  import opened Wrappers
  import opened Hydration

  const TWO64: nat := 0x1_0000_0000_0000_0000
  const NO_BASE: nat := TWO64 - 1

  datatype Status = InvalidArgument | DocumentNotFound | VersionConflict | StatusOk

  datatype DocumentState = DocumentState(uri: string, languageId: string, text: string, version: int)

  /** The analyses the store calls: deterministic functions of what they are given and a fixed file system. */
  datatype Env = Env(
    fs: FileSystem,
    analyze: (string, string) -> Content,
    fastCompletion: (string, string, int, int) -> Option<seq<string>>,
    semanticCompletion: (Doc, seq<Doc>, int, int) -> seq<string>)

  /** A hydrated snapshot: the documents and where each URI is found among them. */
  datatype Snapshot = Snapshot(generation: nat, docs: seq<Doc>, uriToIndex: map<string, nat>)

  // What the answers are, computed from the documents alone.

  function Analyses(env: Env, documents: map<string, DocumentState>, order: seq<string>): (docs: seq<Doc>)
    requires forall uri :: uri in order ==> uri in documents
    ensures |docs| == |order|
    ensures forall i :: 0 <= i < |order| ==> docs[i].uri == documents[order[i]].uri
  {
    seq(|order|, i requires 0 <= i < |order| =>
      var d := documents[order[i]]; Doc(d.uri, d.text, env.analyze(d.uri, d.text)))
  }

  ghost predicate IsOrder(order: seq<string>, keys: set<string>) {
    && (forall i, j :: 0 <= i < j < |order| ==> order[i] != order[j])
    && keys == set uri | uri in order
  }

  /** Documents of a session: every entry is filed under its own, non-empty URI. */
  ghost predicate Filed(documents: map<string, DocumentState>, order: seq<string>) {
    && IsOrder(order, documents.Keys)
    && "" !in documents
    && forall uri :: uri in documents ==> documents[uri].uri == uri
  }

  function FreshDocs(env: Env, documents: map<string, DocumentState>, order: seq<string>, uri: string): seq<Doc>
    requires forall u :: u in order ==> u in documents
  {
    Hydrate(env.fs, uri, Analyses(env, documents, order))
  }

  function FreshCurrent(env: Env, documents: map<string, DocumentState>, uri: string): Doc
    requires uri in documents
  {
    Doc(uri, documents[uri].text, env.analyze(uri, documents[uri].text))
  }

  function FreshCompletion(
    env: Env, documents: map<string, DocumentState>, order: seq<string>, uri: string, line: int, column: int)
    : seq<string>
    requires uri in documents && forall u :: u in order ==> u in documents
  {
    match env.fastCompletion(uri, documents[uri].text, line, column)
    case Some(items) => items
    case None =>
      env.semanticCompletion(FreshCurrent(env, documents, uri), FreshDocs(env, documents, order, uri), line, column)
  }

  lemma AnalysesDistinct(env: Env, documents: map<string, DocumentState>, order: seq<string>)
    requires Filed(documents, order)
    ensures DistinctUris(Analyses(env, documents, order))
    ensures forall uri :: uri in documents ==> FreshCurrent(env, documents, uri) in Analyses(env, documents, order)
  {
    var docs := Analyses(env, documents, order);
    forall uri | uri in documents
      ensures FreshCurrent(env, documents, uri) in docs
    {
      var i :| 0 <= i < |order| && order[i] == uri;
      assert docs[i] == FreshCurrent(env, documents, uri);
    }
  }

  /** An open document is in its own hydrated snapshot, once, as analysed. */
  lemma CurrentFound(env: Env, documents: map<string, DocumentState>, order: seq<string>, uri: string)
    requires Filed(documents, order) && uri in documents
    ensures
      var docs := FreshDocs(env, documents, order, uri);
      && DistinctUris(docs)
      && FreshCurrent(env, documents, uri) in docs
      && forall i :: 0 <= i < |docs| && docs[i].uri == uri ==> docs[i] == FreshCurrent(env, documents, uri)
  {
    var base, docs := Analyses(env, documents, order), FreshDocs(env, documents, order, uri);
    AnalysesDistinct(env, documents, order);
    match FindDoc(base, uri) {
      case None =>
      case Some(doc) => WorkAppends(env.fs, Worklist(doc.Requests(), {}, base));
    }
    assert base <= docs;
    var k :| 0 <= k < |base| && base[k] == FreshCurrent(env, documents, uri);
    assert docs[k] == base[k];
  }

  /** Later entries win, as when the map is filled in document order. */
  ghost predicate IndexesUris(index: map<string, nat>, docs: seq<Doc>) {
    && (forall i :: 0 <= i < |docs| ==> docs[i].uri in index)
    && (forall uri :: uri in index ==> index[uri] < |docs| && docs[index[uri]].uri == uri)
  }

  method IndexDocs(docs: seq<Doc>) returns (index: map<string, nat>)
    ensures IndexesUris(index, docs)
  {
    index := map[];
    for i := 0 to |docs|
      invariant IndexesUris(index, docs[..i])
    {
      index := index[docs[i].uri := i];
      assert docs[..i + 1] == docs[..i] + [docs[i]];
    }
    assert docs[..|docs|] == docs;
  }

  // Generations.

  function Generation(edits: nat): nat { (1 + edits) % TWO64 }

  /** The edit counts at which the generation equals the "no base cache" mark. */
  ghost predicate Lapsed(edits: nat) { (edits + 2) % TWO64 == 0 }

  lemma LapsedGeneration(edits: nat)
    ensures Generation(edits) == NO_BASE <==> Lapsed(edits)
  {
    var q, r := (1 + edits) / TWO64, Generation(edits);
    assert edits + 2 == q * TWO64 + (r + 1);
    if r == NO_BASE { assert edits + 2 == (q + 1) * TWO64; }
  }

  lemma NextGeneration(edits: nat)
    ensures (Generation(edits) + 1) % TWO64 == Generation(edits + 1)
  {
  }

  /** The exception is real but far away: it first comes after 2^64 - 2 edits. */
  lemma FirstLapse(edits: nat)
    ensures Lapsed(TWO64 - 2)
    ensures edits < TWO64 - 2 ==> !Lapsed(edits)
  {
  }

  /** What a hydrated snapshot is built from; nothing at the generation that equals the mark. */
  function BaseAt(env: Env, documents: map<string, DocumentState>, order: seq<string>, generation: nat): seq<Doc>
    requires forall u :: u in order ==> u in documents
  {
    if generation == NO_BASE then [] else Analyses(env, documents, order)
  }

  /** What looking up an open document in its snapshot gives. */
  lemma SnapshotAnswers(
    env: Env, documents: map<string, DocumentState>, order: seq<string>, generation: nat, uri: string,
    snap: Snapshot)
    requires Filed(documents, order) && uri in documents
    requires snap.docs == Hydrate(env.fs, uri, BaseAt(env, documents, order, generation))
    requires IndexesUris(snap.uriToIndex, snap.docs)
    ensures uri in snap.uriToIndex <==> generation != NO_BASE
    ensures generation != NO_BASE ==>
              && snap.docs == FreshDocs(env, documents, order, uri)
              && snap.docs[snap.uriToIndex[uri]] == FreshCurrent(env, documents, uri)
  {
    if generation != NO_BASE {
      CurrentFound(env, documents, order, uri);
      var k :| 0 <= k < |snap.docs| && snap.docs[k] == FreshCurrent(env, documents, uri);
      assert snap.docs[k].uri == uri;
    }
  }

  class SessionStore {
    const env: Env
    var documents: map<string, DocumentState>
    var order: seq<string> // the iteration order of the hash map holding the documents
    var generation: nat
    var baseGeneration: nat
    var baseDocs: seq<Doc>
    var hydrated: map<string, Snapshot>
    var completionGeneration: nat
    var completionUri: string
    var completionLine: int
    var completionColumn: int
    var completionItems: seq<string>
    ghost var edits: nat // successful opens, changes and closes so far

    ghost predicate ValidSnapshots()
      requires Filed(documents, order)
      reads this
    {
      && (baseGeneration == generation || baseGeneration == NO_BASE)
      && (baseGeneration == generation ==> baseDocs == BaseAt(env, documents, order, generation))
      && (forall uri :: uri in hydrated ==>
            && hydrated[uri].generation == generation
            && hydrated[uri].docs == Hydrate(env.fs, uri, BaseAt(env, documents, order, generation))
            && IndexesUris(hydrated[uri].uriToIndex, hydrated[uri].docs))
    }

    ghost predicate ValidCompletion()
      requires Filed(documents, order)
      reads this
    {
      completionGeneration == generation && completionUri != "" ==>
        && completionUri in documents
        && completionItems
           == FreshCompletion(env, documents, order, completionUri, completionLine, completionColumn)
        && (generation == NO_BASE ==>
              env.fastCompletion(completionUri, documents[completionUri].text, completionLine, completionColumn).Some?)
    }

    ghost predicate Valid()
      reads this
    {
      Filed(documents, order) && generation == Generation(edits) && ValidSnapshots() && ValidCompletion()
    }

    ghost predicate SameDocuments(ds: map<string, DocumentState>, o: seq<string>, g: nat, e: nat)
      reads this
    {
      documents == ds && order == o && generation == g && edits == e
    }

    constructor (env: Env)
      ensures Valid() && this.env == env && documents == map[] && edits == 0
    {
      this.env := env;
      documents, order, generation, edits := map[], [], 1, 0;
      baseGeneration, baseDocs, hydrated := NO_BASE, [], map[];
      completionGeneration, completionUri, completionLine, completionColumn := 0, "", -1, -1;
      completionItems := [];
    }

    method InvalidateSemanticCache()
      requires Filed(documents, order) && generation == Generation(edits)
      modifies this
      ensures Valid() && documents == old(documents) && order == old(order) && edits == old(edits) + 1
    {
      NextGeneration(edits);
      generation := (generation + 1) % TWO64;
      edits := edits + 1;
      baseGeneration, baseDocs, hydrated := NO_BASE, [], map[];
      completionGeneration, completionUri, completionLine, completionColumn := 0, "", -1, -1;
      completionItems := [];
    }

    /** `newOrder` is the iteration order after the call; inserting a key may reorder the whole map. */
    method OpenDocument(uri: string, languageId: string, text: string, version: int, newOrder: seq<string>)
      returns (ok: bool)
      requires Valid()
      requires uri in documents ==> newOrder == order
      requires uri != "" ==> IsOrder(newOrder, documents.Keys + {uri})
      modifies this
      ensures Valid()
      ensures ok <==> uri != ""
      ensures ok ==> documents == old(documents)[uri := DocumentState(uri, languageId, text, version)]
                     && order == newOrder && edits == old(edits) + 1
      ensures !ok ==> SameDocuments(old(documents), old(order), old(generation), old(edits))
    {
      if uri == "" { return false; }
      documents := documents[uri := DocumentState(uri, languageId, text, version)];
      order := newOrder;
      InvalidateSemanticCache();
      return true;
    }

    method ChangeDocument(uri: string, text: string, version: int) returns (status: Status)
      requires Valid()
      modifies this
      ensures Valid()
      ensures status == if uri == "" then InvalidArgument
                        else if uri !in old(documents) then DocumentNotFound
                        else if version <= old(documents)[uri].version then VersionConflict
                        else StatusOk
      ensures status.StatusOk? ==>
                && documents == old(documents)[uri := old(documents)[uri].(text := text, version := version)]
                && order == old(order) && edits == old(edits) + 1
      ensures !status.StatusOk? ==> SameDocuments(old(documents), old(order), old(generation), old(edits))
    {
      if uri == "" { return InvalidArgument; }
      if uri !in documents { return DocumentNotFound; }
      if version <= documents[uri].version { return VersionConflict; }
      documents := documents[uri := documents[uri].(text := text, version := version)];
      InvalidateSemanticCache();
      return StatusOk;
    }

    method CloseDocument(uri: string) returns (status: Status)
      requires Valid()
      modifies this
      ensures Valid()
      ensures status == if uri == "" then InvalidArgument
                        else if uri !in old(documents) then DocumentNotFound else StatusOk
      ensures status.StatusOk? ==> documents == old(documents) - {uri} && edits == old(edits) + 1
                                   && order == Without(old(order), uri)
      ensures !status.StatusOk? ==> SameDocuments(old(documents), old(order), old(generation), old(edits))
    {
      if uri == "" { return InvalidArgument; }
      if uri !in documents { return DocumentNotFound; }
      WithoutOrder(order, uri);
      documents := documents - {uri};
      order := Without(order, uri);
      InvalidateSemanticCache();
      return StatusOk;
    }

    method ClearSemanticCache()
      requires Valid()
      modifies this
      ensures Valid() && SameDocuments(old(documents), old(order), old(generation), old(edits))
    {
      baseGeneration, baseDocs, hydrated := NO_BASE, [], map[];
    }

    method EnsureBaseSemanticCache()
      requires Valid()
      modifies this
      ensures Valid() && SameDocuments(old(documents), old(order), old(generation), old(edits))
      ensures baseGeneration == generation
    {
      if baseGeneration == generation { return; }
      baseDocs := Analyses(env, documents, order);
      baseGeneration := generation;
      hydrated := map[];
    }

    /** The snapshot for an open document: the cached one when it is current, otherwise a new one, then cached. */
    method HydratedSnapshot(key: string) returns (snap: Snapshot)
      requires Valid()
      modifies this
      ensures Valid() && SameDocuments(old(documents), old(order), old(generation), old(edits))
      ensures snap.docs == Hydrate(env.fs, key, BaseAt(env, documents, order, generation))
      ensures IndexesUris(snap.uriToIndex, snap.docs)
    {
      EnsureBaseSemanticCache();
      if key !in hydrated || hydrated[key].generation != generation {
        var docs := HydrateFilesystemModules(env.fs, key, baseDocs);
        var index := IndexDocs(docs);
        hydrated := hydrated[key := Snapshot(generation, docs, index)];
      }
      return hydrated[key];
    }

    /**
     The snapshot of an open document equals the one computed without any cache, and the second lookup of the
     document succeeds, except exactly when the edit counter has wrapped to the "no base" mark.
     */
    method SemanticSnapshotForUri(uri: string) returns (status: Status, docs: seq<Doc>, current: Option<Doc>)
      requires Valid()
      modifies this
      ensures Valid() && SameDocuments(old(documents), old(order), old(generation), old(edits))
      ensures status == if uri == "" then InvalidArgument
                        else if uri !in documents || Lapsed(edits) then DocumentNotFound
                        else StatusOk
      ensures status.StatusOk? ==> docs == FreshDocs(env, documents, order, uri)
                                   && current == Some(FreshCurrent(env, documents, uri))
    {
      docs, current := [], None;
      if uri == "" { return InvalidArgument, docs, current; }
      if uri !in documents { return DocumentNotFound, docs, current; }
      var snap := HydratedSnapshot(uri);
      SnapshotAnswers(env, documents, order, generation, uri, snap);
      LapsedGeneration(edits);
      docs := snap.docs;
      if uri !in snap.uriToIndex { return DocumentNotFound, docs, current; }
      return StatusOk, docs, Some(docs[snap.uriToIndex[uri]]);
    }

    method WarmSemanticCacheForUri(uri: string) returns (status: Status)
      requires Valid()
      modifies this
      ensures Valid() && SameDocuments(old(documents), old(order), old(generation), old(edits))
      ensures status == if uri == "" then InvalidArgument
                        else if uri !in documents || Lapsed(edits) then DocumentNotFound
                        else StatusOk
    {
      var docs, current;
      status, docs, current := SemanticSnapshotForUri(uri);
    }

    /** Completions, cached or not, are the ones computed from the documents alone, with the same exception. */
    method CompletionSnapshotForPosition(uri: string, line: int, column: int)
      returns (status: Status, items: seq<string>)
      requires Valid()
      modifies this
      ensures Valid() && SameDocuments(old(documents), old(order), old(generation), old(edits))
      ensures status == if uri == "" then InvalidArgument
                        else if uri !in documents then DocumentNotFound
                        else if Lapsed(edits)
                                && env.fastCompletion(uri, documents[uri].text, line, column).None?
                             then DocumentNotFound
                        else StatusOk
      ensures status.StatusOk? ==> items == FreshCompletion(env, documents, order, uri, line, column)
    {
      items := [];
      if uri == "" { return InvalidArgument, items; }
      if uri !in documents { return DocumentNotFound, items; }
      if completionGeneration == generation && completionUri == uri && completionLine == line
         && completionColumn == column
      {
        LapsedGeneration(edits);
        return StatusOk, completionItems;
      }
      var quick := env.fastCompletion(uri, documents[uri].text, line, column);
      if quick.Some? {
        RememberCompletion(uri, line, column, quick.value);
        return StatusOk, completionItems;
      }
      var snap := HydratedSnapshot(uri);
      SnapshotAnswers(env, documents, order, generation, uri, snap);
      LapsedGeneration(edits);
      if uri !in snap.uriToIndex { return DocumentNotFound, items; }
      var current := snap.docs[snap.uriToIndex[uri]];
      RememberCompletion(uri, line, column, env.semanticCompletion(current, snap.docs, line, column));
      return StatusOk, completionItems;
    }

    method RememberCompletion(uri: string, line: int, column: int, items: seq<string>)
      requires Valid() && uri in documents
      requires items == FreshCompletion(env, documents, order, uri, line, column)
      requires generation == NO_BASE ==> env.fastCompletion(uri, documents[uri].text, line, column).Some?
      modifies this`completionGeneration, this`completionUri, this`completionLine, this`completionColumn,
               this`completionItems
      ensures Valid() && completionItems == items
    {
      completionItems, completionGeneration := items, generation;
      completionUri, completionLine, completionColumn := uri, line, column;
    }

    method DocumentText(uri: string) returns (text: Option<string>)
      requires Valid()
      ensures text == if uri in documents then Some(documents[uri].text) else None
    {
      if uri == "" || uri !in documents { return None; }
      return Some(documents[uri].text);
    }
  }

  function Without(order: seq<string>, uri: string): seq<string> {
    if order == [] then []
    else if order[0] == uri then Without(order[1..], uri)
    else [order[0]] + Without(order[1..], uri)
  }

  lemma {:induction false} WithoutOrder(order: seq<string>, uri: string)
    requires forall i, j :: 0 <= i < j < |order| ==> order[i] != order[j]
    ensures forall u :: u in Without(order, uri) <==> u in order && u != uri
    ensures forall i, j :: 0 <= i < j < |Without(order, uri)| ==> Without(order, uri)[i] != Without(order, uri)[j]
  {
    if order != [] {
      WithoutOrder(order[1..], uri);
      assert order == [order[0]] + order[1..];
      var rest, all := Without(order[1..], uri), Without(order, uri);
      if order[0] != uri {
        assert all == [order[0]] + rest;
        forall i, j | 0 <= i < j < |all|
          ensures all[i] != all[j]
        {
          assert all[j] == rest[j - 1] && rest[j - 1] in rest;
        }
      }
    }
  }
}
