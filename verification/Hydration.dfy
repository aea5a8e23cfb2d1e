/**
 The worklist that pulls the modules an open document needs from disk, and what it leaves behind.
 */
module Hydration {
  import opened Wrappers
  import Decimal

  /** The analysis of a text: its validity, the modules it names, and everything else it was found to contain. */
  datatype Content = Content(astValid: bool, uses: seq<string>, mods: seq<string>, symbols: seq<string>)

  datatype Doc = Doc(uri: string, text: string, content: Content)
  {
    /** The modules this document names, each with the document as its requester. */
    function Requests(): seq<(string, string)> {
      RequestsOf(uri, content.uses) + RequestsOf(uri, content.mods)
    }
  }

  function RequestsOf(uri: string, names: seq<string>): seq<(string, string)> {
    if names == [] then []
    else (if names[0] == "" then [] else [(uri, names[0])]) + RequestsOf(uri, names[1..])
  }

  datatype File = File(text: string, content: Content)

  /** A fixed file system; a path without an entry is a file that cannot be read or does not parse. */
  datatype FileSystem = FileSystem(
    resolve: (string, string) -> Option<string>,
    uriOf: string -> string,
    files: map<string, File>)
  {
    function Load(path: string): Option<Doc> {
      if path in files then Some(Doc(uriOf(path), files[path].text, files[path].content)) else None
    }

    ghost function Uris(): set<string> { set path | path in files :: uriOf(path) }
  }

  // Module names and URIs.

  predicate EndsWith(s: string, suffix: string) {
    |s| >= |suffix| && s[|s| - |suffix|..] == suffix
  }

  /** What follows the first `://`, or all of it. */
  function UriToPath(uri: string): string { AfterScheme(uri, uri) }

  function AfterScheme(rest: string, whole: string): string {
    if "://" <= rest then rest[3..] else if rest == "" then whole else AfterScheme(rest[1..], whole)
  }

  function Slashed(name: string): string {
    if name == "" then ""
    else if "::" <= name then "/" + Slashed(name[2..])
    else [name[0]] + Slashed(name[1..])
  }

  predicate UriMatchesModule(uri: string, moduleName: string) {
    var path, modulePath := UriToPath(uri), Slashed(moduleName) + ".mla";
    path == modulePath || EndsWith(path, "/" + modulePath)
  }

  predicate HasProvider(docs: seq<Doc>, moduleName: string) {
    exists d | d in docs :: UriMatchesModule(d.uri, moduleName)
  }

  predicate HasUri(docs: seq<Doc>, uri: string) {
    exists d | d in docs :: d.uri == uri
  }

  function FindDoc(docs: seq<Doc>, uri: string): (r: Option<Doc>)
    ensures r.Some? <==> HasUri(docs, uri)
    ensures r.Some? ==> r.value in docs && r.value.uri == uri
  {
    if docs == [] then None
    else if docs[0].uri == uri then Some(docs[0])
    else FindDoc(docs[1..], uri)
  }

  // The worklist.

  function VisitKey(request: (string, string)): string { request.0 + "\n" + request.1 }

  /** The document a request adds to `docs`, if it adds one. */
  function Fetch(fs: FileSystem, docs: seq<Doc>, request: (string, string)): (r: Option<Doc>)
    ensures r.Some? ==> r.value.uri in fs.Uris() && !HasUri(docs, r.value.uri)
  {
    if request.1 == "" || HasProvider(docs, request.1) then None
    else match fs.resolve(request.0, request.1)
      case None => None
      case Some(path) =>
        if HasUri(docs, fs.uriOf(path)) then None
        else match fs.Load(path)
          case None => None
          case Some(doc) => if doc.content.astValid then Some(doc) else None
  }

  ghost function DocUris(docs: seq<Doc>): set<string> { set d | d in docs :: d.uri }

  /** How many files could still be added. */
  ghost function Missing(fs: FileSystem, docs: seq<Doc>): nat { |fs.Uris() - DocUris(docs)| }

  lemma UrisShrink(fs: FileSystem, docs: seq<Doc>, doc: Doc)
    requires doc.uri in fs.Uris() && !HasUri(docs, doc.uri)
    ensures Missing(fs, docs + [doc]) < Missing(fs, docs)
  {
    var all := docs + [doc];
    assert forall d :: d in all <==> d in docs || d == doc;
    assert doc.uri !in DocUris(docs);
    forall u | u in DocUris(docs)
      ensures u in DocUris(all)
    {
      var d :| d in docs && d.uri == u;
      assert d in all;
    }
    assert doc in all;
    assert fs.Uris() - DocUris(docs) == (fs.Uris() - DocUris(all)) + {doc.uri};
  }

  datatype Worklist = Worklist(queue: seq<(string, string)>, visited: set<string>, docs: seq<Doc>)

  /** Handles the first request; the document it adds, if any, queues its own requests at the end. */
  function Step(fs: FileSystem, w: Worklist): (next: Worklist)
    requires w.queue != []
    ensures w.docs <= next.docs
  {
    var request, rest := w.queue[0], w.queue[1..];
    if request.1 == "" || VisitKey(request) in w.visited then Worklist(rest, w.visited, w.docs)
    else match Fetch(fs, w.docs, request)
      case None => Worklist(rest, w.visited + {VisitKey(request)}, w.docs)
      case Some(doc) => Worklist(rest + doc.Requests(), w.visited + {VisitKey(request)}, w.docs + [doc])
  }

  lemma StepShrinks(fs: FileSystem, w: Worklist)
    requires w.queue != []
    ensures
      var next := Step(fs, w);
      || Missing(fs, next.docs) < Missing(fs, w.docs)
      || (next.docs == w.docs && |next.queue| < |w.queue|)
  {
    if Step(fs, w).docs != w.docs { UrisShrink(fs, w.docs, Fetch(fs, w.docs, w.queue[0]).value); }
  }

  function Work(fs: FileSystem, w: Worklist): seq<Doc>
    decreases Missing(fs, w.docs), |w.queue|
  {
    if w.queue == [] then w.docs
    else
      StepShrinks(fs, w);
      Work(fs, Step(fs, w))
  }

  /** The documents after hydrating for `root`; unchanged when the root is absent or has no valid AST. */
  function Hydrate(fs: FileSystem, root: string, docs: seq<Doc>): seq<Doc> {
    match FindDoc(docs, root)
    case None => docs
    case Some(doc) => if doc.content.astValid then Work(fs, Worklist(doc.Requests(), {}, docs)) else docs
  }

  method HydrateFilesystemModules(fs: FileSystem, rootUri: string, given: seq<Doc>) returns (docs: seq<Doc>)
    ensures docs == Hydrate(fs, rootUri, given)
  {
    docs := given;
    var root := FindDoc(docs, rootUri);
    if root.None? || !root.value.content.astValid { return; }
    var queue, visited := root.value.Requests(), {};
    while queue != []
      invariant Work(fs, Worklist(queue, visited, docs)) == Hydrate(fs, rootUri, given)
      decreases Missing(fs, docs), |queue|
    {
      var (requester, moduleName) := queue[0];
      queue := queue[1..];
      if moduleName == "" { continue; }
      var visitKey := requester + "\n" + moduleName;
      if visitKey in visited { continue; }
      visited := visited + {visitKey};
      if HasProvider(docs, moduleName) { continue; }
      var path := fs.resolve(requester, moduleName);
      if path.None? { continue; }
      if HasUri(docs, fs.uriOf(path.value)) { continue; }
      var loaded := fs.Load(path.value);
      if loaded.None? || !loaded.value.content.astValid { continue; }
      UrisShrink(fs, docs, loaded.value);
      docs := docs + [loaded.value];
      queue := queue + loaded.value.Requests();
    }
  }

  // What hydration leaves behind.

  ghost predicate DistinctUris(docs: seq<Doc>) {
    forall i, j :: 0 <= i < j < |docs| ==> docs[i].uri != docs[j].uri
  }

  /** A request needs nothing more: it has a provider, leads to no file, to a file already there, or to a bad one. */
  ghost predicate Settled(fs: FileSystem, docs: seq<Doc>, request: (string, string)) {
    Fetch(fs, docs, request).None?
  }

  lemma SettledStays(fs: FileSystem, docs: seq<Doc>, more: seq<Doc>, request: (string, string))
    requires docs <= more && Settled(fs, docs, request)
    ensures Settled(fs, more, request)
  {
    assert forall d :: d in docs ==> d in more;
  }

  // Module names never contain a line break, so visit keys tell requests apart.

  ghost predicate OneLine(name: string) { '\n' !in name }

  lemma VisitKeyInjective(a: (string, string), b: (string, string))
    requires OneLine(a.1) && OneLine(b.1) && VisitKey(a) == VisitKey(b)
    ensures a == b
  {
    Decimal.SplitLast('\n', a.0, a.1, b.0, b.1);
  }

  ghost predicate CleanRequests(requests: seq<(string, string)>) {
    forall r :: r in requests ==> OneLine(r.1)
  }

  ghost predicate CleanNames(fs: FileSystem) {
    forall path: string :: fs.Load(path).Some? ==> CleanRequests(fs.Load(path).value.Requests())
  }

  ghost predicate VisitedSettled(fs: FileSystem, docs: seq<Doc>, visited: set<string>) {
    forall r: (string, string) :: OneLine(r.1) && VisitKey(r) in visited ==> Settled(fs, docs, r)
  }

  ghost predicate RequestsSettled(fs: FileSystem, docs: seq<Doc>, requests: seq<(string, string)>) {
    forall r :: r in requests ==> Settled(fs, docs, r)
  }

  lemma StepSettled(fs: FileSystem, visited: set<string>, docs: seq<Doc>, request: (string, string))
    requires VisitedSettled(fs, docs, visited) && OneLine(request.1)
    ensures
      var more := if Fetch(fs, docs, request).Some? then docs + [Fetch(fs, docs, request).value] else docs;
      VisitedSettled(fs, more, visited + {VisitKey(request)})
  {
    var more := if Fetch(fs, docs, request).Some? then docs + [Fetch(fs, docs, request).value] else docs;
    if Fetch(fs, docs, request).Some? {
      assert Fetch(fs, docs, request).value in more;
    }
    forall r: (string, string) | OneLine(r.1) && VisitKey(r) in visited + {VisitKey(request)}
      ensures Settled(fs, more, r)
    {
      if VisitKey(r) in visited { SettledStays(fs, docs, more, r); } else { VisitKeyInjective(r, request); }
    }
  }

  lemma NewUriDistinct(docs: seq<Doc>, doc: Doc)
    requires DistinctUris(docs) && !HasUri(docs, doc.uri)
    ensures DistinctUris(docs + [doc])
  {
    assert forall i :: 0 <= i < |docs| ==> docs[i] in docs;
  }

  lemma StepDistinct(fs: FileSystem, w: Worklist)
    requires w.queue != [] && DistinctUris(w.docs)
    ensures DistinctUris(Step(fs, w).docs)
  {
    if Step(fs, w).docs != w.docs { NewUriDistinct(w.docs, Fetch(fs, w.docs, w.queue[0]).value); }
  }

  /** Documents are only appended, and never under a URI already there. */
  lemma {:induction false} WorkAppends(fs: FileSystem, w: Worklist)
    ensures w.docs <= Work(fs, w)
    ensures DistinctUris(w.docs) ==> DistinctUris(Work(fs, w))
    decreases Missing(fs, w.docs), |w.queue|
  {
    if w.queue != [] {
      StepShrinks(fs, w);
      if DistinctUris(w.docs) { StepDistinct(fs, w); }
      WorkAppends(fs, Step(fs, w));
    }
  }

  ghost predicate AddedSettled(fs: FileSystem, all: seq<Doc>, given: nat) {
    forall k :: given <= k < |all| ==> RequestsSettled(fs, all, all[k].Requests())
  }

  /** What one step leaves open, the queue still holds: the request handled is settled, the new ones are queued. */
  lemma StepSettles(fs: FileSystem, w: Worklist)
    requires w.queue != [] && VisitedSettled(fs, w.docs, w.visited) && CleanRequests(w.queue) && CleanNames(fs)
    ensures
      var next := Step(fs, w);
      && VisitedSettled(fs, next.docs, next.visited) && w.visited <= next.visited
      && CleanRequests(next.queue)
      && (forall r :: r in w.queue ==> r in next.queue || Settled(fs, next.docs, r))
      && forall k, r :: |w.docs| <= k < |next.docs| && r in next.docs[k].Requests() ==> r in next.queue
  {
    var request, next := w.queue[0], Step(fs, w);
    assert w.queue == [request] + w.queue[1..];
    if request.1 != "" && VisitKey(request) !in w.visited {
      StepSettled(fs, w.visited, w.docs, request);
      match Fetch(fs, w.docs, request)
      case None =>
      case Some(doc) =>
        var path :| fs.Load(path) == Some(doc);
        assert VisitKey(request) in next.visited;
    }
  }

  /** Everything asked for, from the start or by an added document, ends up settled. */
  lemma {:induction false} WorkSettles(fs: FileSystem, w: Worklist)
    requires VisitedSettled(fs, w.docs, w.visited) && CleanRequests(w.queue) && CleanNames(fs)
    ensures VisitedSettled(fs, Work(fs, w), w.visited)
    ensures RequestsSettled(fs, Work(fs, w), w.queue)
    ensures AddedSettled(fs, Work(fs, w), |w.docs|)
    decreases Missing(fs, w.docs), |w.queue|
  {
    if w.queue != [] {
      var all, next := Work(fs, w), Step(fs, w);
      StepShrinks(fs, w);
      StepSettles(fs, w);
      WorkSettles(fs, next);
      WorkAppends(fs, next);
      forall r | r in w.queue
        ensures Settled(fs, all, r)
      {
        if r !in next.queue { SettledStays(fs, next.docs, all, r); }
      }
      forall k | |w.docs| <= k < |all|
        ensures RequestsSettled(fs, all, all[k].Requests())
      {
        if k < |next.docs| { assert all[k] == next.docs[k]; }
      }
    }
  }

  /** An added document is the file that a still unprovided request of the root or of an earlier one leads to. */
  ghost predicate Justified(fs: FileSystem, root: seq<(string, string)>, all: seq<Doc>, given: nat, k: nat)
    requires given <= k < |all|
  {
    exists request ::
      && (request in root || exists j :: given <= j < k && request in all[j].Requests())
      && Fetch(fs, all[..k], request) == Some(all[k])
  }

  /** Every queued request comes from the root or from a document added so far. */
  ghost predicate QueueFrom(root: seq<(string, string)>, queue: seq<(string, string)>, docs: seq<Doc>, given: nat) {
    forall r :: r in queue ==> r in root || exists j :: given <= j < |docs| && r in docs[j].Requests()
  }

  ghost predicate AllJustified(fs: FileSystem, root: seq<(string, string)>, all: seq<Doc>, given: nat, from: nat)
    requires given <= from
  {
    forall k :: from <= k < |all| ==> Justified(fs, root, all, given, k)
  }

  lemma QueueRest(root: seq<(string, string)>, queue: seq<(string, string)>, docs: seq<Doc>, given: nat)
    requires queue != [] && QueueFrom(root, queue, docs, given)
    ensures QueueFrom(root, queue[1..], docs, given)
    ensures queue[0] in root || exists j :: given <= j < |docs| && queue[0] in docs[j].Requests()
  {
    assert queue[0] in queue;
    assert forall r :: r in queue[1..] ==> r in queue;
  }

  lemma QueueGrows(root: seq<(string, string)>, queue: seq<(string, string)>, docs: seq<Doc>, given: nat, doc: Doc)
    requires given <= |docs| && QueueFrom(root, queue, docs, given)
    ensures QueueFrom(root, queue + doc.Requests(), docs + [doc], given)
  {
    var more := docs + [doc];
    forall r | r in queue + doc.Requests()
      ensures r in root || exists j :: given <= j < |more| && r in more[j].Requests()
    {
      if r in doc.Requests() {
        assert r in more[|docs|].Requests();
      } else if r !in root {
        var j :| given <= j < |docs| && r in docs[j].Requests();
        assert r in more[j].Requests();
      }
    }
  }

  lemma StepQueue(fs: FileSystem, root: seq<(string, string)>, w: Worklist, given: nat)
    requires w.queue != [] && given <= |w.docs| && QueueFrom(root, w.queue, w.docs, given)
    ensures QueueFrom(root, Step(fs, w).queue, Step(fs, w).docs, given)
  {
    QueueRest(root, w.queue, w.docs, given);
    if Step(fs, w).docs != w.docs {
      QueueGrows(root, w.queue[1..], w.docs, given, Fetch(fs, w.docs, w.queue[0]).value);
    }
  }

  lemma AddedJustified(
    fs: FileSystem, root: seq<(string, string)>, docs: seq<Doc>, given: nat, all: seq<Doc>, request: (string, string))
    requires given <= |docs| < |all| && docs == all[..|docs|]
    requires request in root || exists j :: given <= j < |docs| && request in docs[j].Requests()
    requires Fetch(fs, docs, request) == Some(all[|docs|])
    ensures Justified(fs, root, all, given, |docs|)
  {
    if request !in root {
      var j :| given <= j < |docs| && request in docs[j].Requests();
      assert all[j] == docs[j];
    }
  }

  lemma StepJustified(fs: FileSystem, root: seq<(string, string)>, w: Worklist, given: nat, all: seq<Doc>)
    requires w.queue != [] && given <= |w.docs| && QueueFrom(root, w.queue, w.docs, given)
    requires Step(fs, w).docs <= all
    ensures forall k :: |w.docs| <= k < |Step(fs, w).docs| ==> Justified(fs, root, all, given, k)
  {
    var next := Step(fs, w);
    if next.docs != w.docs {
      QueueRest(root, w.queue, w.docs, given);
      assert all[..|w.docs|] == next.docs[..|w.docs|] == w.docs && all[|w.docs|] == next.docs[|w.docs|];
      AddedJustified(fs, root, w.docs, given, all, w.queue[0]);
    }
  }

  lemma {:induction false} WorkJustified(fs: FileSystem, root: seq<(string, string)>, w: Worklist, given: nat)
    requires given <= |w.docs| && QueueFrom(root, w.queue, w.docs, given)
    ensures AllJustified(fs, root, Work(fs, w), given, |w.docs|)
    decreases Missing(fs, w.docs), |w.queue|
  {
    if w.queue != [] {
      var next := Step(fs, w);
      StepShrinks(fs, w);
      StepQueue(fs, root, w, given);
      WorkJustified(fs, root, next, given);
      WorkAppends(fs, next);
      StepJustified(fs, root, w, given, Work(fs, w));
    }
  }

  lemma {:induction false} RequestsOfRequester(uri: string, names: seq<string>)
    ensures forall r :: r in RequestsOf(uri, names) <==> r.0 == uri && r.1 != "" && r.1 in names
  {
    if names != [] {
      RequestsOfRequester(uri, names[1..]);
      assert names == [names[0]] + names[1..];
    }
  }

  /** Every module a document names, in a `use` or a `mod`, needs nothing more. */
  ghost predicate NamesSettled(fs: FileSystem, all: seq<Doc>, doc: Doc) {
    forall name :: name != "" && (name in doc.content.uses || name in doc.content.mods)
      ==> Settled(fs, all, (doc.uri, name))
  }

  lemma SettledByName(fs: FileSystem, all: seq<Doc>, doc: Doc)
    ensures RequestsSettled(fs, all, doc.Requests()) <==> NamesSettled(fs, all, doc)
  {
    RequestsOfRequester(doc.uri, doc.content.uses);
    RequestsOfRequester(doc.uri, doc.content.mods);
    forall name | name != "" && (name in doc.content.uses || name in doc.content.mods)
      ensures (doc.uri, name) in doc.Requests()
    {
    }
    forall r | r in doc.Requests()
      ensures r == (doc.uri, r.1) && r.1 != "" && (r.1 in doc.content.uses || r.1 in doc.content.mods)
    {
    }
  }

  /**
   Hydration for an open document with a valid AST: the given documents stay in front, no URI is doubled, each
   added document was called for, and every module named by the root or by an added document is settled.
   */
  lemma Hydrated(fs: FileSystem, root: string, docs: seq<Doc>)
    requires FindDoc(docs, root).Some? && FindDoc(docs, root).value.content.astValid
    requires CleanRequests(FindDoc(docs, root).value.Requests()) && CleanNames(fs)
    ensures
      var all, doc := Hydrate(fs, root, docs), FindDoc(docs, root).value;
      && docs <= all
      && (DistinctUris(docs) ==> DistinctUris(all))
      && NamesSettled(fs, all, doc)
      && (forall k :: |docs| <= k < |all| ==> NamesSettled(fs, all, all[k]))
      && AllJustified(fs, doc.Requests(), all, |docs|, |docs|)
  {
    var all, doc := Hydrate(fs, root, docs), FindDoc(docs, root).value;
    var start := Worklist(doc.Requests(), {}, docs);
    WorkAppends(fs, start);
    WorkSettles(fs, start);
    WorkJustified(fs, doc.Requests(), start, |docs|);
    SettledByName(fs, all, doc);
    forall k | |docs| <= k < |all|
      ensures NamesSettled(fs, all, all[k])
    {
      SettledByName(fs, all, all[k]);
    }
  }
}
