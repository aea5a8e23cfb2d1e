/**
 The incremental compiler's documents: text, version, and the outcome of parsing the text, a repaired copy of
 it, or, failing both, falling back on the last good parse.
 */
module Documents {
  import opened Wrappers
  import opened TextPositions
  import Recovery

  /** A parsed program, told apart by identity only. */
  datatype Ast = Ast(id: nat)

  /** The parser: a fixed partial function from text to program. */
  type Parser = string -> Option<Ast>

  datatype RecoveryKind = NoRecovery | DelimiterClosure | LastGoodAst

  datatype Document = Document(
    path: string,
    text: string,
    version: int,
    ast: Option<Ast>,
    lastGoodAst: Option<Ast>,
    parseSuccess: bool,
    usedRecovery: bool,
    recoveryKind: RecoveryKind)

  /** What parsing a text yields, repaired by its recovery suffix when it needs and has one. */
  function Attempt(parse: Parser, text: string): Option<Ast> {
    var suffix := Recovery.RecoverySuffix(text);
    if parse(text).Some? then parse(text)
    else if suffix != "" then parse(text + suffix)
    else None
  }

  /** The document after its text was parsed again. */
  function Reparsed(parse: Parser, d: Document): Document {
    var good := Attempt(parse, d.text);
    if good.Some? then
      d.(ast := good, lastGoodAst := good, parseSuccess := true,
         usedRecovery := parse(d.text).None?,
         recoveryKind := if parse(d.text).None? then DelimiterClosure else NoRecovery)
    else
      d.(ast := d.lastGoodAst, parseSuccess := false,
         usedRecovery := d.lastGoodAst.Some?,
         recoveryKind := if d.lastGoodAst.Some? then LastGoodAst else NoRecovery)
  }

  // The changes of one notification.

  /** The text after as many of the changes as are accepted, and whether all of them were. */
  function ApplyAll(text: string, changes: seq<Change>): (string, bool)
    decreases |changes|
  {
    if changes == [] then (text, true)
    else match ApplyChange(text, changes[0])
      case None => (text, false)
      case Some(edited) => ApplyAll(edited, changes[1..])
  }

  // What a document remembers of its history, the texts parsed since it was opened.

  /** The latest successful parse. */
  ghost function Latest(parse: Parser, history: seq<string>): Option<Ast> {
    if history == [] then None
    else
      var last := Attempt(parse, history[|history| - 1]);
      if last.Some? then last else Latest(parse, history[..|history| - 1])
  }

  ghost predicate Reflects(parse: Parser, d: Document, history: seq<string>) {
    && history != []
    && var last := history[|history| - 1];
    && d.lastGoodAst == d.ast == Latest(parse, history)
    && (d.parseSuccess <==> Attempt(parse, last).Some?)
    && d.recoveryKind == (if parse(last).Some? then NoRecovery
                          else if Attempt(parse, last).Some? then DelimiterClosure
                          else if Latest(parse, history).Some? then LastGoodAst
                          else NoRecovery)
    && (d.usedRecovery <==> d.recoveryKind != NoRecovery)
  }

  lemma ReparsedReflects(parse: Parser, d: Document, history: seq<string>)
    requires d.lastGoodAst == Latest(parse, history)
    ensures Reflects(parse, Reparsed(parse, d), history + [d.text])
  {
    assert (history + [d.text])[..|history|] == history;
  }

  /** What clients rely on. */
  lemma ReflectsMeans(parse: Parser, d: Document, history: seq<string>)
    requires Reflects(parse, d, history)
    ensures d.ast.None? <==> d.lastGoodAst.None?
    ensures d.usedRecovery <==> d.recoveryKind != NoRecovery
    ensures d.parseSuccess ==> d.ast.Some? && d.ast == d.lastGoodAst
    ensures d.ast.Some? ==> exists k :: 0 <= k < |history| && Attempt(parse, history[k]) == d.ast
                                        && forall j :: k < j < |history| ==> Attempt(parse, history[j]).None?
  {
    if d.ast.Some? { LatestIs(parse, history); }
  }

  lemma {:induction false} LatestIs(parse: Parser, history: seq<string>)
    requires Latest(parse, history).Some?
    ensures exists k :: 0 <= k < |history| && Attempt(parse, history[k]) == Latest(parse, history)
                        && forall j :: k < j < |history| ==> Attempt(parse, history[j]).None?
  {
    var n := |history| - 1;
    if Attempt(parse, history[n]).None? {
      var front := history[..n];
      LatestIs(parse, front);
      var k :| 0 <= k < |front| && Attempt(parse, front[k]) == Latest(parse, front)
               && forall j :: k < j < |front| ==> Attempt(parse, front[j]).None?;
      assert history[k] == front[k];
      assert forall j :: k < j < n ==> history[j] == front[j];
    }
  }

  ghost predicate AllReflect(parse: Parser, documents: map<string, Document>, histories: map<string, seq<string>>) {
    && documents.Keys == histories.Keys
    && forall uri :: uri in documents ==> Reflects(parse, documents[uri], histories[uri])
  }

  lemma OneReparsed(
    parse: Parser, documents: map<string, Document>, histories: map<string, seq<string>>,
    uri: string, d: Document, history: seq<string>)
    requires AllReflect(parse, documents, histories) && d.lastGoodAst == Latest(parse, history)
    ensures AllReflect(parse, documents[uri := Reparsed(parse, d)], histories[uri := history + [d.text]])
  {
    ReparsedReflects(parse, d, history);
    var after := documents[uri := Reparsed(parse, d)];
    forall u | u in after
      ensures Reflects(parse, after[u], histories[uri := history + [d.text]][u])
    {
      if u != uri { assert u in documents; }
    }
  }

  class IncrementalCompiler {
    const parse: Parser
    var documents: map<string, Document>
    ghost var histories: map<string, seq<string>>

    ghost predicate Valid()
      reads this
    {
      AllReflect(parse, documents, histories)
    }

    constructor (parse: Parser)
      ensures Valid() && this.parse == parse && documents == map[]
    {
      this.parse := parse;
      documents, histories := map[], map[];
    }

    method OpenDocument(uri: string, path: string, text: string, version: int) returns (ok: bool)
      requires Valid()
      modifies this
      ensures Valid()
      ensures documents == old(documents)[uri := Reparsed(parse, NewDocument(path, text, version))]
      ensures histories == old(histories)[uri := [text]]
      ensures ok <==> documents[uri].ast.Some?
    {
      var doc := NewDocument(path, text, version);
      OneReparsed(parse, documents, histories, uri, doc, []);
      assert [] + [text] == [text];
      histories := histories[uri := [text]];
      ok := StoreAndParse(uri, doc);
    }

    method SetDocumentText(uri: string, text: string, version: int) returns (ok: bool)
      requires Valid()
      modifies this
      ensures Valid()
      ensures uri !in old(documents) ==> !ok && documents == old(documents) && histories == old(histories)
      ensures uri in old(documents) ==>
                && documents == old(documents)[uri := Reparsed(parse, Versioned(old(documents)[uri], text, version))]
                && histories == old(histories)[uri := old(histories)[uri] + [text]]
                && (ok <==> documents[uri].ast.Some?)
    {
      if uri !in documents { return false; }
      var doc := Versioned(documents[uri], text, version);
      OneReparsed(parse, documents, histories, uri, doc, histories[uri]);
      histories := histories[uri := histories[uri] + [text]];
      ok := StoreAndParse(uri, doc);
    }

    /** A rejected change list keeps version and parse state, and the text holds exactly the edits before it. */
    method ApplyChanges(uri: string, changes: seq<Change>, version: int) returns (ok: bool)
      requires Valid()
      modifies this
      ensures Valid()
      ensures uri !in old(documents) ==> !ok && documents == old(documents) && histories == old(histories)
      ensures uri in old(documents) ==>
                var (text, accepted) := ApplyAll(old(documents)[uri].text, changes);
                if accepted then
                  && documents == old(documents)[uri := Reparsed(parse, Versioned(old(documents)[uri], text, version))]
                  && histories == old(histories)[uri := old(histories)[uri] + [text]]
                  && (ok <==> documents[uri].ast.Some?)
                else
                  !ok && documents == old(documents)[uri := old(documents)[uri].(text := text)]
                  && histories == old(histories)
    {
      if uri !in documents { return false; }
      var before := documents[uri];
      var text, accepted := ApplyEach(uri, changes);
      if !accepted {
        EditedReflects(parse, old(documents), histories, uri, text, documents);
        return false;
      }
      var doc := Versioned(before, text, version);
      OneReparsed(parse, old(documents), histories, uri, doc, histories[uri]);
      histories := histories[uri := histories[uri] + [text]];
      ok := StoreAndParse(uri, doc);
    }

    /** Apply the changes in turn to the stored text, up to the first that is rejected. */
    method ApplyEach(uri: string, changes: seq<Change>) returns (text: string, accepted: bool)
      requires uri in documents
      modifies this`documents
      ensures (text, accepted) == ApplyAll(old(documents)[uri].text, changes)
      ensures Edited(old(documents), uri, text, documents)
    {
      text := documents[uri].text;
      for i := 0 to |changes|
        invariant Edited(old(documents), uri, text, documents)
        invariant ApplyAll(text, changes[i..]) == ApplyAll(old(documents)[uri].text, changes)
      {
        assert changes[i..][1..] == changes[i + 1..];
        var edited := ApplyChangeToText(text, changes[i]);
        if edited.None? { return text, false; }
        text := edited.value;
        documents := documents[uri := documents[uri].(text := text)];
      }
      return text, true;
    }

    method CloseDocument(uri: string)
      requires Valid()
      modifies this
      ensures Valid() && documents == old(documents) - {uri} && histories == old(histories) - {uri}
    {
      documents := documents - {uri};
      histories := histories - {uri};
    }

    method StoreAndParse(uri: string, doc: Document) returns (ok: bool)
      modifies this`documents
      ensures documents == old(documents)[uri := Reparsed(parse, doc)]
      ensures ok <==> Reparsed(parse, doc).ast.Some?
    {
      documents := documents[uri := doc];
      ok := ParseDocument(uri);
    }

    /** The parse itself: the text, then the repaired text, then the last good program. */
    method ParseDocument(uri: string) returns (ok: bool)
      requires uri in documents
      modifies this`documents
      ensures documents == old(documents)[uri := Reparsed(parse, old(documents)[uri])]
      ensures ok <==> documents[uri].ast.Some?
    {
      var doc := documents[uri].(ast := None, parseSuccess := false, usedRecovery := false, recoveryKind := NoRecovery);
      var parsed := parse(doc.text);
      if parsed.Some? {
        documents := documents[uri := doc.(ast := parsed, lastGoodAst := parsed, parseSuccess := true)];
        return true;
      }
      var suffix := Recovery.RecoverySuffixFor(doc.text);
      if suffix != "" {
        parsed := parse(doc.text + suffix);
        if parsed.Some? {
          documents := documents[uri := doc.(ast := parsed, lastGoodAst := parsed, parseSuccess := true,
                                             usedRecovery := true, recoveryKind := DelimiterClosure)];
          return true;
        }
      }
      if doc.lastGoodAst.Some? {
        documents := documents[uri := doc.(ast := doc.lastGoodAst, usedRecovery := true, recoveryKind := LastGoodAst)];
        return true;
      }
      documents := documents[uri := doc];
      return false;
    }
  }

  /** `after` is `before` with another text for one document. */
  ghost predicate Edited(before: map<string, Document>, uri: string, text: string, after: map<string, Document>) {
    uri in before && after == before[uri := before[uri].(text := text)]
  }

  /** Changing a text alone leaves what the document remembers as it was. */
  lemma EditedReflects(
    parse: Parser, before: map<string, Document>, histories: map<string, seq<string>>, uri: string, text: string,
    after: map<string, Document>)
    requires AllReflect(parse, before, histories) && Edited(before, uri, text, after)
    ensures AllReflect(parse, after, histories)
  {
    forall u | u in after
      ensures Reflects(parse, after[u], histories[u])
    {
      assert Reflects(parse, before[u], histories[u]);
    }
  }

  function NewDocument(path: string, text: string, version: int): Document {
    Document(path, text, version, None, None, false, false, NoRecovery)
  }

  /** The document with a new text, and with the new version unless that is negative. */
  function Versioned(d: Document, text: string, version: int): Document {
    d.(text := text, version := if version >= 0 then version else d.version)
  }
}
