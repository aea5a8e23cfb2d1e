/**
 Finding every reference to a symbol: a scan for identifier tokens with running line and column, a set of
 location keys against doubles, and a final sort.
 */
module References {
  import opened Wrappers
  import opened Sequences
  import opened TextPositions
  import Decimal

  datatype Doc = Doc(uri: string, text: string, astValid: bool)

  datatype Symbol = Symbol(name: string, stableId: string)

  datatype Location = Location(uri: string, line: int, column: int)

  /** The symbol a document's position resolves to, for a fixed set of documents. */
  type Resolver = (Doc, int, int) -> Option<string>

  predicate IsAlpha(c: char) { 'a' <= c <= 'z' || 'A' <= c <= 'Z' }
  predicate IsIdentStart(c: char) { IsAlpha(c) || c == '_' }
  predicate IsIdentContinue(c: char) { IsAlpha(c) || '0' <= c <= '9' || c == '_' }

  // What counts as a reference.

  /** A maximal run of identifier characters that starts an identifier. */
  ghost predicate IsToken(text: string, i: nat, j: nat) {
    && i < j <= |text|
    && IsIdentStart(text[i])
    && (forall k :: i <= k < j ==> IsIdentContinue(text[k]))
    && (i == 0 || !IsIdentContinue(text[i - 1]))
    && (j == |text| || !IsIdentContinue(text[j]))
  }

  ghost function LocationAt(doc: Doc, i: nat): Location
    requires i <= |doc.text|
  {
    Location(doc.uri, PositionOf(doc.text, i).line + 1, PositionOf(doc.text, i).character + 1)
  }

  ghost predicate Occurs(doc: Doc, resolve: Resolver, target: Symbol, i: nat) {
    exists j: nat :: IsToken(doc.text, i, j) && doc.text[i..j] == target.name
                && resolve(doc, LocationAt(doc, i).line, LocationAt(doc, i).column) == Some(target.stableId)
  }

  /** `loc` is where some token before offset `limit` of `doc` refers to the target. */
  ghost predicate OccursBefore(doc: Doc, resolve: Resolver, target: Symbol, limit: int, loc: Location) {
    doc.astValid && exists i: nat :: i < limit && Occurs(doc, resolve, target, i) && loc == LocationAt(doc, i)
  }

  ghost predicate OccursIn(docs: seq<Doc>, resolve: Resolver, target: Symbol, loc: Location) {
    exists k :: 0 <= k < |docs| && OccursBefore(docs[k], resolve, target, |docs[k].text|, loc)
  }

  // Order.

  predicate StringLess(a: string, b: string) {
    if b == "" then false
    else if a == "" then true
    else a[0] < b[0] || (a[0] == b[0] && StringLess(a[1..], b[1..]))
  }

  predicate Before(a: Location, b: Location) {
    if a.uri != b.uri then StringLess(a.uri, b.uri)
    else if a.line != b.line then a.line < b.line
    else a.column < b.column
  }

  lemma {:induction false} StringLessTotal(a: string, b: string)
    ensures a == b || StringLess(a, b) || StringLess(b, a)
    ensures !(StringLess(a, b) && StringLess(b, a))
  {
    if a != "" && b != "" && a[0] == b[0] {
      StringLessTotal(a[1..], b[1..]);
      assert a == [a[0]] + a[1..] && b == [b[0]] + b[1..];
    }
  }

  lemma {:induction false} StringLessTransitive(a: string, b: string, c: string)
    requires StringLess(a, b) && StringLess(b, c)
    ensures StringLess(a, c)
  {
    if a != "" && a[0] == b[0] && b[0] == c[0] { StringLessTransitive(a[1..], b[1..], c[1..]); }
  }

  lemma BeforeOrder(a: Location, b: Location, c: Location)
    ensures a == b || Before(a, b) || Before(b, a)
    ensures !(Before(a, b) && Before(b, a))
    ensures Before(a, b) && Before(b, c) ==> Before(a, c)
  {
    StringLessTotal(a.uri, b.uri);
    StringLessTotal(b.uri, c.uri);
    if StringLess(a.uri, b.uri) && StringLess(b.uri, c.uri) {
      StringLessTransitive(a.uri, b.uri, c.uri);
      StringLessTotal(a.uri, c.uri);
      StringLessTotal(a.uri, a.uri);
    }
  }

  ghost predicate StrictlySorted(refs: seq<Location>) {
    forall i, j :: 0 <= i < j < |refs| ==> Before(refs[i], refs[j])
  }

  function Insert(refs: seq<Location>, loc: Location): seq<Location> {
    if refs == [] || Before(loc, refs[0]) then [loc] + refs else [refs[0]] + Insert(refs[1..], loc)
  }

  /** The library's sort; with distinct locations under a total order every sort gives this result. */
  function Sort(refs: seq<Location>): seq<Location> {
    if refs == [] then [] else Insert(Sort(refs[1..]), refs[0])
  }

  lemma {:induction false} InsertSorted(refs: seq<Location>, loc: Location)
    requires StrictlySorted(refs) && loc !in refs
    ensures StrictlySorted(Insert(refs, loc))
    ensures forall x :: x in Insert(refs, loc) <==> x in refs || x == loc
  {
    if refs == [] || Before(loc, refs[0]) {
      forall j | 0 <= j < |refs|
        ensures Before(loc, refs[j])
      {
        if j > 0 { BeforeOrder(loc, refs[0], refs[j]); }
      }
    } else {
      InsertSorted(refs[1..], loc);
      BeforeOrder(loc, refs[0], refs[0]);
      var rest := Insert(refs[1..], loc);
      forall j | 0 <= j < |rest|
        ensures Before(refs[0], rest[j])
      {
        assert rest[j] in rest;
        if rest[j] != loc {
          var k :| 0 <= k < |refs[1..]| && refs[1..][k] == rest[j];
          assert refs[k + 1] == rest[j];
        }
      }
      assert refs == [refs[0]] + refs[1..];
    }
  }

  lemma {:induction false} SortSorted(refs: seq<Location>)
    requires Distinct(refs)
    ensures StrictlySorted(Sort(refs))
    ensures forall x :: x in Sort(refs) <==> x in refs
  {
    if refs != [] {
      var rest := refs[1..];
      assert refs == [refs[0]] + rest;
      forall k | 0 <= k < |rest|
        ensures rest[k] != refs[0]
      {
        assert refs[k + 1] == rest[k];
      }
      SortSorted(rest);
      InsertSorted(Sort(rest), refs[0]);
    }
  }

  // Location keys.

  function Key(loc: Location): string {
    loc.uri + ":" + Decimal.Text(loc.line) + ":" + Decimal.Text(loc.column)
  }

  lemma KeyInjective(a: Location, b: Location)
    requires Key(a) == Key(b)
    ensures a == b
  {
    Decimal.TextFacts(a.line);
    Decimal.TextFacts(b.line);
    Decimal.TextFacts(a.column);
    Decimal.TextFacts(b.column);
    assert [':'] == ":";
    Decimal.SplitLast(':', a.uri + ":" + Decimal.Text(a.line), Decimal.Text(a.column),
                      b.uri + ":" + Decimal.Text(b.line), Decimal.Text(b.column));
    Decimal.SplitLast(':', a.uri, Decimal.Text(a.line), b.uri, Decimal.Text(b.line));
    Decimal.TextInjective(a.line, b.line);
    Decimal.TextInjective(a.column, b.column);
  }

  // The scan.

  /** The locations found so far, without doubles, and the keys that stand for them. */
  ghost predicate Recorded(refs: seq<Location>, seen: set<string>) {
    && Distinct(refs)
    && forall loc :: loc in refs <==> Key(loc) in seen
  }

  /** The references are exactly the target's tokens in valid documents, once each, in order. */
  method CollectReferences(target: Symbol, resolve: Resolver, docs: seq<Doc>) returns (refs: seq<Location>)
    ensures StrictlySorted(refs)
    ensures forall loc :: loc in refs <==> OccursIn(docs, resolve, target, loc)
  {
    refs := [];
    var seen: set<string> := {};
    for d := 0 to |docs|
      invariant Recorded(refs, seen)
      invariant forall loc :: loc in refs <==> OccursIn(docs[..d], resolve, target, loc)
    {
      ghost var before := refs;
      if docs[d].astValid {
        refs, seen := ScanDocument(target, resolve, docs[d], refs, seen);
      }
      OccursInNext(docs, d, resolve, target, before, refs);
    }
    assert docs[..|docs|] == docs;
    SortSorted(refs);
    refs := Sort(refs);
  }

  lemma OccursInNext(
    docs: seq<Doc>, d: nat, resolve: Resolver, target: Symbol, before: seq<Location>, after: seq<Location>)
    requires d < |docs|
    requires forall loc :: loc in before <==> OccursIn(docs[..d], resolve, target, loc)
    requires forall loc :: loc in after <==>
               loc in before || OccursBefore(docs[d], resolve, target, |docs[d].text|, loc)
    ensures forall loc :: loc in after <==> OccursIn(docs[..d + 1], resolve, target, loc)
  {
    forall loc
      ensures OccursIn(docs[..d + 1], resolve, target, loc) <==>
              OccursIn(docs[..d], resolve, target, loc) || OccursBefore(docs[d], resolve, target, |docs[d].text|, loc)
    {
      var more, front := docs[..d + 1], docs[..d];
      if OccursIn(front, resolve, target, loc) {
        var k :| 0 <= k < |front| && OccursBefore(front[k], resolve, target, |front[k].text|, loc);
        assert more[k] == front[k];
      }
      if OccursIn(more, resolve, target, loc) {
        var k :| 0 <= k < |more| && OccursBefore(more[k], resolve, target, |more[k].text|, loc);
        if k < d { assert front[k] == more[k]; }
      }
      assert more[d] == docs[d];
    }
  }

  method ScanDocument(target: Symbol, resolve: Resolver, doc: Doc, given: seq<Location>, givenSeen: set<string>)
    returns (refs: seq<Location>, seen: set<string>)
    requires Recorded(given, givenSeen) && doc.astValid
    ensures Recorded(refs, seen)
    ensures forall loc :: loc in refs <==> loc in given || OccursBefore(doc, resolve, target, |doc.text|, loc)
  {
    refs, seen := given, givenSeen;
    var text := doc.text;
    var line, col, i := 1, 1, 0;
    while i < |text|
      invariant i <= |text| && PositionOf(text, i) == Position(line - 1, col - 1)
      invariant Recorded(refs, seen)
      invariant forall loc :: loc in refs <==> loc in given || OccursBefore(doc, resolve, target, i, loc)
      decreases |text| - i
    {
      PositionStep(text, i);
      if text[i] == '\n' {
        NoTokenFrom(doc, resolve, target, i, i + 1);
        line, col, i := line + 1, 1, i + 1;
        continue;
      }
      if !IsIdentStart(text[i]) || (i > 0 && IsIdentContinue(text[i - 1])) {
        NoTokenFrom(doc, resolve, target, i, i + 1);
        col, i := col + 1, i + 1;
        continue;
      }
      var j := i + 1;
      while j < |text| && IsIdentContinue(text[j])
        invariant i < j <= |text|
        invariant forall k :: i <= k < j ==> IsIdentContinue(text[k])
      {
        j := j + 1;
      }
      assert IsToken(text, i, j);
      TokenIsUnique(text, i, j);
      ghost var loc := Location(doc.uri, line, col);
      ghost var before := refs;
      assert loc == LocationAt(doc, i);
      if text[i..j] == target.name && resolve(doc, line, col) == Some(target.stableId) {
        var key := doc.uri + ":" + Decimal.Text(line) + ":" + Decimal.Text(col);
        assert Occurs(doc, resolve, target, i);
        if key !in seen {
          refs, seen := Record(refs, seen, Location(doc.uri, line, col));
        }
      }
      OneTokenFrom(doc, resolve, target, i, j, before, refs, given);
      assert '\n' !in text[i..j] by {
        assert forall k :: 0 <= k < j - i ==> text[i..j][k] == text[i + k];
      }
      AlongLine(text, i, j);
      col, i := col + (j - i), j;
    }
  }

  method Record(given: seq<Location>, givenSeen: set<string>, loc: Location)
    returns (refs: seq<Location>, seen: set<string>)
    requires Recorded(given, givenSeen) && Key(loc) !in givenSeen
    ensures Recorded(refs, seen) && refs == given + [loc] && seen == givenSeen + {Key(loc)}
  {
    refs, seen := given + [loc], givenSeen + {Key(loc)};
    forall x
      ensures x in refs <==> Key(x) in seen
    {
      if Key(x) == Key(loc) { KeyInjective(x, loc); }
    }
  }

  lemma TokenIsUnique(text: string, i: nat, j: nat)
    requires IsToken(text, i, j)
    ensures forall k :: IsToken(text, i, k) ==> k == j
    ensures forall m, k :: i < m < j ==> !IsToken(text, m, k)
  {
    forall m, k | i < m < j
      ensures !IsToken(text, m, k)
    {
      assert IsIdentContinue(text[m - 1]);
    }
  }

  lemma NoTokenFrom(doc: Doc, resolve: Resolver, target: Symbol, i: nat, j: nat)
    requires forall m, k :: i <= m < j ==> !IsToken(doc.text, m, k)
    requires i <= j <= |doc.text|
    ensures forall loc :: OccursBefore(doc, resolve, target, j, loc) <==> OccursBefore(doc, resolve, target, i, loc)
  {
  }

  /** What one token adds. */
  lemma OneTokenFrom(
    doc: Doc, resolve: Resolver, target: Symbol, i: nat, j: nat,
    before: seq<Location>, after: seq<Location>, given: seq<Location>)
    requires doc.astValid && IsToken(doc.text, i, j)
    requires forall loc :: loc in before <==> loc in given || OccursBefore(doc, resolve, target, i, loc)
    requires forall loc :: loc in after <==>
               loc in before || (Occurs(doc, resolve, target, i) && loc == LocationAt(doc, i))
    ensures forall loc :: loc in after <==> loc in given || OccursBefore(doc, resolve, target, j, loc)
  {
    TokenIsUnique(doc.text, i, j);
    forall loc
      ensures OccursBefore(doc, resolve, target, j, loc) <==>
              || OccursBefore(doc, resolve, target, i, loc)
              || (Occurs(doc, resolve, target, i) && loc == LocationAt(doc, i))
    {
      if OccursBefore(doc, resolve, target, j, loc) {
        var m: nat :| m < j && Occurs(doc, resolve, target, m) && loc == LocationAt(doc, m);
        assert m <= i;
      }
    }
  }

  /** The line and column reported for a reference lead back to the offset of its token. */
  lemma LocationLeadsBack(doc: Doc, i: nat)
    requires i <= |doc.text|
    ensures PositionToOffset(doc.text, Position(LocationAt(doc, i).line - 1, LocationAt(doc, i).column - 1)) == Some(i)
  {
    PositionToOffsetComplete(doc.text, i);
  }
}
