/**
 The delimiter pass over a document: quotes and brackets, with the place of every fault. It reports nothing
 exactly when the quotes pair up and the brackets outside strings form a word of the bracket grammar.
 */
module Delimiters {
  import opened Wrappers
  import opened TextPositions

  datatype Fault = UnmatchedClosing | MismatchedClosing | UnterminatedString | UnclosedDelimiter

  /** A fault with its line and column, both counted from 1. */
  datatype Diagnostic = Diagnostic(line: int, column: int, fault: Fault)

  predicate Opening(c: char) { c == '(' || c == '[' || c == '{' }

  predicate Closing(c: char) { c == ')' || c == ']' || c == '}' }

  predicate Fits(open: char, close: char) {
    (open == '(' && close == ')') || (open == '[' && close == ']') || (open == '{' && close == '}')
  }

  /** A quote toggles unless the character before it is a backslash. */
  predicate Toggles(text: string, i: nat)
    requires i < |text|
  {
    text[i] == '"' && (i == 0 || text[i - 1] != '\\')
  }

  ghost function At(text: string, i: nat, fault: Fault): Diagnostic
    requires i <= |text|
  {
    Diagnostic(PositionOf(text, i).line + 1, PositionOf(text, i).character + 1, fault)
  }

  ghost function EndFaults(text: string, inString: bool, stack: seq<char>): seq<Diagnostic> {
    (if inString then [At(text, |text|, UnterminatedString)] else [])
    + if stack != [] then [At(text, |text|, UnclosedDelimiter)] else []
  }

  /** What the pass still reports from offset `i` on. */
  ghost function FaultsFrom(text: string, i: nat, inString: bool, stack: seq<char>): seq<Diagnostic>
    requires i <= |text|
    decreases |text| - i
  {
    if i == |text| then EndFaults(text, inString, stack)
    else if Toggles(text, i) then FaultsFrom(text, i + 1, !inString, stack)
    else if inString then FaultsFrom(text, i + 1, inString, stack)
    else if Opening(text[i]) then FaultsFrom(text, i + 1, inString, stack + [text[i]])
    else if !Closing(text[i]) then FaultsFrom(text, i + 1, inString, stack)
    else if stack == [] then [At(text, i, UnmatchedClosing)] + FaultsFrom(text, i + 1, inString, stack)
    else if !Fits(stack[|stack| - 1], text[i]) then
      [At(text, i, MismatchedClosing)] + FaultsFrom(text, i + 1, inString, stack)
    else FaultsFrom(text, i + 1, inString, stack[..|stack| - 1])
  }

  lemma Regroup(out: seq<Diagnostic>, fault: Diagnostic, rest: seq<Diagnostic>)
    ensures out + ([fault] + rest) == out + [fault] + rest
  {
  }

  method DelimiterDiagnostics(text: string) returns (out: seq<Diagnostic>)
    ensures out == FaultsFrom(text, 0, false, [])
  {
    out := [];
    var delimiters: seq<char>, inString, line, column := [], false, 1, 1;
    for i := 0 to |text|
      invariant PositionOf(text, i) == Position(line - 1, column - 1)
      invariant out + FaultsFrom(text, i, inString, delimiters) == FaultsFrom(text, 0, false, [])
    {
      PositionStep(text, i);
      var ch := text[i];
      if ch == '\n' {
        line, column := line + 1, 1;
        continue;
      }
      if ch == '"' && (i == 0 || text[i - 1] != '\\') {
        inString := !inString;
        column := column + 1;
        continue;
      }
      if !inString {
        if ch == '(' || ch == '[' || ch == '{' {
          delimiters := delimiters + [ch];
        } else if ch == ')' || ch == ']' || ch == '}' {
          if delimiters == [] {
            Regroup(out, At(text, i, UnmatchedClosing), FaultsFrom(text, i + 1, inString, delimiters));
            out := out + [Diagnostic(line, column, UnmatchedClosing)];
          } else if !Fits(delimiters[|delimiters| - 1], ch) {
            Regroup(out, At(text, i, MismatchedClosing), FaultsFrom(text, i + 1, inString, delimiters));
            out := out + [Diagnostic(line, column, MismatchedClosing)];
          } else {
            delimiters := delimiters[..|delimiters| - 1];
          }
        }
      }
      column := column + 1;
    }
    if inString { out := out + [Diagnostic(line, column, UnterminatedString)]; }
    if delimiters != [] { out := out + [Diagnostic(line, column, UnclosedDelimiter)]; }
  }

  // The grammar: S -> empty | S S | (S) | [S] | {S}.

  datatype Bracket = Round | Square | Curly
  {
    function Open(): char { match this case Round => '(' case Square => '[' case Curly => '{' }
    function Close(): char { match this case Round => ')' case Square => ']' case Curly => '}' }
  }

  datatype Derivation =
    | Empty
    | Join(first: Derivation, second: Derivation)
    | Enclosed(bracket: Bracket, inner: Derivation)
  {
    ghost function Yield(): string {
      match this
      case Empty => ""
      case Join(first, second) => first.Yield() + second.Yield()
      case Enclosed(bracket, inner) => [bracket.Open()] + inner.Yield() + [bracket.Close()]
    }
  }

  ghost predicate Balanced(word: string) { exists d: Derivation :: d.Yield() == word }

  // What the text says, apart from the pass.

  /** The number of quotes from `i` on that are not behind a backslash. */
  ghost function QuotesFrom(text: string, i: nat): nat
    requires i <= |text|
    decreases |text| - i
  {
    if i == |text| then 0 else (if Toggles(text, i) then 1 else 0) + QuotesFrom(text, i + 1)
  }

  /** The brackets from `i` on that are not inside a string. */
  ghost function BracketsFrom(text: string, i: nat, inString: bool): string
    requires i <= |text|
    decreases |text| - i
  {
    if i == |text| then ""
    else if Toggles(text, i) then BracketsFrom(text, i + 1, !inString)
    else if !inString && (Opening(text[i]) || Closing(text[i])) then [text[i]] + BracketsFrom(text, i + 1, inString)
    else BracketsFrom(text, i + 1, inString)
  }

  /** Whether the brackets of `word`, read behind the open brackets of `stack`, close everything in order. */
  ghost predicate Closes(stack: seq<char>, word: string)
    decreases |word|
  {
    if word == "" then stack == []
    else if Opening(word[0]) then Closes(stack + [word[0]], word[1..])
    else stack != [] && Fits(stack[|stack| - 1], word[0]) && Closes(stack[..|stack| - 1], word[1..])
  }

  lemma {:induction false} NoFaults(text: string, i: nat, inString: bool, stack: seq<char>)
    requires i <= |text|
    ensures FaultsFrom(text, i, inString, stack) == [] <==>
              && (QuotesFrom(text, i) % 2 == (if inString then 1 else 0))
              && Closes(stack, BracketsFrom(text, i, inString))
    decreases |text| - i
  {
    if i < |text| {
      var c := text[i];
      var word := BracketsFrom(text, i, inString);
      if Toggles(text, i) {
        NoFaults(text, i + 1, !inString, stack);
      } else if inString || !(Opening(c) || Closing(c)) {
        NoFaults(text, i + 1, inString, stack);
      } else {
        assert word[0] == c && word[1..] == BracketsFrom(text, i + 1, inString);
        if Opening(c) {
          NoFaults(text, i + 1, inString, stack + [c]);
        } else if stack != [] && Fits(stack[|stack| - 1], c) {
          NoFaults(text, i + 1, inString, stack[..|stack| - 1]);
        }
      }
    }
  }

  // The stack test decides the grammar.

  lemma {:induction false} DerivedCloses(d: Derivation, stack: seq<char>, rest: string)
    ensures Closes(stack, d.Yield() + rest) <==> Closes(stack, rest)
    decreases d
  {
    match d
    case Empty => assert "" + rest == rest;
    case Join(first, second) =>
      assert d.Yield() + rest == first.Yield() + (second.Yield() + rest);
      DerivedCloses(first, stack, second.Yield() + rest);
      DerivedCloses(second, stack, rest);
    case Enclosed(bracket, inner) =>
      var open, close := bracket.Open(), bracket.Close();
      var word := d.Yield() + rest;
      assert word[0] == open && word[1..] == inner.Yield() + ([close] + rest);
      DerivedCloses(inner, stack + [open], [close] + rest);
      assert ([close] + rest)[1..] == rest;
      assert (stack + [open])[..|stack|] == stack;
  }

  function BracketOf(open: char): Bracket { if open == '(' then Round else if open == '[' then Square else Curly }

  /** One derivation for each gap left by the brackets still open, innermost first. */
  ghost function Assemble(stack: seq<char>, gaps: seq<Derivation>): string
    requires |gaps| == |stack| + 1
    decreases |stack|, 1
  {
    gaps[0].Yield() + AssembleRest(stack, gaps[1..])
  }

  ghost function AssembleRest(stack: seq<char>, gaps: seq<Derivation>): string
    requires |gaps| == |stack|
    decreases |stack|, 0
  {
    if stack == [] then ""
    else [BracketOf(stack[|stack| - 1]).Close()] + Assemble(stack[..|stack| - 1], gaps)
  }

  lemma OpenGap(stack: seq<char>, open: char, inside: seq<Derivation>)
    requires Opening(open) && |inside| == |stack| + 2
    ensures Assemble(stack, [Join(Enclosed(BracketOf(open), inside[0]), inside[1])] + inside[2..])
            == [open] + Assemble(stack + [open], inside)
  {
    var first := Enclosed(BracketOf(open), inside[0]);
    assert inside[1..][1..] == inside[2..];
    PrependGap(stack, inside[1..], first);
    assert (stack + [open])[..|stack|] == stack;
    OpenRegrouped([open], inside[0].Yield(), [BracketOf(open).Close()], Assemble(stack, inside[1..]));
  }

  lemma OpenRegrouped(open: string, inner: string, close: string, rest: string)
    ensures (open + inner + close) + rest == open + (inner + (close + rest))
  {
  }

  lemma CloseGap(stack: seq<char>, close: char, rest: seq<Derivation>)
    requires stack != [] && Fits(stack[|stack| - 1], close) && |rest| == |stack|
    ensures Assemble(stack, [Empty] + rest) == [close] + Assemble(stack[..|stack| - 1], rest)
  {
    assert ([Empty] + rest)[1..] == rest;
  }

  lemma {:induction false} ClosesDerived(stack: seq<char>, word: string) returns (gaps: seq<Derivation>)
    requires Closes(stack, word)
    ensures |gaps| == |stack| + 1 && Assemble(stack, gaps) == word
    decreases |word|
  {
    if word == "" {
      gaps := [Empty];
    } else if Opening(word[0]) {
      var open := word[0];
      var inside := ClosesDerived(stack + [open], word[1..]);
      gaps := [Join(Enclosed(BracketOf(open), inside[0]), inside[1])] + inside[2..];
      OpenGap(stack, open, inside);
    } else {
      var rest := ClosesDerived(stack[..|stack| - 1], word[1..]);
      gaps := [Empty] + rest;
      CloseGap(stack, word[0], rest);
    }
  }

  lemma PrependGap(stack: seq<char>, gaps: seq<Derivation>, d: Derivation)
    requires |gaps| == |stack| + 1
    ensures Assemble(stack, [Join(d, gaps[0])] + gaps[1..]) == d.Yield() + Assemble(stack, gaps)
  {
    assert ([Join(d, gaps[0])] + gaps[1..])[1..] == gaps[1..];
    Associative(d.Yield(), gaps[0].Yield(), AssembleRest(stack, gaps[1..]));
  }

  lemma Associative(a: string, b: string, c: string)
    ensures (a + b) + c == a + (b + c)
  {
  }

  lemma ClosesIsBalanced(word: string)
    ensures Closes([], word) <==> Balanced(word)
  {
    if Closes([], word) {
      var gaps := ClosesDerived([], word);
      assert gaps[0].Yield() == word;
    }
    if d: Derivation :| d.Yield() == word {
      DerivedCloses(d, [], "");
      assert d.Yield() + "" == word;
    }
  }

  /** The pass is silent exactly on texts with paired quotes and balanced brackets. */
  lemma SilentExactlyWhenBalanced(text: string)
    ensures FaultsFrom(text, 0, false, []) == [] <==>
            QuotesFrom(text, 0) % 2 == 0 && Balanced(BracketsFrom(text, 0, false))
  {
    NoFaults(text, 0, false, []);
    ClosesIsBalanced(BracketsFrom(text, 0, false));
  }

  // Where the first fault is.

  ghost predicate StringAt(text: string, i: nat)
    requires i <= |text|
  {
    if i == 0 then false else if Toggles(text, i - 1) then !StringAt(text, i - 1) else StringAt(text, i - 1)
  }

  /** The brackets before offset `i` that are not inside a string. */
  ghost function BracketsBefore(text: string, i: nat): string
    requires i <= |text|
  {
    if i == 0 then ""
    else
      var c := text[i - 1];
      var counts := !Toggles(text, i - 1) && !StringAt(text, i - 1) && (Opening(c) || Closing(c));
      BracketsBefore(text, i - 1) + if counts then [c] else ""
  }

  /** Some continuation makes a balanced word of it. */
  ghost predicate Viable(word: string) { exists rest: string :: Balanced(word + rest) }

  /** The brackets still open after `word`, unless it closes one that is not there. */
  ghost function StillOpen(stack: seq<char>, word: string): Option<seq<char>>
    decreases |word|
  {
    if word == "" then Some(stack)
    else if Opening(word[0]) then StillOpen(stack + [word[0]], word[1..])
    else if stack != [] && Fits(stack[|stack| - 1], word[0]) then StillOpen(stack[..|stack| - 1], word[1..])
    else None
  }

  lemma {:induction false} ClosesInTwo(stack: seq<char>, word: string, rest: string)
    ensures Closes(stack, word + rest) <==>
            StillOpen(stack, word).Some? && Closes(StillOpen(stack, word).value, rest)
    decreases |word|
  {
    if word == "" {
      assert word + rest == rest;
    } else {
      assert (word + rest)[0] == word[0] && (word + rest)[1..] == word[1..] + rest;
      if Opening(word[0]) {
        ClosesInTwo(stack + [word[0]], word[1..], rest);
      } else if stack != [] && Fits(stack[|stack| - 1], word[0]) {
        ClosesInTwo(stack[..|stack| - 1], word[1..], rest);
      }
    }
  }

  lemma {:induction false} StillOpenNext(stack: seq<char>, word: string, c: char)
    ensures StillOpen(stack, word + [c]) ==
            if StillOpen(stack, word).Some? then StillOpen(StillOpen(stack, word).value, [c]) else None
    decreases |word|
  {
    if word == "" {
      assert word + [c] == [c];
    } else {
      assert (word + [c])[0] == word[0] && (word + [c])[1..] == word[1..] + [c];
      if Opening(word[0]) {
        StillOpenNext(stack + [word[0]], word[1..], c);
      } else if stack != [] && Fits(stack[|stack| - 1], word[0]) {
        StillOpenNext(stack[..|stack| - 1], word[1..], c);
      }
    }
  }

  ghost predicate OnlyOpenings(stack: seq<char>) { forall c :: c in stack ==> Opening(c) }

  lemma {:induction false} StillOpenOpenings(stack: seq<char>, word: string)
    requires OnlyOpenings(stack)
    ensures StillOpen(stack, word).Some? ==> OnlyOpenings(StillOpen(stack, word).value)
    decreases |word|
  {
    if word != "" {
      if Opening(word[0]) {
        StillOpenOpenings(stack + [word[0]], word[1..]);
      } else if stack != [] && Fits(stack[|stack| - 1], word[0]) {
        StillOpenOpenings(stack[..|stack| - 1], word[1..]);
      }
    }
  }

  lemma {:induction false} OpeningsCanClose(stack: seq<char>) returns (rest: string)
    requires OnlyOpenings(stack)
    ensures Closes(stack, rest)
  {
    if stack == [] {
      rest := "";
    } else {
      var open := stack[|stack| - 1];
      assert Opening(open);
      var inner := OpeningsCanClose(stack[..|stack| - 1]);
      rest := [BracketOf(open).Close()] + inner;
      assert rest[1..] == inner;
    }
  }

  lemma ViableExactly(word: string)
    ensures Viable(word) <==> StillOpen([], word).Some?
  {
    if StillOpen([], word).Some? {
      StillOpenOpenings([], word);
      var rest := OpeningsCanClose(StillOpen([], word).value);
      ClosesInTwo([], word, rest);
      ClosesIsBalanced(word + rest);
    }
    if rest: string :| Balanced(word + rest) {
      ClosesIsBalanced(word + rest);
      ClosesInTwo([], word, rest);
    }
  }

  lemma {:induction false} FirstFaultFrom(text: string, i: nat, stack: seq<char>) returns (k: nat)
    requires i <= |text| && StillOpen([], BracketsBefore(text, i)) == Some(stack)
    ensures i <= k <= |text| && StillOpen([], BracketsBefore(text, k)).Some?
    ensures
      var faults := FaultsFrom(text, i, StringAt(text, i), stack);
      if k < |text| then
        && faults != [] && faults[0].fault in {UnmatchedClosing, MismatchedClosing}
        && faults[0] == At(text, k, faults[0].fault)
        && StillOpen([], BracketsBefore(text, k + 1)).None?
      else faults == EndFaults(text, StringAt(text, k), StillOpen([], BracketsBefore(text, k)).value)
    decreases |text| - i
  {
    k := i;
    if i < |text| {
      var c := text[i];
      var before := BracketsBefore(text, i);
      assert before + "" == before;
      if Toggles(text, i) || StringAt(text, i) || !(Opening(c) || Closing(c)) {
        k := FirstFaultFrom(text, i + 1, stack);
      } else {
        StillOpenNext([], before, c);
        assert [c][1..] == "";
        if Opening(c) {
          k := FirstFaultFrom(text, i + 1, stack + [c]);
        } else if stack != [] && Fits(stack[|stack| - 1], c) {
          k := FirstFaultFrom(text, i + 1, stack[..|stack| - 1]);
        }
      }
    }
  }

  lemma {:induction false} ViableShrinks(text: string, i: nat, j: nat)
    requires i <= j <= |text| && StillOpen([], BracketsBefore(text, j)).Some?
    ensures StillOpen([], BracketsBefore(text, i)).Some?
    decreases j
  {
    if i < j {
      var c := text[j - 1];
      assert BracketsBefore(text, j - 1) + "" == BracketsBefore(text, j - 1);
      StillOpenNext([], BracketsBefore(text, j - 1), c);
      ViableShrinks(text, i, j - 1);
    }
  }

  /**
   The first fault about a closing bracket is reported exactly at the end of the shortest prefix that no
   continuation can balance; if every prefix can still be balanced, no closing bracket is reported at all.
   */
  lemma FirstFaultPlaced(text: string)
    ensures
      var faults := FaultsFrom(text, 0, false, []);
      if forall i :: 0 <= i <= |text| ==> Viable(BracketsBefore(text, i)) then
        forall f :: f in faults ==> f.fault in {UnterminatedString, UnclosedDelimiter}
      else
        exists k :: 0 <= k < |text| && faults != []
                    && faults[0] in {At(text, k, UnmatchedClosing), At(text, k, MismatchedClosing)}
                    && !Viable(BracketsBefore(text, k + 1))
                    && forall i :: 0 <= i <= k ==> Viable(BracketsBefore(text, i))
  {
    var k := FirstFaultFrom(text, 0, []);
    forall i | 0 <= i <= k
      ensures Viable(BracketsBefore(text, i))
    {
      ViableShrinks(text, i, k);
      ViableExactly(BracketsBefore(text, i));
    }
    if k < |text| { ViableExactly(BracketsBefore(text, k + 1)); }
  }
}
