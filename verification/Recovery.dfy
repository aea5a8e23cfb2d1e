/**
 The recovery suffix: what to append to a text that is being typed so that its strings, comments and brackets
 are closed. The scanner looks one character ahead; `Run` is the same scan as a machine that never looks ahead.
 */
module Recovery {
  datatype ScanState = Code | String | LineComment | BlockComment

  function ClosingFor(opener: char): char {
    match opener
    case '{' => '}'
    case '[' => ']'
    case '(' => ')'
    case _ => '\0'
  }

  predicate IsOpener(c: char) { c == '{' || c == '[' || c == '(' }

  predicate IsCloser(c: char) { c == '}' || c == ']' || c == ')' }

  /** The stack after a character of code: openers are pushed, a closer pops only the opener it fits. */
  function Bracket(openers: seq<char>, c: char): seq<char> {
    if IsOpener(c) then openers + [c]
    else if IsCloser(c) && openers != [] && ClosingFor(openers[|openers| - 1]) == c
    then openers[..|openers| - 1]
    else openers
  }

  /** The closers of a stack of openers, innermost first. */
  function Closers(openers: seq<char>): string {
    if openers == [] then ""
    else
      var closer := ClosingFor(openers[|openers| - 1]);
      (if closer != '\0' then [closer] else "") + Closers(openers[..|openers| - 1])
  }

  function Suffix(state: ScanState, openers: seq<char>): string {
    (match state case String => "\"" case BlockComment => "*/" case _ => "") + Closers(openers)
  }

  // The machine without lookahead.

  datatype Mode = InCode | AfterSlash | InString | AfterBackslash | InLine | InBlock | AfterStar

  datatype Machine = Machine(mode: Mode, openers: seq<char>)
  {
    function State(): ScanState {
      match mode
      case InCode => Code
      case AfterSlash => Code
      case InString => String
      case AfterBackslash => String
      case InLine => LineComment
      case InBlock => BlockComment
      case AfterStar => BlockComment
    }

    function CodeStep(c: char): Machine {
      if c == '"' then Machine(InString, openers)
      else if c == '/' then Machine(AfterSlash, openers)
      else Machine(InCode, Bracket(openers, c))
    }

    function Step(c: char): Machine {
      match mode
      case InCode => CodeStep(c)
      case AfterSlash =>
        if c == '/' then Machine(InLine, openers)
        else if c == '*' then Machine(InBlock, openers)
        else CodeStep(c)
      case InString => Machine(if c == '\\' then AfterBackslash else if c == '"' then InCode else InString, openers)
      case AfterBackslash => Machine(InString, openers)
      case InLine => Machine(if c == '\n' then InCode else InLine, openers)
      case InBlock => Machine(if c == '*' then AfterStar else InBlock, openers)
      case AfterStar => Machine(if c == '/' then InCode else if c == '*' then AfterStar else InBlock, openers)
    }
  }

  function Run(m: Machine, text: string): Machine
    decreases |text|
  {
    if text == "" then m else Run(m.Step(text[0]), text[1..])
  }

  const START := Machine(InCode, [])

  function Scanned(text: string): Machine { Run(START, text) }

  function RecoverySuffix(text: string): string { Suffix(Scanned(text).State(), Scanned(text).openers) }

  // The lookahead scanner refines the machine.

  /** Two machines a scan cannot tell apart once the text is over. */
  ghost predicate Same(a: Machine, b: Machine) { a.State() == b.State() && a.openers == b.openers }

  function Settled(state: ScanState, openers: seq<char>): Machine {
    Machine(
      match state
      case Code => InCode
      case String => InString
      case LineComment => InLine
      case BlockComment => InBlock,
      openers)
  }

  method RecoverySuffixFor(text: string) returns (suffix: string)
    ensures suffix == RecoverySuffix(text)
  {
    var state, openers := Code, [];
    var i := 0;
    while i < |text|
      invariant i <= |text|
      invariant Same(Run(Settled(state, openers), text[i..]), Scanned(text))
      decreases |text| - i
    {
      var c := text[i];
      ghost var m := Settled(state, openers);
      assert Run(m, text[i..]) == Run(m.Step(c), text[i + 1..]);
      assert i + 1 < |text| ==> Run(m.Step(c), text[i + 1..]) == Run(m.Step(c).Step(text[i + 1]), text[i + 2..]);
      i := i + 1;
      match state {
        case Code =>
          if c == '"' {
            state := String;
          } else if c == '/' && i < |text| && text[i] == '/' {
            state := LineComment;
            i := i + 1;
          } else if c == '/' && i < |text| && text[i] == '*' {
            state := BlockComment;
            i := i + 1;
          } else if IsOpener(c) {
            openers := openers + [c];
          } else if IsCloser(c) {
            if openers != [] && ClosingFor(openers[|openers| - 1]) == c {
              openers := openers[..|openers| - 1];
            }
          }
        case String =>
          if c == '\\' && i < |text| {
            i := i + 1;
          } else if c == '"' {
            state := Code;
          }
        case LineComment =>
          if c == '\n' { state := Code; }
        case BlockComment =>
          if c == '*' && i < |text| && text[i] == '/' {
            state := Code;
            i := i + 1;
          }
      }
    }
    suffix := "";
    if state == String {
      suffix := suffix + "\"";
    } else if state == BlockComment {
      suffix := suffix + "*/";
    }
    while openers != []
      invariant suffix + Closers(openers) == RecoverySuffix(text)
      decreases |openers|
    {
      var closer := ClosingFor(openers[|openers| - 1]);
      if closer != '\0' { suffix := suffix + [closer]; }
      openers := openers[..|openers| - 1];
    }
  }

  // What the suffix achieves.

  lemma {:induction false} RunSplits(m: Machine, a: string, b: string)
    ensures Run(m, a + b) == Run(Run(m, a), b)
    decreases |a|
  {
    if a == "" {
      assert a + b == b;
    } else {
      RunSplits(m.Step(a[0]), a[1..], b);
      assert (a + b)[1..] == a[1..] + b;
    }
  }

  ghost predicate OnlyOpeners(openers: seq<char>) { forall c :: c in openers ==> IsOpener(c) }

  lemma {:induction false} RunKeepsOpeners(m: Machine, text: string)
    requires OnlyOpeners(m.openers)
    ensures OnlyOpeners(Run(m, text).openers)
    decreases |text|
  {
    if text != "" { RunKeepsOpeners(m.Step(text[0]), text[1..]); }
  }

  lemma {:induction false} ClosersLength(openers: seq<char>)
    requires OnlyOpeners(openers)
    ensures |Closers(openers)| == |openers|
    ensures forall c :: c in Closers(openers) ==> IsCloser(c)
  {
    if openers != [] {
      assert IsOpener(openers[|openers| - 1]);
      ClosersLength(openers[..|openers| - 1]);
    }
  }

  /** In code, the closers of the stack empty it. */
  lemma {:induction false} ClosersClose(m: Machine)
    requires m.State() == Code && OnlyOpeners(m.openers)
    ensures Same(Run(m, Closers(m.openers)), START)
    decreases |m.openers|
  {
    if m.openers != [] {
      var rest := m.openers[..|m.openers| - 1];
      var text := Closers(m.openers);
      assert IsOpener(m.openers[|m.openers| - 1]);
      assert text[1..] == Closers(rest);
      assert m.Step(text[0]) == Machine(InCode, rest);
      ClosersClose(Machine(InCode, rest));
    }
  }

  /** In a string or a line comment, closers change nothing. */
  lemma {:induction false} ClosersIgnored(m: Machine, text: string)
    requires m.mode == InString || m.mode == InLine
    requires forall c :: c in text ==> IsCloser(c)
    ensures Run(m, text) == m
    decreases |text|
  {
    if text != "" {
      assert text[0] in text;
      ClosersIgnored(m.Step(text[0]), text[1..]);
    }
  }

  /** The scan ends inside a line comment, or in a string right behind a backslash that escapes nothing yet. */
  ghost predicate Dangling(text: string) { Scanned(text).mode in {InLine, AfterBackslash} }

  ghost predicate Repaired(text: string, suffix: string) { Same(Scanned(text + suffix), START) }

  /** The suffix repairs a text exactly when the text does not dangle. */
  lemma SuffixRepairs(text: string)
    ensures Repaired(text, RecoverySuffix(text)) <==> !Dangling(text)
  {
    var m, s := Scanned(text), RecoverySuffix(text);
    RunSplits(START, text, s);
    RunKeepsOpeners(START, text);
    var closers := Closers(m.openers);
    ClosersLength(m.openers);
    match m.State() {
      case String =>
        assert s == "\"" + closers && s[1..] == closers;
        if m.mode == InString {
          ClosersClose(Machine(InCode, m.openers));
        } else {
          ClosersIgnored(Machine(InString, m.openers), closers);
        }
      case BlockComment =>
        assert s == "*/" + closers && s[1..] == "/" + closers && s[1..][1..] == closers;
        assert m.Step('*').Step('/') == Machine(InCode, m.openers);
        assert Run(m, s) == Run(m.Step('*').Step('/'), closers);
        ClosersClose(Machine(InCode, m.openers));
      case Code =>
        assert s == closers;
        ClosersClose(m);
      case LineComment =>
        assert s == closers;
        ClosersIgnored(m, closers);
    }
  }

  /** A repaired text needs no second repair; a text that dangles does, unless it is a comment with nothing open. */
  lemma SuffixSettles(text: string)
    ensures RecoverySuffix(text + RecoverySuffix(text)) == "" <==>
            !Dangling(text) || (Scanned(text).mode == InLine && Scanned(text).openers == [])
  {
    var m, s := Scanned(text), RecoverySuffix(text);
    SuffixRepairs(text);
    RunSplits(START, text, s);
    RunKeepsOpeners(START, text);
    ClosersLength(m.openers);
    if m.mode == InLine {
      assert s == Closers(m.openers);
      ClosersIgnored(m, s);
    } else if m.mode == AfterBackslash {
      assert s[1..] == Closers(m.openers);
      ClosersIgnored(Machine(InString, m.openers), s[1..]);
    }
  }

  lemma SuffixLength(text: string)
    ensures |RecoverySuffix(text)| == |Scanned(text).openers| +
            match Scanned(text).State() case String => 1 case BlockComment => 2 case _ => 0
  {
    RunKeepsOpeners(START, text);
    ClosersLength(Scanned(text).openers);
  }

  // No shorter suffix would do.

  /** The least number of characters that can still close everything. */
  ghost function Needed(m: Machine): nat {
    |m.openers| + match m.mode
      case InCode => 0
      case AfterSlash => 0
      case InString => 1
      case AfterBackslash => 2
      case InLine => 1
      case InBlock => 2
      case AfterStar => 1
  }

  lemma {:induction false} RunNeeds(m: Machine, text: string)
    ensures Needed(m) <= |text| + Needed(Run(m, text))
    decreases |text|
  {
    if text != "" {
      RunNeeds(m.Step(text[0]), text[1..]);
      assert Needed(m) <= 1 + Needed(m.Step(text[0]));
    }
  }

  /**
   For a text that does not dangle the suffix is a shortest repair, except that a block comment ending in a
   star costs one character more than necessary.
   */
  lemma SuffixMinimal(text: string, other: string)
    requires !Dangling(text) && Repaired(text, other)
    ensures |RecoverySuffix(text)| <= |other| + if Scanned(text).mode == AfterStar then 1 else 0
  {
    RunSplits(START, text, other);
    RunNeeds(Scanned(text), other);
    SuffixLength(text);
  }

  /** The extra character is really one too many. */
  lemma StarWastesOne(text: string)
    requires Scanned(text).mode == AfterStar
    ensures |RecoverySuffix(text)| > 0 && Repaired(text, RecoverySuffix(text)[1..])
  {
    var m, s := Scanned(text), RecoverySuffix(text);
    var closers := Closers(m.openers);
    assert s == "*/" + closers && s[1..] == "/" + closers && s[1..][1..] == closers;
    RunSplits(START, text, s[1..]);
    RunKeepsOpeners(START, text);
    assert Run(m, s[1..]) == Run(m.Step('/'), closers);
    ClosersClose(Machine(InCode, m.openers));
  }
}
