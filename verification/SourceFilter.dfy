/**
 The conditional-region filter run before parsing: lines between `[tag]` and `[/tag]` are blanked unless every
 open tag matches the target. A stack of booleans in the code, a stack of tags in the specification.
 */
module SourceFilter {
  import opened Wrappers

  /** What the build knows about the machine it runs on. */
  datatype Host = Host(platform: string, arch: string, posix: bool)

  predicate IsSpace(c: char) { c == ' ' || '\t' <= c <= '\r' }

  function LowerChar(c: char): char {
    if 'A' <= c <= 'Z' then (c as int + 32) as char else c
  }

  function Lower(s: string): string { seq(|s|, i requires 0 <= i < |s| => LowerChar(s[i])) }

  function NormalizeArch(arch: string): string {
    var s := Lower(arch);
    if s in {"x86_64", "amd64", "x64", "x86-64"} then "x86-64"
    else if s in {"aarch64", "arm64"} then "aarch64"
    else if s in {"x86", "i386", "i686"} then "x86"
    else s
  }

  predicate TagMatches(tag: string, targetArch: string, host: Host) {
    var arch := if NormalizeArch(targetArch) == "" then host.arch else NormalizeArch(targetArch);
    if tag == "x86-64" then arch == "x86-64"
    else if tag == "aarch64" then arch == "aarch64"
    else if tag == "windows" then host.platform == "windows"
    else if tag == "linux" then host.platform == "linux"
    else if tag == "macos" then host.platform == "macos"
    else if tag == "posix" then host.posix
    else false
  }

  // Tag lines.

  datatype Tag = Tag(closing: bool, name: string)

  const REGION_NAMES := {"x86-64", "aarch64", "windows", "posix", "linux", "macos"}

  function TrimLeft(s: string): string {
    if s != "" && IsSpace(s[0]) then TrimLeft(s[1..]) else s
  }

  function TrimRight(s: string): string {
    if s != "" && IsSpace(s[|s| - 1]) then TrimRight(s[..|s| - 1]) else s
  }

  function RegionTag(trimmed: string): Option<Tag> {
    if |trimmed| < 3 || trimmed[0] != '[' || trimmed[|trimmed| - 1] != ']' then None
    else
      var inside := trimmed[1..|trimmed| - 1];
      var closing := inside[0] == '/';
      var name := if closing then inside[1..] else inside;
      if name != "" && NormalizeArch(name) in REGION_NAMES then Some(Tag(closing, NormalizeArch(name))) else None
  }

  function LineTag(line: string): Option<Tag> { RegionTag(TrimRight(TrimLeft(line))) }

  // The specification, line by line.

  /** The text up to the first newline, and the position of that newline or the end. */
  function LineLength(text: string): (n: nat)
    ensures n <= |text| && '\n' !in text[..n] && (n < |text| ==> text[n] == '\n')
  {
    if text == "" || text[0] == '\n' then 0
    else
      var n := LineLength(text[1..]);
      assert text[..n + 1] == [text[0]] + text[1..][..n];
      n + 1
  }

  function Split(text: string): (lines: seq<string>)
    ensures lines != []
  {
    var n := LineLength(text);
    if n == |text| then [text] else [text[..n]] + Split(text[n + 1..])
  }

  function Join(lines: seq<string>): string {
    if lines == [] then ""
    else if |lines| == 1 then lines[0]
    else lines[0] + "\n" + Join(lines[1..])
  }

  /** How lines are read: which lines are tags, and which tags match the target. */
  datatype Rules = Rules(tagOf: string -> Option<Tag>, matches: string -> bool)

  function RegionRules(targetArch: string, host: Host): Rules {
    Rules(LineTag, tag => TagMatches(tag, targetArch, host))
  }

  /** The open tags behind a line: a closing tag closes the innermost region whatever its name. */
  function TagsAfter(rules: Rules, tags: seq<string>, line: string): seq<string> {
    match rules.tagOf(line) case None => tags case Some(tag) => TagsBehind(tags, tag)
  }

  function TagsBehind(tags: seq<string>, tag: Tag): seq<string> {
    if !tag.closing then tags + [tag.name] else if tags == [] then [] else tags[..|tags| - 1]
  }

  predicate AllMatch(tags: seq<string>, rules: Rules) {
    forall tag | tag in tags :: rules.matches(tag)
  }

  function FilterLine(tags: seq<string>, line: string, rules: Rules): string {
    if rules.tagOf(line).None? && AllMatch(tags, rules) then line else ""
  }

  function FilterText(text: string, tags: seq<string>, rules: Rules): string
    decreases |text|
  {
    var n := LineLength(text);
    var kept := FilterLine(tags, text[..n], rules);
    if n == |text| then kept
    else kept + "\n" + FilterText(text[n + 1..], TagsAfter(rules, tags, text[..n]), rules)
  }

  function Preprocess(text: string, targetArch: string, host: Host): string {
    FilterText(text, [], RegionRules(targetArch, host))
  }

  // The loop.

  /** The boolean stack that stands for a stack of tags: one entry for no tag, then one for each prefix. */
  ghost predicate Refines(active: seq<bool>, tags: seq<string>, rules: Rules) {
    && |active| == |tags| + 1
    && forall k :: 0 <= k <= |tags| ==> (active[k] <==> AllMatch(tags[..k], rules))
  }

  /** What is still to come after the first line of `rest`. */
  ghost function Todo(rest: string, tags: seq<string>, rules: Rules): string {
    var n := LineLength(rest);
    if n == |rest| then "" else FilterText(rest[n + 1..], TagsAfter(rules, tags, rest[..n]), rules)
  }

  /** One line of the filter: what is printed and what is still to come make up the same text. */
  lemma FilterStep(whole: string, output: string, todo: string, rest: string, tags: seq<string>, rules: Rules)
    requires todo == FilterText(rest, tags, rules) && output + todo == whole
    ensures
      var n := LineLength(rest);
      var kept, after := output + FilterLine(tags, rest[..n], rules), TagsAfter(rules, tags, rest[..n]);
      if n == |rest| then whole == kept && FilterText("", after, rules) == ""
      else whole == kept + "\n" + Todo(rest, tags, rules)
  {
    var n := LineLength(rest);
    if n < |rest| { Regroup(output, FilterLine(tags, rest[..n], rules), "\n", Todo(rest, tags, rules)); }
  }

  lemma Regroup(a: string, b: string, c: string, d: string)
    ensures a + (b + c + d) == a + b + c + d
  {
  }

  lemma DropDrop(text: string, pos: nat, n: nat)
    requires pos + n <= |text|
    ensures text[pos..][..n] == text[pos..pos + n]
    ensures pos + n < |text| ==> text[pos..][n + 1..] == text[pos + n + 1..]
  {
  }

  method PreprocessConditionalRegions(text: string, targetArch: string, host: Host) returns (output: string)
    ensures output == Preprocess(text, targetArch, host)
  {
    output := FilterRegions(text, RegionRules(targetArch, host));
  }

  method FilterRegions(text: string, rules: Rules) returns (output: string)
    ensures output == FilterText(text, [], rules)
  {
    output := "";
    var activeStack := [true];
    ghost var tags: seq<string> := [];
    ghost var whole := FilterText(text, [], rules);
    ghost var todo, rest := whole, text;
    var pos := 0;
    while pos < |text|
      invariant pos <= |text| && rest == text[pos..]
      invariant Refines(activeStack, tags, rules)
      invariant todo == FilterText(rest, tags, rules)
      invariant output + todo == whole
    {
      var n := LineLength(text[pos..]);
      var lineEnd := pos + n;
      var hasNewline := lineEnd < |text|;
      var line := text[pos..lineEnd];
      FilterStep(whole, output, todo, rest, tags, rules);
      DropDrop(text, pos, n);
      todo := Todo(rest, tags, rules);
      output, activeStack := ProcessLine(output, activeStack, tags, line, rules);
      tags := TagsAfter(rules, tags, line);
      if hasNewline {
        rest := rest[n + 1..];
        output := output + "\n";
        pos := lineEnd + 1;
      } else {
        rest := "";
        pos := lineEnd;
      }
    }
  }

  /** A tag line moves the stack and prints nothing; any other line is printed when everything around it is active. */
  method ProcessLine(given: string, stack: seq<bool>, ghost tags: seq<string>, line: string, rules: Rules)
    returns (output: string, activeStack: seq<bool>)
    requires Refines(stack, tags, rules)
    ensures output == given + FilterLine(tags, line, rules)
    ensures Refines(activeStack, TagsAfter(rules, tags, line), rules)
  {
    output, activeStack := given, stack;
    TopOfStack(activeStack, tags, rules);
    var tag := rules.tagOf(line);
    if tag.Some? {
      activeStack := UpdateStack(activeStack, tags, tag.value, rules);
    } else if activeStack[|activeStack| - 1] {
      output := output + line;
    }
  }

  method UpdateStack(given: seq<bool>, ghost tags: seq<string>, tag: Tag, rules: Rules)
    returns (activeStack: seq<bool>)
    requires Refines(given, tags, rules)
    ensures Refines(activeStack, TagsBehind(tags, tag), rules)
  {
    activeStack := given;
    if tag.closing {
      if |activeStack| > 1 {
        PopRefines(activeStack, tags, rules);
        activeStack := activeStack[..|activeStack| - 1];
      }
    } else {
      var parentActive := activeStack[|activeStack| - 1];
      PushRefines(activeStack, tags, tag.name, rules);
      activeStack := activeStack + [parentActive && rules.matches(tag.name)];
    }
  }

  lemma TopOfStack(active: seq<bool>, tags: seq<string>, rules: Rules)
    requires Refines(active, tags, rules)
    ensures active[|active| - 1] <==> AllMatch(tags, rules)
  {
    assert tags[..|tags|] == tags;
  }

  lemma PopRefines(active: seq<bool>, tags: seq<string>, rules: Rules)
    requires Refines(active, tags, rules) && tags != []
    ensures Refines(active[..|active| - 1], tags[..|tags| - 1], rules)
  {
    forall k | 0 <= k <= |tags| - 1
      ensures active[k] <==> AllMatch(tags[..|tags| - 1][..k], rules)
    {
      assert tags[..|tags| - 1][..k] == tags[..k];
    }
  }

  lemma PushRefines(active: seq<bool>, tags: seq<string>, name: string, rules: Rules)
    requires Refines(active, tags, rules)
    ensures Refines(active + [active[|active| - 1] && rules.matches(name)], tags + [name], rules)
  {
    var more := tags + [name];
    assert tags[..|tags|] == tags && more[..|more|] == more;
    forall k | 0 <= k <= |tags|
      ensures active[k] <==> AllMatch(more[..k], rules)
    {
      assert more[..k] == tags[..k];
    }
  }

  // What the filter does to the lines of a text.

  /** The tags open at line `k`. */
  ghost function OpenTags(rules: Rules, lines: seq<string>, k: nat): seq<string>
    requires k <= |lines|
  {
    if k == 0 then [] else TagsAfter(rules, OpenTags(rules, lines, k - 1), lines[k - 1])
  }

  ghost function FilterLines(lines: seq<string>, tags: seq<string>, rules: Rules): (r: seq<string>)
    ensures |r| == |lines|
  {
    if lines == [] then []
    else [FilterLine(tags, lines[0], rules)]
         + FilterLines(lines[1..], TagsAfter(rules, tags, lines[0]), rules)
  }

  lemma {:induction false} LineLengthIs(text: string, n: nat)
    requires n <= |text| && '\n' !in text[..n] && (n < |text| ==> text[n] == '\n')
    ensures LineLength(text) == n
  {
    if n > 0 {
      assert text[..n][0] == text[0] && text[1..][..n - 1] == text[..n][1..];
      LineLengthIs(text[1..], n - 1);
    }
  }

  lemma SplitJoin(line: string, text: string)
    requires '\n' !in line
    ensures Split(line + "\n" + text) == [line] + Split(text)
    ensures Split(line) == [line]
  {
    var all := line + "\n" + text;
    assert all[..|line|] == line && all[|line| + 1..] == text && line[..|line|] == line;
    LineLengthIs(all, |line|);
    LineLengthIs(line, |line|);
  }

  /** Filtering a text filters its lines, one for one. */
  lemma {:induction false} FilterSplits(text: string, tags: seq<string>, rules: Rules)
    ensures Split(FilterText(text, tags, rules)) == FilterLines(Split(text), tags, rules)
    decreases |text|
  {
    var n := LineLength(text);
    var line := text[..n];
    var kept := FilterLine(tags, line, rules);
    if n == |text| {
      assert line == text;
      SplitJoin(kept, "");
    } else {
      var rest := text[n + 1..];
      FilterSplits(rest, TagsAfter(rules, tags, line), rules);
      SplitJoin(kept, FilterText(rest, TagsAfter(rules, tags, line), rules));
      assert Split(text) == [line] + Split(rest);
      assert Split(text)[1..] == Split(rest);
    }
  }

  lemma {:induction false} FilterLinesAt(
    lines: seq<string>, from: nat, k: nat, rules: Rules)
    requires from <= k < |lines|
    ensures FilterLines(lines[from..], OpenTags(rules, lines, from), rules)[k - from]
            == FilterLine(OpenTags(rules, lines, k), lines[k], rules)
    decreases k - from
  {
    assert lines[from..][1..] == lines[from + 1..];
    if from < k { FilterLinesAt(lines, from + 1, k, rules); }
  }

  lemma FilteredLine(lines: seq<string>, k: nat, rules: Rules)
    requires k < |lines|
    ensures FilterLines(lines, [], rules)[k] == FilterLine(OpenTags(rules, lines, k), lines[k], rules)
  {
    assert lines[0..] == lines;
    FilterLinesAt(lines, 0, k, rules);
  }

  lemma FilteredLines(text: string, rules: Rules)
    ensures
      var lines, output := Split(text), Split(FilterText(text, [], rules));
      && |output| == |lines|
      && forall k :: 0 <= k < |lines| ==> output[k] == FilterLine(OpenTags(rules, lines, k), lines[k], rules)
  {
    var lines := Split(text);
    FilterSplits(text, [], rules);
    forall k | 0 <= k < |lines|
      ensures FilterLines(lines, [], rules)[k] == FilterLine(OpenTags(rules, lines, k), lines[k], rules)
    {
      FilteredLine(lines, k, rules);
    }
  }

  /**
   Line by line: the filter keeps the number of lines; a line comes out as it was when it is no tag and every
   tag open around it matches the target, and comes out empty otherwise.
   */
  lemma PreprocessLines(text: string, targetArch: string, host: Host)
    ensures
      var lines, output := Split(text), Split(Preprocess(text, targetArch, host));
      && |output| == |lines|
      && forall k :: 0 <= k < |lines| ==>
           output[k] == if LineTag(lines[k]).None?
                           && (forall tag :: tag in OpenTags(RegionRules(targetArch, host), lines, k) ==>
                                               TagMatches(tag, targetArch, host))
                        then lines[k] else ""
  {
    FilteredLines(text, RegionRules(targetArch, host));
  }

  ghost function Newlines(text: string): nat {
    if text == "" then 0 else (if text[0] == '\n' then 1 else 0) + Newlines(text[1..])
  }

  lemma {:induction false} NewlinesAre(text: string)
    ensures |Split(text)| == Newlines(text) + 1
    decreases |text|
  {
    var n := LineLength(text);
    NewlinesSkip(text, n);
    if n < |text| { NewlinesAre(text[n + 1..]); }
  }

  lemma {:induction false} NewlinesSkip(text: string, n: nat)
    requires n <= |text| && '\n' !in text[..n]
    ensures Newlines(text) == Newlines(text[n..])
  {
    if n == 0 {
      assert text[0..] == text;
    } else {
      assert text[..n][0] == text[0] && text[1..][..n - 1] == text[..n][1..] && text[1..][n - 1..] == text[n..];
      NewlinesSkip(text[1..], n - 1);
    }
  }

  /** The number of newlines is kept. */
  lemma NewlinesKept(text: string, targetArch: string, host: Host)
    ensures Newlines(Preprocess(text, targetArch, host)) == Newlines(text)
  {
    FilteredLines(text, RegionRules(targetArch, host));
    NewlinesAre(text);
    NewlinesAre(Preprocess(text, targetArch, host));
  }

  lemma JoinFirst(line: string, lines: seq<string>)
    requires lines != []
    ensures Join([line] + lines) == line + "\n" + Join(lines)
  {
    assert ([line] + lines)[1..] == lines;
  }

  lemma CutAtNewline(text: string, n: nat)
    requires n < |text| && text[n] == '\n'
    ensures text[..n] + "\n" + text[n + 1..] == text
  {
  }

  lemma {:induction false} SplitJoins(text: string)
    ensures Join(Split(text)) == text
    decreases |text|
  {
    var n := LineLength(text);
    if n < |text| {
      SplitJoins(text[n + 1..]);
      JoinFirst(text[..n], Split(text[n + 1..]));
      CutAtNewline(text, n);
    }
  }

  lemma {:induction false} NoTagsNothingChanges(lines: seq<string>, rules: Rules)
    requires forall k :: 0 <= k < |lines| ==> rules.tagOf(lines[k]).None?
    ensures FilterLines(lines, [], rules) == lines
  {
    if lines != [] { NoTagsNothingChanges(lines[1..], rules); }
  }

  lemma FilteredAgain(text: string, rules: Rules, other: Rules)
    requires forall line :: rules.tagOf(line) == other.tagOf(line)
    requires rules.tagOf("").None?
    ensures FilterText(FilterText(text, [], rules), [], other) == FilterText(text, [], rules)
  {
    var output := FilterText(text, [], rules);
    FilteredLines(text, rules);
    NoTagsNothingChanges(Split(output), other);
    FilterSplits(output, [], other);
    SplitJoins(output);
    SplitJoins(FilterText(output, [], other));
  }

  /** The output holds no tag line, so filtering it again, for any target on any host, returns it unchanged. */
  lemma FilteredOnce(text: string, targetArch: string, host: Host, otherArch: string, otherHost: Host)
    ensures
      var output := Preprocess(text, targetArch, host);
      Preprocess(output, otherArch, otherHost) == output
  {
    FilteredAgain(text, RegionRules(targetArch, host), RegionRules(otherArch, otherHost));
  }
}
