/**
 Line and column positions of a text: the walk over characters, the search for newlines, and edits of a range.
 Lines and characters count from 0 here; `OffsetFromLineColumn` counts both from 1.
 */
module TextPositions {
  import opened Wrappers

  datatype Position = Position(line: int, character: int)

  datatype Range = Range(start: Position, end: Position)

  /** Where a position ends up after walking over `text`. */
  function Advance(p: Position, text: string): Position {
    if text == "" then p
    else
      var before, c := Advance(p, text[..|text| - 1]), text[|text| - 1];
      if c == '\n' then Position(before.line + 1, 0) else Position(before.line, before.character + 1)
  }

  /** The position of an offset. */
  function PositionOf(text: string, offset: nat): Position
    requires offset <= |text|
  {
    Advance(Position(0, 0), text[..offset])
  }

  lemma PositionStep(text: string, offset: nat)
    requires offset < |text|
    ensures
      var before := PositionOf(text, offset);
      PositionOf(text, offset + 1) == if text[offset] == '\n' then Position(before.line + 1, 0)
                                      else Position(before.line, before.character + 1)
  {
    assert text[..offset + 1][..offset] == text[..offset];
  }

  ghost predicate Less(p: Position, q: Position) {
    p.line < q.line || (p.line == q.line && p.character < q.character)
  }

  /** Positions grow strictly with offsets, in (line, character) order. */
  lemma {:induction false} PositionsIncrease(text: string, a: nat, b: nat)
    requires a < b <= |text|
    ensures Less(PositionOf(text, a), PositionOf(text, b))
    ensures PositionOf(text, a).line >= 0 && PositionOf(text, a).character >= 0
    decreases b
  {
    PositionStep(text, b - 1);
    if a < b - 1 { PositionsIncrease(text, a, b - 1); }
    if a > 0 { PositionsIncrease(text, 0, a); PositionStep(text, a - 1); }
    PositionNatural(text, a);
  }

  lemma {:induction false} PositionNatural(text: string, offset: nat)
    requires offset <= |text|
    ensures PositionOf(text, offset).line >= 0 && 0 <= PositionOf(text, offset).character <= offset
    decreases offset
  {
    if offset > 0 {
      PositionStep(text, offset - 1);
      PositionNatural(text, offset - 1);
    }
  }

  // The search for newlines.

  function FindNewline(text: string, from: nat): (r: Option<nat>)
    requires from <= |text|
    ensures r.Some? ==> from <= r.value < |text| && text[r.value] == '\n' && '\n' !in text[from..r.value]
    ensures r.None? ==> '\n' !in text[from..]
    decreases |text| - from
  {
    if from == |text| then None
    else if text[from] == '\n' then Some(from)
    else FindNewline(text, from + 1)
  }

  /** The start of the n-th line after the one starting at `from`. */
  function LineStart(text: string, from: nat, n: nat): (r: Option<nat>)
    requires from <= |text|
    ensures r.Some? ==> r.value <= |text|
    decreases n
  {
    if n == 0 then Some(from)
    else match FindNewline(text, from)
      case None => None
      case Some(nl) => LineStart(text, nl + 1, n - 1)
  }

  function LineEnd(text: string, from: nat): nat
    requires from <= |text|
  {
    match FindNewline(text, from) case None => |text| case Some(nl) => nl
  }

  function PositionToOffset(text: string, p: Position): Option<nat> {
    if p.line < 0 || p.character < 0 then None
    else match LineStart(text, 0, p.line)
      case None => None
      case Some(start) => if p.character > LineEnd(text, start) - start then None else Some(start + p.character)
  }

  method LspPositionToOffset(text: string, p: Position) returns (r: Option<nat>)
    ensures r == PositionToOffset(text, p)
  {
    if p.line < 0 || p.character < 0 { return None; }
    var offset: nat, currentLine: nat := 0, 0;
    while currentLine < p.line
      invariant 0 <= currentLine <= p.line && offset <= |text|
      invariant LineStart(text, offset, p.line - currentLine) == LineStart(text, 0, p.line)
    {
      var nl := FindNewline(text, offset);
      if nl.None? { return None; }
      offset := nl.value + 1;
      currentLine := currentLine + 1;
    }
    var nl := FindNewline(text, offset);
    var lineEnd := if nl.None? then |text| else nl.value;
    if p.character > lineEnd - offset { return None; }
    return Some(offset + p.character);
  }

  // The two agree, and both invert `PositionOf`.

  lemma {:induction false} AlongLine(text: string, start: nat, offset: nat)
    requires start <= offset <= |text| && '\n' !in text[start..offset]
    ensures PositionOf(text, offset)
            == Position(PositionOf(text, start).line, PositionOf(text, start).character + (offset - start))
    decreases offset
  {
    if start < offset {
      assert text[start..offset][offset - 1 - start] == text[offset - 1];
      assert text[start..offset] == text[start..offset - 1] + [text[offset - 1]];
      AlongLine(text, start, offset - 1);
      PositionStep(text, offset - 1);
    }
  }

  lemma {:induction false} LineStartPosition(text: string, from: nat, n: nat)
    requires from <= |text| && PositionOf(text, from).character == 0
    ensures LineStart(text, from, n).Some? ==>
              PositionOf(text, LineStart(text, from, n).value) == Position(PositionOf(text, from).line + n, 0)
    decreases n
  {
    if n > 0 && FindNewline(text, from).Some? {
      var nl := FindNewline(text, from).value;
      AlongLine(text, from, nl);
      PositionStep(text, nl);
      LineStartPosition(text, nl + 1, n - 1);
    }
  }

  lemma WithinLine(text: string, start: nat, offset: nat, end: nat)
    requires start <= offset <= end <= |text| && '\n' !in text[start..end]
    ensures '\n' !in text[start..offset]
  {
    assert text[start..offset] == text[start..end][..offset - start];
  }

  lemma LineEndClear(text: string, start: nat)
    requires start <= |text|
    ensures start <= LineEnd(text, start) <= |text| && '\n' !in text[start..LineEnd(text, start)]
  {
    assert text[start..|text|] == text[start..];
  }

  lemma PositionToOffsetSound(text: string, p: Position)
    requires PositionToOffset(text, p).Some?
    ensures PositionToOffset(text, p).value <= |text|
    ensures PositionOf(text, PositionToOffset(text, p).value) == p
  {
    LineStartPosition(text, 0, p.line);
    var start := LineStart(text, 0, p.line).value;
    var end := LineEnd(text, start);
    LineEndClear(text, start);
    WithinLine(text, start, start + p.character, end);
    AlongLine(text, start, start + p.character);
  }

  lemma ClearExtends(text: string, start: nat, end: nat)
    requires start <= end < |text| && '\n' !in text[start..end] && text[end] != '\n'
    ensures '\n' !in text[start..end + 1]
  {
    assert text[start..end + 1] == text[start..end] + [text[end]];
  }

  /** The line of an offset starts `character` before it, with no newline in between. */
  lemma {:induction false} StartOfLine(text: string, offset: nat)
    requires offset <= |text|
    ensures
      var p := PositionOf(text, offset);
      && 0 <= p.character <= offset && 0 <= p.line
      && PositionOf(text, offset - p.character) == Position(p.line, 0)
      && '\n' !in text[offset - p.character..offset]
      && (p.line > 0 ==> offset - p.character > 0 && text[offset - p.character - 1] == '\n')
      && (p.line == 0 ==> offset == p.character)
    decreases offset
  {
    PositionNatural(text, offset);
    if offset > 0 {
      StartOfLine(text, offset - 1);
      PositionStep(text, offset - 1);
      var start := offset - PositionOf(text, offset).character;
      if text[offset - 1] != '\n' {
        ClearExtends(text, start, offset - 1);
      }
    }
  }

  lemma {:induction false} NextLineStart(text: string, from: nat, n: nat)
    requires from <= |text| && LineStart(text, from, n).Some?
    ensures LineStart(text, from, n + 1) ==
            match FindNewline(text, LineStart(text, from, n).value) case None => None case Some(nl) => Some(nl + 1)
    decreases n
  {
    if n > 0 { NextLineStart(text, FindNewline(text, from).value + 1, n - 1); }
  }

  lemma PreviousLine(text: string, start: nat) returns (previous: nat)
    requires start <= |text| && PositionOf(text, start).character == 0 && PositionOf(text, start).line > 0
    ensures previous < start && PositionOf(text, previous) == Position(PositionOf(text, start).line - 1, 0)
    ensures FindNewline(text, previous) == Some(start - 1)
  {
    StartOfLine(text, start);
    PositionStep(text, start - 1);
    StartOfLine(text, start - 1);
    previous := start - 1 - PositionOf(text, start - 1).character;
    LineEndBeyond(text, previous, start - 1);
  }

  lemma {:induction false} LineStartFound(text: string, start: nat)
    requires start <= |text| && PositionOf(text, start).character == 0
    ensures PositionOf(text, start).line >= 0
    ensures LineStart(text, 0, PositionOf(text, start).line) == Some(start)
    decreases start
  {
    StartOfLine(text, start);
    var line := PositionOf(text, start).line;
    if line > 0 {
      var previous := PreviousLine(text, start);
      LineStartFound(text, previous);
      NextLineStart(text, 0, line - 1);
    }
  }

  lemma {:induction false} LineEndBeyond(text: string, from: nat, offset: nat)
    requires from <= offset <= |text| && '\n' !in text[from..offset]
    ensures offset <= LineEnd(text, from)
    ensures offset < |text| && text[offset] == '\n' ==> FindNewline(text, from) == Some(offset)
    decreases offset - from
  {
    if from < offset {
      assert text[from..offset][0] == text[from];
      assert text[from + 1..offset] == text[from..offset][1..];
      LineEndBeyond(text, from + 1, offset);
    }
  }

  lemma PositionToOffsetComplete(text: string, offset: nat)
    requires offset <= |text|
    ensures PositionToOffset(text, PositionOf(text, offset)) == Some(offset)
  {
    StartOfLine(text, offset);
    var p := PositionOf(text, offset);
    var start := offset - p.character;
    LineStartFound(text, start);
    LineEndBeyond(text, start, offset);
  }

  /** A position has an offset exactly when it is the position of that offset: a bijection with 0..|text|. */
  lemma PositionToOffsetInverse(text: string, p: Position, offset: nat)
    ensures PositionToOffset(text, p) == Some(offset) <==> offset <= |text| && PositionOf(text, offset) == p
  {
    if PositionToOffset(text, p).Some? { PositionToOffsetSound(text, p); }
    if offset <= |text| { PositionToOffsetComplete(text, offset); }
  }

  // The walk over characters finds the same offsets, for every text, line and column.

  method OffsetFromLineColumn(text: string, line: int, column: int) returns (r: Option<nat>)
    ensures r == PositionToOffset(text, Position(line - 1, column - 1))
  {
    if line <= 0 || column <= 0 { return None; }
    ghost var wanted := PositionToOffset(text, Position(line - 1, column - 1));
    if wanted.Some? { PositionToOffsetInverse(text, Position(line - 1, column - 1), wanted.value); }
    var curLine, curCol := 1, 1;
    for i := 0 to |text|
      invariant PositionOf(text, i) == Position(curLine - 1, curCol - 1)
      invariant wanted.Some? ==> i <= wanted.value
    {
      PositionToOffsetInverse(text, Position(line - 1, column - 1), i);
      if curLine == line && curCol == column { return Some(i); }
      PositionStep(text, i);
      if text[i] == '\n' {
        curLine, curCol := curLine + 1, 1;
      } else {
        curCol := curCol + 1;
      }
    }
    PositionToOffsetInverse(text, Position(line - 1, column - 1), |text|);
    if curLine == line && curCol == column { return Some(|text|); }
    return None;
  }

  // Edits.

  datatype Change = Change(text: string, range: Option<Range>)

  function ApplyChange(text: string, change: Change): Option<string> {
    match change.range
    case None => Some(change.text)
    case Some(range) =>
      var start, end := PositionToOffset(text, range.start), PositionToOffset(text, range.end);
      if start.None? || end.None? || start.value > end.value || end.value > |text| then None
      else Some(text[..start.value] + change.text + text[end.value..])
  }

  method ApplyChangeToText(text: string, change: Change) returns (r: Option<string>)
    ensures r == ApplyChange(text, change)
  {
    if change.range.None? { return Some(change.text); }
    var start := LspPositionToOffset(text, change.range.value.start);
    var end := LspPositionToOffset(text, change.range.value.end);
    if start.None? || end.None? || start.value > end.value || end.value > |text| { return None; }
    return Some(text[..start.value] + change.text + text[end.value..]);
  }

  lemma {:induction false} AdvanceSplits(p: Position, a: string, b: string)
    ensures Advance(p, a + b) == Advance(Advance(p, a), b)
    decreases |b|
  {
    if b == "" {
      assert a + b == a;
    } else {
      var front := b[..|b| - 1];
      assert (a + b)[..|a + b| - 1] == a + front;
      AdvanceSplits(p, a, front);
    }
  }

  /** Whether a ranged edit is accepted: both ends exist and are in order. */
  lemma EditAccepted(text: string, change: Change)
    requires change.range.Some?
    ensures ApplyChange(text, change).Some? <==>
              exists a: nat, b: nat :: a <= b <= |text| && PositionOf(text, a) == change.range.value.start
                                       && PositionOf(text, b) == change.range.value.end
  {
    var range := change.range.value;
    var start, end := PositionToOffset(text, range.start), PositionToOffset(text, range.end);
    if ApplyChange(text, change).Some? {
      PositionToOffsetSound(text, range.start);
      PositionToOffsetSound(text, range.end);
    }
    if a: nat, b: nat :| a <= b <= |text| && PositionOf(text, a) == range.start && PositionOf(text, b) == range.end {
      PositionToOffsetComplete(text, a);
      PositionToOffsetComplete(text, b);
    }
  }

  lemma PutBack(text: string, a: nat, b: nat, inserted: string)
    requires a <= b <= |text|
    ensures
      var edited, e := text[..a] + inserted + text[b..], a + |inserted|;
      && e <= |edited| && edited[..a] == text[..a] && edited[..e] == text[..a] + inserted
      && edited[..a] + text[a..b] + edited[e..] == text
  {
    var edited := text[..a] + inserted + text[b..];
    assert edited[a + |inserted|..] == text[b..];
    assert text[..a] + text[a..b] == text[..b];
  }

  /** Every accepted ranged edit is undone by putting the removed slice back over the inserted text. */
  lemma EditUndone(text: string, change: Change)
    requires change.range.Some? && ApplyChange(text, change).Some?
    ensures
      var range, edited := change.range.value, ApplyChange(text, change).value;
      var removed := text[PositionToOffset(text, range.start).value..PositionToOffset(text, range.end).value];
      var undo := Change(removed, Some(Range(range.start, Advance(range.start, change.text))));
      ApplyChange(edited, undo) == Some(text)
  {
    var range, edited := change.range.value, ApplyChange(text, change).value;
    var a, b := PositionToOffset(text, range.start).value, PositionToOffset(text, range.end).value;
    var e := a + |change.text|;
    PositionToOffsetSound(text, range.start);
    PutBack(text, a, b, change.text);
    AdvanceSplits(Position(0, 0), text[..a], change.text);
    assert PositionOf(edited, a) == range.start && PositionOf(edited, e) == Advance(range.start, change.text);
    PositionToOffsetComplete(edited, a);
    PositionToOffsetComplete(edited, e);
  }
}
