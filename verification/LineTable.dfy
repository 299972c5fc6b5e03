/** Offsets, lines and columns of a text.
    `packages/html/src/parser/parse.ts` (line table), `packages/jsts/src/embedded/builder/patch.ts` (`computeLines`)
    and `packages/jsts/src/embedded/analysis/analyzer.ts` (issue filter). */
module LineTable {
  import opened Common

  /** UTF-16 code units, which is what JavaScript strings are indexed by. */
  newtype CodeUnit = x: int | 0 <= x < 0x10000

  type Text = seq<CodeUnit>

  const LF: CodeUnit := 10
  const CR: CodeUnit := 13
  const LINE_SEPARATOR: CodeUnit := 0x2028
  const PARAGRAPH_SEPARATOR: CodeUnit := 0x2029

  predicate IsSeparator(c: CodeUnit) { c == LINE_SEPARATOR || c == PARAGRAPH_SEPARATOR }

  /** A match of a line-ending pattern. */
  datatype Match = Match(index: nat, end: nat)

  /** The length of the match at `i`, or zero. The `wide` pattern also matches the two separators. */
  function EndingAt(text: Text, i: nat, wide: bool): nat
    requires i < |text|
  {
    if text[i] == CR then (if i + 1 < |text| && text[i + 1] == LF then 2 else 1)
    else if text[i] == LF || (wide && IsSeparator(text[i])) then 1
    else 0
  }

  /** `RegExp.exec` with `lastIndex`: the first match from there on. */
  function Exec(text: Text, lastIndex: nat, wide: bool): (m: Option<Match>)
    requires lastIndex <= |text|
    ensures m.Some? ==> lastIndex <= m.value.index < m.value.end <= |text|
    decreases |text| - lastIndex
  {
    if lastIndex == |text| then None
    else if EndingAt(text, lastIndex, wide) > 0 then Some(Match(lastIndex, lastIndex + EndingAt(text, lastIndex, wide)))
    else Exec(text, lastIndex + 1, wide)
  }

  predicate InText(text: Text, ms: seq<Match>) {
    forall i :: 0 <= i < |ms| ==> ms[i].index < ms[i].end <= |text|
  }

  /** All further matches. */
  function Endings(text: Text, lastIndex: nat, wide: bool): (ms: seq<Match>)
    requires lastIndex <= |text|
    ensures InText(text, ms)
    decreases |text| - lastIndex
  {
    match Exec(text, lastIndex, wide)
    case None => []
    case Some(m) => [m] + Endings(text, m.end, wide)
  }

  function Ends(ms: seq<Match>): seq<nat> {
    if ms == [] then [] else [ms[0].end] + Ends(ms[1..])
  }

  /** Offset `o` comes directly after a line terminator; the two halves of CR LF are not torn apart. */
  predicate AfterEnding(text: Text, o: nat) {
    && 0 < o <= |text|
    && (text[o - 1] == LF || (text[o - 1] == CR && !(o < |text| && text[o] == LF)))
  }

  predicate Increasing(s: seq<nat>) {
    forall i, j :: 0 <= i < j < |s| ==> s[i] < s[j]
  }

  lemma {:induction false} EndsAreAfterEndings(text: Text, lastIndex: nat, o: nat)
    requires lastIndex <= |text|
    requires lastIndex > 0 && text[lastIndex - 1] == CR ==> lastIndex == |text| || text[lastIndex] != LF
    ensures o in Ends(Endings(text, lastIndex, false)) <==> o > lastIndex && AfterEnding(text, o)
    decreases |text| - lastIndex
  {
    ExecSkips(text, lastIndex);
    match Exec(text, lastIndex, false) {
      case None =>
      case Some(m) =>
        EndsAreAfterEndings(text, m.end, o);
        assert Ends(Endings(text, lastIndex, false)) == [m.end] + Ends(Endings(text, m.end, false));
    }
  }

  lemma {:induction false} EndsIncrease(text: Text, lastIndex: nat)
    requires lastIndex <= |text|
    ensures Increasing([lastIndex] + Ends(Endings(text, lastIndex, false)))
    decreases |text| - lastIndex
  {
    match Exec(text, lastIndex, false) {
      case None =>
      case Some(m) =>
        EndsIncrease(text, m.end);
        PrependSmaller(lastIndex, [m.end] + Ends(Endings(text, m.end, false)));
    }
  }

  lemma PrependSmaller(x: nat, s: seq<nat>)
    requires s != [] && x < s[0] && Increasing(s)
    ensures Increasing([x] + s)
  {
    assert forall j :: 0 < j < |s| ==> s[0] < s[j];
  }

  /** Before the first match there is no terminator, hence no line start up to its end. */
  lemma {:induction false} ExecSkips(text: Text, lastIndex: nat)
    requires lastIndex <= |text|
    requires lastIndex > 0 && text[lastIndex - 1] == CR ==> lastIndex == |text| || text[lastIndex] != LF
    ensures var m := Exec(text, lastIndex, false);
            var stop := if m.Some? then m.value.end else |text| + 1;
            && (m.Some? ==> AfterEnding(text, stop) && (text[stop - 1] == CR ==> stop == |text| || text[stop] != LF))
            && forall o :: lastIndex < o < stop ==> !AfterEnding(text, o)
    decreases |text| - lastIndex
  {
    if lastIndex < |text| && EndingAt(text, lastIndex, false) == 0 {
      ExecSkips(text, lastIndex + 1);
    }
  }

  /** The line starts that `computeLineStarts` finds. */
  function LineStarts(text: Text): seq<nat> {
    [0] + Ends(Endings(text, 0, false))
  }

  method ComputeLineStarts(str: Text) returns (result: seq<nat>)
    ensures result == LineStarts(str)
    ensures result[0] == 0 && Increasing(result)
    ensures forall o :: o in result <==> o == 0 || AfterEnding(str, o)
  {
    result := [0];
    var lastIndex := 0;
    while true
      invariant lastIndex <= |str|
      invariant result + Ends(Endings(str, lastIndex, false)) == [0] + Ends(Endings(str, 0, false))
      decreases |str| - lastIndex
    {
      var found := Exec(str, lastIndex, false);
      if found.None? {
        break;
      }
      lastIndex := found.value.end;
      result := result + [lastIndex];
    }
    forall o: nat { EndsAreAfterEndings(str, 0, o); }
    EndsIncrease(str, 0);
  }

  /** A table of line starts, whoever computed it. */
  ghost predicate IsTable(starts: seq<nat>) {
    starts != [] && starts[0] == 0 && Increasing(starts)
  }

  /** Line `line` (counted from 1) is the one that holds `offset`. */
  ghost predicate OnLine(starts: seq<nat>, offset: nat, line: nat) {
    && 1 <= line <= |starts|
    && starts[line - 1] <= offset
    && (line < |starts| ==> offset < starts[line])
  }

  lemma LineIsUnique(starts: seq<nat>, offset: nat, a: nat, b: nat)
    requires IsTable(starts) && OnLine(starts, offset, a) && OnLine(starts, offset, b)
    ensures a == b
  {
    assert forall i, j :: 0 <= i <= j < |starts| ==> starts[i] <= starts[j];
  }

  method ComputeLine(offset: nat, fileLineStarts: seq<nat>) returns (line: nat)
    requires IsTable(fileLineStarts)
    ensures OnLine(fileLineStarts, offset, line)
  {
    line := 0;
    while line < |fileLineStarts|
      invariant line <= |fileLineStarts|
      invariant line > 0 ==> fileLineStarts[line - 1] <= offset
    {
      if fileLineStarts[line] > offset {
        break;
      }
      line := line + 1;
    }
  }

  /** Together with `ComputeLine` this is a round trip: the column leads from the line's start back to the offset. */
  method ComputeCol(offset: nat, fileLineStarts: seq<nat>) returns (col: nat)
    requires IsTable(fileLineStarts)
    ensures col >= 1
    ensures forall line :: OnLine(fileLineStarts, offset, line) ==> fileLineStarts[line - 1] + col - 1 == offset
  {
    var i := 0;
    while i < |fileLineStarts|
      invariant i <= |fileLineStarts|
      invariant i > 0 ==> fileLineStarts[i - 1] <= offset
    {
      if fileLineStarts[i] > offset {
        break;
      }
      i := i + 1;
    }
    forall line | OnLine(fileLineStarts, offset, line) ensures line == i {
      LineIsUnique(fileLineStarts, offset, line, i);
    }
    col := offset - fileLineStarts[i - 1] + 1;
  }

  /** Lines count from 1 and columns, as in ESTree positions, from 0. */
  datatype Position = Position(line: nat, column: nat)

  /** The position of an offset, for a given table. */
  ghost predicate IsLoc(starts: seq<nat>, offset: nat, p: Position) {
    OnLine(starts, offset, p.line) && starts[p.line - 1] + p.column == offset
  }

  function LineOf(starts: seq<nat>, offset: nat, i: nat): (line: nat)
    requires IsTable(starts) && 1 <= i <= |starts| && starts[i - 1] <= offset
    ensures OnLine(starts, offset, line)
    decreases |starts| - i
  {
    if i == |starts| || starts[i] > offset then i else LineOf(starts, offset, i + 1)
  }

  /** The position determined by a line table: the answer of ESLint's `getLocFromIndex` for offsets before the end. */
  function GetLocFromIndex(starts: seq<nat>, offset: nat): (p: Position)
    requires IsTable(starts)
    ensures IsLoc(starts, offset, p)
  {
    var line := LineOf(starts, offset, 1);
    Position(line, offset - starts[line - 1])
  }

  predicate IsBeforeOrEqual(a: Position, b: Position) {
    if a.line < b.line then true
    else if a.line > b.line then false
    else a.column <= b.column
  }

  lemma BeforeOrEqualIsTotalOrder(a: Position, b: Position, c: Position)
    ensures IsBeforeOrEqual(a, a)
    ensures IsBeforeOrEqual(a, b) || IsBeforeOrEqual(b, a)
    ensures IsBeforeOrEqual(a, b) && IsBeforeOrEqual(b, a) ==> a == b
    ensures IsBeforeOrEqual(a, b) && IsBeforeOrEqual(b, c) ==> IsBeforeOrEqual(a, c)
  {
  }

  /** Comparing positions is comparing offsets, whatever the text. */
  lemma LocIsMonotone(starts: seq<nat>, o1: nat, o2: nat)
    requires IsTable(starts)
    ensures IsBeforeOrEqual(GetLocFromIndex(starts, o1), GetLocFromIndex(starts, o2)) <==> o1 <= o2
  {
    var p1, p2 := GetLocFromIndex(starts, o1), GetLocFromIndex(starts, o2);
    if p1.line < p2.line {
      assert starts[p1.line] <= starts[p2.line - 1];
    } else if p2.line < p1.line {
      assert starts[p2.line] <= starts[p1.line - 1];
    }
  }

  /** An issue's position; its column is already 0-based. */
  datatype Issue = Issue(id: nat, line: nat, column: nat)

  /** `issues.filter` with the two comparisons. */
  function RemoveNonJsIssues(jsStart: Position, jsEnd: Position, issues: seq<Issue>): seq<Issue> {
    if issues == [] then []
    else
      var issueStart := Position(issues[0].line, issues[0].column);
      var rest := RemoveNonJsIssues(jsStart, jsEnd, issues[1..]);
      if IsBeforeOrEqual(jsStart, issueStart) && IsBeforeOrEqual(issueStart, jsEnd) then [issues[0]] + rest else rest
  }

  /** Issues raised at the given offsets, in the same order. */
  ghost predicate RaisedAt(starts: seq<nat>, issues: seq<Issue>, offsets: seq<nat>) {
    |issues| == |offsets| &&
    forall i :: 0 <= i < |issues| ==> IsLoc(starts, offsets[i], Position(issues[i].line, issues[i].column))
  }

  /** The issues whose offset lies in the range, both ends included. */
  function Inside(issues: seq<Issue>, offsets: seq<nat>, range: (nat, nat)): seq<Issue>
    requires |issues| == |offsets|
  {
    if issues == [] then []
    else if range.0 <= offsets[0] <= range.1 then [issues[0]] + Inside(issues[1..], offsets[1..], range)
    else Inside(issues[1..], offsets[1..], range)
  }

  lemma LocIsUnique(starts: seq<nat>, offset: nat, p: Position)
    requires IsTable(starts) && IsLoc(starts, offset, p)
    ensures p == GetLocFromIndex(starts, offset)
  {
    LineIsUnique(starts, offset, p.line, GetLocFromIndex(starts, offset).line);
  }

  /** The filter by lines and columns keeps exactly the issues inside the JavaScript code, in order. */
  lemma {:induction false} FilterKeepsInside(starts: seq<nat>, range: (nat, nat), issues: seq<Issue>, offsets: seq<nat>)
    requires IsTable(starts) && RaisedAt(starts, issues, offsets)
    ensures RemoveNonJsIssues(GetLocFromIndex(starts, range.0), GetLocFromIndex(starts, range.1), issues)
      == Inside(issues, offsets, range)
  {
    if issues != [] {
      var p := Position(issues[0].line, issues[0].column);
      LocIsUnique(starts, offsets[0], p);
      LocIsMonotone(starts, range.0, offsets[0]);
      LocIsMonotone(starts, offsets[0], range.1);
      FilterKeepsInside(starts, range, issues[1..], offsets[1..]);
    }
  }

  /** `text.slice(start, end)`; a missing start counts as zero, and crossing bounds give the empty text. */
  function Slice(text: Text, start: Option<nat>, end: nat): Text
    requires end <= |text|
  {
    var s := if start.Some? then start.value else 0;
    if s <= end then text[s..end] else []
  }

  function StartAt(starts: seq<nat>, i: nat): Option<nat> {
    if i < |starts| then Some(starts[i]) else None
  }

  /** The lines pushed for the matches `ms`, beginning with line `i`. */
  function LinesFor(text: Text, starts: seq<nat>, ms: seq<Match>, i: nat): seq<Text>
    requires InText(text, ms)
  {
    if ms == [] then []
    else [Slice(text, StartAt(starts, i), ms[0].index)] + LinesFor(text, starts, ms[1..], i + 1)
  }

  /** What `computeLines` returns. */
  function LinesOf(text: Text, starts: seq<nat>): seq<Text>
    requires starts != []
  {
    LinesFor(text, starts, Endings(text, 0, true), 0) + [Slice(text, Some(starts[|starts| - 1]), |text|)]
  }

  method ComputeLines(text: Text, lineStarts: seq<nat>) returns (lines: seq<Text>)
    requires lineStarts != []
    ensures lines == LinesOf(text, lineStarts)
  {
    lines := [];
    var i, lastIndex := 0, 0;
    while true
      invariant lastIndex <= |text|
      invariant lines + LinesFor(text, lineStarts, Endings(text, lastIndex, true), i)
        == LinesFor(text, lineStarts, Endings(text, 0, true), 0)
      decreases |text| - lastIndex
    {
      var found := Exec(text, lastIndex, true);
      if found.None? {
        break;
      }
      lines := lines + [Slice(text, StartAt(lineStarts, i), found.value.index)];
      i, lastIndex := i + 1, found.value.end;
    }
    lines := lines + [Slice(text, Some(lineStarts[|lineStarts| - 1]), |text|)];
  }

  function Separators(text: Text, i: nat): nat
    requires i <= |text|
    decreases |text| - i
  {
    if i == |text| then 0 else (if IsSeparator(text[i]) then 1 else 0) + Separators(text, i + 1)
  }

  /** The wide pattern matches as often as the narrow one, and once more for every separator. */
  lemma {:induction false} CountEndings(text: Text, i: nat)
    requires i <= |text|
    ensures |Endings(text, i, true)| == |Endings(text, i, false)| + Separators(text, i)
    decreases |text| - i
  {
    if i < |text| {
      var n := EndingAt(text, i, true);
      CountEndings(text, if n == 0 then i + 1 else i + n);
    }
  }

  lemma {:induction false} CountLines(text: Text, starts: seq<nat>, ms: seq<Match>, i: nat)
    requires InText(text, ms)
    ensures |LinesFor(text, starts, ms, i)| == |ms|
  {
    if ms != [] {
      CountLines(text, starts, ms[1..], i + 1);
    }
  }

  lemma {:induction false} CountEnds(ms: seq<Match>)
    ensures |Ends(ms)| == |ms|
  {
    if ms != [] {
      CountEnds(ms[1..]);
    }
  }

  lemma {:induction false} EndsInText(text: Text, ms: seq<Match>, i: nat)
    requires InText(text, ms) && i < |ms|
    ensures |Ends(ms)| == |ms| && Ends(ms)[i] <= |text|
  {
    CountEnds(ms);
    if i > 0 {
      EndsInText(text, ms[1..], i - 1);
    }
  }

  /** No line starts beyond the end of the text. */
  lemma StartsInText(text: Text, i: nat)
    requires i < |LineStarts(text)|
    ensures LineStarts(text)[i] <= |text|
  {
    var ms := Endings(text, 0, false);
    CountEnds(ms);
    if i > 0 {
      EndsInText(text, ms, i - 1);
    }
  }

  /** The patched lines fit the line table exactly when the file contains no U+2028 and no U+2029. */
  lemma LinesFitTable(text: Text)
    ensures |LinesOf(text, LineStarts(text))| == |LineStarts(text)| <==> Separators(text, 0) == 0
  {
    CountEndings(text, 0);
    CountLines(text, LineStarts(text), Endings(text, 0, true), 0);
    CountEnds(Endings(text, 0, false));
  }

  /** No line terminator in the sense of section 12.3 of ECMA-262. */
  predicate IsOneLine(line: Text) {
    forall i :: 0 <= i < |line| ==> line[i] != LF && line[i] != CR && !IsSeparator(line[i])
  }

  predicate AreLines(lines: seq<Text>) {
    lines == [] || (IsOneLine(lines[0]) && AreLines(lines[1..]))
  }

  function Terminators(text: Text, ms: seq<Match>): seq<Text>
    requires InText(text, ms)
  {
    if ms == [] then [] else [text[ms[0].index..ms[0].end]] + Terminators(text, ms[1..])
  }

  /** Lines with their terminators put back in between. */
  function Interleave(lines: seq<Text>, terminators: seq<Text>): Text {
    if lines == [] then []
    else if terminators == [] then lines[0]
    else lines[0] + terminators[0] + Interleave(lines[1..], terminators[1..])
  }

  lemma {:induction false} NoEndingBeforeFirst(text: Text, lastIndex: nat, i: nat)
    requires lastIndex <= i < |text|
    requires Exec(text, lastIndex, true).Some? ==> i < Exec(text, lastIndex, true).value.index
    ensures EndingAt(text, i, true) == 0
    decreases |text| - lastIndex
  {
    if lastIndex < i {
      NoEndingBeforeFirst(text, lastIndex + 1, i);
    }
  }

  lemma UpToFirstIsOneLine(text: Text, lastIndex: nat, end: nat)
    requires lastIndex <= end <= |text|
    requires Exec(text, lastIndex, true).Some? ==> end <= Exec(text, lastIndex, true).value.index
    ensures IsOneLine(text[lastIndex..end])
  {
    var line := text[lastIndex..end];
    forall k | 0 <= k < |line| ensures line[k] != LF && line[k] != CR && !IsSeparator(line[k]) {
      NoEndingBeforeFirst(text, lastIndex, lastIndex + k);
    }
  }

  lemma SplitText(text: Text, a: nat, b: nat, c: nat)
    requires a <= b <= c <= |text|
    ensures text[a..] == text[a..b] + text[b..c] + text[c..]
  {
  }

  lemma {:induction false} NoSeparatorLeft(text: Text, i: nat, j: nat)
    requires i <= j <= |text| && Separators(text, i) == 0
    ensures Separators(text, j) == 0
    decreases j - i
  {
    if i < j {
      NoSeparatorLeft(text, i + 1, j);
    }
  }

  lemma {:induction false} SameExec(text: Text, i: nat)
    requires i <= |text| && Separators(text, i) == 0
    ensures Exec(text, i, true) == Exec(text, i, false)
    decreases |text| - i
  {
    if i < |text| {
      SameExec(text, i + 1);
    }
  }

  lemma {:induction false} RebuildFrom(text: Text, starts: seq<nat>, i: nat)
    requires i < |starts| && starts[i] <= |text| && Separators(text, starts[i]) == 0
    requires starts[i + 1..] == Ends(Endings(text, starts[i], false))
    ensures var ms := Endings(text, starts[i], true);
            var lines := LinesFor(text, starts, ms, i) + [Slice(text, Some(starts[|starts| - 1]), |text|)];
            Interleave(lines, Terminators(text, ms)) == text[starts[i]..] && AreLines(lines)
    decreases |starts| - i
  {
    var ms := Endings(text, starts[i], true);
    var last := Slice(text, Some(starts[|starts| - 1]), |text|);
    SameExec(text, starts[i]);
    UpToFirstIsOneLine(text, starts[i], if ms == [] then |text| else ms[0].index);
    if ms == [] {
      assert i == |starts| - 1 && [last][1..] == [];
    } else {
      var m := ms[0];
      assert Ends(Endings(text, starts[i], false)) == [m.end] + Ends(Endings(text, m.end, false));
      assert starts[i + 1] == m.end && starts[i + 2..] == starts[i + 1..][1..];
      NoSeparatorLeft(text, starts[i], m.end);
      RebuildFrom(text, starts, i + 1);
      var first, rest := text[starts[i]..m.index], LinesFor(text, starts, ms[1..], i + 1) + [last];
      assert LinesFor(text, starts, ms, i) + [last] == [first] + rest && ([first] + rest)[1..] == rest;
      assert Terminators(text, ms) == [text[m.index..m.end]] + Terminators(text, ms[1..]);
      assert Interleave([first] + rest, Terminators(text, ms)) ==
        first + text[m.index..m.end] + Interleave(rest, Terminators(text, ms[1..]));
      SplitText(text, starts[i], m.index, m.end);
    }
  }

  /** Without separators no line holds a terminator, and putting the terminators back rebuilds the file. */
  lemma LinesRebuildText(text: Text)
    requires Separators(text, 0) == 0
    ensures var lines := LinesOf(text, LineStarts(text));
            Interleave(lines, Terminators(text, Endings(text, 0, true))) == text && AreLines(lines)
  {
    assert LineStarts(text)[1..] == Ends(Endings(text, 0, false));
    RebuildFrom(text, LineStarts(text), 0);
  }
}
