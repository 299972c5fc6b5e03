# Verified models of SonarJS

SonarJS analyses JavaScript and TypeScript for the Sonar products. This project models the parts of it where imperative
code must agree with a simple mathematical description, and proves that it does, or says exactly when it does not.

- `CodePaths.dfy`: the fall-through rule S128, a backward worklist search over control-flow segments, and the state
  machine of code-path events that feeds it.
- `ExpressionComplexity.dfy`, `LoopJumps.dfy`, `Nesting.dfy`: the enter/exit machines of S1067, S135 and S134, each
  against a description of the tree alone.
- `Braces.dfy`: the matching of braces for symbol highlighting.
- `LineTable.dfy`, `EmbeddedPatch.dfy`: scripts embedded in HTML or YAML. Line tables, the explicit-stack traversal, the
  in-place move of every node to its place in the whole file, the filter for issues outside the code.
- `MiniLang.dfy`, `ImmediateReturn.dfy`, `BooleanReturn.dfy`: a small language with assignments, calls, exceptions, loops
  and switches, and the proofs that the fixes of S1488 and S1126 keep the meaning of programs.
- `ImportSpecifiers.dfy`: the suggestion of S1128, with a printer and a parser of import declarations.
- `AstShape.dfy`, `AstEncoding.dfy`: the shapes in which syntax trees are sent to the Java side, and what the protobuf
  schema keeps of them.
- `ProjectAnalysis.dfy`: the analysis of a whole project, phase by phase.
- `LinterConfig.dfy`: the linter's configurations, indexed by the identity of interned keys.
- `Paths.dfy`: lists of places in a tree, by which the others say what is found where, how often and in which order.

Code that works by changing state is written as methods and classes and tied to functions on values; code made of
expressions is written as functions. `dfyconfig.toml` lists all Dafny files as one project.

## What turned out not to hold

Each of these is a lemma with the exact condition, or a concrete input.

- In S128, an exit call marks `currentCodeSegment`, the last reachable segment started, and not the current segments, which
  it lies in. It marks just those exactly when, marked segments aside, the last one started is the only current one
  (`CodePaths.ExitMarksOwnIff`), and the marks of a run are right throughout exactly when every exit call is of that kind
  (`CodePaths.MarksAgreeIff`). Four inputs that are not:
  - behind a function expression the call marks a segment of the function, and a case ending in `process.exit` is reported
    (`CodePaths.ExitAfterNestedPath`, `CodePaths.ExitAfterCallbackIsMissed`);
  - in dead code it marks the live segment before it, and a case that falls through is not reported
    (`CodePaths.ExitInDeadCode`, `CodePaths.DeadExitHidesFallThrough`);
  - in a `finally` block, which is entered on two segments at a time, it marks one of them, and a case ending there is
    reported (`CodePaths.ExitInFinally`);
  - behind such a block it marks the segment that ended with the block, and a case ending in `process.exit` is reported
    (`CodePaths.ExitBehindFinally`).
- S135 lets an unlabelled `continue` end at a surrounding switch, which the language does not. The rule's list for a loop
  is shorter than that of the language by the number of such `continue`s, which says exactly which loops go unreported
  (`LoopJumps.JumpsOfVersusLanguage`, `LoopJumps.UnreportedIff`, `LoopJumps.ContinueInSwitchIsMissed`).
- S1126 compares the two literals nowhere. Its suggestion is right in a state exactly when they differ or the test is
  truthy there or throws (`BooleanReturn.IfSuggestionRightIff`, `BooleanReturn.PairSuggestionRightIff`), so that it is
  right for all tests exactly when they differ (`BooleanReturn.SuggestionRightIff`).
- S1128 leaves no import declaration in two cases, both when the only specifier in braces behind a default import is
  removed: a comma behind that specifier leaves a stray brace, and without a gap behind the closing brace the default
  name and `from` become one word, as in `import a,{b}from 'x'` (`ImportSpecifiers.SuggestionRightIff`,
  `ImportSpecifiers.NoGapBehindBrace`).
- The lines of a patched source do not fit its line table as soon as the file contains U+2028 or U+2029
  (`LineTable.LinesFitTable`), and then a node that ends with the file is located on a line that the table does not have
  (`EmbeddedPatch.LocatedIff`).
- The bytes of a syntax tree do not tell unsupported nodes apart, nor from `export =`, and hold nothing of their content:
  they determine the program exactly when it has neither (`AstEncoding.RecoverableIff`). The text of every literal arrives,
  but the `bigint` field is never filled, and the number field is wrong for all numbers that are not 32-bit integers
  (`AstEncoding.LiteralFields`). A test of the repository is named "should not lose information between serialize and
  deserializing JavaScript"; its input has none of these. The code is followed here.
- The analysis of a project with watch programs does not analyse every requested file: it fails exactly when it meets an
  unreadable tsconfig while files are pending, or as the first one (`ProjectAnalysis.AnalyzeProject`).
- Calling the public `getConfig` for an unknown key makes every later `lint` with that key add one more configuration
  (`LinterConfig.AskedBeforehand`).

`patchASTLocations` moves a node once for each time its passes meet it, and so has a precondition: no node, comment or
token may occur twice (`EmbeddedPatch.MovedByOffsetIff`).

## Model

| member | source | states |
|---|---|---|
| `CodePaths.IsAfterProcessExitCall` | packages/jsts/src/rules/S128/rule.ts:44-62 | On every finite segment graph, cycles and duplicate stack entries included, the search ends and returns false exactly when some walk along `prevSegments` leads from the segment to the initial one without meeting a segment with an exit call. |
| `CodePaths.ExpandKeepsWaiting` | packages/jsts/src/rules/S128/rule.ts:51-60 | The depth-first invariant: an unvisited predecessor of an expanded segment lies above all copies of that segment on the stack; popping a visited segment therefore pushes nothing. |
| `CodePaths.PathStaysVisited` | packages/jsts/src/rules/S128/rule.ts:54-58 | Once expanded segments are closed under predecessors, no exit-free walk leaves them. |
| `CodePaths.DiscoveredExtends` | packages/jsts/src/rules/S128/rule.ts:52-58 | A discovered segment without an exit call is the end of an exit-free walk from the start. |
| `CodePaths.NestedRestores` | packages/jsts/src/rules/S128/rule.ts:65-71 | Over any run, closing code paths removes exactly the saved sets of those paths, whatever happened inside. |
| `CodePaths.NestedPathIsTransparent` | packages/jsts/src/rules/S128/rule.ts:65-71 | A complete nested code path gives back the current segments and the stack of the outer one. |
| `CodePaths.CurrentIff` | packages/jsts/src/rules/S128/rule.ts:65-91 | Over every run, with paths opened and closed in it at will: a segment is current if and only if, among the events of the path that is open at the end, the last one that names it starts it, or none names it and it was current on that path before the run. |
| `CodePaths.CurrentWithinPath` | packages/jsts/src/rules/S128/rule.ts:72-91 | Over every run without nested paths, a segment is current if and only if the last event that names it starts it, or none names it and it was current before. |
| `CodePaths.CurrentInsidePath` | packages/jsts/src/rules/S128/rule.ts:65-91 | A path begins with no current segments: inside it, current are exactly the segments whose last event on that path starts them. |
| `CodePaths.CurrentCodeSegmentIsLastStarted` | packages/jsts/src/rules/S128/rule.ts:72-82 | After any run the current code segment is the last reachable segment started in it, or the one from before if none was. |
| `CodePaths.MarkedIff` | packages/jsts/src/rules/S128/rule.ts:72-97 | Over every run, the marked segments are those marked before and those that are the last one started before some exit call. |
| `CodePaths.ExitMarksOwnIff` | packages/jsts/src/rules/S128/rule.ts:65-97 | Over every run, for an exit call at its end, which lies in the current segments and marks the last one started: all its segments are then marked if and only if no other one is still unmarked; no other segment gets a mark if and only if the last one started is current or was marked before; and the marks grow by just its segments if and only if, marked ones aside, the last one started is the only current one. |
| `CodePaths.MarksAgreeIff` | packages/jsts/src/rules/S128/rule.ts:64-97 | Over every run, the marked segments are after each event those that exit calls lay in, if and only if every exit call is one that marks just its own segments. |
| `CodePaths.ReportsAgreeIff` | packages/jsts/src/rules/S128/rule.ts:64-120 | Over every traversal in which each case ends once, the reports are those of the intended marks if and only if at the end of every case both kinds of marks give the same answer. |
| `CodePaths.ExactExitsReportRight` | packages/jsts/src/rules/S128/rule.ts:64-120 | Over every traversal in which every exit call marks just its own segments, the reports are those of the intended marks. |
| `CodePaths.MarksAndReports` | packages/jsts/src/rules/S128/rule.ts:102-120 | Missing marks can only make for reports too many and needless marks for reports too few. |
| `CodePaths.ExitAfterNestedPath` | packages/jsts/src/rules/S128/rule.ts:65-97 | An exit call behind a nested code path, whatever calls are inside, lies in the segments from before that path, and all of these are then marked if and only if none is still unmarked, but for the one that was the last started if no segment was started inside. |
| `CodePaths.ExitInDeadCode` | packages/jsts/src/rules/S128/rule.ts:86-97 | An exit call in dead code lies in the dead segment, which it leaves unmarked, and marks the live one started before it. |
| `CodePaths.DeadExitHidesFallThrough` | packages/jsts/src/rules/S128/rule.ts:86-120 | A concrete run in which such a call keeps a case that falls through from being reported; with the intended marks the case would be. |
| `CodePaths.ExitInFinally` | packages/jsts/src/rules/S128/rule.ts:72-120 | A concrete run in which an exit call in a `finally` block lies in two segments and marks one, so that a case that ends there is reported; with the intended marks it would not be. |
| `CodePaths.ExitBehindFinally` | packages/jsts/src/rules/S128/rule.ts:72-120 | A concrete run in which an exit call behind a `finally` block marks a segment that ended with the block, so that a case that ends with the call is reported; with the intended marks it would not be. |
| `CodePaths.NoExitCall` | packages/jsts/src/rules/S128/rule.ts:92-97 | Only exit calls mark segments. |
| `CodePaths.QuietKeepsCases` | packages/jsts/src/rules/S128/rule.ts:72-101 | Events other than entering a case and starting a segment leave the case bookkeeping alone. |
| `CodePaths.SettledCaseStays` | packages/jsts/src/rules/S128/rule.ts:75-81 | The initial segment of a case that is no longer waiting never changes unless the case is entered again. |
| `CodePaths.InitialSegmentIsFirstStarted` | packages/jsts/src/rules/S128/rule.ts:72-101 | A case that is entered, with no other case in between, gets the next segment started as its initial one and keeps it, however the run goes on; when that segment starts, it is current. |
| `CodePaths.InitialSegmentIff` | packages/jsts/src/rules/S128/rule.ts:72-101 | Of a case entered once: it ever gets an initial segment if and only if no other case is entered before the next segment starts, and then it is that segment. |
| `CodePaths.BuriedCaseHasNoSegment` | packages/jsts/src/rules/S128/rule.ts:75-81 | A case that is not the one waiting for its first segment never gets one, however the run goes on. |
| `CodePaths.ExitAfterCallbackIsMissed` | packages/jsts/src/rules/S128/rule.ts:92-120 | A concrete run in which a case that ends in `process.exit` behind a callback is reported; with the intended marks it would not be. |
| `CodePaths.FallthroughRule.OnCodePathStart` | packages/jsts/src/rules/S128/rule.ts:65-68 | The handler does what the state machine says for the start of a code path. |
| `CodePaths.FallthroughRule.OnCodePathEnd` | packages/jsts/src/rules/S128/rule.ts:69-71 | The handler does what the state machine says for the end of a code path. |
| `CodePaths.FallthroughRule.OnCodePathSegmentStart` | packages/jsts/src/rules/S128/rule.ts:72-82 | The handler does what the state machine says for the start of a segment, including the initial segment of a waiting case. |
| `CodePaths.FallthroughRule.OnCodePathSegmentEnd` | packages/jsts/src/rules/S128/rule.ts:83-91 | The handler does what the state machine says for the end of a segment, reachable or not. |
| `CodePaths.FallthroughRule.OnUnreachableCodePathSegmentStart` | packages/jsts/src/rules/S128/rule.ts:86-88 | The handler does what the state machine says for the start of an unreachable segment. |
| `CodePaths.FallthroughRule.CallExpression` | packages/jsts/src/rules/S128/rule.ts:92-97 | The handler does what the state machine says for an exit call, and nothing for other calls. |
| `CodePaths.FallthroughRule.SwitchCase` | packages/jsts/src/rules/S128/rule.ts:98-101 | The handler does what the state machine says for entering a case. |
| `CodePaths.FallthroughRule.SwitchCaseExit` | packages/jsts/src/rules/S128/rule.ts:102-120 | A case is reported exactly when an exit-free walk leads from one of the current reachable segments back to its start, it has statements, is not the last one and no comment follows it. |
| `CodePaths.FallthroughRule.Traverse` | packages/jsts/src/rules/S128/rule.ts:64-121 | Over a whole traversal, the state is that of the run of its events. The reports are, in order, the cases at exactly those ends where the case has statements, is not the last one, is followed by no comment, and an exit-free walk leads from a reachable segment that is current there back to the initial segment of the case. |
| `CodePaths.OutcomeIsRun` | packages/jsts/src/rules/S128/rule.ts:64-121 | Following the deliveries one by one gives the state of the run and the list of cases that fall through. |
| `CodePaths.FallingEnds` | packages/jsts/src/rules/S128/rule.ts:102-120 | The recursive list of reports is the list of the cases at the ends so described, with the state before each end that of the run of the events before it. |
| `ExpressionComplexityRule.Lint` | packages/jsts/src/rules/S1067/rule.ts:30-62 | For every tree and threshold the reports are exactly the conditional-like nodes with more visible operators than the threshold that have no conditional-like ancestor inside the nearest scope-like one, each once for its place in the tree, inner ones first and in source order. |
| `ExpressionComplexityRule.ReportPlaces` | packages/jsts/src/rules/S1067/rule.ts:34-59 | The recursive definition lists such places, each once and in order. |
| `ExpressionComplexityRule.PlacesAreReported` | packages/jsts/src/rules/S1067/rule.ts:34-59 | Below any ancestors, the places that the recursive definition reports are exactly those of such nodes. |
| `ExpressionComplexityRule.OperatorsByPlaces` | packages/jsts/src/rules/S1067/rule.ts:34-59 | The operators counted for a node are those of the conditional-like nodes below it, itself included, with no scope-like node on the way, each once and in source order. |
| `ExpressionComplexityRule.ReportedBelow` | packages/jsts/src/rules/S1067/rule.ts:93-105 | How being reported depends on one more ancestor: it hides, it opens a scope, or neither. |
| `ExpressionComplexityRule.Rule.Enter` | packages/jsts/src/rules/S1067/rule.ts:34-43 | The whole effect of entering a node on the stack of scopes and the top counter. |
| `ExpressionComplexityRule.Rule.Exit` | packages/jsts/src/rules/S1067/rule.ts:44-59 | The whole effect of leaving a node, with the report and the reset of the operators on the first level. |
| `ExpressionComplexityRule.Rule.Visit` | packages/jsts/src/rules/S1067/rule.ts:32-60 | Visiting any subtree restores the stack of scopes and the level, collects its visible operators in preorder if a conditional-like node is open, and appends its reports. |
| `ExpressionComplexityRule.Rule.VisitAll` | packages/jsts/src/rules/S1067/rule.ts:32-60 | The same for a list of siblings. |
| `LoopJumps.Lint` | packages/jsts/src/rules/S135/rule.ts:46-98 | The reports are exactly the loops of the program with two jumps or more, each once for its place in the tree, with its jumps, inner loops first and in source order. |
| `LoopJumps.PlacesAreReported` | packages/jsts/src/rules/S135/rule.ts:46-60 | The places found below a node are exactly those of loops with two jumps or more. |
| `LoopJumps.JumpsOfPlaces` | packages/jsts/src/rules/S135/rule.ts:37-44 | The jumps of a loop are exactly those below it with no target of their own label on the way, none counting as the label of loops and switches; each once, in source order. |
| `LoopJumps.Rule.EnterScope` | packages/jsts/src/rules/S135/rule.ts:29-31 | A fresh target with an empty list is pushed and every other list stays. |
| `LoopJumps.Rule.LeaveScope` | packages/jsts/src/rules/S135/rule.ts:33-35 | Exactly the last target is popped, with its list. |
| `LoopJumps.Rule.Push` | packages/jsts/src/rules/S135/rule.ts:39 | One target gets the jump at the end of its list, and every other list stays. |
| `LoopJumps.Rule.IncreaseNumberOfJumpsInScopes` | packages/jsts/src/rules/S135/rule.ts:37-44 | Exactly the targets from the innermost to the first one with the jump's label get the jump at the end of their list. |
| `LoopJumps.Rule.Visit` | packages/jsts/src/rules/S135/rule.ts:46-98 | Visiting any subtree keeps the stack of targets; every enclosing target gains, in source order, the jumps of the subtree that nothing further in stops. |
| `LoopJumps.Rule.VisitScope` | packages/jsts/src/rules/S135/rule.ts:29-66 | The popped list of a target holds exactly the jumps inside it that no strictly inner target with their label stops. |
| `LoopJumps.Rule.VisitAll` | packages/jsts/src/rules/S135/rule.ts:68-98 | The same as for one subtree for a list of siblings. |
| `LoopJumps.ChargeAppend` | packages/jsts/src/rules/S135/rule.ts:37-44 | Charging two stretches of jumps one after the other is charging both at once. |
| `LoopJumps.ChargePushed` | packages/jsts/src/rules/S135/rule.ts:29-66 | Charging with one more target on top gives the outer targets the jumps that pass it, and the new one those of its body. |
| `LoopJumps.ChargeJump` | packages/jsts/src/rules/S135/rule.ts:37-44 | The loop with its `break` charges as the definition by labels does. |
| `LoopJumps.EscapingCrossing` | packages/jsts/src/rules/S135/rule.ts:37-44 | Wrapping statements in a target removes exactly the jumps with that target's label from those seen further out. |
| `LoopJumps.JumpsOfVersusLanguage` | packages/jsts/src/rules/S135/rule.ts:37-60 | The rule's list for a loop equals the list of jumps that leave it or start its next round by the rules of the language if and only if no unlabelled `continue` inside has a switch, but no loop, around it. |
| `LoopJumps.UnreportedIff` | packages/jsts/src/rules/S135/rule.ts:37-60 | The language's list for a loop is longer than the rule's by the number of unlabelled `continue`s inside that have a switch, but no loop, around them; so no loop is reported wrongly, and one goes unreported exactly when these make up the difference to two jumps. |
| `LoopJumps.StoppedOrBound` | packages/jsts/src/rules/S135/rule.ts:37-44 | The rule ends a jump where the language does, or else it is an unlabelled `continue` with a switch, but no loop, around it; never both. |
| `LoopJumps.EscapingVersusUnbound` | packages/jsts/src/rules/S135/rule.ts:37-44 | The comparison with the language for an arbitrary list of jumps. |
| `LoopJumps.ContinueInSwitchIsMissed` | packages/jsts/src/rules/S135/rule.ts:46-60 | A concrete loop with two `continue` statements of which the rule counts one. |
| `Nesting.Lint` | packages/jsts/src/rules/S134/rule.ts:31-87 | A program's reports are exactly the control-flow statements that continue no `if` chain and have exactly `threshold` levels around them, each chain counted once; with each comes the list of the chain members and statements containing it; each is reported once for its place in the tree, in source order. |
| `Nesting.ReportPlaces` | packages/jsts/src/rules/S134/rule.ts:42-78 | The definition by stacks lists the places described by paths in the tree, each once and in order. |
| `Nesting.PlacesAreReported` | packages/jsts/src/rules/S134/rule.ts:42-78 | Below any stack, the places that the recursive definition by stacks reports are exactly those at the threshold. |
| `Nesting.LevelsIsLength` | packages/jsts/src/rules/S134/rule.ts:43-50 | Counting levels at the heads of chains agrees with the number of tokens, one for the member of each chain that contains the place. |
| `Nesting.Rule.Enter` | packages/jsts/src/rules/S134/rule.ts:71-79 | An `else if` replaces the top of the stack; any other control-flow statement is checked against the stack before it is pushed. |
| `Nesting.Rule.Exit` | packages/jsts/src/rules/S134/rule.ts:80-84 | Only a statement that is no `else if` is popped. |
| `Nesting.Rule.Visit` | packages/jsts/src/rules/S134/rule.ts:71-84 | Visiting any subtree restores the stack, except that an `else if` leaves the token of the last member of its chain on top, and appends the subtree's reports. |
| `Nesting.Rule.VisitAll` | packages/jsts/src/rules/S134/rule.ts:71-84 | Siblings leave the stack alone and report one after the other. |
| `Braces.HighlightBraces` | packages/jsts/src/linter/visitors/symbol-highlighting.ts:100-114 | The loop pops an empty stack if and only if some prefix has more closing than opening braces; otherwise it emits one pair for each closing brace, in order, and every pair encloses a balanced stretch. Its stack ends empty if and only if every opening brace has a partner. |
| `Braces.MatchingIsNested` | packages/jsts/src/linter/visitors/symbol-highlighting.ts:105-113 | Matching pairs never cross, and no brace has two partners. |
| `Braces.HasPartner` | packages/jsts/src/linter/visitors/symbol-highlighting.ts:107-113 | Every closing brace of a text without early ones has a partner. |
| `Braces.EveryOpenMatchedIff` | packages/jsts/src/linter/visitors/symbol-highlighting.ts:105-113 | Without early closing braces, every opening brace has a partner if and only if there are as many closing as opening ones. |
| `Braces.EmitsTheMatching` | packages/jsts/src/linter/visitors/symbol-highlighting.ts:102-114 | The emitted pairs are all the matching pairs and nothing else. |
| `LineTable.ComputeLineStarts` | packages/html/src/parser/parse.ts:127-146 | The table starts at 0, is strictly increasing and holds, besides 0, exactly the offsets directly behind a maximal line ending. |
| `LineTable.EndsAreAfterEndings` | packages/html/src/parser/parse.ts:127-144 | From any place that tears no CR LF apart, the matches end exactly behind the line endings. |
| `LineTable.EndsIncrease` | packages/html/src/parser/parse.ts:127-144 | From any place on, the ends of the matches strictly increase. |
| `LineTable.ExecSkips` | packages/html/src/parser/parse.ts:127-140 | A match ends directly behind a line ending and tears no CR LF apart, and no offset before it follows a line ending. |
| `LineTable.ComputeLine` | packages/html/src/parser/parse.ts:107-115 | For every offset, the line whose stretch of the table contains it. |
| `LineTable.LineIsUnique` | packages/html/src/parser/parse.ts:107-115 | No other line contains it. |
| `LineTable.ComputeCol` | packages/html/src/parser/parse.ts:117-125 | The round trip: from the start of the offset's line, the column leads back to the offset. |
| `LineTable.GetLocFromIndex` | packages/jsts/src/embedded/builder/patch.ts:111-114 | By the table, an offset gets the one position whose line contains it and whose line start plus column leads back to it. |
| `LineTable.LocIsMonotone` | packages/jsts/src/embedded/analysis/analyzer.ts:99-114 | Comparing the positions of two offsets is comparing the offsets, for any table. |
| `LineTable.LocIsUnique` | packages/jsts/src/embedded/analysis/analyzer.ts:99-104 | An offset has one position only. |
| `LineTable.BeforeOrEqualIsTotalOrder` | packages/jsts/src/embedded/analysis/analyzer.ts:106-114 | The comparison by line and column is a total order. |
| `LineTable.FilterKeepsInside` | packages/jsts/src/embedded/analysis/analyzer.ts:99-115 | The filter keeps exactly the issues raised at offsets between the start and the end of the code, in order. |
| `LineTable.ComputeLines` | packages/jsts/src/embedded/builder/patch.ts:72-86 | The loop over the pattern matches, for any table: the line before match i is cut from line start i, and the last one from the last line start. |
| `LineTable.CountEndings` | packages/jsts/src/embedded/builder/patch.ts:73-74 | The pattern used for lines matches once more than that of the table for every U+2028 and U+2029. |
| `LineTable.LinesFitTable` | packages/jsts/src/embedded/builder/patch.ts:72-86 | There are as many lines as line starts if and only if the text has no U+2028 and no U+2029. |
| `LineTable.RebuildFrom` | packages/jsts/src/embedded/builder/patch.ts:77-83 | From any line on, lines and terminators put together are the rest of the text. |
| `LineTable.LinesRebuildText` | packages/jsts/src/embedded/builder/patch.ts:72-86 | For such a text no line contains a terminator of section 12.3 of ECMA-262, and interleaving lines with terminators gives back the text. |
| `EmbeddedPatch.Visit` | packages/jsts/src/linter/visitors/visitor.ts:26-33 | The explicit-stack loop calls back on every node in recursive preorder. |
| `EmbeddedPatch.PreorderPlaces` | packages/jsts/src/linter/visitors/visitor.ts:26-33 | Preorder has the node of every place in the tree, each once, parents before children and children in order. |
| `EmbeddedPatch.PendingReversed` | packages/jsts/src/linter/visitors/visitor.ts:31 | Pushing the children in reverse puts them, in order, before everything else still to come. |
| `EmbeddedPatch.FixNodeLocation` | packages/jsts/src/embedded/builder/patch.ts:109-120 | One pass moves the range by the offset and sets the location from the moved range; an object without range is left alone, one without location gets none. |
| `EmbeddedPatch.FixAll` | packages/jsts/src/embedded/builder/patch.ts:99-107 | Every object, aliased or not, is changed as often as the list names it, all others not at all. |
| `EmbeddedPatch.PatchASTLocations` | packages/jsts/src/embedded/builder/patch.ts:94-107 | What becomes of every object on the heap: it is fixed once for each time the tree, the comments and the tokens name it. |
| `EmbeddedPatch.PassedIsFixed` | packages/jsts/src/embedded/builder/patch.ts:95-107 | However nodes, comments and tokens interleave, an object is fixed as often as it occurs among them. |
| `EmbeddedPatch.CountOneIff` | packages/jsts/src/embedded/builder/patch.ts:95-107 | An object is met once if and only if it stands in one place of nodes, comments and tokens only. |
| `EmbeddedPatch.FixedMoves` | packages/jsts/src/embedded/builder/patch.ts:109-120 | Each time moves the range by the offset, and the location always is that of the moved range. |
| `EmbeddedPatch.LocatedIff` | packages/jsts/src/embedded/builder/patch.ts:46-50 | In a patched source, whose lines and line starts come from different patterns, ESLint's answer for an offset is its position by the table if and only if the offset is not the end of a file with U+2028 or U+2029. |
| `EmbeddedPatch.MovedByOffsetIff` | packages/jsts/src/embedded/builder/patch.ts:109-120 | A range ends up exactly `offset` further on if and only if the object is met exactly once. |
| `EmbeddedPatch.PatchedNodeCoversSameText` | packages/jsts/src/embedded/builder/patch.ts:94-121 | A node met once covers in the file the text it covered in the snippet, and its location is ESLint's answer for its new range. |
| `EmbeddedPatch.PatchSnippet` | packages/jsts/src/embedded/builder/patch.ts:41-121 | Of all objects on the heap: those that occur once among nodes, comments and tokens are moved by `offset`, cover in the file the text they covered in the snippet, and are located by the line table of the file, both ends, if and only if that end is not the end of a file with U+2028 or U+2029; those that do not occur stay as they were. |
| `ImmediateReturn.FixPreservesMeaning` | packages/jsts/src/rules/S1488/rule.ts:43-96 | When a variable is reported for a statement list of a function body, the body with the fix has the same outcome, the same calls and the same final values of all variables but that one, from every state. |
| `ImmediateReturn.ReportedIff` | packages/jsts/src/rules/S1488/rule.ts:43-114 | A variable is reported for a list if and only if the list ends in `const x = e;` with one untyped name and an initializer, followed by `return x;` or `throw x;`, and the function reads it once. |
| `ImmediateReturn.ListReads` | packages/jsts/src/rules/S1488/rule.ts:61-62 | The reads counted are the places in the body, at any depth, of the identifier or of a compound assignment to it, each counted once. |
| `ImmediateReturn.StatementListsIff` | packages/jsts/src/rules/S1488/rule.ts:34-41 | The lists that are searched are all those in the body, at any depth: of blocks, of cases and of the parts of `try`. |
| `ImmediateReturn.FixBodyIsTheFix` | packages/jsts/src/rules/S1488/rule.ts:78-96 | The transformation is the text edit: in the reported list the declaration goes and the initializer takes the place of the identifier; lists that do not read the variable stay as they are. |
| `ImmediateReturn.ListsOfFixed` | packages/jsts/src/rules/S1488/rule.ts:78-96 | The lists of the fixed body are those of the body, in order, each of them fixed. |
| `ImmediateReturn.FixedAtOnce` | packages/jsts/src/rules/S1488/rule.ts:78-96 | The fixed list written out: the statements before, then the return or throw of the initializer. |
| `ImmediateReturn.EvalAgrees` | packages/jsts/src/rules/S1488/rule.ts:61-62 | Non-interference: an expression that does not read the variable does not depend on its value. |
| `ImmediateReturn.FixAgrees` | packages/jsts/src/rules/S1488/rule.ts:43-96 | The same equivalence for any statement whose reads of the variable are all returned at once, from states that differ in the variable. |
| `ImmediateReturn.FixBodyAgrees` | packages/jsts/src/rules/S1488/rule.ts:43-96 | The same for statement lists. |
| `ImmediateReturn.FixSiteAgrees` | packages/jsts/src/rules/S1488/rule.ts:78-96 | The declaration followed by its return or throw does what returning or throwing the initializer does. |
| `ImmediateReturn.SiteHoldsOnlyRead` | packages/jsts/src/rules/S1488/rule.ts:52-62 | If some list of the body ends in the declaration and its return, and the body has one read of the variable, that read is the returned one. |
| `ImmediateReturn.NoReadsNoFix` | packages/jsts/src/rules/S1488/rule.ts:61-62 | A body without reads of the variable has no place for the fix. |
| `BooleanReturn.SuggestionRightIff` | packages/jsts/src/rules/S1126/rule.ts:37-66 | For two given literals, the first suggestion behaves like the reported code for every test if and only if the literals differ, with an alternate as well as before a return. |
| `BooleanReturn.ReturnsBooleanIff` | packages/jsts/src/rules/S1126/rule.ts:68-89 | A branch counts if and only if it is `return true;` or `return false;`, or a block with nothing else in it. |
| `BooleanReturn.IfSuggestionRightIff` | packages/jsts/src/rules/S1126/rule.ts:54-120 | For a given statement with an alternate and a given state, the first suggestion has the same outcome if and only if the literals differ or the test, if it yields a value, yields a truthy one. |
| `BooleanReturn.PairSuggestionRightIff` | packages/jsts/src/rules/S1126/rule.ts:59-120 | The same for a statement and the return behind it, whatever follows. |
| `BooleanReturn.SuggestedValue` | packages/jsts/src/rules/S1126/rule.ts:107-120 | The negated, the cast and the plain form all yield the truth of the test, or its negation when the consequent returns false, with the test's effects. |
| `BooleanReturn.SuggestedForm` | packages/jsts/src/rules/S1126/rule.ts:107-137 | The test is taken as it stands if and only if the consequent returns true and the test is a negation or one of ten comparisons; otherwise it is negated once or twice. |
| `BooleanReturn.BooleanExpressionValue` | packages/jsts/src/rules/S1126/rule.ts:130-137 | Tests that are not cast yield booleans. |
| `BooleanReturn.ReportedIfOutcome` | packages/jsts/src/rules/S1126/rule.ts:54-57 | A reported statement with an alternate evaluates its test once and returns the first literal if it is truthy and the second if not; an exception of the test passes through. |
| `BooleanReturn.ReportedPairOutcome` | packages/jsts/src/rules/S1126/rule.ts:59-63 | A reported statement and the return behind it do the same, and the statements after them are never reached. |
| `BooleanReturn.SuggestionOutcome` | packages/jsts/src/rules/S1126/rule.ts:92-106 | In the place of either form, the single return evaluates the test once and returns the first literal if it is truthy and its opposite if not. |
| `BooleanReturn.UncastRightIff` | packages/jsts/src/rules/S1126/rule.ts:116-119 | The second suggestion is right in a state if and only if the test yields no value there that is not a boolean. |
| `BooleanReturn.UncastPairRightIff` | packages/jsts/src/rules/S1126/rule.ts:97-119 | The same for a statement and the return behind it. |
| `BooleanReturn.SimplifyPreserves` | packages/jsts/src/rules/S1126/rule.ts:37-121 | Taking the first suggestion at every reported place with different literals, anywhere in a statement, keeps outcome, calls and variables in every state. |
| `BooleanReturn.SimplifyBodyPreserves` | packages/jsts/src/rules/S1126/rule.ts:59-103 | The same for blocks and cases, where the form without an alternate occurs in blocks only. |
| `BooleanReturn.NothingLeft` | packages/jsts/src/rules/S1126/rule.ts:37-66 | No reported place with different literals is left anywhere in the result, in either form. |
| `ImportSpecifiers.SuggestionRightIff` | packages/jsts/src/rules/S1128/rule.ts:249-300 | For every import with two names or more, however its tokens are spaced, the text that is left after removing the range reads as the same import without that name and with the others in order, if and only if the name is not the only one in braces with a comma behind it or no gap behind the closing brace. |
| `ImportSpecifiers.RemovedTokens` | packages/jsts/src/rules/S1128/rule.ts:263-292 | On the tokens alone, what is left parses to the same import without the name, if and only if the name is not the only one in braces with a comma behind it. |
| `ImportSpecifiers.RangeApart` | packages/jsts/src/rules/S1128/rule.ts:268-290 | The other four ranges never make two words touch. |
| `ImportSpecifiers.DeletedLex` | packages/jsts/src/rules/S1128/rule.ts:296-298 | If no words come to touch at the ends of a range, the text left is read as exactly the tokens outside the range. |
| `ImportSpecifiers.GluedLex` | packages/jsts/src/rules/S1128/rule.ts:284-285 | Without a gap behind the closing brace, the text left has the default name and `from` as one word. |
| `ImportSpecifiers.GluedIsNoImport` | packages/jsts/src/rules/S1128/rule.ts:284-285 | That text is no import declaration, whatever the default name. |
| `ImportSpecifiers.NoGapBehindBrace` | packages/jsts/src/rules/S1128/rule.ts:284-285 | Removing `b` from `import a,{b}from 'x'` leaves `import afrom 'x'`. |
| `ImportSpecifiers.ParsePrinted` | packages/jsts/src/rules/S1128/rule.ts:249-300 | Every import declaration that binds a name parses back from its tokens. |
| `ImportSpecifiers.RemoveDefault` | packages/jsts/src/rules/S1128/rule.ts:269-274 | Removing the range of a default specifier leaves exactly the tokens of the declaration without it: the comma goes too, and so does nothing else. |
| `ImportSpecifiers.RemoveNamespace` | packages/jsts/src/rules/S1128/rule.ts:276-279 | Removing the range of a namespace specifier, with the comma before it, leaves exactly the tokens of the declaration with the default name alone. |
| `ImportSpecifiers.RemoveFirst` | packages/jsts/src/rules/S1128/rule.ts:286-287 | Removing the range of the first of several specifiers in braces leaves exactly the tokens of the declaration with the others, a trailing comma included. |
| `ImportSpecifiers.RemoveLater` | packages/jsts/src/rules/S1128/rule.ts:288-290 | Removing the range of any later specifier in braces leaves exactly the tokens of the declaration with the others in order. |
| `ImportSpecifiers.RemoveOnly` | packages/jsts/src/rules/S1128/rule.ts:284-285 | For the only specifier in braces behind a default one, the range also takes the token behind it: the brace, which is right, or a comma, so that the brace stays. |
| `ImportSpecifiers.StrayBrace` | packages/jsts/src/rules/S1128/rule.ts:284-285 | With the brace left over, the tokens are no import declaration. |
| `AstEncoding.RecoverableIff` | packages/jsts/src/parsers/ast.ts:29-52 | Whatever reads the bytes: all trees with the same bytes as a given one are the same program, up to wrappers and unpicked properties, if and only if the given one has no unsupported node and no `export =`. |
| `AstEncoding.SameEncodingIff` | packages/jsts/src/parsers/ast.ts:29-52 | Two trees have the same bytes if and only if they become equal when every unsupported node and every `export =` is replaced by one and the same leaf. |
| `AstEncoding.DecodeEncoded` | packages/jsts/src/parsers/ast.ts:29-52 | One reader, which takes literals by their text, finds in the bytes the program with these leaves in it. |
| `AstEncoding.ArrivedHasSameBytes` | packages/jsts/src/parsers/ast.ts:399-403 | The program with these leaves in it is a well-typed tree with the same bytes, whatever type the leaves are given. |
| `AstEncoding.ArrivedIff` | packages/jsts/src/parsers/ast.ts:399-403 | The type given to the leaves shows if and only if the tree has an unsupported node or an `export =`; otherwise nothing was replaced. |
| `AstEncoding.LiteralFields` | packages/jsts/src/parsers/estree.proto:180-190 | What arrives of each literal: the text always; strings, booleans, patterns and flags in their fields; of big integers and of `null` nothing else; of a number the number itself if and only if that is a 32-bit integer. |
| `AstShape.DecodeVisited` | packages/jsts/src/parsers/ast.ts:57-404 | Before encoding nothing is lost: the shape determines the tree up to wrappers and unpicked properties, each literal by its fields alone, with array holes in place and unsupported nodes as leaves. |
| `AstShape.SameShapeIff` | packages/jsts/src/parsers/ast.ts:57-404 | Two trees have the same shape if and only if they are equal up to wrappers and unpicked properties. |
| `AstShape.VisitErased` | packages/jsts/src/parsers/ast.ts:289-303 | The shape of a tree is the shape of the tree with the five wrapper kinds taken out. |
| `AstShape.Unwrapped` | packages/jsts/src/parsers/ast.ts:289-303 | An expression under any number of `as`, `satisfies`, `!` or `<T>`, and a parameter under an accessibility modifier, has the shape and the erasure that it has alone, and is well-typed if and only if it is so alone. |
| `AstEncoding.UnwrappedBytes` | packages/jsts/src/parsers/ast.ts:289-303 | It has the bytes that it has alone. |
| `AstShape.VisitedIsRuntime` | packages/jsts/src/parsers/ast.ts:289-303 | No wrapper occurs anywhere in a shape. |
| `AstEncoding.CodeTellsKind` | packages/jsts/src/parsers/estree.proto:18-91 | The number in a shape tells the kind of its node; nodes that the schema does not know have the number of unknown nodes, which no kind has. |
| `AstShape.PartsAreVisited` | packages/jsts/src/parsers/ast.ts:105-288 | The shape of a node has, under the same names, the shapes of all its children, lists entry by entry, and all its values. |
| `AstShape.VisitorsFillMessages` | packages/jsts/src/parsers/estree.proto:172-476 | The properties each visitor fills are exactly the fields of the message, with matching types, for every kind but literals. |
| `AstEncoding.ToInt32Exact` | packages/jsts/src/parsers/estree.proto:188 | A number survives the 32-bit field if and only if it is integral and below 2^31. |
| `AstEncoding.ToInt32LowBits` | packages/jsts/src/parsers/estree.proto:188 | The field gets the one number of its range that equals the integral part modulo 2^32. |
| `AstShape.VisitAll` | packages/jsts/src/parsers/ast.ts:405-410 | Lists keep their length and order, entry by entry. |
| `ProjectAnalysis.AnalyzeProject` | packages/jsts/src/analysis/projectAnalysis/projectAnalyzer.ts:41-84 | For acyclic references and any order of tsconfigs, every requested file is analysed exactly once, with the first program that lists it or without types if none does; the results have exactly the requested files; the program table is as before. It fails if and only if files are requested, watch programs are used, and some tsconfig is unreadable that is the first one or comes while a requested file is listed by none before it. The files without types are, in order, those that no program lists. Without watch programs, the programs on record are exactly those met up to the first tsconfig by which every requested file is listed, or up to the last one. |
| `ProjectAnalysis.AnalyzePending` | packages/jsts/src/analysis/projectAnalysis/projectAnalyzer.ts:74-83 | Both phases together, with the same results and the same condition of failure. |
| `ProjectAnalysis.WatchFailsIff` | packages/jsts/src/analysis/projectAnalysis/analyzeWithWatchProgram.ts:40-60 | Where the loop stops decides whether it had to fail: it throws if and only if some unreadable tsconfig comes first or while a requested file is unlisted. |
| `ProjectAnalysis.PendingIsUnlisted` | packages/jsts/src/analysis/projectAnalysis/analyzeWithWatchProgram.ts:42-59 | Files are pending after a run of programs of either kind if and only if some requested file is listed by none of them. |
| `ProjectAnalysis.StopsAtIff` | packages/jsts/src/analysis/projectAnalysis/analyzeWithProgram.ts:39-44 | The loop over tsconfigs ends behind the first one by which every requested file is listed. |
| `ProjectAnalysis.PendingInOrder` | packages/jsts/src/analysis/projectAnalysis/analyzeWithProgram.ts:61-73 | After any run of programs the pending files are those that none of them lists, in the order they had. |
| `ProjectAnalysis.AnalyzeWithTypes` | packages/jsts/src/analysis/projectAnalysis/projectAnalyzer.ts:74-80 | The phase with types meets a prefix of all programs and stops early only with nothing pending. |
| `ProjectAnalysis.AnalyzeWithProgram` | packages/jsts/src/analysis/projectAnalysis/analyzeWithProgram.ts:33-45 | The tsconfigs used are a prefix: the first one behind which nothing is pending any more, or all; the state is that of analysing, in order, all programs reached from that prefix; the program table is unchanged. |
| `ProjectAnalysis.AnalyzeProgram` | packages/jsts/src/analysis/projectAnalysis/analyzeWithProgram.ts:47-79 | One program and, recursively, its references: the files analysed, always with a live program, and the program table back to its contents. |
| `ProjectAnalysis.AnalyzeWithWatchProgram` | packages/jsts/src/analysis/projectAnalysis/analyzeWithWatchProgram.ts:34-61 | The tsconfigs used are a readable prefix; it ends early only if nothing is pending and throws only at an unreadable tsconfig met while files were pending (or at the first one). |
| `ProjectAnalysis.AnalyzeWithoutProgram` | packages/jsts/src/analysis/projectAnalysis/analyzeWithoutProgram.ts:28-42 | Exactly the pending files are analysed without types, in order, and listed. |
| `ProjectAnalysis.Analysis.AnalyzeRequested` | packages/jsts/src/analysis/projectAnalysis/analyzeWithProgram.ts:61-73 | The loop over the files of a program skips what is not requested or no longer pending. |
| `ProjectAnalysis.Analysis.AnalyzeFile` | packages/jsts/src/analysis/projectAnalysis/analyzeFile.ts:25-31 | Every call is recorded once and returns: its output carries the given or read content, the language or its default, and the types of the program that the identifier denotes at that moment, and an exception of the analysis is wrapped in it. |
| `ProjectAnalysis.ProgramTable.NextId` | packages/jsts/src/program/program.ts:203-212 | Identifiers strictly increase. |
| `ProjectAnalysis.ProgramTable.CreateAndSaveProgram` | packages/jsts/src/program/program.ts:219-226 | The identifier is new, the program is found under it, and all others stay; a failed creation changes nothing. |
| `ProjectAnalysis.ProgramTable.DeleteProgram` | packages/jsts/src/program/program.ts:246-248 | The program is not found any more, and all others stay. |
| `ProjectAnalysis.SplitStep` | packages/jsts/src/analysis/projectAnalysis/analyzeWithProgram.ts:63-72 | Every step keeps results and pending files a partition of the requested files, and no file is analysed twice. |
| `ProjectAnalysis.SplitListings` | packages/jsts/src/analysis/projectAnalysis/analyzeWithProgram.ts:39-79 | So does every run of programs. |
| `ProjectAnalysis.ListingsFile` | packages/jsts/src/analysis/projectAnalysis/analyzeWithProgram.ts:61-73 | Over any run of programs a file gets the output of the first one that lists it, or stays pending; a later one never changes it. |
| `ProjectAnalysis.EachFile` | packages/jsts/src/analysis/projectAnalysis/analyzeWithProgram.ts:61-73 | One program gives a pending file that it lists its output, with the types of that program, and leaves every other file as it was. |
| `ProjectAnalysis.CreatedPrograms` | packages/jsts/src/analysis/projectAnalysis/analyzeWithProgram.ts:60 | The programs on record are those met, in order; the watch variant records none. |
| `ProjectAnalysis.ProgramsReached` | packages/jsts/src/analysis/projectAnalysis/analyzeWithProgram.ts:47-79 | The programs of a run are those that a chain of references leads to from some tsconfig, all on the way usable; one for each chain, a program before those it refers to, and references in order. |
| `ProjectAnalysis.WatchListingsAt` | packages/jsts/src/analysis/projectAnalysis/analyzeWithWatchProgram.ts:40-46 | The watch variant meets one program for each tsconfig, with the files that its options name. |
| `ProjectAnalysis.FirstListingIff` | packages/jsts/src/analysis/projectAnalysis/analyzeWithProgram.ts:61-73 | The program of a file is the first of a run that lists it; there is none if and only if none lists it. |
| `ProjectAnalysis.FirstListingAppend` | packages/jsts/src/analysis/projectAnalysis/analyzeWithProgram.ts:39-44 | The first program of two runs is that of the first run, else that of the second. |
| `ProjectAnalysis.FileAfterPhases` | packages/jsts/src/analysis/projectAnalysis/projectAnalyzer.ts:74-82 | Ending early when nothing is pending changes no file's program. |
| `ProjectAnalysis.SplitCalls` | packages/jsts/src/analysis/projectAnalysis/projectAnalyzer.ts:64-82 | With the last phase every requested file has exactly one call. |
| `ProjectAnalysis.PhasesComplete` | packages/jsts/src/analysis/projectAnalysis/projectAnalyzer.ts:74-83 | The phases together give every requested file its final output. |
| `LinterConfig.Session` | packages/jsts/src/linter/wrapper.ts:135-187 | After one `init` and any sequence of `lint` calls, each call works with exactly the input rules that target its language and file type, in input order; interned keys are pairwise different in value, and there is one, with a configuration, for exactly the values with rules or requests. |
| `LinterConfig.LinterWrapper.LinterConfigurationKey` | packages/jsts/src/linter/wrapper.ts:104-114 | The unique interned object of a value: the stored one if there is one, else the argument. |
| `LinterConfig.LinterWrapper.GetConfig` | packages/jsts/src/linter/wrapper.ts:226-229 | By-identity lookup answers as a lookup by value would. |
| `LinterConfig.LinterWrapper.Lint` | packages/jsts/src/linter/wrapper.ts:161-173 | The configuration is that of the requested value; a hit changes nothing; a miss stores one entry that later calls find exactly when no equal key had been interned before. |
| `LinterConfig.LinterWrapper.StoreDefault` | packages/jsts/src/linter/wrapper.ts:169-173 | Storing under the object at hand is storing under the value exactly when the object is the interned one. |
| `LinterConfig.LinterWrapper.LintAll` | packages/jsts/src/linter/wrapper.ts:161-187 | Any sequence of requests is answered by value. |
| `LinterConfig.LinterWrapper.AddRuleUnder` | packages/jsts/src/linter/wrapper.ts:202-207 | One rule is appended to the group of one value. |
| `LinterConfig.LinterWrapper.AddRuleToTargets` | packages/jsts/src/linter/wrapper.ts:201-207 | A rule is appended to the groups of all its targets. |
| `LinterConfig.LinterWrapper.GroupRules` | packages/jsts/src/linter/wrapper.ts:199-208 | The map by identity refines the grouping by value. |
| `LinterConfig.LinterWrapper.CreateConfig` | packages/jsts/src/linter/wrapper.ts:197-224 | The identity-keyed map of configurations holds, for each value with rules, the configuration of its group under its interned key, and nothing else. |
| `LinterConfig.LinterWrapper.Init` | packages/jsts/src/linter/wrapper.ts:135-146 | Afterwards exactly the values with rules have a configuration. |
| `LinterConfig.AddRulesGet` | packages/jsts/src/linter/wrapper.ts:199-208 | Grouping by folding equals filtering: every group is the input rules that target it, in order, and empty groups do not exist. |
| `LinterConfig.AddRuleGet` | packages/jsts/src/linter/wrapper.ts:201-207 | What one rule adds to each group, also when it lists a target twice. |
| `LinterConfig.GroupMembers` | packages/jsts/src/linter/wrapper.ts:200-208 | A group's members are exactly the rules whose language, JavaScript by default, is that of the key and whose file types, one or several, include that of the key. |
| `LinterConfig.GroupTargets` | packages/jsts/src/linter/wrapper.ts:200-208 | A group has one entry for each target of each rule that is the key, in the order of the rules and of the targets of each. |
| `LinterConfig.ExpectedConfigs` | packages/jsts/src/linter/wrapper.ts:216-222 | Served by value, each request gets the configuration of exactly the rules that target it. |
| `LinterConfig.AskedBeforehand` | packages/jsts/src/linter/wrapper.ts:161-173 | After asking `getConfig` for an unknown key, every `lint` with it adds one more entry and never finds one. |

## Left out

- Files, HTTP, workers, logging, timers and memory statistics; reading a file always succeeds.
- ESLint, TypeScript, Babel, htmlparser2 and protobufjs. Scopes, code-path events, `childrenOf`, `createProgram` and
  `createProgramOptions` are inputs; the encoder is modelled from its documented handling of unknown and 32-bit fields.
- Analysis.AnalyzeFile: what the analysis of one file finds is not modelled, only what it is asked and whether it throws.
- AnalyzeProject: references must be acyclic, because the recursion over them has no visited set and would not end.
- LinterConfig.Session: covers one `init`; a second one, and the public `getConfig` in between, are stated separately by the methods themselves.
- ProgramTable identifiers are the counter's values, not their decimal strings.
- Rule messages, report locations, comments kept by the fix of S1488, decorators and all other rules.
- ImmediateReturn.FixPreservesMeaning: the guard also accepts `using x = e; return x;`, where the fix drops the disposal, and an anonymous function or class as initializer, whose `name` the fix changes; neither is part of the language. Functions do not nest, so a closure that captures the variable is not part of the language; the variable itself, which the fix removes, is exempt from the comparison.
- BooleanReturn.SuggestionRightIff: operators other than `!` belong to the environment and are only required to yield booleans where the language says so.
- MiniLang bounds the rounds of a loop by a number, for every such number; `for` and `do` loops, labels and generators are not in it.
- ImportSpecifiers works on tokens and on whether there is anything between them; names spelled `type`, `as` or `from` and import attributes are not modelled.
- The whole-statement suggestion of S1128 and the search for unused names.
- AstEncoding.RecoverableIff: 28 of the supported node kinds; template elements, whose properties are renamed, and infinite numbers are not among them, and required scalar fields are present. The other properties of a literal are a function of its text.
- The reader on the Java side, and what it makes of fields that are not set, is not part of this model.
- Braces.HighlightBraces: variables and HTML tags are highlighted by the same handler and are not modelled; tags are matched inexactly by design.
- The line table of YAML, the parser callbacks of HTML, and the parsing error patch.
- EmbeddedPatch.FixNodeLocation: a range beyond the end of the file, for which ESLint throws, gets a position by the table.
- Line numbers and offsets are unbounded; the encoder's positions fit 32 bits by their type.
