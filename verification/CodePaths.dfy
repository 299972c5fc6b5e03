/** S128: does a switch case fall through into the next one?
    `packages/jsts/src/rules/S128/rule.ts`. Segments are named by their (unique) identifiers. */
module CodePaths {
  import opened Common

  type SegmentId = string
  type CaseId = nat

  /** The code path segments built so far, with their `prevSegments`. */
  type Graph = map<SegmentId, seq<SegmentId>>

  ghost predicate Closed(g: Graph) {
    forall s, p :: s in g && p in g[s] ==> p in g
  }

  /** `path` walks along `prevSegments` from its first to its last segment and meets no exit call. */
  ghost predicate ExitFreePath(g: Graph, exits: set<SegmentId>, path: seq<SegmentId>) {
    && path != []
    && (forall i :: 0 <= i < |path| ==> path[i] in g && path[i] !in exits)
    && (forall i :: 0 <= i < |path| - 1 ==> path[i + 1] in g[path[i]])
  }

  /** Some exit-free path leads from `start` back to `initial`. */
  ghost predicate ReachesBack(g: Graph, exits: set<SegmentId>, start: SegmentId, initial: Option<SegmentId>) {
    initial.Some? &&
    exists path :: ExitFreePath(g, exits, path) && path[0] == start && path[|path| - 1] == initial.value
  }

  /** `p` lies on the stack above every copy of `v`. */
  ghost predicate AboveAllCopies(stack: seq<SegmentId>, p: SegmentId, v: SegmentId) {
    exists k :: 0 <= k < |stack| && stack[k] == p && forall j :: k <= j < |stack| ==> stack[j] != v
  }

  /** The depth-first invariant: an unvisited predecessor of an expanded segment waits above it. */
  ghost predicate PredecessorsWait(g: Graph, exits: set<SegmentId>, visited: set<SegmentId>, stack: seq<SegmentId>)
    requires visited <= g.Keys
  {
    forall v, p :: v in visited && v !in exits && p in g[v] && p !in visited ==> AboveAllCopies(stack, p, v)
  }

  /** A segment the search may still meet: some exit-free walk from `start` ends in one of its successors. */
  ghost predicate Discovered(g: Graph, exits: set<SegmentId>, start: SegmentId, s: SegmentId) {
    s == start ||
    exists path :: ExitFreePath(g, exits, path) && path[0] == start && s in g[path[|path| - 1]]
  }

  lemma DiscoveredExtends(g: Graph, exits: set<SegmentId>, start: SegmentId, s: SegmentId)
    requires s in g && s !in exits && Discovered(g, exits, start, s)
    ensures exists path :: ExitFreePath(g, exits, path) && path[0] == start && path[|path| - 1] == s
  {
    if s == start {
      assert ExitFreePath(g, exits, [s]);
    } else {
      var path :| ExitFreePath(g, exits, path) && path[0] == start && s in g[path[|path| - 1]];
      assert ExitFreePath(g, exits, path + [s]);
      assert (path + [s])[0] == start && (path + [s])[|path|] == s;
    }
  }

  /** If the expanded segments are closed under predecessors, an exit-free path never leaves them. */
  lemma {:induction false} PathStaysVisited(g: Graph, exits: set<SegmentId>, visited: set<SegmentId>,
      path: seq<SegmentId>)
    requires visited <= g.Keys && ExitFreePath(g, exits, path) && path[0] in visited
    requires forall v, p :: v in visited && v !in exits && p in g[v] ==> p in visited
    ensures path[|path| - 1] in visited
  {
    if |path| > 1 {
      var rest := path[1..];
      assert path[1] in g[path[0]];
      assert forall i :: 0 <= i < |rest| - 1 ==> rest[i + 1] in g[rest[i]] by {
        forall i | 0 <= i < |rest| - 1 ensures rest[i + 1] in g[rest[i]] {
          assert path[(i + 1) + 1] in g[path[i + 1]];
        }
      }
      PathStaysVisited(g, exits, visited, rest);
    }
  }

  function Unvisited(ps: seq<SegmentId>, visited: set<SegmentId>): (r: seq<SegmentId>)
    ensures forall p :: p in r <==> p in ps && p !in visited
  {
    if ps == [] then []
    else (if ps[0] in visited then [] else [ps[0]]) + Unvisited(ps[1..], visited)
  }

  /** What lies above `v` stays there when the popped segment gives way to others. */
  lemma StaysAbove(rest: seq<SegmentId>, popped: SegmentId, pushed: seq<SegmentId>, p: SegmentId, v: SegmentId)
    requires AboveAllCopies(rest + [popped], p, v) && p != popped && v !in pushed
    ensures AboveAllCopies(rest + pushed, p, v)
  {
    var before, after := rest + [popped], rest + pushed;
    var k :| 0 <= k < |before| && before[k] == p && forall j :: k <= j < |before| ==> before[j] != v;
    assert k < |rest| && after[k] == p;
    forall j | k <= j < |after| ensures after[j] != v {
      assert j < |rest| ==> after[j] == before[j];
      assert j >= |rest| ==> after[j] in pushed;
    }
  }

  lemma NothingAboveLast(rest: seq<SegmentId>, p: SegmentId, last: SegmentId)
    ensures !AboveAllCopies(rest + [last], p, last)
  {
    assert (rest + [last])[|rest|] == last;
  }

  lemma PushedIsAbove(rest: seq<SegmentId>, pushed: seq<SegmentId>, p: SegmentId, v: SegmentId)
    requires p in pushed && v !in pushed
    ensures AboveAllCopies(rest + pushed, p, v)
  {
    var after := rest + pushed;
    var i :| 0 <= i < |pushed| && pushed[i] == p;
    assert after[|rest| + i] == p;
    assert forall j :: |rest| + i <= j < |after| ==> after[j] == pushed[j - |rest|] && after[j] in pushed;
  }

  /** Popping `current` and pushing its unvisited predecessors keeps the depth-first invariant. */
  lemma ExpandKeepsWaiting(g: Graph, exits: set<SegmentId>, visited: set<SegmentId>, rest: seq<SegmentId>,
      current: SegmentId)
    requires Closed(g) && visited <= g.Keys && current in g
    requires PredecessorsWait(g, exits, visited, rest + [current])
    ensures var visited' := visited + {current};
            var pushed := if current in exits then [] else Unvisited(g[current], visited');
            && PredecessorsWait(g, exits, visited', rest + pushed)
            && (current in visited ==> pushed == [])
  {
    var visited' := visited + {current};
    var pushed := if current in exits then [] else Unvisited(g[current], visited');
    var before, after := rest + [current], rest + pushed;
    if pushed != [] && current in visited {
      assert pushed[0] in pushed && AboveAllCopies(before, pushed[0], current);
      NothingAboveLast(rest, pushed[0], current);
    }
    forall v, p | v in visited' && v !in exits && p in g[v] && p !in visited'
      ensures AboveAllCopies(after, p, v)
    {
      if v == current {
        PushedIsAbove(rest, pushed, p, current);
      } else {
        assert AboveAllCopies(before, p, v);
        StaysAbove(rest, current, pushed, p, v);
      }
    }
  }

  /** The backward search `isAfterProcessExitCall`; `initial` is `None` when the case never got a segment. */
  method IsAfterProcessExitCall(g: Graph, segmentsWithExit: set<SegmentId>, segment: SegmentId,
      initial: Option<SegmentId>)
    returns (r: bool)
    requires Closed(g) && segment in g
    ensures r == !ReachesBack(g, segmentsWithExit, segment, initial)
  {
    var stack := [segment];
    var visitedSegments: set<SegmentId> := {};
    while stack != []
      invariant forall s :: s in stack ==> s in g && Discovered(g, segmentsWithExit, segment, s)
      invariant visitedSegments <= g.Keys
      invariant segment in visitedSegments || segment in stack
      invariant initial.Some? && initial.value in visitedSegments ==> initial.value in segmentsWithExit
      invariant PredecessorsWait(g, segmentsWithExit, visitedSegments, stack)
      decreases g.Keys - visitedSegments, |stack|
    {
      var current := stack[|stack| - 1];
      ghost var before, visited := stack, visitedSegments;
      stack := stack[..|stack| - 1];
      ghost var rest := stack;
      assert before == rest + [current];
      assert current in before;
      ExpandKeepsWaiting(g, segmentsWithExit, visited, rest, current);
      visitedSegments := visitedSegments + {current};
      if current !in segmentsWithExit {
        DiscoveredExtends(g, segmentsWithExit, segment, current);
        if initial == Some(current) {
          return false;
        }
        var pushed := Unvisited(g[current], visitedSegments);
        stack := stack + pushed;
        forall s | s in stack ensures s in g && Discovered(g, segmentsWithExit, segment, s) {
          if s in rest {
            assert s in before;
          } else {
            assert s in pushed && s in g[current];
          }
        }
      } else {
        assert rest + [] == rest;
      }
    }
    if ReachesBack(g, segmentsWithExit, segment, initial) {
      var path :| ExitFreePath(g, segmentsWithExit, path) && path[0] == segment && path[|path| - 1] == initial.value;
      assert forall v, p :: v in visitedSegments && v !in segmentsWithExit && p in g[v] && p !in visitedSegments ==>
        AboveAllCopies(stack, p, v);
      PathStaysVisited(g, segmentsWithExit, visitedSegments, path);
    }
    return true;
  }

  /** The callbacks that change the rule's state, in the order ESLint delivers them. */
  datatype Event =
    | PathStart | PathEnd
    | SegmentStart(s: SegmentId) | SegmentEnd(s: SegmentId)
    | UnreachableStart(s: SegmentId) | UnreachableEnd(s: SegmentId)
    | ProcessExit
    | EnterCase(c: CaseId)

  datatype State = State(
    currentCodeSegment: Option<SegmentId>,
    enteringSwitchCase: bool,
    currentSegments: set<SegmentId>,
    allCurrentSegments: seq<set<SegmentId>>,
    segmentsWithExit: set<SegmentId>,
    initialSegmentBySwitchCase: map<CaseId, SegmentId>,
    switchCaseStack: seq<CaseId>)
  {
    predicate Valid() { enteringSwitchCase ==> switchCaseStack != [] }
  }

  const Start := State(None, false, {}, [], {}, map[], [])

  /** The events that the traversal may deliver in a state: paths nest, calls lie inside a segment. */
  predicate Enabled(st: State, e: Event) {
    match e
    case PathEnd => st.allCurrentSegments != []
    case ProcessExit => st.currentCodeSegment.Some?
    case _ => true
  }

  function Step(st: State, e: Event): State
    requires st.Valid() && Enabled(st, e)
  {
    match e
    case PathStart => st.(allCurrentSegments := st.allCurrentSegments + [st.currentSegments], currentSegments := {})
    case PathEnd =>
      var n := |st.allCurrentSegments| - 1;
      st.(currentSegments := st.allCurrentSegments[n], allCurrentSegments := st.allCurrentSegments[..n])
    case SegmentStart(s) =>
      var st' := st.(currentSegments := st.currentSegments + {s}, currentCodeSegment := Some(s));
      if st.enteringSwitchCase then
        var n := |st.switchCaseStack| - 1;
        st'.(initialSegmentBySwitchCase := st.initialSegmentBySwitchCase[st.switchCaseStack[n] := s],
             switchCaseStack := st.switchCaseStack[..n], enteringSwitchCase := false)
      else st'
    case SegmentEnd(s) => st.(currentSegments := st.currentSegments - {s})
    case UnreachableStart(s) => st.(currentSegments := st.currentSegments + {s})
    case UnreachableEnd(s) => st.(currentSegments := st.currentSegments - {s})
    case ProcessExit => st.(segmentsWithExit := st.segmentsWithExit + {st.currentCodeSegment.value})
    case EnterCase(c) => st.(enteringSwitchCase := true, switchCaseStack := st.switchCaseStack + [c])
  }

  predicate Runnable(st: State, events: seq<Event>)
    requires st.Valid()
    decreases |events|
  {
    events == [] || (Enabled(st, events[0]) && Runnable(Step(st, events[0]), events[1..]))
  }

  function Run(st: State, events: seq<Event>): (r: State)
    requires st.Valid() && Runnable(st, events)
    ensures r.Valid()
    decreases |events|
  {
    if events == [] then st else Run(Step(st, events[0]), events[1..])
  }

  lemma {:induction false} RunAppend(st: State, a: seq<Event>, b: seq<Event>)
    requires st.Valid() && Runnable(st, a + b)
    ensures Runnable(st, a) && Runnable(Run(st, a), b) && Run(st, a + b) == Run(Run(st, a), b)
    decreases |a|
  {
    if a == [] {
      assert a + b == b;
    } else {
      assert (a + b)[1..] == a[1..] + b;
      RunAppend(Step(st, a[0]), a[1..], b);
    }
  }

  /** `depth` code paths are open when `events` begin, and all of them are closed when they end. */
  predicate Nested(events: seq<Event>, depth: nat)
    decreases |events|
  {
    if events == [] then depth == 0
    else match events[0]
      case PathStart => Nested(events[1..], depth + 1)
      case PathEnd => depth > 0 && Nested(events[1..], depth - 1)
      case _ => Nested(events[1..], depth)
  }

  /** Closing `depth` open paths removes exactly their saved sets, whatever happens in between. */
  lemma {:induction false} NestedRestores(st: State, events: seq<Event>, depth: nat)
    requires st.Valid() && Runnable(st, events) && Nested(events, depth) && depth <= |st.allCurrentSegments|
    ensures Run(st, events).allCurrentSegments == st.allCurrentSegments[..|st.allCurrentSegments| - depth]
    decreases |events|
  {
    if events != [] {
      var st' := Step(st, events[0]);
      match events[0] {
        case PathStart => NestedRestores(st', events[1..], depth + 1);
        case PathEnd => NestedRestores(st', events[1..], depth - 1);
        case _ => NestedRestores(st', events[1..], depth);
      }
    }
  }

  predicate Starts(e: Event, s: SegmentId) { e == SegmentStart(s) || e == UnreachableStart(s) }

  predicate Ends(e: Event, s: SegmentId) { e == SegmentEnd(s) || e == UnreachableEnd(s) }

  /** Event `i` belongs to the code path that is the innermost open one when the events end. */
  predicate OnPath(events: seq<Event>, i: nat)
    requires i < |events|
  {
    Nested(events[i + 1..], 0)
  }

  /** On that path, nothing behind event `i` ends the segment. */
  ghost predicate NoEndBehind(events: seq<Event>, i: int, s: SegmentId) {
    forall j: nat :: i < j < |events| && Ends(events[j], s) ==> !OnPath(events, j)
  }

  /** On that path, the last event that names the segment starts it. */
  ghost predicate LeftOpen(events: seq<Event>, s: SegmentId) {
    exists i: nat :: i < |events| && Starts(events[i], s) && OnPath(events, i) && NoEndBehind(events, i, s)
  }

  /** The current segments of the path that `closed` open ones lie within. */
  function SegmentsBehind(st: State, closed: nat): set<SegmentId> {
    if closed == 0 then st.currentSegments
    else if closed <= |st.allCurrentSegments| then st.allCurrentSegments[|st.allCurrentSegments| - closed]
    else {}
  }

  /** That path was open before the events, the segment was current on it, and nothing on it ends the segment. */
  ghost predicate KeptOpen(st: State, events: seq<Event>, s: SegmentId) {
    NoEndBehind(events, -1, s) && OpenBefore(st, events, s)
  }

  ghost predicate OpenBefore(st: State, events: seq<Event>, s: SegmentId) {
    exists closed: nat :: Nested(events, closed) && s in SegmentsBehind(st, closed)
  }

  lemma {:induction false} NestedOnce(events: seq<Event>, a: nat, b: nat)
    requires Nested(events, a) && Nested(events, b)
    ensures a == b
    decreases |events|
  {
    if events != [] {
      match events[0] {
        case PathStart => NestedOnce(events[1..], a + 1, b + 1);
        case PathEnd => NestedOnce(events[1..], a - 1, b - 1);
        case _ => NestedOnce(events[1..], a, b);
      }
    }
  }

  lemma OnPathBehind(events: seq<Event>, i: nat)
    requires 0 < i < |events|
    ensures events[i] == events[1..][i - 1] && OnPath(events, i) == OnPath(events[1..], i - 1)
  {
    assert events[1..][i..] == events[i + 1..];
  }

  lemma NoEndBehindFirst(events: seq<Event>, i: nat, s: SegmentId)
    requires i < |events|
    ensures NoEndBehind(events, i, s) == NoEndBehind(events[1..], i - 1, s)
  {
    var rest := events[1..];
    if NoEndBehind(events, i, s) {
      forall j: nat | i - 1 < j < |rest| && Ends(rest[j], s) ensures !OnPath(rest, j) {
        OnPathBehind(events, j + 1);
      }
    }
    if NoEndBehind(rest, i - 1, s) {
      forall j: nat | i < j < |events| && Ends(events[j], s) ensures !OnPath(events, j) {
        OnPathBehind(events, j);
      }
    }
  }

  lemma LeftOpenFromFirst(events: seq<Event>, s: SegmentId)
    requires events != []
    ensures LeftOpen(events, s) <==>
      LeftOpen(events[1..], s) || (Starts(events[0], s) && OnPath(events, 0) && NoEndBehind(events, 0, s))
  {
    var rest := events[1..];
    if LeftOpen(rest, s) {
      var i: nat :| i < |rest| && Starts(rest[i], s) && OnPath(rest, i) && NoEndBehind(rest, i, s);
      OnPathBehind(events, i + 1);
      NoEndBehindFirst(events, i + 1, s);
    }
    if LeftOpen(events, s) {
      var i: nat :| i < |events| && Starts(events[i], s) && OnPath(events, i) && NoEndBehind(events, i, s);
      if i > 0 {
        OnPathBehind(events, i);
        NoEndBehindFirst(events, i, s);
      }
    }
  }

  lemma NoEndFromFirst(events: seq<Event>, s: SegmentId)
    requires events != []
    ensures NoEndBehind(events, -1, s) <==>
      NoEndBehind(events, 0, s) && (Ends(events[0], s) ==> !OnPath(events, 0))
  {
  }

  /** One event more before the others. */
  lemma OpenBeforeStep(st: State, events: seq<Event>, s: SegmentId)
    requires st.Valid() && events != [] && Enabled(st, events[0])
    ensures OpenBefore(Step(st, events[0]), events[1..], s) <==>
      if OnPath(events, 0) && Starts(events[0], s) then true
      else if OnPath(events, 0) && Ends(events[0], s) then false
      else OpenBefore(st, events, s)
  {
    var e, rest, st' := events[0], events[1..], Step(st, events[0]);
    if OpenBefore(st, events, s) {
      var c: nat :| Nested(events, c) && s in SegmentsBehind(st, c);
      var d := match e case PathStart => c + 1 case PathEnd => c - 1 case _ => c;
      assert Nested(rest, d);
      assert !Ends(e, s) || d > 0 ==> s in SegmentsBehind(st', d);
    }
    if OpenBefore(st', rest, s) {
      var d: nat :| Nested(rest, d) && s in SegmentsBehind(st', d);
      if OnPath(events, 0) {
        NestedOnce(rest, d, 0);
      }
      var c := match e case PathStart => d - 1 case PathEnd => d + 1 case _ => d;
      if !(OnPath(events, 0) && Starts(e, s)) {
        assert c >= 0 && Nested(events, c) && s in SegmentsBehind(st, c);
      }
    }
    if OnPath(events, 0) && Starts(e, s) {
      assert s in SegmentsBehind(st', 0);
    }
  }

  /** Over every run: a segment is current exactly when, on the path open at the end, the last event that names it
      starts it, or none names it and it was current on that path before. */
  lemma {:induction false} CurrentIff(st: State, events: seq<Event>, s: SegmentId)
    requires st.Valid() && Runnable(st, events)
    ensures s in Run(st, events).currentSegments <==> LeftOpen(events, s) || KeptOpen(st, events, s)
    decreases |events|
  {
    if events == [] {
      assert Nested(events, 0);
      assert s in st.currentSegments ==> s in SegmentsBehind(st, 0);
    } else {
      CurrentIff(Step(st, events[0]), events[1..], s);
      LeftOpenFromFirst(events, s);
      NoEndBehindFirst(events, 0, s);
      NoEndFromFirst(events, s);
      OpenBeforeStep(st, events, s);
    }
  }

  predicate WithinPath(events: seq<Event>) {
    PathStart !in events && PathEnd !in events
  }

  lemma {:induction false} WithinPathIsNested(events: seq<Event>)
    requires WithinPath(events)
    ensures Nested(events, 0)
  {
    if events != [] {
      assert events[0] in events;
      WithinPathIsNested(events[1..]);
    }
  }

  /** Without nested paths, the last event that names a segment decides. */
  lemma CurrentWithinPath(st: State, events: seq<Event>, s: SegmentId)
    requires st.Valid() && Runnable(st, events) && WithinPath(events)
    ensures s in Run(st, events).currentSegments <==>
      if SegmentStart(s) in events || UnreachableStart(s) in events
         || SegmentEnd(s) in events || UnreachableEnd(s) in events
      then exists i: nat :: i < |events| && Starts(events[i], s) && forall j :: i < j < |events| ==> !Ends(events[j], s)
      else s in st.currentSegments
  {
    forall i: nat | i < |events| ensures OnPath(events, i) {
      WithinPathIsNested(events[i + 1..]);
    }
    WithinPathIsNested(events);
    CurrentIff(st, events, s);
    if OpenBefore(st, events, s) {
      var closed: nat :| Nested(events, closed) && s in SegmentsBehind(st, closed);
      NestedOnce(events, closed, 0);
    }
    if s in st.currentSegments {
      assert s in SegmentsBehind(st, 0);
    }
  }

  /** A path begins with no current segments. */
  lemma CurrentInsidePath(st: State, before: seq<Event>, body: seq<Event>, s: SegmentId)
    requires st.Valid() && Runnable(st, before + [PathStart] + body) && Nested(body, 0)
    ensures s in Run(st, before + [PathStart] + body).currentSegments <==> LeftOpen(body, s)
  {
    RunAppend(st, before + [PathStart], body);
    RunAppend(st, before, [PathStart]);
    var inside := Run(st, before + [PathStart]);
    assert inside.currentSegments == {} by {
      assert [PathStart][1..] == [];
    }
    CurrentIff(inside, body, s);
    if OpenBefore(inside, body, s) {
      var closed: nat :| Nested(body, closed) && s in SegmentsBehind(inside, closed);
      NestedOnce(body, closed, 0);
    }
  }

  predicate StartsSegment(events: seq<Event>) {
    exists e :: e in events && e.SegmentStart?
  }

  /** The last reachable segment that the events start. */
  function LastStarted(events: seq<Event>, before: Option<SegmentId>): Option<SegmentId> {
    if events == [] then before
    else LastStarted(events[1..], if events[0].SegmentStart? then Some(events[0].s) else before)
  }

  lemma {:induction false} CurrentCodeSegmentIsLastStarted(st: State, events: seq<Event>)
    requires st.Valid() && Runnable(st, events)
    ensures Run(st, events).currentCodeSegment == LastStarted(events, st.currentCodeSegment)
    decreases |events|
  {
    if events != [] {
      CurrentCodeSegmentIsLastStarted(Step(st, events[0]), events[1..]);
    }
  }

  lemma {:induction false} LastStartedIsStarted(events: seq<Event>, before: Option<SegmentId>)
    ensures var r := LastStarted(events, before);
            if StartsSegment(events) then r.Some? && SegmentStart(r.value) in events else r == before
  {
    if events != [] {
      LastStartedIsStarted(events[1..], if events[0].SegmentStart? then Some(events[0].s) else before);
      assert forall e :: e in events <==> e == events[0] || e in events[1..];
    }
  }

  ghost predicate MarkedBy(before: Option<SegmentId>, events: seq<Event>, s: SegmentId) {
    exists i: nat :: i < |events| && events[i] == ProcessExit && LastStarted(events[..i], before) == Some(s)
  }

  /** Over every run: what is marked are the segments started last before some exit call. */
  lemma {:induction false} MarkedIff(st: State, events: seq<Event>, s: SegmentId)
    requires st.Valid() && Runnable(st, events)
    ensures s in Run(st, events).segmentsWithExit <==>
      s in st.segmentsWithExit || MarkedBy(st.currentCodeSegment, events, s)
    decreases |events|
  {
    if events != [] {
      var st', rest := Step(st, events[0]), events[1..];
      MarkedIff(st', rest, s);
      assert events[..0] == [];
      forall i: nat | 0 < i < |events|
        ensures LastStarted(events[..i], st.currentCodeSegment) == LastStarted(rest[..i - 1], st'.currentCodeSegment)
      {
        assert events[..i][1..] == rest[..i - 1];
      }
      if MarkedBy(st'.currentCodeSegment, rest, s) {
        var i: nat :| i < |rest| && rest[i] == ProcessExit && LastStarted(rest[..i], st'.currentCodeSegment) == Some(s);
        assert events[i + 1] == ProcessExit;
      }
      if MarkedBy(st.currentCodeSegment, events, s) {
        var i: nat :|
          i < |events| && events[i] == ProcessExit && LastStarted(events[..i], st.currentCodeSegment) == Some(s);
        assert i > 0 ==> rest[i - 1] == ProcessExit;
      }
    }
  }

  /** Over every run, where `currentSegments` are the segments that an exit call then lies in: the call marks the last
      segment started. So all of its own are marked exactly when no other one is still unmarked, nothing else is marked
      exactly when that one is among them or was marked before, and the two together make it exact. */
  lemma ExitMarksOwnIff(st: State, events: seq<Event>)
    requires st.Valid() && Runnable(st, events) && Enabled(Run(st, events), ProcessExit)
    ensures var last, now := LastStarted(events, st.currentCodeSegment), Run(st, events);
            var own, before := now.currentSegments, now.segmentsWithExit;
            var after := Step(now, ProcessExit).segmentsWithExit;
            && last.Some? && after == before + {last.value}
            && (own <= after <==> own - before <= {last.value})
            && (after <= before + own <==> last.value in own + before)
            && (after == before + own <==> Exact(now))
  {
    CurrentCodeSegmentIsLastStarted(st, events);
    ExactIff(Run(st, events));
  }

  /** The only segment that an exit call lies in is the last one started, marked segments aside. */
  predicate Exact(st: State) {
    && st.currentCodeSegment.Some?
    && st.currentSegments - st.segmentsWithExit == {st.currentCodeSegment.value} - st.segmentsWithExit
  }

  lemma ExactIff(st: State)
    requires st.Valid() && Enabled(st, ProcessExit)
    ensures Step(st, ProcessExit).segmentsWithExit == st.segmentsWithExit + st.currentSegments <==> Exact(st)
  {
    var own, before, c := st.currentSegments, st.segmentsWithExit, st.currentCodeSegment.value;
    assert own - before == (before + own) - before && {c} - before == (before + {c}) - before;
    assert before + own == before + (own - before) && before + {c} == before + ({c} - before);
  }

  /** The marks an exit call should leave: on every segment it lies in. */
  function Mark(st: State, marks: set<SegmentId>, e: Event): set<SegmentId> {
    if e.ProcessExit? then marks + st.currentSegments else marks
  }

  /** The marks that all exit calls of a run should leave, on top of `marks`. */
  function Intended(st: State, marks: set<SegmentId>, events: seq<Event>): set<SegmentId>
    requires st.Valid() && Runnable(st, events)
    decreases |events|
  {
    if events == [] then marks else Intended(Step(st, events[0]), Mark(st, marks, events[0]), events[1..])
  }

  /** After each event of the run, the rule has marked just the segments it should have. */
  predicate MarksAgree(st: State, marks: set<SegmentId>, events: seq<Event>)
    requires st.Valid() && Runnable(st, events)
    decreases |events|
  {
    && marks == st.segmentsWithExit
    && (events == [] || MarksAgree(Step(st, events[0]), Mark(st, marks, events[0]), events[1..]))
  }

  predicate EveryExitExact(st: State, events: seq<Event>)
    requires st.Valid() && Runnable(st, events)
    decreases |events|
  {
    events == [] || ((events[0].ProcessExit? ==> Exact(st)) && EveryExitExact(Step(st, events[0]), events[1..]))
  }

  /** Over a whole run: the marks are the intended ones throughout if and only if every exit call is exact. */
  lemma {:induction false} MarksAgreeIff(st: State, events: seq<Event>)
    requires st.Valid() && Runnable(st, events)
    ensures MarksAgree(st, st.segmentsWithExit, events) <==> EveryExitExact(st, events)
    ensures EveryExitExact(st, events) ==>
      Run(st, events).segmentsWithExit == Intended(st, st.segmentsWithExit, events)
    decreases |events|
  {
    if events != [] {
      if events[0].ProcessExit? {
        ExactIff(st);
      }
      MarksAgreeIff(Step(st, events[0]), events[1..]);
    }
  }

  /** A complete nested code path, such as a function expression, leaves the outer path's segments alone. */
  lemma NestedPathIsTransparent(st: State, body: seq<Event>)
    requires st.Valid() && Nested(body, 0) && Runnable(st, [PathStart] + body + [PathEnd])
    ensures var r := Run(st, [PathStart] + body + [PathEnd]);
            r.currentSegments == st.currentSegments && r.allCurrentSegments == st.allCurrentSegments
  {
    RunAppend(st, [PathStart] + body, [PathEnd]);
    RunAppend(st, [PathStart], body);
    NestedRestores(Step(st, PathStart), body, 0);
  }

  /** `currentCodeSegment` is not restored: an exit call behind a nested path lies in the segments from before it, and
      marks them all exactly when none is still unmarked, but for the one that was the last one started if no segment
      was started inside the path. */
  lemma ExitAfterNestedPath(st: State, body: seq<Event>)
    requires st.Valid() && Nested(body, 0) && Runnable(st, [PathStart] + body + [PathEnd])
    requires st.currentCodeSegment.Some? && forall s :: s in st.currentSegments ==> SegmentStart(s) !in body
    ensures var now := Run(st, [PathStart] + body + [PathEnd]);
            && now.currentSegments == st.currentSegments && Enabled(now, ProcessExit)
            && (now.currentSegments <= Step(now, ProcessExit).segmentsWithExit <==>
                  st.currentSegments - now.segmentsWithExit
                    <= if StartsSegment(body) then {} else {st.currentCodeSegment.value})
  {
    var path := [PathStart] + body + [PathEnd];
    NestedPathIsTransparent(st, body);
    CurrentCodeSegmentIsLastStarted(st, path);
    LastStartedIsStarted(path, st.currentCodeSegment);
    assert forall e :: e in path <==> e == PathStart || e in body || e == PathEnd;
    ExitMarksOwnIff(st, path);
  }

  /** Starting unreachable code does not change `currentCodeSegment`: an exit call in a dead segment marks the live one
      started before it, and never its own. */
  lemma ExitInDeadCode(st: State, live: SegmentId, dead: SegmentId)
    requires st.Valid() && st.currentCodeSegment == Some(live) && live != dead && dead !in st.segmentsWithExit
    ensures var now := Step(st, UnreachableStart(dead));
            && Enabled(now, ProcessExit) && dead in now.currentSegments && !Exact(now)
            && Step(now, ProcessExit).segmentsWithExit == st.segmentsWithExit + {live}
  {
    var now := Step(st, UnreachableStart(dead));
    assert dead in now.currentSegments - now.segmentsWithExit;
  }

  lemma {:induction false} NoExitCall(st: State, events: seq<Event>)
    requires st.Valid() && Runnable(st, events) && ProcessExit !in events
    ensures Run(st, events).segmentsWithExit == st.segmentsWithExit
    decreases |events|
  {
    if events != [] {
      NoExitCall(Step(st, events[0]), events[1..]);
    }
  }

  predicate Quiet(e: Event) { !e.EnterCase? && !e.SegmentStart? }

  lemma {:induction false} QuietKeepsCases(st: State, events: seq<Event>)
    requires st.Valid() && Runnable(st, events) && forall e :: e in events ==> Quiet(e)
    ensures var r := Run(st, events);
            && r.enteringSwitchCase == st.enteringSwitchCase
            && r.switchCaseStack == st.switchCaseStack
            && r.initialSegmentBySwitchCase == st.initialSegmentBySwitchCase
    decreases |events|
  {
    if events != [] {
      assert events[0] in events;
      QuietKeepsCases(Step(st, events[0]), events[1..]);
    }
  }

  lemma {:induction false} SettledCaseStays(st: State, events: seq<Event>, c: CaseId)
    requires st.Valid() && Runnable(st, events) && EnterCase(c) !in events
    requires c !in st.switchCaseStack
    ensures var r := Run(st, events).initialSegmentBySwitchCase;
            (c in r <==> c in st.initialSegmentBySwitchCase) && (c in r ==> r[c] == st.initialSegmentBySwitchCase[c])
    decreases |events|
  {
    if events != [] {
      assert events[0] in events;
      SettledCaseStays(Step(st, events[0]), events[1..], c);
    }
  }

  lemma StartedIsCurrent(st: State, before: seq<Event>, s: SegmentId)
    requires st.Valid() && Runnable(st, before + [SegmentStart(s)])
    ensures s in Run(st, before + [SegmentStart(s)]).currentSegments
  {
    var events := before + [SegmentStart(s)];
    assert events[|before|] == SegmentStart(s) && Starts(events[|before|], s);
    assert OnPath(events, |before|) && NoEndBehind(events, |before|, s);
    CurrentIff(st, events, s);
  }

  /** Entered, with no other case entered in between, a case gets the next segment started as its initial one, which
      stays so unless the case is entered again, however many abandoned cases the stack still holds. When it starts,
      it is current. */
  lemma InitialSegmentIsFirstStarted(st: State, c: CaseId, quiet: seq<Event>, s: SegmentId, rest: seq<Event>)
    requires st.Valid() && Runnable(st, [EnterCase(c)] + quiet + [SegmentStart(s)] + rest)
    requires c !in st.switchCaseStack && EnterCase(c) !in rest
    requires forall e :: e in quiet ==> Quiet(e)
    ensures var r := Run(st, [EnterCase(c)] + quiet + [SegmentStart(s)] + rest);
            c in r.initialSegmentBySwitchCase && r.initialSegmentBySwitchCase[c] == s
    ensures var entered := [EnterCase(c)] + quiet + [SegmentStart(s)];
            Runnable(st, entered) && s in Run(st, entered).currentSegments
  {
    var a := [EnterCase(c)] + quiet;
    RunAppend(st, a + [SegmentStart(s)], rest);
    StartedIsCurrent(st, a, s);
    RunAppend(st, a, [SegmentStart(s)]);
    RunAppend(st, [EnterCase(c)], quiet);
    var entered := Step(st, EnterCase(c));
    QuietKeepsCases(entered, quiet);
    var started := Step(Run(entered, quiet), SegmentStart(s));
    assert started.switchCaseStack == st.switchCaseStack;
    SettledCaseStays(started, rest, c);
  }

  /** Some other case waits for its first segment. */
  predicate Overtaken(st: State, c: CaseId) {
    st.enteringSwitchCase && st.switchCaseStack != [] && st.switchCaseStack[|st.switchCaseStack| - 1] != c
  }

  lemma {:induction false} LastEnteredWaits(st: State, events: seq<Event>, c: CaseId)
    requires st.Valid() && Runnable(st, events) && EnterCase(c) !in events
    requires forall e :: e in events ==> !e.SegmentStart?
    ensures Overtaken(st, c) || (exists e :: e in events && e.EnterCase?) ==> Overtaken(Run(st, events), c)
    ensures c !in st.initialSegmentBySwitchCase ==> c !in Run(st, events).initialSegmentBySwitchCase
    decreases |events|
  {
    if events != [] {
      assert events[0] in events;
      assert forall e :: e in events <==> e == events[0] || e in events[1..];
      LastEnteredWaits(Step(st, events[0]), events[1..], c);
    }
  }

  /** A case that is not the waiting one gets no segment any more. */
  lemma {:induction false} BuriedCaseHasNoSegment(st: State, events: seq<Event>, c: CaseId)
    requires st.Valid() && Runnable(st, events) && EnterCase(c) !in events
    requires !st.enteringSwitchCase || Overtaken(st, c)
    requires c !in st.initialSegmentBySwitchCase
    ensures c !in Run(st, events).initialSegmentBySwitchCase
    decreases |events|
  {
    if events != [] {
      assert events[0] in events;
      BuriedCaseHasNoSegment(Step(st, events[0]), events[1..], c);
    }
  }

  lemma Regroup<T>(a: seq<T>, b: seq<T>, c: seq<T>)
    ensures a + b + c == a + (b + c)
  {
  }

  lemma OvertakenCaseHasNoSegment(st: State, c: CaseId, between: seq<Event>, rest: seq<Event>)
    requires st.Valid() && Runnable(st, [EnterCase(c)] + between + rest)
    requires c !in st.initialSegmentBySwitchCase && EnterCase(c) !in between && EnterCase(c) !in rest
    requires (forall e :: e in between ==> !e.SegmentStart?) && exists e :: e in between && e.EnterCase?
    ensures c !in Run(st, [EnterCase(c)] + between + rest).initialSegmentBySwitchCase
  {
    RunAppend(st, [EnterCase(c)] + between, rest);
    RunAppend(st, [EnterCase(c)], between);
    var entered := Step(st, EnterCase(c));
    assert [EnterCase(c)][1..] == [];
    LastEnteredWaits(entered, between, c);
    BuriedCaseHasNoSegment(Run(entered, between), rest, c);
  }

  /** Of a case entered once: it ever gets an initial segment exactly when no other case is entered before the next
      segment starts, and then it is that segment. */
  lemma InitialSegmentIff(st: State, c: CaseId, between: seq<Event>, s: SegmentId, rest: seq<Event>)
    requires st.Valid() && Runnable(st, [EnterCase(c)] + between + [SegmentStart(s)] + rest)
    requires c !in st.switchCaseStack && c !in st.initialSegmentBySwitchCase
    requires EnterCase(c) !in between && EnterCase(c) !in rest && forall e :: e in between ==> !e.SegmentStart?
    ensures var r := Run(st, [EnterCase(c)] + between + [SegmentStart(s)] + rest).initialSegmentBySwitchCase;
            && (c in r <==> forall e :: e in between ==> !e.EnterCase?)
            && (c in r ==> r[c] == s)
  {
    if forall e :: e in between ==> !e.EnterCase? {
      InitialSegmentIsFirstStarted(st, c, between, s, rest);
    } else {
      Regroup([EnterCase(c)] + between, [SegmentStart(s)], rest);
      OvertakenCaseHasNoSegment(st, c, between, [SegmentStart(s)] + rest);
    }
  }

  /** What the exit handler reads from the tree for one `case`. */
  datatype CaseInfo = CaseInfo(id: CaseId, consequentLength: nat, isLast: bool, noComment: bool)

  /** The `SwitchCase:exit` decision, in terms of paths. */
  ghost predicate FallsThrough(st: State, g: Graph, reachable: set<SegmentId>, info: CaseInfo) {
    && AnyReachesBack(st.currentSegments, reachable, g, st.segmentsWithExit, InitialOf(st, info.id))
    && info.consequentLength > 0 && !info.isLast && info.noComment
  }

  ghost predicate AnyReachesBack(
    segments: set<SegmentId>, reachable: set<SegmentId>, g: Graph, exits: set<SegmentId>, initial: Option<SegmentId>)
  {
    exists s :: s in segments && s in reachable && ReachesBack(g, exits, s, initial)
  }

  function InitialOf(st: State, c: CaseId): Option<SegmentId> {
    if c in st.initialSegmentBySwitchCase then Some(st.initialSegmentBySwitchCase[c]) else None
  }

  lemma RunCons(st: State, e: Event, rest: seq<Event>)
    requires st.Valid() && Enabled(st, e) && Runnable(Step(st, e), rest)
    ensures Runnable(st, [e] + rest) && Run(st, [e] + rest) == Run(Step(st, e), rest)
  {
    assert ([e] + rest)[1..] == rest;
  }

  /** One more event at the end of a run. */
  lemma {:induction false} RunSnoc(st: State, marks: set<SegmentId>, a: seq<Event>, e: Event)
    requires st.Valid() && Runnable(st, a) && Enabled(Run(st, a), e)
    ensures Runnable(st, a + [e]) && Run(st, a + [e]) == Step(Run(st, a), e)
    ensures Intended(st, marks, a + [e]) == Mark(Run(st, a), Intended(st, marks, a), e)
    decreases |a|
  {
    assert [e][1..] == [];
    if a == [] {
      assert a + [e] == [e];
    } else {
      assert (a + [e])[0] == a[0] && (a + [e])[1..] == a[1..] + [e];
      RunSnoc(Step(st, a[0]), Mark(st, marks, a[0]), a[1..], e);
    }
  }

  /** In `case 0:`, at the beginning. */
  const IN_CASE := State(Some("case"), false, {"case"}, [], {}, map[0 := "case"], [])

  /** The report on the case that ends now, if the marks were these. */
  ghost predicate FallsThroughWith(st: State, marks: set<SegmentId>, g: Graph, reachable: set<SegmentId>,
      info: CaseInfo)
  {
    FallsThrough(st.(segmentsWithExit := marks), g, reachable, info)
  }

  /** `case 0: f(function () {}); process.exit(1);` */
  const EXIT_AFTER_CALLBACK := [PathStart, SegmentStart("callback"), PathEnd, ProcessExit]

  lemma RunExitAfterCallback()
    ensures Runnable(IN_CASE, EXIT_AFTER_CALLBACK)
    ensures Run(IN_CASE, EXIT_AFTER_CALLBACK) ==
      IN_CASE.(currentCodeSegment := Some("callback"), segmentsWithExit := {"callback"})
    ensures Intended(IN_CASE, {}, EXIT_AFTER_CALLBACK) == {"case"}
  {
    var a := EXIT_AFTER_CALLBACK;
    RunSnoc(IN_CASE, {}, [], a[0]);
    assert [] + [a[0]] == [a[0]];
    assert Run(IN_CASE, [a[0]]) == IN_CASE.(currentSegments := {}, allCurrentSegments := [{"case"}]);
    RunSnoc(IN_CASE, {}, [a[0]], a[1]);
    assert [a[0]] + [a[1]] == [a[0], a[1]];
    assert Run(IN_CASE, [a[0], a[1]]).allCurrentSegments == [{"case"}];
    RunSnoc(IN_CASE, {}, [a[0], a[1]], a[2]);
    assert [a[0], a[1]] + [a[2]] == [a[0], a[1], a[2]];
    assert Run(IN_CASE, [a[0], a[1], a[2]]) == IN_CASE.(currentCodeSegment := Some("callback"));
    RunSnoc(IN_CASE, {}, [a[0], a[1], a[2]], a[3]);
    assert [a[0], a[1], a[2]] + [a[3]] == a;
  }

  /** The case ends there, and is reported all the same; with the right marks it would not be. */
  lemma ExitAfterCallbackIsMissed()
    ensures Runnable(IN_CASE, EXIT_AFTER_CALLBACK)
    ensures var now, marks := Run(IN_CASE, EXIT_AFTER_CALLBACK), Intended(IN_CASE, {}, EXIT_AFTER_CALLBACK);
            var g: Graph := map["head" := [], "case" := ["head"], "callback" := []];
            var reachable, info := {"head", "case"}, CaseInfo(0, 2, false, true);
            FallsThrough(now, g, reachable, info) && !FallsThroughWith(now, marks, g, reachable, info)
  {
    RunExitAfterCallback();
    var g: Graph := map["head" := [], "case" := ["head"], "callback" := []];
    assert ExitFreePath(g, {"callback"}, ["case"]);
    assert ReachesBack(g, {"callback"}, "case", Some("case"));
  }

  /** `case 0: try { throw 1; process.exit(); } catch (_) { f(); }` */
  const EXIT_IN_DEAD_CODE :=
    [SegmentEnd("case"), UnreachableStart("dead"), ProcessExit, UnreachableEnd("dead"), SegmentStart("catch")]

  lemma RunExitInDeadCode()
    ensures Runnable(IN_CASE, EXIT_IN_DEAD_CODE)
    ensures Run(IN_CASE, EXIT_IN_DEAD_CODE) ==
      IN_CASE.(currentCodeSegment := Some("catch"), currentSegments := {"catch"}, segmentsWithExit := {"case"})
    ensures Intended(IN_CASE, {}, EXIT_IN_DEAD_CODE) == {"dead"}
  {
    var a := EXIT_IN_DEAD_CODE;
    RunSnoc(IN_CASE, {}, [], a[0]);
    assert [] + [a[0]] == [a[0]];
    RunSnoc(IN_CASE, {}, [a[0]], a[1]);
    assert [a[0]] + [a[1]] == [a[0], a[1]];
    RunSnoc(IN_CASE, {}, [a[0], a[1]], a[2]);
    assert [a[0], a[1]] + [a[2]] == [a[0], a[1], a[2]];
    RunSnoc(IN_CASE, {}, [a[0], a[1], a[2]], a[3]);
    assert [a[0], a[1], a[2]] + [a[3]] == [a[0], a[1], a[2], a[3]];
    RunSnoc(IN_CASE, {}, [a[0], a[1], a[2], a[3]], a[4]);
    assert [a[0], a[1], a[2], a[3]] + [a[4]] == a;
  }

  /** The case falls through, but the call in dead code hides that; with the right marks it would be reported. */
  lemma DeadExitHidesFallThrough()
    ensures Runnable(IN_CASE, EXIT_IN_DEAD_CODE)
    ensures var now, marks := Run(IN_CASE, EXIT_IN_DEAD_CODE), Intended(IN_CASE, {}, EXIT_IN_DEAD_CODE);
            var g: Graph := map["head" := [], "case" := ["head"], "dead" := [], "catch" := ["case"]];
            var reachable, info := {"head", "case", "catch"}, CaseInfo(0, 1, false, true);
            !FallsThrough(now, g, reachable, info) && FallsThroughWith(now, marks, g, reachable, info)
  {
    RunExitInDeadCode();
    var g: Graph := map["head" := [], "case" := ["head"], "dead" := [], "catch" := ["case"]];
    assert !ReachesBack(g, {"case"}, "catch", Some("case"));
    assert ExitFreePath(g, {"dead"}, ["catch", "case"]);
    assert ReachesBack(g, {"dead"}, "catch", Some("case"));
  }

  /** Up to the first statement of the block in `case 0: try { f(); } finally { .. }`: the call may throw, so that the
      block is entered on two segments at a time, the one that goes on behind it and the one that leaves. */
  const INTO_FINALLY :=
    [SegmentEnd("case"), SegmentStart("call"), SegmentEnd("call"), SegmentStart("normal"), SegmentStart("leaving")]

  const FINALLY_GRAPH: Graph :=
    map["head" := [], "case" := ["head"], "call" := ["case"], "normal" := ["call"], "leaving" := ["case"]]

  lemma RunIntoFinally()
    ensures Runnable(IN_CASE, INTO_FINALLY)
    ensures Run(IN_CASE, INTO_FINALLY) ==
      IN_CASE.(currentCodeSegment := Some("leaving"), currentSegments := {"normal", "leaving"})
    ensures Intended(IN_CASE, {}, INTO_FINALLY) == {}
  {
    var a := INTO_FINALLY;
    RunSnoc(IN_CASE, {}, [], a[0]);
    assert [] + [a[0]] == [a[0]];
    RunSnoc(IN_CASE, {}, [a[0]], a[1]);
    assert [a[0]] + [a[1]] == [a[0], a[1]];
    RunSnoc(IN_CASE, {}, [a[0], a[1]], a[2]);
    assert [a[0], a[1]] + [a[2]] == [a[0], a[1], a[2]];
    RunSnoc(IN_CASE, {}, [a[0], a[1], a[2]], a[3]);
    assert [a[0], a[1], a[2]] + [a[3]] == [a[0], a[1], a[2], a[3]];
    RunSnoc(IN_CASE, {}, [a[0], a[1], a[2], a[3]], a[4]);
    assert [a[0], a[1], a[2], a[3]] + [a[4]] == a;
  }

  /** The case ends in an unmarked segment that an exit-free walk leads back from. */
  lemma NormalReachesBack()
    ensures ReachesBack(FINALLY_GRAPH, {"leaving"}, "normal", Some("case"))
  {
    assert ExitFreePath(FINALLY_GRAPH, {"leaving"}, ["normal", "call", "case"]);
  }

  /** `case 0: try { f(); } finally { g(); } process.exit(1);` - when the block ends, its leaving segment ends and the
      other one goes on without being started again. The call lies in the other one and marks the leaving one, and the
      case is reported. */
  lemma ExitBehindFinally()
    ensures var run := INTO_FINALLY + [SegmentEnd("leaving")] + [ProcessExit];
            && Runnable(IN_CASE, run) && Run(IN_CASE, run).segmentsWithExit == {"leaving"}
            && Intended(IN_CASE, {}, run) == {"normal"}
            && var now, reachable := Run(IN_CASE, run), {"head", "case", "call", "normal", "leaving"};
               && FallsThrough(now, FINALLY_GRAPH, reachable, CaseInfo(0, 2, false, true))
               && !FallsThroughWith(now, {"normal"}, FINALLY_GRAPH, reachable, CaseInfo(0, 2, false, true))
  {
    RunIntoFinally();
    RunSnoc(IN_CASE, {}, INTO_FINALLY, SegmentEnd("leaving"));
    RunSnoc(IN_CASE, {}, INTO_FINALLY + [SegmentEnd("leaving")], ProcessExit);
    var now := Run(IN_CASE, INTO_FINALLY + [SegmentEnd("leaving")] + [ProcessExit]);
    assert now.currentSegments == {"normal"} && now.segmentsWithExit == {"leaving"};
    NormalReachesBack();
  }

  /** `case 0: try { f(); } finally { process.exit(); }` - the call lies in both segments and marks the leaving one
      only, and the case is reported. */
  lemma ExitInFinally()
    ensures var run := INTO_FINALLY + [ProcessExit] + [SegmentEnd("leaving")];
            && Runnable(IN_CASE, run) && Run(IN_CASE, run).segmentsWithExit == {"leaving"}
            && Intended(IN_CASE, {}, run) == {"normal", "leaving"}
            && var now, reachable := Run(IN_CASE, run), {"head", "case", "call", "normal", "leaving"};
               && FallsThrough(now, FINALLY_GRAPH, reachable, CaseInfo(0, 1, false, true))
               && !FallsThroughWith(now, {"normal", "leaving"}, FINALLY_GRAPH, reachable, CaseInfo(0, 1, false, true))
  {
    RunIntoFinally();
    RunSnoc(IN_CASE, {}, INTO_FINALLY, ProcessExit);
    RunSnoc(IN_CASE, {}, INTO_FINALLY + [ProcessExit], SegmentEnd("leaving"));
    var now := Run(IN_CASE, INTO_FINALLY + [ProcessExit] + [SegmentEnd("leaving")]);
    assert now.currentSegments == {"normal"} && now.segmentsWithExit == {"leaving"};
    NormalReachesBack();
  }

  lemma {:induction false} FewerExitsReachBack(g: Graph, fewer: set<SegmentId>, more: set<SegmentId>, s: SegmentId,
      initial: Option<SegmentId>)
    requires fewer <= more && ReachesBack(g, more, s, initial)
    ensures ReachesBack(g, fewer, s, initial)
  {
    var path :| ExitFreePath(g, more, path) && path[0] == s && path[|path| - 1] == initial.value;
    assert ExitFreePath(g, fewer, path);
  }

  /** Missing marks make for too many reports and marks too many for too few, never the other way round. */
  lemma MarksAndReports(st: State, fewer: set<SegmentId>, more: set<SegmentId>, g: Graph, reachable: set<SegmentId>,
      info: CaseInfo)
    requires fewer <= more && FallsThroughWith(st, more, g, reachable, info)
    ensures FallsThroughWith(st, fewer, g, reachable, info)
  {
    var initial := InitialOf(st, info.id);
    var s :| s in st.currentSegments && s in reachable && ReachesBack(g, more, s, initial);
    FewerExitsReachBack(g, fewer, more, s, initial);
  }

  /** What the traversal brings: an event, or the end of a case with what its handler reads from tree and paths. */
  datatype Delivery = Deliver(e: Event) | ExitCase(info: CaseInfo, g: Graph, reachable: set<SegmentId>)

  ghost predicate Admits(st: State, d: Delivery)
    requires st.Valid()
  {
    match d
    case Deliver(e) => Enabled(st, e)
    case ExitCase(_, g, _) => Closed(g) && st.currentSegments <= g.Keys
  }

  function After(st: State, d: Delivery): State
    requires st.Valid() && (d.Deliver? ==> Enabled(st, d.e))
  {
    if d.Deliver? then Step(st, d.e) else st
  }

  ghost predicate Deliverable(st: State, ds: seq<Delivery>)
    requires st.Valid()
    decreases |ds|
  {
    ds == [] || (Admits(st, ds[0]) && Deliverable(After(st, ds[0]), ds[1..]))
  }

  function Events(ds: seq<Delivery>): seq<Event> {
    if ds == [] then []
    else if ds[0].Deliver? then [ds[0].e] + Events(ds[1..])
    else Events(ds[1..])
  }

  ghost function ReportOf(st: State, d: Delivery): seq<CaseId> {
    if d.ExitCase? && FallsThrough(st, d.g, d.reachable, d.info) then [d.info.id] else []
  }

  /** The cases that fall through, each judged by the events before its end. */
  ghost function Reported(st: State, ds: seq<Delivery>): seq<CaseId>
    requires st.Valid() && Deliverable(st, ds)
    decreases |ds|
  {
    if ds == [] then [] else ReportOf(st, ds[0]) + Reported(After(st, ds[0]), ds[1..])
  }

  /** At position `i` a case ends that has statements, is not the last one and ends in no comment that allows falling
      through, and an exit-free walk leads from a reachable current segment back to the initial one of the case. */
  ghost predicate EndsFalling(st: State, ds: seq<Delivery>, i: nat)
    requires st.Valid()
  {
    && i < |ds| && ds[i].ExitCase?
    && ds[i].info.consequentLength != 0 && !ds[i].info.isLast && ds[i].info.noComment
    && Runnable(st, Events(ds[..i]))
    && WalkLeadsBack(Run(st, Events(ds[..i])), ds[i].info.id, ds[i].g, ds[i].reachable)
  }

  ghost predicate WalkLeadsBack(now: State, c: CaseId, g: Graph, reachable: set<SegmentId>) {
    exists walk :: ExitFreePath(g, now.segmentsWithExit, walk)
      && walk[0] in now.currentSegments && walk[0] in reachable
      && c in now.initialSegmentBySwitchCase && walk[|walk| - 1] == now.initialSegmentBySwitchCase[c]
  }

  lemma FallsThroughIff(now: State, g: Graph, reachable: set<SegmentId>, info: CaseInfo)
    ensures FallsThrough(now, g, reachable, info) <==>
      info.consequentLength != 0 && !info.isLast && info.noComment && WalkLeadsBack(now, info.id, g, reachable)
  {
    var exits, initial := now.segmentsWithExit, InitialOf(now, info.id);
    if FallsThrough(now, g, reachable, info) {
      var s :| s in now.currentSegments && s in reachable && ReachesBack(g, exits, s, initial);
      var walk :| ExitFreePath(g, exits, walk) && walk[0] == s && walk[|walk| - 1] == initial.value;
    }
    if WalkLeadsBack(now, info.id, g, reachable) {
      var walk :| ExitFreePath(g, exits, walk) && walk[0] in now.currentSegments && walk[0] in reachable
        && info.id in now.initialSegmentBySwitchCase
        && walk[|walk| - 1] == now.initialSegmentBySwitchCase[info.id];
      assert ReachesBack(g, exits, walk[0], initial);
    }
  }

  lemma {:induction false} DeliverablePrefix(st: State, ds: seq<Delivery>, i: nat)
    requires st.Valid() && Deliverable(st, ds) && i <= |ds|
    ensures Deliverable(st, ds[..i])
    decreases |ds|
  {
    if i > 0 {
      DeliverablePrefix(After(st, ds[0]), ds[1..], i - 1);
      assert ds[..i][1..] == ds[1..][..i - 1];
    }
  }

  lemma EndsFallingBehind(st: State, ds: seq<Delivery>, i: nat)
    requires st.Valid() && Deliverable(st, ds) && 0 < i < |ds|
    ensures EndsFalling(st, ds, i) <==> EndsFalling(After(st, ds[0]), ds[1..], i - 1)
  {
    DeliverablePrefix(st, ds, i);
    DeliverableRuns(st, ds[..i]);
    assert ds[..i][1..] == ds[1..][..i - 1];
    DeliverablePrefix(After(st, ds[0]), ds[1..], i - 1);
    DeliverableRuns(After(st, ds[0]), ds[1..][..i - 1]);
  }

  lemma FirstReport(st: State, ds: seq<Delivery>)
    requires st.Valid() && Deliverable(st, ds) && ds != []
    ensures if EndsFalling(st, ds, 0) then ds[0].ExitCase? && ReportOf(st, ds[0]) == [ds[0].info.id]
            else ReportOf(st, ds[0]) == []
  {
    assert ds[..0] == [];
    if ds[0].ExitCase? {
      FallsThroughIff(st, ds[0].g, ds[0].reachable, ds[0].info);
    }
  }

  ghost predicate Increasing(at: seq<nat>) {
    forall j, k :: 0 <= j < k < |at| ==> at[j] < at[k]
  }

  function Shifted(at: seq<nat>): (r: seq<nat>)
    ensures |r| == |at| && forall k :: 0 <= k < |r| ==> r[k] == at[k] + 1
  {
    seq(|at|, k requires 0 <= k < |at| => at[k] + 1)
  }

  lemma ShiftedMembers(at: seq<nat>, i: nat)
    ensures i in Shifted(at) <==> i > 0 && i - 1 in at
  {
    if i > 0 && i - 1 in at {
      var k :| 0 <= k < |at| && at[k] == i - 1;
      assert Shifted(at)[k] == i;
    }
    if i in Shifted(at) {
      var k :| 0 <= k < |at| && Shifted(at)[k] == i;
      assert at[k] == i - 1;
    }
  }

  /** Where the cases end that fall through, in order. */
  lemma {:induction false} FallingEnds(st: State, ds: seq<Delivery>) returns (at: seq<nat>)
    requires st.Valid() && Deliverable(st, ds)
    ensures Increasing(at) && forall i: nat :: i in at <==> EndsFalling(st, ds, i)
    ensures Reported(st, ds) == Ids(ds, at)
    decreases |ds|
  {
    if ds == [] {
      at := [];
    } else {
      var rest := FallingEnds(After(st, ds[0]), ds[1..]);
      at := OneMoreEnd(st, ds, rest);
    }
  }

  lemma OneMoreEnd(st: State, ds: seq<Delivery>, rest: seq<nat>) returns (at: seq<nat>)
    requires st.Valid() && Deliverable(st, ds) && ds != [] && Increasing(rest)
    requires forall i: nat :: i in rest <==> EndsFalling(After(st, ds[0]), ds[1..], i)
    requires Reported(After(st, ds[0]), ds[1..]) == Ids(ds[1..], rest)
    ensures Increasing(at) && forall i: nat :: i in at <==> EndsFalling(st, ds, i)
    ensures Reported(st, ds) == Ids(ds, at)
  {
    at := if EndsFalling(st, ds, 0) then [0] + Shifted(rest) else Shifted(rest);
    ReportsFromFirst(st, ds, rest);
    IncreasingFromFirst(rest);
    forall i: nat ensures i in at <==> EndsFalling(st, ds, i) {
      FallsBehind(st, ds, rest, i);
    }
  }

  lemma IncreasingFromFirst(rest: seq<nat>)
    requires Increasing(rest)
    ensures Increasing(Shifted(rest)) && Increasing([0] + Shifted(rest))
    ensures forall i :: i in [0] + Shifted(rest) <==> i == 0 || i in Shifted(rest)
  {
  }

  lemma ReportsFromFirst(st: State, ds: seq<Delivery>, rest: seq<nat>)
    requires st.Valid() && Deliverable(st, ds) && ds != []
    requires Reported(After(st, ds[0]), ds[1..]) == Ids(ds[1..], rest)
    ensures Reported(st, ds) == Ids(ds, if EndsFalling(st, ds, 0) then [0] + Shifted(rest) else Shifted(rest))
  {
    FirstReport(st, ds);
    IdsFromFirst(ds, rest);
    assert [] + Ids(ds[1..], rest) == Ids(ds[1..], rest);
  }

  lemma FallsBehind(st: State, ds: seq<Delivery>, rest: seq<nat>, i: nat)
    requires st.Valid() && Deliverable(st, ds) && ds != []
    requires forall i: nat :: i in rest <==> EndsFalling(After(st, ds[0]), ds[1..], i)
    ensures i in Shifted(rest) <==> i > 0 && EndsFalling(st, ds, i)
  {
    ShiftedMembers(rest, i);
    if 0 < i < |ds| {
      EndsFallingBehind(st, ds, i);
    }
  }

  lemma IdsFromFirst(ds: seq<Delivery>, rest: seq<nat>)
    requires ds != []
    ensures Ids(ds, Shifted(rest)) == Ids(ds[1..], rest)
    ensures ds[0].ExitCase? ==> Ids(ds, [0] + Shifted(rest)) == [ds[0].info.id] + Ids(ds[1..], rest)
  {
  }

  /** The cases that end at these positions. */
  function Ids(ds: seq<Delivery>, at: seq<nat>): (r: seq<CaseId>)
    ensures |r| == |at|
    ensures forall k :: 0 <= k < |at| && at[k] < |ds| && ds[at[k]].ExitCase? ==> r[k] == ds[at[k]].info.id
  {
    seq(|at|, k requires 0 <= k < |at| => if at[k] < |ds| && ds[at[k]].ExitCase? then ds[at[k]].info.id else 0)
  }

  lemma {:induction false} DeliverableRuns(st: State, ds: seq<Delivery>)
    requires st.Valid() && Deliverable(st, ds)
    ensures Runnable(st, Events(ds))
    ensures ds != [] ==> Run(st, Events(ds)) == Run(After(st, ds[0]), Events(ds[1..]))
    decreases |ds|
  {
    if ds != [] {
      DeliverableRuns(After(st, ds[0]), ds[1..]);
      if ds[0].Deliver? {
        RunCons(st, ds[0].e, Events(ds[1..]));
      }
    }
  }

  function MarkAfter(st: State, marks: set<SegmentId>, d: Delivery): set<SegmentId> {
    if d.Deliver? then Mark(st, marks, d.e) else marks
  }

  ghost function IntendedReportOf(st: State, marks: set<SegmentId>, d: Delivery): seq<CaseId> {
    if d.ExitCase? && FallsThroughWith(st, marks, d.g, d.reachable, d.info) then [d.info.id] else []
  }

  /** The reports that the intended marks give. */
  ghost function IntendedReports(st: State, marks: set<SegmentId>, ds: seq<Delivery>): seq<CaseId>
    requires st.Valid() && Deliverable(st, ds)
    decreases |ds|
  {
    if ds == [] then []
    else IntendedReportOf(st, marks, ds[0]) + IntendedReports(After(st, ds[0]), MarkAfter(st, marks, ds[0]), ds[1..])
  }

  /** At the end of every case, the rule's marks and the intended ones lead to the same answer. */
  ghost predicate VerdictsAgree(st: State, marks: set<SegmentId>, ds: seq<Delivery>)
    requires st.Valid() && Deliverable(st, ds)
    decreases |ds|
  {
    ds == [] ||
    (ReportOf(st, ds[0]) == IntendedReportOf(st, marks, ds[0])
     && VerdictsAgree(After(st, ds[0]), MarkAfter(st, marks, ds[0]), ds[1..]))
  }

  function Cases(ds: seq<Delivery>): set<CaseId> {
    set d | d in ds && d.ExitCase? :: d.info.id
  }

  /** Every case ends once. */
  predicate EndOnce(ds: seq<Delivery>) {
    ds == [] || ((ds[0].ExitCase? ==> ds[0].info.id !in Cases(ds[1..])) && EndOnce(ds[1..]))
  }

  lemma {:induction false} ReportsAreCases(st: State, marks: set<SegmentId>, ds: seq<Delivery>)
    requires st.Valid() && Deliverable(st, ds)
    ensures forall c :: c in Reported(st, ds) || c in IntendedReports(st, marks, ds) ==> c in Cases(ds)
    decreases |ds|
  {
    if ds != [] {
      ReportsAreCases(After(st, ds[0]), MarkAfter(st, marks, ds[0]), ds[1..]);
      assert forall d :: d in ds[1..] ==> d in ds;
      assert ds[0] in ds;
    }
  }

  /** The rule reports what it should if and only if its marks lead to the right answer at the end of every case. */
  lemma {:induction false} ReportsAgreeIff(st: State, marks: set<SegmentId>, ds: seq<Delivery>)
    requires st.Valid() && Deliverable(st, ds) && EndOnce(ds)
    ensures Reported(st, ds) == IntendedReports(st, marks, ds) <==> VerdictsAgree(st, marks, ds)
    decreases |ds|
  {
    if ds != [] {
      var st', marks', rest := After(st, ds[0]), MarkAfter(st, marks, ds[0]), ds[1..];
      ReportsAgreeIff(st', marks', rest);
      ReportsAreCases(st', marks', rest);
      SameReports(ReportOf(st, ds[0]), Reported(st', rest), IntendedReportOf(st, marks, ds[0]),
                  IntendedReports(st', marks', rest), if ds[0].ExitCase? then ds[0].info.id else 0);
    }
  }

  lemma SameReports(a: seq<CaseId>, r: seq<CaseId>, b: seq<CaseId>, t: seq<CaseId>, c: CaseId)
    requires (a == [] || (a == [c] && c !in t)) && (b == [] || (b == [c] && c !in r))
    ensures a + r == b + t <==> a == b && r == t
  {
    assert [] + r == r && [] + t == t;
    assert ([c] + r)[0] == c && ([c] + r)[1..] == r && ([c] + t)[0] == c && ([c] + t)[1..] == t;
  }

  /** If every exit call is exact, the rule reports what it should. */
  lemma {:induction false} ExactExitsReportRight(st: State, ds: seq<Delivery>)
    requires st.Valid() && Deliverable(st, ds) && Runnable(st, Events(ds)) && EveryExitExact(st, Events(ds))
    ensures Reported(st, ds) == IntendedReports(st, st.segmentsWithExit, ds)
    decreases |ds|
  {
    if ds != [] {
      if ds[0].Deliver? {
        assert Events(ds)[1..] == Events(ds[1..]);
        if ds[0].e.ProcessExit? {
          ExactIff(st);
        }
      }
      DeliverableRuns(After(st, ds[0]), ds[1..]);
      ExactExitsReportRight(After(st, ds[0]), ds[1..]);
    }
  }

  /** State and reports after the deliveries, one after the other. */
  ghost function Outcome(st: State, reports: seq<CaseId>, ds: seq<Delivery>): (State, seq<CaseId>)
    requires st.Valid() && Deliverable(st, ds)
    decreases |ds|
  {
    if ds == [] then (st, reports) else Outcome(After(st, ds[0]), reports + ReportOf(st, ds[0]), ds[1..])
  }

  lemma {:induction false} OutcomeIsRun(st: State, reports: seq<CaseId>, ds: seq<Delivery>)
    requires st.Valid() && Deliverable(st, ds)
    ensures Runnable(st, Events(ds)) && Outcome(st, reports, ds) == (Run(st, Events(ds)), reports + Reported(st, ds))
    decreases |ds|
  {
    DeliverableRuns(st, ds);
    if ds == [] {
      assert reports + [] == reports;
    } else {
      var first, rest := ReportOf(st, ds[0]), Reported(After(st, ds[0]), ds[1..]);
      OutcomeIsRun(After(st, ds[0]), reports + first, ds[1..]);
      assert reports + first + rest == reports + (first + rest);
    }
  }

  class FallthroughRule {
    var currentCodeSegment: Option<SegmentId>
    var enteringSwitchCase: bool
    var currentSegments: set<SegmentId>
    var allCurrentSegments: seq<set<SegmentId>>
    var segmentsWithExit: set<SegmentId>
    var initialSegmentBySwitchCase: map<CaseId, SegmentId>
    var switchCaseStack: seq<CaseId>
    var reports: seq<CaseId>

    ghost function Abstract(): State
      reads this
    {
      State(currentCodeSegment, enteringSwitchCase, currentSegments, allCurrentSegments, segmentsWithExit,
            initialSegmentBySwitchCase, switchCaseStack)
    }

    constructor ()
      ensures Abstract() == Start && reports == []
    {
      currentCodeSegment, enteringSwitchCase, currentSegments := None, false, {};
      allCurrentSegments, segmentsWithExit, initialSegmentBySwitchCase := [], {}, map[];
      switchCaseStack, reports := [], [];
    }

    method OnCodePathStart()
      requires Abstract().Valid()
      modifies this
      ensures Abstract() == Step(old(Abstract()), PathStart) && reports == old(reports)
    {
      allCurrentSegments := allCurrentSegments + [currentSegments];
      currentSegments := {};
    }

    method OnCodePathEnd()
      requires Abstract().Valid() && Enabled(Abstract(), PathEnd)
      modifies this
      ensures Abstract() == Step(old(Abstract()), PathEnd) && reports == old(reports)
    {
      var n := |allCurrentSegments| - 1;
      currentSegments, allCurrentSegments := allCurrentSegments[n], allCurrentSegments[..n];
    }

    method OnCodePathSegmentStart(segment: SegmentId)
      requires Abstract().Valid()
      modifies this
      ensures Abstract() == Step(old(Abstract()), SegmentStart(segment)) && reports == old(reports)
    {
      currentSegments := currentSegments + {segment};
      currentCodeSegment := Some(segment);
      if enteringSwitchCase {
        var n := |switchCaseStack| - 1;
        initialSegmentBySwitchCase := initialSegmentBySwitchCase[switchCaseStack[n] := segment];
        switchCaseStack := switchCaseStack[..n];
        enteringSwitchCase := false;
      }
    }

    /** Also serves `onUnreachableCodePathSegmentEnd`. */
    method OnCodePathSegmentEnd(segment: SegmentId)
      requires Abstract().Valid()
      modifies this`currentSegments
      ensures Abstract() == Step(old(Abstract()), SegmentEnd(segment)) == Step(old(Abstract()), UnreachableEnd(segment))
    {
      currentSegments := currentSegments - {segment};
    }

    method OnUnreachableCodePathSegmentStart(segment: SegmentId)
      requires Abstract().Valid()
      modifies this`currentSegments
      ensures Abstract() == Step(old(Abstract()), UnreachableStart(segment))
    {
      currentSegments := currentSegments + {segment};
    }

    method CallExpression(isProcessExitCall: bool)
      requires Abstract().Valid() && (isProcessExitCall ==> Enabled(Abstract(), ProcessExit))
      modifies this`segmentsWithExit
      ensures Abstract() == if isProcessExitCall then Step(old(Abstract()), ProcessExit) else old(Abstract())
    {
      if isProcessExitCall {
        segmentsWithExit := segmentsWithExit + {currentCodeSegment.value};
      }
    }

    method SwitchCase(c: CaseId)
      requires Abstract().Valid()
      modifies this
      ensures Abstract() == Step(old(Abstract()), EnterCase(c)) && reports == old(reports)
    {
      enteringSwitchCase := true;
      switchCaseStack := switchCaseStack + [c];
    }

    method SwitchCaseExit(info: CaseInfo, g: Graph, reachable: set<SegmentId>)
      requires Closed(g) && currentSegments <= g.Keys
      modifies this`reports
      ensures Abstract() == old(Abstract())
      ensures reports ==
        if FallsThrough(old(Abstract()), g, reachable, info) then old(reports) + [info.id] else old(reports)
    {
      var initialSegment :=
        if info.id in initialSegmentBySwitchCase then Some(initialSegmentBySwitchCase[info.id]) else None;
      var isReachable := false;
      var todo := currentSegments;
      while todo != {} && !isReachable
        invariant todo <= currentSegments && reports == old(reports)
        invariant isReachable <==>
          AnyReachesBack(currentSegments - todo, reachable, g, segmentsWithExit, initialSegment)
        decreases todo, !isReachable
      {
        var s :| s in todo;
        assert currentSegments - (todo - {s}) == (currentSegments - todo) + {s};
        if s in reachable {
          var afterExit := IsAfterProcessExitCall(g, segmentsWithExit, s, initialSegment);
          isReachable := !afterExit;
        }
        todo := todo - {s};
      }
      assert isReachable <==> AnyReachesBack(currentSegments, reachable, g, segmentsWithExit, initialSegment) by {
        if todo == {} {
          assert currentSegments - todo == currentSegments;
        }
      }
      if isReachable && info.consequentLength > 0 && !info.isLast && info.noComment {
        reports := reports + [info.id];
      }
    }

    /** The handler of each event. */
    method Handle(e: Event)
      requires Abstract().Valid() && Enabled(Abstract(), e)
      modifies this
      ensures Abstract() == Step(old(Abstract()), e) && reports == old(reports)
    {
      match e
      case PathStart => OnCodePathStart();
      case PathEnd => OnCodePathEnd();
      case SegmentStart(s) => OnCodePathSegmentStart(s);
      case SegmentEnd(s) => OnCodePathSegmentEnd(s);
      case UnreachableStart(s) => OnUnreachableCodePathSegmentStart(s);
      case UnreachableEnd(s) => OnCodePathSegmentEnd(s);
      case ProcessExit => CallExpression(true);
      case EnterCase(c) => SwitchCase(c);
    }

    method Receive(d: Delivery)
      requires Abstract().Valid() && Admits(Abstract(), d)
      modifies this
      ensures Abstract() == After(old(Abstract()), d)
      ensures reports == old(reports) + ReportOf(old(Abstract()), d)
    {
      assert reports + [] == reports;
      match d
      case Deliver(e) => Handle(e);
      case ExitCase(info, g, reachable) => SwitchCaseExit(info, g, reachable);
    }

    /** A whole traversal: the state is that of the run, and the reports are exactly the cases that end falling through,
        in the order of their ends. */
    method Traverse(ds: seq<Delivery>) returns (ghost at: seq<nat>)
      requires Abstract().Valid() && Deliverable(Abstract(), ds)
      modifies this
      ensures Runnable(old(Abstract()), Events(ds)) && Abstract() == Run(old(Abstract()), Events(ds))
      ensures reports == old(reports) + Reported(old(Abstract()), ds) == old(reports) + Ids(ds, at)
      ensures Increasing(at) && forall i: nat :: i in at <==> EndsFalling(old(Abstract()), ds, i)
    {
      at := FallingEnds(Abstract(), ds);
      OutcomeIsRun(Abstract(), reports, ds);
      for i := 0 to |ds|
        invariant Abstract().Valid() && Deliverable(Abstract(), ds[i..])
        invariant Outcome(Abstract(), reports, ds[i..]) == Outcome(old(Abstract()), old(reports), ds)
      {
        assert ds[i..][0] == ds[i] && ds[i..][1..] == ds[i + 1..];
        Receive(ds[i]);
      }
    }
  }
}
