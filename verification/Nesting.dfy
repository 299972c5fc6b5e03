/** S134: control-flow statements nested too deeply.
    `packages/jsts/src/rules/S134/rule.ts`: an enter/exit machine with a stack of first tokens. */
module Nesting {
  import opened Common
  import opened Paths

  type Token = nat

  /** `ControlFlow` stands for every loop, `try` and `switch`. */
  datatype Node =
    | If(first: Token, test: Node, consequent: Node, alternate: Option<Node>)
    | ControlFlow(first: Token, children: seq<Node>)
    | Other(children: seq<Node>)

  /** The reported token and the tokens of the enclosing statements, outermost first. */
  datatype Report = Report(first: Token, enclosing: seq<Token>)

  function Children(n: Node): (r: seq<Node>)
    ensures forall i :: 0 <= i < |r| ==> r[i] < n
  {
    match n
    case If(_, test, consequent, None) => [test, consequent]
    case If(_, test, consequent, Some(alternate)) => [test, consequent, alternate]
    case ControlFlow(_, children) => children
    case Other(children) => children
  }

  /** Child `i` continues the `if` chain of its parent. */
  predicate ElseIf(n: Node, i: nat)
    requires i < |Children(n)|
  {
    n.If? && i == 2 && Children(n)[i].If?
  }

  predicate IsPath(n: Node, path: Path)
    decreases |path|
  {
    path == [] || (path[0] < |Children(n)| && IsPath(Children(n)[path[0]], path[1..]))
  }

  function At(n: Node, path: Path): Node
    requires IsPath(n, path)
    decreases |path|
  {
    if path == [] then n else At(Children(n)[path[0]], path[1..])
  }

  predicate EndsElseIf(n: Node, elseIf: bool, path: Path)
    requires IsPath(n, path)
    decreases |path|
  {
    if path == [] then elseIf else EndsElseIf(Children(n)[path[0]], ElseIf(n, path[0]), path[1..])
  }

  /** How many control-flow statements the path goes through, each `if` chain counted once, at its head. */
  function Levels(n: Node, elseIf: bool, path: Path): nat
    requires IsPath(n, path)
    decreases |path|
  {
    if path == [] then 0
    else (if !n.Other? && !elseIf then 1 else 0) + Levels(Children(n)[path[0]], ElseIf(n, path[0]), path[1..])
  }

  /** The tokens of the control-flow statements the path goes through: of an `if` chain, the member that contains the
      end of the path. */
  function Around(n: Node, path: Path): seq<Token>
    requires IsPath(n, path)
    decreases |path|
  {
    if path == [] then []
    else (if !n.Other? && !ElseIf(n, path[0]) then [n.first] else []) + Around(Children(n)[path[0]], path[1..])
  }

  lemma {:induction false} LevelsIsLength(n: Node, elseIf: bool, path: Path)
    requires IsPath(n, path) && (elseIf ==> n.If?)
    ensures |Around(n, path)| + (if EndsElseIf(n, elseIf, path) then 1 else 0)
         == Levels(n, elseIf, path) + (if elseIf then 1 else 0)
    decreases |path|
  {
    if path != [] {
      LevelsIsLength(Children(n)[path[0]], ElseIf(n, path[0]), path[1..]);
    }
  }

  /** The stack without the entry that an `else if` takes over. */
  function Base(elseIf: bool, above: seq<Token>): seq<Token>
    requires elseIf ==> above != []
  {
    if elseIf then above[..|above| - 1] else above
  }

  function Check(first: Token, elseIf: bool, above: seq<Token>, threshold: int): seq<Report> {
    if !elseIf && |above| == threshold then [Report(first, above)] else []
  }

  /** The reports for a subtree entered with the stack `above`. */
  function Reports(n: Node, elseIf: bool, above: seq<Token>, threshold: int): seq<Report>
    requires elseIf ==> n.If? && above != []
    decreases n, 1
  {
    match n
    case If(first, test, consequent, alternate) =>
      var inner := Base(elseIf, above) + [first];
      Check(first, elseIf, above, threshold)
      + (Reports(test, false, inner, threshold)
         + (Reports(consequent, false, inner, threshold) + ReportsOfAlternate(alternate, inner, threshold)))
    case ControlFlow(first, children) =>
      Check(first, elseIf, above, threshold) + ReportsOfAll(children, above + [first], threshold)
    case Other(children) => ReportsOfAll(children, above, threshold)
  }

  function ReportsOfAlternate(alternate: Option<Node>, inner: seq<Token>, threshold: int): seq<Report>
    requires inner != []
    decreases alternate, 0
  {
    match alternate
    case None => []
    case Some(a) => Reports(a, a.If?, inner, threshold)
  }

  function ReportsOfAll(ns: seq<Node>, above: seq<Token>, threshold: int): seq<Report>
    decreases ns, 0
  {
    if ns == [] then [] else Reports(ns[0], false, above, threshold) + ReportsOfAll(ns[1..], above, threshold)
  }

  ghost predicate Reported(n: Node, elseIf: bool, base: seq<Token>, path: Path, threshold: int, r: Report) {
    && IsPath(n, path) && !At(n, path).Other? && !EndsElseIf(n, elseIf, path)
    && |base + Around(n, path)| == threshold
    && r == Report(At(n, path).first, base + Around(n, path))
  }

  /** What the children of `n` are entered with. */
  function Inner(n: Node, elseIf: bool, above: seq<Token>): seq<Token>
    requires elseIf ==> above != []
  {
    if n.Other? then above else Base(elseIf, above) + [n.first]
  }

  lemma ReportedBelow(n: Node, elseIf: bool, above: seq<Token>, i: nat, path: Path, threshold: int, r: Report)
    requires elseIf ==> n.If? && above != []
    requires i < |Children(n)|
    ensures var inner := Inner(n, elseIf, above);
            Reported(n, elseIf, Base(elseIf, above), [i] + path, threshold, r)
            <==> Reported(Children(n)[i], ElseIf(n, i), Base(ElseIf(n, i), inner), path, threshold, r)
  {
    var p := [i] + path;
    assert p[1..] == path;
    if IsPath(Children(n)[i], path) {
      var base, rest := Base(elseIf, above), Around(Children(n)[i], path);
      var head := if !n.Other? && !ElseIf(n, i) then [n.first] else [];
      assert Around(n, p) == head + rest;
      assert base + (head + rest) == (base + head) + rest;
      assert base + [] == base;
      assert ElseIf(n, i) ==> Base(true, base + [n.first]) == base;
    }
  }

  /** The reports of a subtree with their places. */
  function Places(n: Node, elseIf: bool, above: seq<Token>, threshold: int): seq<Found<Report>>
    requires elseIf ==> n.If? && above != []
    decreases n, 2
  {
    Own(n, elseIf, above, threshold) + Spread(PlacesBelow(n, Inner(n, elseIf, above), threshold), 0)
  }

  function Own(n: Node, elseIf: bool, above: seq<Token>, threshold: int): seq<Found<Report>> {
    if !n.Other? && !elseIf && |above| == threshold then [Found([], Report(n.first, above))] else []
  }

  function PlacesBelow(n: Node, inner: seq<Token>, threshold: int): (r: seq<seq<Found<Report>>>)
    requires n.If? ==> inner != []
    ensures |r| == |Children(n)|
    ensures forall i :: 0 <= i < |r| ==> r[i] == Places(Children(n)[i], ElseIf(n, i), inner, threshold)
    decreases n, 1
  {
    match n
    case If(_, test, consequent, None) =>
      [Places(test, false, inner, threshold), Places(consequent, false, inner, threshold)]
    case If(_, test, consequent, Some(a)) =>
      [Places(test, false, inner, threshold), Places(consequent, false, inner, threshold),
       Places(a, a.If?, inner, threshold)]
    case ControlFlow(_, children) => PlacesOfAll(children, inner, threshold)
    case Other(children) => PlacesOfAll(children, inner, threshold)
  }

  function PlacesOfAll(ns: seq<Node>, above: seq<Token>, threshold: int): (r: seq<seq<Found<Report>>>)
    ensures |r| == |ns| && forall i :: 0 <= i < |ns| ==> r[i] == Places(ns[i], false, above, threshold)
    decreases ns, 0
  {
    if ns == [] then [] else [Places(ns[0], false, above, threshold)] + PlacesOfAll(ns[1..], above, threshold)
  }

  lemma {:induction false} PlacesHoldReports(n: Node, elseIf: bool, above: seq<Token>, threshold: int)
    requires elseIf ==> n.If? && above != []
    ensures Values(Places(n, elseIf, above, threshold)) == Reports(n, elseIf, above, threshold)
    decreases n, 2
  {
    var inner := Inner(n, elseIf, above);
    var own, below := Own(n, elseIf, above, threshold), PlacesBelow(n, inner, threshold);
    ValuesAppend(own, Spread(below, 0));
    ValuesSpread(below, 0);
    BelowHoldsReports(n, inner, threshold);
    assert !n.Other? ==> Values(own) == Check(n.first, elseIf, above, threshold);
    assert [] + Flat(AllValues(below)) == Flat(AllValues(below));
  }

  /** The reports below a node. */
  function ReportsBelow(n: Node, inner: seq<Token>, threshold: int): seq<Report>
    requires n.If? ==> inner != []
  {
    match n
    case If(_, test, consequent, alternate) =>
      Reports(test, false, inner, threshold)
      + (Reports(consequent, false, inner, threshold) + ReportsOfAlternate(alternate, inner, threshold))
    case ControlFlow(_, children) => ReportsOfAll(children, inner, threshold)
    case Other(children) => ReportsOfAll(children, inner, threshold)
  }

  lemma {:induction false} BelowHoldsReports(n: Node, inner: seq<Token>, threshold: int)
    requires n.If? ==> inner != []
    ensures Flat(AllValues(PlacesBelow(n, inner, threshold))) == ReportsBelow(n, inner, threshold)
    decreases n, 1
  {
    if n.If? {
      PlacesHoldReports(n.test, false, inner, threshold);
      PlacesHoldReports(n.consequent, false, inner, threshold);
      var t, c := Places(n.test, false, inner, threshold), Places(n.consequent, false, inner, threshold);
      if n.alternate.Some? {
        PlacesHoldReports(n.alternate.value, n.alternate.value.If?, inner, threshold);
        FlatThree(t, c, Places(n.alternate.value, n.alternate.value.If?, inner, threshold));
      } else {
        FlatTwo(t, c);
      }
    } else {
      AllHoldReports(n.children, inner, threshold);
    }
  }

  lemma FlatTwo(a: seq<Found<Report>>, b: seq<Found<Report>>)
    ensures Flat(AllValues([a, b])) == Values(a) + (Values(b) + [])
  {
    assert [a, b][1..] == [b] && [b][1..] == [];
    assert AllValues([b]) == [Values(b)] + AllValues([]);
    assert AllValues([a, b]) == [Values(a), Values(b)];
    assert [Values(a), Values(b)][1..] == [Values(b)] && [Values(b)][1..] == [];
    assert Flat([Values(b)]) == Values(b) + Flat([]);
  }

  lemma FlatThree(a: seq<Found<Report>>, b: seq<Found<Report>>, c: seq<Found<Report>>)
    ensures Flat(AllValues([a, b, c])) == Values(a) + (Values(b) + Values(c))
  {
    FlatTwo(b, c);
    assert [a, b, c][1..] == [b, c];
    assert AllValues([a, b, c]) == [Values(a)] + AllValues([b, c]);
    assert ([Values(a)] + AllValues([b, c]))[1..] == AllValues([b, c]);
    assert Values(c) + [] == Values(c);
  }

  lemma {:induction false} AllHoldReports(ns: seq<Node>, above: seq<Token>, threshold: int)
    ensures Flat(AllValues(PlacesOfAll(ns, above, threshold))) == ReportsOfAll(ns, above, threshold)
    decreases ns, 0
  {
    if ns != [] {
      PlacesHoldReports(ns[0], false, above, threshold);
      AllHoldReports(ns[1..], above, threshold);
      assert PlacesOfAll(ns, above, threshold)[1..] == PlacesOfAll(ns[1..], above, threshold);
    }
  }

  lemma {:induction false} PlacesInOrder(n: Node, elseIf: bool, above: seq<Token>, threshold: int)
    requires elseIf ==> n.If? && above != []
    ensures InOrder(Places(n, elseIf, above, threshold), false)
    decreases n
  {
    var inner := Inner(n, elseIf, above);
    var below := PlacesBelow(n, inner, threshold);
    forall i | 0 <= i < |Children(n)| ensures InOrder(below[i], false) {
      PlacesInOrder(Children(n)[i], ElseIf(n, i), inner, threshold);
    }
    SpreadInOrder(below, 0, false);
    ParentFirst(Own(n, elseIf, above, threshold), Spread(below, 0));
  }

  lemma {:induction false} PlacesAreReported(n: Node, elseIf: bool, above: seq<Token>, threshold: int,
                                             path: Path, r: Report)
    requires elseIf ==> n.If? && above != []
    ensures Found(path, r) in Places(n, elseIf, above, threshold) <==>
      Reported(n, elseIf, Base(elseIf, above), path, threshold, r)
    decreases n
  {
    if path == [] {
      OwnIsReported(n, elseIf, above, threshold, r);
    } else {
      PlaceIsBelow(n, elseIf, above, threshold, path, r);
      ReportedIsBelow(n, elseIf, above, threshold, path, r);
      if path[0] < |Children(n)| {
        var child, elseIfChild := Children(n)[path[0]], ElseIf(n, path[0]);
        PlacesAreReported(child, elseIfChild, Inner(n, elseIf, above), threshold, path[1..], r);
      }
    }
  }

  lemma OwnIsReported(n: Node, elseIf: bool, above: seq<Token>, threshold: int, r: Report)
    requires elseIf ==> n.If? && above != []
    ensures Found([], r) in Places(n, elseIf, above, threshold)
      <==> Reported(n, elseIf, Base(elseIf, above), [], threshold, r)
  {
    MembersWithOwn(Own(n, elseIf, above, threshold), PlacesBelow(n, Inner(n, elseIf, above), threshold), Found([], r));
    assert Base(elseIf, above) + Around(n, []) == Base(elseIf, above);
  }

  lemma ReportedIsBelow(n: Node, elseIf: bool, above: seq<Token>, threshold: int, path: Path, r: Report)
    requires (elseIf ==> n.If? && above != []) && path != []
    ensures Reported(n, elseIf, Base(elseIf, above), path, threshold, r)
      <==> path[0] < |Children(n)| && var base := Base(ElseIf(n, path[0]), Inner(n, elseIf, above));
             Reported(Children(n)[path[0]], ElseIf(n, path[0]), base, path[1..], threshold, r)
  {
    if path[0] < |Children(n)| {
      assert path == [path[0]] + path[1..];
      ReportedBelow(n, elseIf, above, path[0], path[1..], threshold, r);
    }
  }

  lemma PlaceIsBelow(n: Node, elseIf: bool, above: seq<Token>, threshold: int, path: Path, r: Report)
    requires (elseIf ==> n.If? && above != []) && path != []
    ensures Found(path, r) in Places(n, elseIf, above, threshold)
      <==> path[0] < |Children(n)| && Found(path[1..], r)
             in Places(Children(n)[path[0]], ElseIf(n, path[0]), Inner(n, elseIf, above), threshold)
  {
    var below := PlacesBelow(n, Inner(n, elseIf, above), threshold);
    MembersWithOwn(Own(n, elseIf, above, threshold), below, Found(path, r));
  }

  /** At that place of the tree stands a control-flow statement that continues no `if` chain and has exactly `threshold`
      levels around it. */
  ghost predicate TooDeep(program: Node, path: Path, threshold: int, r: Report) {
    && IsPath(program, path) && !At(program, path).Other? && !EndsElseIf(program, false, path)
    && Levels(program, false, path) == threshold
    && r == Report(At(program, path).first, Around(program, path))
  }

  lemma TooDeepIff(program: Node, path: Path, threshold: int, r: Report)
    ensures TooDeep(program, path, threshold, r) <==> Reported(program, false, [], path, threshold, r)
  {
    if IsPath(program, path) {
      LevelsIsLength(program, false, path);
      assert [] + Around(program, path) == Around(program, path);
    }
  }

  /** The reports are exactly the statements at the threshold, each once, in source order. */
  lemma ReportPlaces(program: Node, threshold: int) returns (places: seq<Found<Report>>)
    ensures Reports(program, false, [], threshold) == Values(places) && InOrder(places, false)
    ensures forall f :: f in places <==> TooDeep(program, f.path, threshold, f.value)
  {
    places := Places(program, false, [], threshold);
    PlacesHoldReports(program, false, [], threshold);
    PlacesInOrder(program, false, [], threshold);
    forall f ensures f in places <==> TooDeep(program, f.path, threshold, f.value) {
      PlacesAreReported(program, false, [], threshold, f.path, f.value);
      TooDeepIff(program, f.path, threshold, f.value);
    }
  }

  /** The token that the chain of an `else if` leaves on the stack. */
  function ChainEnd(n: Node): Token
    requires n.If?
  {
    if n.alternate.Some? && n.alternate.value.If? then ChainEnd(n.alternate.value) else n.first
  }

  lemma Regroup<T>(a: seq<T>, b: seq<T>, c: seq<T>, d: seq<T>, e: seq<T>)
    ensures a + b + c + d + e == a + (b + (c + (d + e)))
  {
  }

  class Rule {
    const threshold: int
    var nodeStack: seq<Token>
    var reports: seq<Report>

    constructor (threshold: int)
      ensures this.threshold == threshold && nodeStack == [] && reports == []
    {
      this.threshold, nodeStack, reports := threshold, [], [];
    }

    /** The handler of the control-flow nodes. */
    method Enter(first: Token, elseIf: bool)
      requires elseIf ==> nodeStack != []
      modifies this
      ensures nodeStack == Base(elseIf, old(nodeStack)) + [first]
      ensures reports == old(reports) + Check(first, elseIf, old(nodeStack), threshold)
    {
      if elseIf {
        nodeStack := nodeStack[..|nodeStack| - 1];
        nodeStack := nodeStack + [first];
      } else {
        if |nodeStack| == threshold {
          reports := reports + [Report(first, nodeStack)];
        }
        nodeStack := nodeStack + [first];
      }
    }

    /** The exit handler of the control-flow nodes. */
    method Exit(elseIf: bool)
      requires nodeStack != []
      modifies this`nodeStack
      ensures nodeStack == if elseIf then old(nodeStack) else old(nodeStack)[..|old(nodeStack)| - 1]
    {
      if !elseIf {
        nodeStack := nodeStack[..|nodeStack| - 1];
      }
    }

    /** The traversal of a subtree. Only an `else if` leaves its mark: the top of the stack. */
    method Visit(n: Node, elseIf: bool)
      requires elseIf ==> n.If? && nodeStack != []
      modifies this
      ensures nodeStack == if elseIf then Base(true, old(nodeStack)) + [ChainEnd(n)] else old(nodeStack)
      ensures reports == old(reports) + Reports(n, elseIf, old(nodeStack), threshold)
      decreases n, 1
    {
      ghost var before, above := reports, nodeStack;
      match n
      case If(first, test, consequent, alternate) =>
        Enter(first, elseIf);
        ghost var inner, checked := nodeStack, reports;
        Visit(test, false);
        Visit(consequent, false);
        VisitAlternate(alternate);
        Exit(elseIf);
        ghost var c, t := Check(first, elseIf, above, threshold), Reports(test, false, inner, threshold);
        ghost var s, a := Reports(consequent, false, inner, threshold), ReportsOfAlternate(alternate, inner, threshold);
        Regroup(before, c, t, s, a);
      case ControlFlow(first, children) =>
        Enter(first, elseIf);
        VisitAll(children);
        Exit(elseIf);
        ghost var c, a := Check(first, elseIf, above, threshold), ReportsOfAll(children, above + [first], threshold);
        assert before + c + a == before + (c + a);
      case Other(children) =>
        VisitAll(children);
    }

    method VisitAlternate(alternate: Option<Node>)
      requires nodeStack != []
      modifies this
      ensures nodeStack ==
        if alternate.Some? && alternate.value.If? then Base(true, old(nodeStack)) + [ChainEnd(alternate.value)]
        else old(nodeStack)
      ensures reports == old(reports) + ReportsOfAlternate(alternate, old(nodeStack), threshold)
      decreases alternate, 0
    {
      if alternate.Some? {
        Visit(alternate.value, alternate.value.If?);
      }
    }

    method VisitAll(ns: seq<Node>)
      modifies this
      ensures nodeStack == old(nodeStack)
      ensures reports == old(reports) + ReportsOfAll(ns, old(nodeStack), threshold)
      decreases ns, 0
    {
      if ns != [] {
        ghost var before, above := reports, nodeStack;
        Visit(ns[0], false);
        VisitAll(ns[1..]);
        ghost var first, rest := Reports(ns[0], false, above, threshold), ReportsOfAll(ns[1..], above, threshold);
        assert before + first + rest == before + (first + rest);
      }
    }
  }

  /** Linting a whole tree. */
  method Lint(program: Node, threshold: int) returns (reports: seq<Report>, ghost places: seq<Found<Report>>)
    ensures reports == Reports(program, false, [], threshold)
    ensures reports == Values(places) && InOrder(places, false)
    ensures forall f :: f in places <==> TooDeep(program, f.path, threshold, f.value)
  {
    var rule := new Rule(threshold);
    rule.Visit(program, false);
    reports := rule.reports;
    places := ReportPlaces(program, threshold);
  }
}
