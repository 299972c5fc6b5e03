/** S1067: expressions with too many conditional operators.
    `packages/jsts/src/rules/S1067/rule.ts`: an enter/exit machine with one counter per scope. */
module ExpressionComplexityRule {
  import opened Paths

  type Token = nat

  datatype NodeType =
    | FunctionExpression | FunctionDeclaration(generator: bool) | ObjectExpression | CallExpression | JSXElement
    | ConditionalExpression | LogicalExpression
    | OtherType(name: string)

  /** `operator` is the token found by `getOperatorToken`; only conditional-like nodes use it. */
  datatype Node = Node(typ: NodeType, operator: Token, children: seq<Node>)

  datatype Report = Report(node: Node, operators: seq<Token>, cost: int)

  predicate IsScopeLike(n: Node) {
    || n.typ == FunctionExpression
    || n.typ == FunctionDeclaration(true)
    || n.typ == ObjectExpression
    || n.typ == CallExpression
    || n.typ == JSXElement
  }

  predicate IsConditionalLike(n: Node) {
    n.typ == ConditionalExpression || n.typ == LogicalExpression
  }

  /** The conditional operators below `n` that no scope-like node hides, in preorder. */
  function Operators(n: Node): seq<Token>
    decreases n, 1
  {
    if IsScopeLike(n) then []
    else (if IsConditionalLike(n) then [n.operator] else []) + OperatorsOfAll(n.children)
  }

  function OperatorsOfAll(ns: seq<Node>): seq<Token>
    decreases ns, 0
  {
    if ns == [] then [] else Operators(ns[0]) + OperatorsOfAll(ns[1..])
  }

  function Verdict(n: Node, operators: seq<Token>, max: int): seq<Report> {
    if |operators| > max then [Report(n, operators, |operators| - max)] else []
  }

  /** The reports for a subtree; `inside` tells whether its scope already has an open conditional-like node. */
  function Reports(n: Node, inside: bool, max: int): seq<Report>
    decreases n, 1
  {
    if IsConditionalLike(n) then
      ReportsOfAll(n.children, true, max) + (if inside then [] else Verdict(n, Operators(n), max))
    else ReportsOfAll(n.children, inside && !IsScopeLike(n), max)
  }

  function ReportsOfAll(ns: seq<Node>, inside: bool, max: int): seq<Report>
    decreases ns, 0
  {
    if ns == [] then [] else Reports(ns[0], inside, max) + ReportsOfAll(ns[1..], inside, max)
  }

  predicate IsPath(n: Node, path: Path)
    decreases |path|
  {
    path == [] || (path[0] < |n.children| && IsPath(n.children[path[0]], path[1..]))
  }

  function At(n: Node, path: Path): Node
    requires IsPath(n, path)
    decreases |path|
  {
    if path == [] then n else At(n.children[path[0]], path[1..])
  }

  /** The proper ancestors of the end of the path, outermost first. */
  function Ancestors(n: Node, path: Path): seq<Node>
    requires IsPath(n, path)
    decreases |path|
  {
    if path == [] then [] else [n] + Ancestors(n.children[path[0]], path[1..])
  }

  ghost predicate CrossesScope(ancestors: seq<Node>) {
    exists j :: 0 <= j < |ancestors| && OpensScope(ancestors[j].typ)
  }

  predicate OpensScope(t: NodeType) {
    t in {FunctionExpression, FunctionDeclaration(true), ObjectExpression, CallExpression, JSXElement}
  }

  predicate HoldsOperator(t: NodeType) {
    t in {ConditionalExpression, LogicalExpression}
  }

  /** Every conditional-like ancestor has a scope-like one further inside. */
  ghost predicate Outermost(ancestors: seq<Node>) {
    forall i :: 0 <= i < |ancestors| ==> Covered(ancestors, i)
  }

  ghost predicate Covered(ancestors: seq<Node>, i: nat)
    requires i < |ancestors|
  {
    HoldsOperator(ancestors[i].typ) ==> CrossesScope(ancestors[i + 1..])
  }

  lemma CoveredBelow(n: Node, inner: seq<Node>, i: nat)
    requires i < |inner|
    ensures Covered([n] + inner, i + 1) == Covered(inner, i)
  {
    assert ([n] + inner)[i + 2..] == inner[i + 1..];
  }

  lemma CrossesBelow(n: Node, inner: seq<Node>)
    ensures CrossesScope([n] + inner) <==> IsScopeLike(n) || CrossesScope(inner)
  {
    var t := [n] + inner;
    assert forall j :: 0 <= j < |inner| ==> inner[j] == t[j + 1];
    assert t[0] == n;
  }

  lemma OutermostBelow(n: Node, inner: seq<Node>)
    ensures Outermost([n] + inner) <==> Outermost(inner) && (IsConditionalLike(n) ==> CrossesScope(inner))
  {
    var t := [n] + inner;
    assert t[1..] == inner;
    forall i: nat | i < |inner| ensures Covered(t, i + 1) == Covered(inner, i) {
      CoveredBelow(n, inner, i);
    }
    assert Covered(t, 0) <==> (IsConditionalLike(n) ==> CrossesScope(inner));
    if Outermost(inner) && Covered(t, 0) {
      forall i | 0 <= i < |t| ensures Covered(t, i) {
        assert i > 0 ==> Covered(inner, i - 1);
      }
    }
    if Outermost(t) {
      forall i | 0 <= i < |inner| ensures Covered(inner, i) {
        assert Covered(t, i + 1);
      }
    }
  }

  /** A conditional operator of `n` stands at that place, and no scope-like node hides it. */
  ghost predicate Unhidden(n: Node, f: Found<Token>) {
    && IsPath(n, f.path) && HoldsOperator(At(n, f.path).typ) && f.value == At(n, f.path).operator
    && !CrossesScope(Ancestors(n, f.path))
  }

  function OperatorPlaces(n: Node): seq<Found<Token>>
    decreases n, 1
  {
    if IsScopeLike(n) then []
    else OwnOperator(n) + Spread(OperatorPlacesOfAll(n.children), 0)
  }

  function OwnOperator(n: Node): seq<Found<Token>> {
    if IsConditionalLike(n) then [Found([], n.operator)] else []
  }

  function OperatorPlacesOfAll(ns: seq<Node>): (r: seq<seq<Found<Token>>>)
    ensures |r| == |ns| && forall i :: 0 <= i < |ns| ==> r[i] == OperatorPlaces(ns[i])
    decreases ns, 0
  {
    if ns == [] then [] else [OperatorPlaces(ns[0])] + OperatorPlacesOfAll(ns[1..])
  }

  lemma {:induction false} OperatorPlacesHoldOperators(n: Node)
    ensures Values(OperatorPlaces(n)) == Operators(n)
    decreases n, 1
  {
    ValuesAppend(OwnOperator(n), Spread(OperatorPlacesOfAll(n.children), 0));
    ValuesSpread(OperatorPlacesOfAll(n.children), 0);
    AllHoldOperators(n.children);
  }

  lemma {:induction false} AllHoldOperators(ns: seq<Node>)
    ensures Flat(AllValues(OperatorPlacesOfAll(ns))) == OperatorsOfAll(ns)
    decreases ns, 0
  {
    if ns != [] {
      OperatorPlacesHoldOperators(ns[0]);
      AllHoldOperators(ns[1..]);
      assert OperatorPlacesOfAll(ns)[1..] == OperatorPlacesOfAll(ns[1..]);
    }
  }

  lemma {:induction false} OperatorPlacesInOrder(n: Node)
    ensures InOrder(OperatorPlaces(n), false)
    decreases n
  {
    forall i | 0 <= i < |n.children| ensures InOrder(OperatorPlacesOfAll(n.children)[i], false) {
      OperatorPlacesInOrder(n.children[i]);
    }
    SpreadInOrder(OperatorPlacesOfAll(n.children), 0, false);
    ParentFirst(OwnOperator(n), Spread(OperatorPlacesOfAll(n.children), 0));
  }

  lemma UnhiddenBelow(n: Node, f: Found<Token>)
    requires f.path != [] && f.path[0] < |n.children|
    ensures Unhidden(n, f) <==> !IsScopeLike(n) && Unhidden(n.children[f.path[0]], Found(f.path[1..], f.value))
  {
    if IsPath(n, f.path) {
      CrossesBelow(n, Ancestors(n.children[f.path[0]], f.path[1..]));
    }
  }

  lemma {:induction false} OperatorPlacesAreUnhidden(n: Node, f: Found<Token>)
    ensures f in OperatorPlaces(n) <==> Unhidden(n, f)
    decreases n
  {
    MembersWithOwn(OwnOperator(n), OperatorPlacesOfAll(n.children), f);
    if f.path != [] && f.path[0] < |n.children| {
      UnhiddenBelow(n, f);
      OperatorPlacesAreUnhidden(n.children[f.path[0]], Found(f.path[1..], f.value));
    }
  }

  /** The operators of a node are those that no scope-like node hides, each once, in source order. */
  lemma OperatorsByPlaces(n: Node) returns (places: seq<Found<Token>>)
    ensures Operators(n) == Values(places) && InOrder(places, false)
    ensures forall f :: f in places <==> Unhidden(n, f)
  {
    places := OperatorPlaces(n);
    OperatorPlacesHoldOperators(n);
    OperatorPlacesInOrder(n);
    forall f ensures f in places <==> Unhidden(n, f) {
      OperatorPlacesAreUnhidden(n, f);
    }
  }

  /** At that place stands a conditional-like node with more than `max` operators that no other one contains within
      its scope. */
  ghost predicate TooComplex(n: Node, max: int, f: Found<Report>) {
    && IsPath(n, f.path) && HoldsOperator(At(n, f.path).typ) && Outermost(Ancestors(n, f.path))
    && |Operators(At(n, f.path))| > max
    && f.value == Report(At(n, f.path), Operators(At(n, f.path)), |Operators(At(n, f.path))| - max)
  }

  ghost predicate Reported(n: Node, inside: bool, max: int, f: Found<Report>) {
    TooComplex(n, max, f) && (inside ==> CrossesScope(Ancestors(n, f.path)))
  }

  /** What the children of a node are entered with. */
  predicate Inside(n: Node, inside: bool) {
    IsConditionalLike(n) || (inside && !IsScopeLike(n))
  }

  lemma ReportedBelow(n: Node, inside: bool, max: int, f: Found<Report>)
    requires f.path != [] && f.path[0] < |n.children|
    ensures Reported(n, inside, max, f)
      <==> Reported(n.children[f.path[0]], Inside(n, inside), max, Found(f.path[1..], f.value))
  {
    if IsPath(n, f.path) {
      CrossesBelow(n, Ancestors(n.children[f.path[0]], f.path[1..]));
      OutermostBelow(n, Ancestors(n.children[f.path[0]], f.path[1..]));
    }
  }

  /** The reports of a subtree with their places. */
  function Places(n: Node, inside: bool, max: int): seq<Found<Report>>
    decreases n, 1
  {
    Spread(PlacesOfAll(n.children, Inside(n, inside), max), 0) + Own(n, inside, max)
  }

  function Own(n: Node, inside: bool, max: int): seq<Found<Report>> {
    if IsConditionalLike(n) && !inside && |Operators(n)| > max
    then [Found([], Report(n, Operators(n), |Operators(n)| - max))] else []
  }

  function PlacesOfAll(ns: seq<Node>, inside: bool, max: int): (r: seq<seq<Found<Report>>>)
    ensures |r| == |ns| && forall i :: 0 <= i < |ns| ==> r[i] == Places(ns[i], inside, max)
    decreases ns, 0
  {
    if ns == [] then [] else [Places(ns[0], inside, max)] + PlacesOfAll(ns[1..], inside, max)
  }

  lemma {:induction false} PlacesHoldReports(n: Node, inside: bool, max: int)
    ensures Values(Places(n, inside, max)) == Reports(n, inside, max)
    decreases n, 1
  {
    var below := PlacesOfAll(n.children, Inside(n, inside), max);
    ValuesAppend(Spread(below, 0), Own(n, inside, max));
    ValuesSpread(below, 0);
    AllHoldReports(n.children, Inside(n, inside), max);
    OwnHoldsVerdict(n, inside, max);
    var all := ReportsOfAll(n.children, Inside(n, inside), max);
    assert all + [] == all;
  }

  lemma OwnHoldsVerdict(n: Node, inside: bool, max: int)
    ensures Values(Own(n, inside, max))
         == if IsConditionalLike(n) && !inside then Verdict(n, Operators(n), max) else []
  {
  }

  lemma {:induction false} AllHoldReports(ns: seq<Node>, inside: bool, max: int)
    ensures Flat(AllValues(PlacesOfAll(ns, inside, max))) == ReportsOfAll(ns, inside, max)
    decreases ns, 0
  {
    if ns != [] {
      PlacesHoldReports(ns[0], inside, max);
      AllHoldReports(ns[1..], inside, max);
      assert PlacesOfAll(ns, inside, max)[1..] == PlacesOfAll(ns[1..], inside, max);
    }
  }

  lemma {:induction false} PlacesInOrder(n: Node, inside: bool, max: int)
    ensures InOrder(Places(n, inside, max), true)
    decreases n
  {
    var below := PlacesOfAll(n.children, Inside(n, inside), max);
    forall i | 0 <= i < |n.children| ensures InOrder(below[i], true) {
      PlacesInOrder(n.children[i], Inside(n, inside), max);
    }
    SpreadInOrder(below, 0, true);
    ParentLast(Own(n, inside, max), Spread(below, 0));
  }

  lemma {:induction false} PlacesAreReported(n: Node, inside: bool, max: int, f: Found<Report>)
    ensures f in Places(n, inside, max) <==> Reported(n, inside, max, f)
    decreases n
  {
    MembersWithOwn(Own(n, inside, max), PlacesOfAll(n.children, Inside(n, inside), max), f);
    if f.path != [] && f.path[0] < |n.children| {
      ReportedBelow(n, inside, max, f);
      PlacesAreReported(n.children[f.path[0]], Inside(n, inside), max, Found(f.path[1..], f.value));
    }
  }

  /** The reports are exactly the outermost conditional-like nodes over the threshold, each once, inner ones first. */
  lemma ReportPlaces(program: Node, max: int) returns (places: seq<Found<Report>>)
    ensures Reports(program, false, max) == Values(places) && InOrder(places, true)
    ensures forall f :: f in places <==> TooComplex(program, max, f)
  {
    places := Places(program, false, max);
    PlacesHoldReports(program, false, max);
    PlacesInOrder(program, false, max);
    forall f ensures f in places <==> TooComplex(program, max, f) {
      PlacesAreReported(program, false, max, f);
    }
  }

  class ExpressionComplexity {
    var nestedLevel: int
    var operators: seq<Token>

    constructor ()
      ensures nestedLevel == 0 && operators == []
    {
      nestedLevel, operators := 0, [];
    }
  }

  class Rule {
    const threshold: int
    var statementLevel: seq<ExpressionComplexity>
    var reports: seq<Report>

    ghost predicate Valid()
      reads this
    {
      && statementLevel != []
      && forall i, j :: 0 <= i < j < |statementLevel| ==> statementLevel[i] != statementLevel[j]
    }

    ghost function Top(): ExpressionComplexity
      requires statementLevel != []
      reads this
    {
      statementLevel[|statementLevel| - 1]
    }

    /** Operators are collected only while some conditional-like node is open. */
    ghost predicate Ready()
      reads this, if statementLevel != [] then {statementLevel[|statementLevel| - 1]} else {}
    {
      Valid() && Top().nestedLevel >= 0 && (Top().nestedLevel == 0 ==> Top().operators == [])
    }

    constructor (threshold: int)
      ensures Ready() && this.threshold == threshold && reports == []
      ensures |statementLevel| == 1 && fresh(statementLevel[0])
      ensures Top().nestedLevel == 0
    {
      this.threshold := threshold;
      var bottom := new ExpressionComplexity();
      statementLevel, reports := [bottom], [];
    }

    /** The `*` handler. */
    method Enter(n: Node)
      requires Valid()
      modifies this`statementLevel, Top()
      ensures reports == old(reports)
      ensures IsConditionalLike(n) ==>
        && statementLevel == old(statementLevel)
        && Top().nestedLevel == old(Top().nestedLevel) + 1
        && Top().operators == old(Top().operators) + [n.operator]
      ensures !IsConditionalLike(n) ==> unchanged(old(Top()))
      ensures !IsConditionalLike(n) && IsScopeLike(n) ==>
        && |statementLevel| == |old(statementLevel)| + 1
        && statementLevel[..|old(statementLevel)|] == old(statementLevel)
        && fresh(Top()) && Top().nestedLevel == 0 && Top().operators == []
      ensures !IsConditionalLike(n) && !IsScopeLike(n) ==> statementLevel == old(statementLevel)
    {
      if IsConditionalLike(n) {
        var expr := statementLevel[|statementLevel| - 1];
        expr.nestedLevel := expr.nestedLevel + 1;
        expr.operators := expr.operators + [n.operator];
      } else if IsScopeLike(n) {
        var level := new ExpressionComplexity();
        statementLevel := statementLevel + [level];
      }
    }

    /** The `*:exit` handler. */
    method Exit(n: Node)
      requires Valid()
      modifies this`statementLevel, this`reports, Top()
      ensures IsConditionalLike(n) ==>
        && statementLevel == old(statementLevel)
        && Top().nestedLevel == old(Top().nestedLevel) - 1
        && (if Top().nestedLevel == 0
            then Top().operators == [] && reports == old(reports) + Verdict(n, old(Top().operators), threshold)
            else Top().operators == old(Top().operators) && reports == old(reports))
      ensures !IsConditionalLike(n) ==> unchanged(old(Top())) && reports == old(reports)
      ensures !IsConditionalLike(n) ==>
        statementLevel == old(statementLevel)[..|old(statementLevel)| - if IsScopeLike(n) then 1 else 0]
    {
      if IsConditionalLike(n) {
        var expr := statementLevel[|statementLevel| - 1];
        expr.nestedLevel := expr.nestedLevel - 1;
        if expr.nestedLevel == 0 {
          var operators := expr.operators;
          if |operators| > threshold {
            reports := reports + [Report(n, operators, |operators| - threshold)];
          }
          expr.operators := [];
        }
      } else if IsScopeLike(n) {
        statementLevel := statementLevel[..|statementLevel| - 1];
      }
    }

    /** The traversal of a subtree: enter, children in order, exit. */
    method Visit(n: Node)
      requires Ready()
      modifies this`statementLevel, this`reports, Top()
      ensures statementLevel == old(statementLevel) && Ready()
      ensures Top().nestedLevel == old(Top().nestedLevel)
      ensures Top().operators == if old(Top().nestedLevel) > 0 then old(Top().operators) + Operators(n) else []
      ensures reports == old(reports) + Reports(n, old(Top().nestedLevel) > 0, threshold)
      decreases n, 1
    {
      ghost var before, inside := reports, Top().nestedLevel > 0;
      ghost var below := IsConditionalLike(n) || (inside && !IsScopeLike(n));
      Enter(n);
      VisitAll(n.children);
      assert reports == before + ReportsOfAll(n.children, below, threshold);
      ghost var collected := Top().operators;
      assert IsConditionalLike(n) && !inside ==> collected == Operators(n);
      Exit(n);
      ghost var verdict := Verdict(n, Operators(n), threshold);
      assert before + ReportsOfAll(n.children, below, threshold) + verdict
          == before + (ReportsOfAll(n.children, below, threshold) + verdict);
    }

    method VisitAll(ns: seq<Node>)
      requires Ready()
      modifies this`statementLevel, this`reports, Top()
      ensures statementLevel == old(statementLevel) && Ready()
      ensures Top().nestedLevel == old(Top().nestedLevel)
      ensures Top().operators == if old(Top().nestedLevel) > 0 then old(Top().operators) + OperatorsOfAll(ns) else []
      ensures reports == old(reports) + ReportsOfAll(ns, old(Top().nestedLevel) > 0, threshold)
      decreases ns, 0
    {
      if ns != [] {
        ghost var top, before, operators := Top(), reports, Top().operators;
        Visit(ns[0]);
        ghost var r0 := Reports(ns[0], top.nestedLevel > 0, threshold);
        assert reports == before + r0;
        VisitAll(ns[1..]);
        ghost var r1 := ReportsOfAll(ns[1..], top.nestedLevel > 0, threshold);
        assert before + r0 + r1 == before + (r0 + r1);
        assert operators + Operators(ns[0]) + OperatorsOfAll(ns[1..]) == operators + OperatorsOfAll(ns);
      }
    }
  }

  /** Linting a whole tree. */
  method Lint(program: Node, threshold: int) returns (reports: seq<Report>, ghost places: seq<Found<Report>>)
    ensures reports == Reports(program, false, threshold)
    ensures reports == Values(places) && InOrder(places, true)
    ensures forall f :: f in places <==> TooComplex(program, threshold, f)
  {
    var rule := new Rule(threshold);
    rule.Visit(program);
    reports := rule.reports;
    places := ReportPlaces(program, threshold);
  }
}
