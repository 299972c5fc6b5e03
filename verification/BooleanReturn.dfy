/** S1126: an if-then-else that returns boolean literals becomes a single return.
    `packages/jsts/src/rules/S1126/rule.ts`. */
module BooleanReturn {
  import opened Common
  import opened Paths
  import opened MiniLang

  /** `isSimpleReturnBooleanLiteral`: the literal returned, if that is all the statement does. */
  function SimpleReturn(s: Stmt): Option<bool> {
    match s
    case Return(Some(Literal(Bool(b)))) => Some(b)
    case _ => None
  }

  /** `returnsBoolean`, with the literal. */
  function ReturnsBoolean(s: Stmt): Option<bool> {
    match s
    case Block(body) => if |body| == 1 then SimpleReturn(body[0]) else None
    case _ => SimpleReturn(s)
  }

  /** Such a statement is a return of the literal, or a block with nothing else in it. */
  lemma ReturnsBooleanIff(s: Stmt, b: bool)
    ensures SimpleReturn(s) == Some(b) <==> s == Return(Some(Literal(Bool(b))))
    ensures ReturnsBoolean(s) == Some(b) <==>
      s == Return(Some(Literal(Bool(b)))) || s == Block([Return(Some(Literal(Bool(b))))])
  {
    if s.Block? && |s.body| == 1 {
      assert s.body == [s.body[0]];
    }
  }

  const BOOLEAN_OPERATORS := ["!", "==", "===", "!=", "!==", "<", "<=", ">", ">=", "in", "instanceof"]

  predicate IsBooleanExpression(e: Expr) {
    (e.Unary? || e.Binary?) && e.operator in BOOLEAN_OPERATORS
  }

  /** Those operators give booleans (or an exception). */
  ghost predicate OperatorsAreBoolean(h: Host) {
    && (forall op, v, w :: op in BOOLEAN_OPERATORS && h.binary(op, v, w).Value? ==> h.binary(op, v, w).v.Bool?)
    && (forall op, v :: op in BOOLEAN_OPERATORS && h.unary(op, v).Value? ==> h.unary(op, v).v.Bool?)
  }

  /** The condition of the first suggestion, for a consequent that returns `c`. */
  function Suggested(test: Expr, c: bool): Expr {
    if !c then Unary("!", test)
    else if IsBooleanExpression(test) then test
    else Unary("!", Unary("!", test))
  }

  /** The test is taken as it stands for a negation or a comparison, and is negated once or twice otherwise. */
  lemma SuggestedForm(test: Expr, c: bool)
    ensures Suggested(test, c) == test <==>
      c && (test.Unary? || test.Binary?)
      && test.operator in {"!", "==", "===", "!=", "!==", "<", "<=", ">", ">=", "in", "instanceof"}
    ensures Suggested(test, c) in {test, Unary("!", test), Unary("!", Unary("!", test))}
  {
    SmallerThanNegated(test);
  }

  lemma {:induction false} SmallerThanNegated(e: Expr)
    ensures e != Unary("!", e) && e != Unary("!", Unary("!", e))
    decreases e
  {
    if e.Unary? {
      SmallerThanNegated(e.argument);
    }
  }

  /** The reported statements, with the test `test` and the literals `c` and `a`: with an alternate, or followed
      by a return. */
  predicate ReportedIf(s: Stmt, c: bool, a: bool) {
    && s.If? && s.alternate.Some?
    && ReturnsBoolean(s.consequent) == Some(c) && ReturnsBoolean(s.alternate.value) == Some(a)
  }

  predicate ReportedPair(s: Stmt, next: Stmt, c: bool, a: bool) {
    s.If? && s.alternate.None? && ReturnsBoolean(s.consequent) == Some(c) && SimpleReturn(next) == Some(a)
  }

  lemma ExecReturnsBoolean(h: Host, s: Stmt, st: State, fuel: nat)
    requires ReturnsBoolean(s).Some?
    ensures Exec(h, s, st, fuel) == Outcome(Returned(Bool(ReturnsBoolean(s).value)), st)
  {
    if s.Block? {
      assert ExecAll(h, s.body, st, fuel) == Exec(h, s.body[0], st, fuel);
    }
  }

  lemma NotNot(h: Host, e: Expr, st: State)
    ensures Eval(h, Unary("!", e), st) == (match Eval(h, e, st)
      case Raised(v, st1) => Raised(v, st1)
      case Done(v, st1) => Done(Bool(!Truthy(v)), st1))
  {
  }

  /** The value of the suggested condition is the truth of the test, negated if the consequent returns false. */
  lemma SuggestedValue(h: Host, test: Expr, c: bool, st: State)
    requires OperatorsAreBoolean(h)
    ensures Eval(h, Suggested(test, c), st) == (match Eval(h, test, st)
      case Raised(v, st1) => Raised(v, st1)
      case Done(v, st1) => Done(Bool(Truthy(v) == c), st1))
  {
    NotNot(h, test, st);
    NotNot(h, Unary("!", test), st);
    if c && IsBooleanExpression(test) {
      BooleanExpressionValue(h, test, st);
    }
  }

  lemma BooleanExpressionValue(h: Host, e: Expr, st: State)
    requires OperatorsAreBoolean(h) && IsBooleanExpression(e)
    ensures Eval(h, e, st).Done? ==> Eval(h, e, st).v.Bool?
  {
    if e.Binary? && Eval(h, e.left, st).Done? {
      var l := Eval(h, e.left, st);
      if Eval(h, e.right, l.st).Done? {
        var r := Eval(h, e.right, l.st);
        assert h.binary(e.operator, l.v, r.v).Value? ==> h.binary(e.operator, l.v, r.v).v.Bool?;
      }
    }
  }

  /** What both forms of the reported code do. */
  function Branch(h: Host, test: Expr, c: bool, a: bool, st: State): Outcome {
    match Eval(h, test, st)
    case Raised(v, st1) => Outcome(Thrown(v), st1)
    case Done(v, st1) => Outcome(Returned(Bool(if Truthy(v) then c else a)), st1)
  }

  lemma ReportedIfOutcome(h: Host, s: Stmt, c: bool, a: bool, st: State, fuel: nat)
    requires ReportedIf(s, c, a)
    ensures Exec(h, s, st, fuel) == Branch(h, s.test, c, a, st)
  {
    var r := Eval(h, s.test, st);
    if r.Done? {
      ExecReturnsBoolean(h, s.consequent, r.st, fuel);
      ExecReturnsBoolean(h, s.alternate.value, r.st, fuel);
    }
  }

  lemma ReportedPairOutcome(h: Host, s: Stmt, next: Stmt, rest: seq<Stmt>, c: bool, a: bool, st: State, fuel: nat)
    requires ReportedPair(s, next, c, a)
    ensures ExecAll(h, [s, next] + rest, st, fuel) == Branch(h, s.test, c, a, st)
  {
    var r := Eval(h, s.test, st);
    assert ([s, next] + rest)[1..] == [next] + rest;
    if r.Done? {
      ExecReturnsBoolean(h, s.consequent, r.st, fuel);
      ExecReturnsBoolean(h, next, r.st, fuel);
      assert ExecAll(h, [next] + rest, r.st, fuel) == Exec(h, next, r.st, fuel);
    }
  }

  lemma SuggestionOutcome(h: Host, test: Expr, c: bool, rest: seq<Stmt>, st: State, fuel: nat)
    requires OperatorsAreBoolean(h)
    ensures Exec(h, Return(Some(Suggested(test, c))), st, fuel) == Branch(h, test, c, !c, st)
    ensures ExecAll(h, [Return(Some(Suggested(test, c)))] + rest, st, fuel) == Branch(h, test, c, !c, st)
  {
    SuggestedValue(h, test, c, st);
    assert ([Return(Some(Suggested(test, c)))] + rest)[0] == Return(Some(Suggested(test, c)));
  }

  lemma SuggestionVersusBranch(h: Host, test: Expr, c: bool, a: bool, st: State)
    ensures Branch(h, test, c, !c, st) == Branch(h, test, c, a, st) <==>
      c != a || (Eval(h, test, st).Done? ==> Truthy(Eval(h, test, st).v))
  {
  }

  /** When the first suggestion is right for a given statement with an alternate, in a given state. */
  lemma IfSuggestionRightIff(h: Host, s: Stmt, c: bool, a: bool, st: State, fuel: nat)
    requires OperatorsAreBoolean(h) && ReportedIf(s, c, a)
    ensures Exec(h, Return(Some(Suggested(s.test, c))), st, fuel) == Exec(h, s, st, fuel) <==>
      c != a || (Eval(h, s.test, st).Done? ==> Truthy(Eval(h, s.test, st).v))
  {
    ReportedIfOutcome(h, s, c, a, st, fuel);
    SuggestionOutcome(h, s.test, c, [], st, fuel);
    SuggestionVersusBranch(h, s.test, c, a, st);
  }

  /** The same for a statement that a return follows. */
  lemma PairSuggestionRightIff(h: Host, s: Stmt, next: Stmt, rest: seq<Stmt>, c: bool, a: bool, st: State, fuel: nat)
    requires OperatorsAreBoolean(h) && ReportedPair(s, next, c, a)
    ensures
      ExecAll(h, [Return(Some(Suggested(s.test, c)))] + rest, st, fuel) == ExecAll(h, [s, next] + rest, st, fuel) <==>
        c != a || (Eval(h, s.test, st).Done? ==> Truthy(Eval(h, s.test, st).v))
  {
    ReportedPairOutcome(h, s, next, rest, c, a, st, fuel);
    SuggestionOutcome(h, s.test, c, rest, st, fuel);
    SuggestionVersusBranch(h, s.test, c, a, st);
  }

  ghost predicate RightForIfs(h: Host, c: bool, a: bool, st: State, fuel: nat) {
    forall s :: ReportedIf(s, c, a) ==> Exec(h, Return(Some(Suggested(s.test, c))), st, fuel) == Exec(h, s, st, fuel)
  }

  ghost predicate RightForPairs(h: Host, c: bool, a: bool, rest: seq<Stmt>, st: State, fuel: nat) {
    forall s, next :: ReportedPair(s, next, c, a) ==>
      ExecAll(h, [Return(Some(Suggested(s.test, c)))] + rest, st, fuel) == ExecAll(h, [s, next] + rest, st, fuel)
  }

  /** Over all tests, the suggestion is right if and only if the literals differ, in both forms of the reported code. */
  lemma SuggestionRightIff(h: Host, c: bool, a: bool, rest: seq<Stmt>, st: State, fuel: nat)
    requires OperatorsAreBoolean(h)
    ensures RightForIfs(h, c, a, st, fuel) <==> c != a
    ensures RightForPairs(h, c, a, rest, st, fuel) <==> c != a
  {
    forall s | ReportedIf(s, c, a) && c != a
      ensures Exec(h, Return(Some(Suggested(s.test, c))), st, fuel) == Exec(h, s, st, fuel)
    {
      IfSuggestionRightIff(h, s, c, a, st, fuel);
    }
    forall s, next | ReportedPair(s, next, c, a) && c != a
      ensures
        ExecAll(h, [Return(Some(Suggested(s.test, c)))] + rest, st, fuel) == ExecAll(h, [s, next] + rest, st, fuel)
    {
      PairSuggestionRightIff(h, s, next, rest, c, a, st, fuel);
    }
    var first, second := Return(Some(Literal(Bool(c)))), Return(Some(Literal(Bool(a))));
    var s, t := If(Literal(Bool(false)), first, Some(second)), If(Literal(Bool(false)), first, None);
    assert ReportedIf(s, c, a) && ReportedPair(t, second, c, a);
    IfSuggestionRightIff(h, s, c, a, st, fuel);
    PairSuggestionRightIff(h, t, second, rest, c, a, st, fuel);
  }

  /** The second, uncast suggestion is right in a state exactly when the test does not yield a non-boolean there. */
  lemma UncastRightIff(h: Host, s: Stmt, st: State, fuel: nat)
    requires ReportedIf(s, true, false)
    ensures Exec(h, Return(Some(s.test)), st, fuel) == Exec(h, s, st, fuel) <==>
      (Eval(h, s.test, st).Done? ==> Eval(h, s.test, st).v.Bool?)
  {
    ReportedIfOutcome(h, s, true, false, st, fuel);
  }

  lemma UncastPairRightIff(h: Host, s: Stmt, next: Stmt, rest: seq<Stmt>, st: State, fuel: nat)
    requires ReportedPair(s, next, true, false)
    ensures ExecAll(h, [Return(Some(s.test))] + rest, st, fuel) == ExecAll(h, [s, next] + rest, st, fuel) <==>
      (Eval(h, s.test, st).Done? ==> Eval(h, s.test, st).v.Bool?)
  {
    ReportedPairOutcome(h, s, next, rest, true, false, st, fuel);
    assert ([Return(Some(s.test))] + rest)[0] == Return(Some(s.test));
  }

  predicate OppositeIf(s: Stmt) {
    && s.If? && s.alternate.Some?
    && ReturnsBoolean(s.consequent).Some? && ReturnsBoolean(s.alternate.value).Some?
    && ReturnsBoolean(s.consequent) != ReturnsBoolean(s.alternate.value)
  }

  predicate OppositePair(s: Stmt, next: Stmt) {
    && s.If? && s.alternate.None?
    && ReturnsBoolean(s.consequent).Some? && SimpleReturn(next).Some?
    && ReturnsBoolean(s.consequent) != SimpleReturn(next)
  }

  function SingleReturn(s: Stmt): Stmt
    requires s.If? && ReturnsBoolean(s.consequent).Some?
  {
    Return(Some(Suggested(s.test, ReturnsBoolean(s.consequent).value)))
  }

  /** A program with the first suggestion taken at every reported place whose literals differ; a statement directly
      `underIf` is not reported, and the form without an alternate only counts in blocks. */
  function Simplify(s: Stmt, underIf: bool): Stmt
    decreases s, 1
  {
    if !underIf && OppositeIf(s) then SingleReturn(s)
    else match s
      case Block(body) => Block(SimplifyBody(body, true))
      case If(t, c, None) => If(t, Simplify(c, true), None)
      case If(t, c, Some(a)) => If(t, Simplify(c, true), Some(Simplify(a, true)))
      case While(t, b) => While(t, Simplify(b, false))
      case Switch(d, cases) => Switch(d, SimplifyCases(cases))
      case Try(b, param, handler, f) =>
        Try(SimplifyBody(b, true), param, SimplifyBody(handler, true), SimplifyBody(f, true))
      case _ => s
  }

  function SimplifyBody(ss: seq<Stmt>, inBlock: bool): seq<Stmt>
    decreases ss, 0
  {
    if ss == [] then []
    else if inBlock && |ss| > 1 && OppositePair(ss[0], ss[1]) then
      [SingleReturn(ss[0])] + SimplifyBody(ss[2..], inBlock)
    else [Simplify(ss[0], false)] + SimplifyBody(ss[1..], inBlock)
  }

  function SimplifyCases(cases: seq<Case>): (r: seq<Case>)
    ensures |r| == |cases|
    decreases cases, 0
  {
    if cases == [] then []
    else [Case(cases[0].test, SimplifyBody(cases[0].consequent, false))] + SimplifyCases(cases[1..])
  }

  /** The same value, calls and variables, in every state. */
  lemma {:induction false} SimplifyPreserves(h: Host, s: Stmt, underIf: bool, st: State, fuel: nat)
    requires OperatorsAreBoolean(h)
    ensures Exec(h, Simplify(s, underIf), st, fuel) == Exec(h, s, st, fuel)
    decreases fuel, s, 1
  {
    if !underIf && OppositeIf(s) {
      var c := ReturnsBoolean(s.consequent).value;
      ReportedIfOutcome(h, s, c, !c, st, fuel);
      SuggestionOutcome(h, s.test, c, [], st, fuel);
    } else {
      match s {
        case Block(body) => SimplifyBodyPreserves(h, body, true, st, fuel);
        case If(t, c, alternate) =>
          var r := Eval(h, t, st);
          if r.Done? {
            SimplifyPreserves(h, c, true, r.st, fuel);
            if alternate.Some? {
              SimplifyPreserves(h, alternate.value, true, r.st, fuel);
            }
          }
        case While(t, b) => SimplifyWhilePreserves(h, t, b, st, fuel);
        case Switch(d, cases) => SimplifySwitchPreserves(h, d, cases, st, fuel);
        case Try(b, _, _, _) => SimplifyTryPreserves(h, s, st, fuel);
        case _ =>
      }
    }
  }

  lemma {:induction false} SimplifyWhilePreserves(h: Host, t: Expr, b: Stmt, st: State, fuel: nat)
    requires OperatorsAreBoolean(h)
    ensures Exec(h, While(t, Simplify(b, false)), st, fuel) == Exec(h, While(t, b), st, fuel)
    decreases fuel, While(t, b), 0
  {
    var r := Eval(h, t, st);
    if r.Done? && fuel > 0 {
      SimplifyPreserves(h, b, false, r.st, fuel);
      SimplifyWhilePreserves(h, t, b, Exec(h, b, r.st, fuel).st, fuel - 1);
    }
  }

  lemma {:induction false} SimplifyTryPreserves(h: Host, s: Stmt, st: State, fuel: nat)
    requires OperatorsAreBoolean(h) && s.Try?
    ensures Exec(h, Simplify(s, false), st, fuel) == Exec(h, s, st, fuel)
    decreases fuel, s, 0
  {
    SimplifyBodyPreserves(h, s.block, true, st, fuel);
    var o := ExecAll(h, s.block, st, fuel);
    if o.c.Thrown? && s.param.Some? {
      var caught := Write(o.st, s.param.value, o.c.v);
      SimplifyBodyPreserves(h, s.handler, true, caught, fuel);
      o := ExecAll(h, s.handler, caught, fuel);
    }
    SimplifyBodyPreserves(h, s.finalizer, true, o.st, fuel);
  }

  lemma {:induction false} SimplifySwitchPreserves(h: Host, d: Expr, cases: seq<Case>, st: State, fuel: nat)
    requires OperatorsAreBoolean(h)
    ensures Exec(h, Switch(d, SimplifyCases(cases)), st, fuel) == Exec(h, Switch(d, cases), st, fuel)
    decreases fuel, Switch(d, cases), 0
  {
    var r := Eval(h, d, st);
    if r.Done? {
      SimplifySelects(h, r.v, cases, r.st);
      var selected := Select(h, r.v, cases, r.st);
      if selected.Selected? {
        var i := if selected.index < |cases| then selected.index else DefaultIndex(cases);
        SimplifyCasesPreserves(h, cases, i, selected.st, fuel);
      }
    }
  }

  lemma {:induction false} SimplifySelects(h: Host, d: Value, cases: seq<Case>, st: State)
    ensures Select(h, d, SimplifyCases(cases), st) == Select(h, d, cases, st)
    ensures DefaultIndex(SimplifyCases(cases)) == DefaultIndex(cases)
    decreases |cases|
  {
    if cases != [] {
      var simplified := SimplifyCases(cases);
      assert simplified[0].test == cases[0].test && simplified[1..] == SimplifyCases(cases[1..]);
      SimplifySelects(h, d, cases[1..], st);
      if cases[0].test.Some? {
        SimplifySelects(h, d, cases[1..], Eval(h, cases[0].test.value, st).st);
      }
    }
  }

  lemma {:induction false} SimplifyCasesPreserves(h: Host, cases: seq<Case>, skip: nat, st: State, fuel: nat)
    requires OperatorsAreBoolean(h)
    ensures ExecCases(h, SimplifyCases(cases), skip, st, fuel) == ExecCases(h, cases, skip, st, fuel)
    decreases fuel, cases, 0
  {
    if cases != [] {
      var simplified := SimplifyCases(cases);
      assert simplified[0].consequent == SimplifyBody(cases[0].consequent, false);
      assert simplified[1..] == SimplifyCases(cases[1..]);
      if skip > 0 {
        SimplifyCasesPreserves(h, cases[1..], skip - 1, st, fuel);
      } else {
        SimplifyBodyPreserves(h, cases[0].consequent, false, st, fuel);
        SimplifyCasesPreserves(h, cases[1..], 0, ExecAll(h, cases[0].consequent, st, fuel).st, fuel);
      }
    }
  }

  lemma {:induction false} SimplifyBodyPreserves(h: Host, ss: seq<Stmt>, inBlock: bool, st: State, fuel: nat)
    requires OperatorsAreBoolean(h)
    ensures ExecAll(h, SimplifyBody(ss, inBlock), st, fuel) == ExecAll(h, ss, st, fuel)
    decreases fuel, ss, 0
  {
    if ss == [] {
    } else if inBlock && |ss| > 1 && OppositePair(ss[0], ss[1]) {
      var c := ReturnsBoolean(ss[0].consequent).value;
      assert ss == [ss[0], ss[1]] + ss[2..];
      ReportedPairOutcome(h, ss[0], ss[1], ss[2..], c, !c, st, fuel);
      SuggestionOutcome(h, ss[0].test, c, SimplifyBody(ss[2..], inBlock), st, fuel);
    } else {
      var simplified := SimplifyBody(ss, inBlock);
      assert simplified[0] == Simplify(ss[0], false) && simplified[1..] == SimplifyBody(ss[1..], inBlock);
      SimplifyPreserves(h, ss[0], false, st, fuel);
      SimplifyBodyPreserves(h, ss[1..], inBlock, Exec(h, ss[0], st, fuel).st, fuel);
    }
  }

  /** What a piece tells its parts: a statement, whether it stands directly under an `if`; a list, whether it is the one
      of a block. */
  predicate Flag(parent: Piece, part: Piece) {
    match part
    case StmtPiece(_) => parent.StmtPiece? && parent.s.If?
    case ListPiece(_) => parent.StmtPiece?
    case _ => false
  }

  predicate FlagAt(p: Piece, flag: bool, path: Path)
    requires IsPath(p, path)
    decreases |path|
  {
    if path == [] then flag
    else FlagAt(Parts(p)[path[0]], Flag(p, Parts(p)[path[0]]), path[1..])
  }

  /** Code with different literals that the rule reports stands at that place. */
  ghost predicate SiteAt(p: Piece, flag: bool, path: Path) {
    IsPath(p, path) &&
    match At(p, path)
    case StmtPiece(s) => !FlagAt(p, flag, path) && OppositeIf(s)
    case ListPiece(ss) => FlagAt(p, flag, path) && HasPair(ss)
    case _ => false
  }

  ghost predicate HasPair(ss: seq<Stmt>) {
    exists i :: 0 <= i < |ss| - 1 && OppositePair(ss[i], ss[i + 1])
  }

  lemma {:induction false} NoSiteInExpr(e: Expr, flag: bool, path: Path)
    ensures !SiteAt(ExprPiece(e), flag, path)
    decreases |path|
  {
    if path != [] && path[0] < |ExprParts(e)| {
      NoSiteInExpr(ExprParts(e)[path[0]].e, false, path[1..]);
    }
  }

  lemma NoSiteInReturn(e: Expr, flag: bool, path: Path)
    ensures !SiteAt(StmtPiece(Return(Some(e))), flag, path)
  {
    if path != [] {
      NoSiteInExpr(e, false, path[1..]);
    }
  }

  /** Simplifying makes no new returns of literals. */
  lemma SimplifiedReturns(s: Stmt, underIf: bool)
    ensures SimpleReturn(Simplify(s, underIf)) in {None, SimpleReturn(s)}
    ensures underIf ==> ReturnsBoolean(Simplify(s, underIf)) in {None, ReturnsBoolean(s)}
  {
    if underIf && s.Block? && s.body != [] {
      SimplifiedBodyReturns(s.body);
    }
  }

  lemma SimplifiedBodyReturns(ss: seq<Stmt>)
    requires ss != []
    ensures var r := SimplifyBody(ss, true);
            |r| == 1 ==> SimpleReturn(r[0]) == None || (|ss| == 1 && SimpleReturn(r[0]) == SimpleReturn(ss[0]))
  {
    var pair := |ss| > 1 && OppositePair(ss[0], ss[1]);
    if !pair {
      var rest := SimplifyBody(ss[1..], true);
      assert SimplifyBody(ss, true) == [Simplify(ss[0], false)] + rest;
      if |ss| > 1 {
        assert rest != [];
      }
    } else {
      assert SimplifyBody(ss, true)[0] == SingleReturn(ss[0]);
    }
  }

  lemma {:induction false} SimplifiedCase(cases: seq<Case>, i: nat)
    requires i < |cases|
    ensures SimplifyCases(cases)[i] == Case(cases[i].test, SimplifyBody(cases[i].consequent, false))
  {
    if i > 0 {
      SimplifiedCase(cases[1..], i - 1);
    }
  }

  lemma {:induction false} NoPairLeft(ss: seq<Stmt>)
    ensures !HasPair(SimplifyBody(ss, true))
  {
    if |ss| > 1 && OppositePair(ss[0], ss[1]) {
      NoPairLeft(ss[2..]);
    } else if ss != [] {
      NoPairLeft(ss[1..]);
      var first, rest := Simplify(ss[0], false), SimplifyBody(ss[1..], true);
      if rest != [] && OppositePair(first, rest[0]) {
        SimplifiedReturns(ss[0].consequent, true);
        SimplifiedReturns(ss[1], false);
        assert false;
      }
      assert forall i :: 0 < i < |rest| ==> ([first] + rest)[i] == rest[i - 1];
    }
  }

  /** Wherever it looks, no reported code with different literals is left in a simplified statement. */
  lemma {:induction false} NothingLeft(s: Stmt, underIf: bool, path: Path)
    ensures !SiteAt(StmtPiece(Simplify(s, underIf)), underIf, path)
    decreases |path|
  {
    var r := Simplify(s, underIf);
    if !underIf && OppositeIf(s) {
      NoSiteInReturn(r.argument.value, underIf, path);
    } else if path == [] {
      if s.If? && s.alternate.Some? {
        SimplifiedReturns(s.consequent, true);
        SimplifiedReturns(s.alternate.value, true);
      }
    } else if path[0] < |StmtParts(r)| {
      var part, rest := StmtParts(r)[path[0]], path[1..];
      match part {
        case ExprPiece(e) => NoSiteInExpr(e, false, rest);
        case StmtPiece(_) =>
          match s {
            case If(_, c, a) =>
              if path[0] == 1 {
                NothingLeft(c, true, rest);
              } else {
                NothingLeft(a.value, true, rest);
              }
            case While(_, b) => NothingLeft(b, false, rest);
          }
        case ListPiece(_) =>
          match s {
            case Block(body) => NothingLeftInList(body, true, rest);
            case Try(b, _, handler, f) =>
              NothingLeftInList(if path[0] == 0 then b else if path[0] == 1 then handler else f, true, rest);
          }
        case CasePiece(c) =>
          SimplifiedCase(s.cases, path[0] - 1);
          NothingLeftInCase(s.cases[path[0] - 1], rest);
        case DeclaratorPiece(d) => NothingLeftInDeclarator(d, rest);
      }
    }
  }

  lemma NothingLeftInDeclarator(d: Declarator, path: Path)
    ensures !SiteAt(DeclaratorPiece(d), false, path)
  {
    if path != [] && d.init.Some? {
      NoSiteInExpr(d.init.value, false, path[1..]);
    }
  }

  lemma {:induction false} NothingLeftInCase(c: Case, path: Path)
    ensures !SiteAt(CasePiece(Case(c.test, SimplifyBody(c.consequent, false))), false, path)
    decreases |path|
  {
    if path != [] {
      if c.test.Some? && path[0] == 0 {
        NoSiteInExpr(c.test.value, false, path[1..]);
      } else {
        NothingLeftInList(c.consequent, false, path[1..]);
      }
    }
  }

  lemma {:induction false} NothingLeftInList(ss: seq<Stmt>, inBlock: bool, path: Path)
    ensures !SiteAt(ListPiece(SimplifyBody(ss, inBlock)), inBlock, path)
    decreases |path|
  {
    var r := SimplifyBody(ss, inBlock);
    if path == [] {
      if inBlock {
        NoPairLeft(ss);
      }
    } else if path[0] < |r| {
      var s, single := SimplifiedFrom(ss, inBlock, path[0]);
      if single {
        NoSiteInReturn(r[path[0]].argument.value, false, path[1..]);
      } else {
        NothingLeft(s, false, path[1..]);
      }
    }
  }

  lemma {:induction false} SimplifiedFrom(ss: seq<Stmt>, inBlock: bool, i: nat) returns (s: Stmt, single: bool)
    requires i < |SimplifyBody(ss, inBlock)|
    ensures var r := SimplifyBody(ss, inBlock)[i];
            if single then r.Return? && r.argument.Some? else r == Simplify(s, false)
  {
    var pair := inBlock && |ss| > 1 && OppositePair(ss[0], ss[1]);
    if i == 0 {
      s, single := ss[0], pair;
    } else {
      s, single := SimplifiedFrom(if pair then ss[2..] else ss[1..], inBlock, i - 1);
    }
  }
}
