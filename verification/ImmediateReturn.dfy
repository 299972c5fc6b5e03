/** S1488: `const x = e; return x;` becomes `return e;`, likewise for `throw`.
    `packages/jsts/src/rules/S1488/rule.ts`. */
module ImmediateReturn {
  import opened Common
  import opened Paths
  import opened MiniLang

  function Reads(x: Name, e: Expr): nat
    decreases e, 1
  {
    match e
    case Literal(_) => 0
    case Identifier(y) => if x == y then 1 else 0
    case Assignment(op, y, value) => (if x == y && op != "=" then 1 else 0) + Reads(x, value)
    case Unary(_, a) => Reads(x, a)
    case Binary(_, l, r) => Reads(x, l) + Reads(x, r)
    case Conditional(t, c, a) => Reads(x, t) + Reads(x, c) + Reads(x, a)
    case Call(_, es) => ReadsAll(x, es)
  }

  function ReadsAll(x: Name, es: seq<Expr>): nat
    decreases es, 0
  {
    if es == [] then 0 else Reads(x, es[0]) + ReadsAll(x, es[1..])
  }

  function ReadsOpt(x: Name, e: Option<Expr>): nat {
    match e
    case None => 0
    case Some(e) => Reads(x, e)
  }

  function DeclReads(x: Name, ds: seq<Declarator>): nat {
    if ds == [] then 0 else ReadsOpt(x, ds[0].init) + DeclReads(x, ds[1..])
  }

  /** The read references of `x` in a statement, wherever they are: `references.filter(ref => ref.isRead())`. */
  function StmtReads(x: Name, s: Stmt): nat
    decreases s, 1
  {
    match s
    case ExpressionStatement(e) => Reads(x, e)
    case VariableDeclaration(ds) => DeclReads(x, ds)
    case Return(e) => ReadsOpt(x, e)
    case Throw(e) => Reads(x, e)
    case Block(body) => BodyReads(x, body)
    case If(t, c, None) => Reads(x, t) + StmtReads(x, c)
    case If(t, c, Some(a)) => Reads(x, t) + StmtReads(x, c) + StmtReads(x, a)
    case While(t, b) => Reads(x, t) + StmtReads(x, b)
    case Switch(d, cases) => Reads(x, d) + CaseReads(x, cases)
    case Try(b, _, handler, f) => BodyReads(x, b) + BodyReads(x, handler) + BodyReads(x, f)
    case Break => 0
    case Continue => 0
  }

  function BodyReads(x: Name, ss: seq<Stmt>): nat
    decreases ss, 0
  {
    if ss == [] then 0 else StmtReads(x, ss[0]) + BodyReads(x, ss[1..])
  }

  function CaseReads(x: Name, cases: seq<Case>): nat
    decreases cases, 0
  {
    if cases == [] then 0
    else ReadsOpt(x, cases[0].test) + BodyReads(x, cases[0].consequent) + CaseReads(x, cases[1..])
  }

  /** At that place stands an expression that reads `x`. */
  predicate ReadAt(p: Piece, x: Name, f: Found<Expr>) {
    && IsPath(p, f.path) && At(p, f.path) == ExprPiece(f.value)
    && (f.value == Identifier(x) || (f.value.Assignment? && f.value.target == x && f.value.operator != "="))
  }

  /** All places in the piece that read `x`, each once, in source order. */
  ghost predicate AreReads(p: Piece, x: Name, fs: seq<Found<Expr>>) {
    InOrder(fs, false) && forall f :: f in fs <==> ReadAt(p, x, f)
  }

  function OwnRead(x: Name, p: Piece): (r: seq<Found<Expr>>)
    ensures forall f :: f in r <==> f.path == [] && ReadAt(p, x, f)
  {
    if p.ExprPiece? && ReadAt(p, x, Found([], p.e)) then [Found([], p.e)] else []
  }

  function Total(fss: seq<seq<Found<Expr>>>): nat {
    if fss == [] then 0 else |fss[0]| + Total(fss[1..])
  }

  lemma {:induction false} SpreadLength(fss: seq<seq<Found<Expr>>>, from: nat)
    ensures |Spread(fss, from)| == Total(fss)
    decreases |fss|
  {
    if fss != [] {
      SpreadLength(fss[1..], from + 1);
    }
  }

  lemma TotalOfFew(a: seq<Found<Expr>>, b: seq<Found<Expr>>, c: seq<Found<Expr>>)
    ensures Total([]) == 0 && Total([a]) == |a| && Total([a, b]) == |a| + |b| && Total([a, b, c]) == |a| + |b| + |c|
  {
    assert [a][1..] == [] && [a, b][1..] == [b] && [b][1..] == [] && [a, b, c][1..] == [b, c] && [b, c][1..] == [c];
    assert [c][1..] == [];
    assert Total([b]) == |b| && Total([c]) == |c|;
    assert Total([b, c]) == |b| + Total([c]);
  }

  lemma TotalCons(a: seq<Found<Expr>>, fss: seq<seq<Found<Expr>>>)
    ensures Total([a] + fss) == |a| + Total(fss)
  {
    assert ([a] + fss)[1..] == fss;
  }

  ghost predicate PartReads(ps: seq<Piece>, x: Name, fss: seq<seq<Found<Expr>>>) {
    |fss| == |ps| && forall i :: 0 <= i < |ps| ==> AreReads(ps[i], x, fss[i])
  }

  function WithParts(x: Name, p: Piece, fss: seq<seq<Found<Expr>>>): seq<Found<Expr>> {
    OwnRead(x, p) + Spread(fss, 0)
  }

  /** The reads of a piece are its own and those of its parts. */
  lemma ReadsOfParts(x: Name, p: Piece, fss: seq<seq<Found<Expr>>>)
    requires PartReads(Parts(p), x, fss)
    ensures AreReads(p, x, WithParts(x, p, fss)) && |WithParts(x, p, fss)| == |OwnRead(x, p)| + Total(fss)
  {
    SpreadLength(fss, 0);
    SpreadInOrder(fss, 0, false);
    ParentFirst(OwnRead(x, p), Spread(fss, 0));
    forall f ensures f in WithParts(x, p, fss) <==> ReadAt(p, x, f) {
      MembersWithOwn(OwnRead(x, p), fss, f);
      if f.path != [] && f.path[0] < |fss| {
        assert AreReads(Parts(p)[f.path[0]], x, fss[f.path[0]]);
        assert ReadAt(p, x, f) <==> ReadAt(Parts(p)[f.path[0]], x, Found(f.path[1..], f.value));
      }
    }
  }

  lemma {:induction false} ExprReads(x: Name, e: Expr) returns (fs: seq<Found<Expr>>)
    ensures AreReads(ExprPiece(e), x, fs) && |fs| == Reads(x, e)
    decreases e, 1
  {
    var fss: seq<seq<Found<Expr>>>;
    match e {
      case Literal(_) => fss := [];
      case Identifier(_) => fss := [];
      case Assignment(_, _, value) =>
        var v := ExprReads(x, value);
        fss := [v];
        TotalOfFew(v, [], []);
      case Unary(_, a) =>
        var v := ExprReads(x, a);
        fss := [v];
        TotalOfFew(v, [], []);
      case Binary(_, l, r) =>
        var v := ExprReads(x, l);
        var w := ExprReads(x, r);
        fss := [v, w];
        TotalOfFew(v, w, []);
      case Conditional(t, c, a) =>
        var u := ExprReads(x, t);
        var v := ExprReads(x, c);
        var w := ExprReads(x, a);
        fss := [u, v, w];
        TotalOfFew(u, v, w);
      case Call(_, es) => fss := AllExprReads(x, es);
    }
    ReadsOfParts(x, ExprPiece(e), fss);
    fs := WithParts(x, ExprPiece(e), fss);
  }

  lemma {:induction false} AllExprReads(x: Name, es: seq<Expr>) returns (fss: seq<seq<Found<Expr>>>)
    ensures |fss| == |es| && Total(fss) == ReadsAll(x, es)
    ensures forall i :: 0 <= i < |es| ==> AreReads(ExprPiece(es[i]), x, fss[i])
    decreases es, 0
  {
    fss := [];
    if es != [] {
      var first := ExprReads(x, es[0]);
      var rest := AllExprReads(x, es[1..]);
      fss := [first] + rest;
      TotalCons(first, rest);
    }
  }

  lemma OptReads(x: Name, e: Option<Expr>) returns (fss: seq<seq<Found<Expr>>>)
    ensures PartReads(OptParts(e), x, fss) && Total(fss) == ReadsOpt(x, e)
  {
    fss := [];
    if e.Some? {
      var v := ExprReads(x, e.value);
      fss := [v];
      TotalOfFew(v, [], []);
    }
  }

  lemma {:induction false} DeclaratorReads(x: Name, ds: seq<Declarator>) returns (fss: seq<seq<Found<Expr>>>)
    ensures |fss| == |ds| && Total(fss) == DeclReads(x, ds)
    ensures forall i :: 0 <= i < |ds| ==> AreReads(DeclaratorPiece(ds[i]), x, fss[i])
  {
    fss := [];
    if ds != [] {
      var init := OptReads(x, ds[0].init);
      ReadsOfParts(x, DeclaratorPiece(ds[0]), init);
      var rest := DeclaratorReads(x, ds[1..]);
      var first := WithParts(x, DeclaratorPiece(ds[0]), init);
      fss := [first] + rest;
      TotalCons(first, rest);
    }
  }

  lemma {:induction false} StatementReads(x: Name, s: Stmt) returns (fs: seq<Found<Expr>>)
    ensures AreReads(StmtPiece(s), x, fs) && |fs| == StmtReads(x, s)
    decreases s, 1
  {
    var fss: seq<seq<Found<Expr>>> := [];
    match s {
      case ExpressionStatement(e) => fss := OptReads(x, Some(e));
      case VariableDeclaration(ds) => fss := DeclaratorReads(x, ds);
      case Return(e) => fss := OptReads(x, e);
      case Throw(e) => fss := OptReads(x, Some(e));
      case Block(body) =>
        var b := ListReads(x, body);
        fss := [b];
        TotalOfFew(b, [], []);
      case If(t, c, alternate) =>
        var u := ExprReads(x, t);
        var v := StatementReads(x, c);
        if alternate.Some? {
          var w := StatementReads(x, alternate.value);
          fss := [u, v, w];
          TotalOfFew(u, v, w);
        } else {
          fss := [u, v];
          TotalOfFew(u, v, []);
        }
      case While(t, b) =>
        var u := ExprReads(x, t);
        var v := StatementReads(x, b);
        fss := [u, v];
        TotalOfFew(u, v, []);
      case Switch(d, cases) =>
        var u := ExprReads(x, d);
        var rest := CasesReads(x, cases);
        fss := [u] + rest;
        TotalCons(u, rest);
      case Try(b, _, handler, f) =>
        var u := ListReads(x, b);
        var v := ListReads(x, handler);
        var w := ListReads(x, f);
        fss := [u, v, w];
        TotalOfFew(u, v, w);
      case Break =>
      case Continue =>
    }
    assert PartReads(StmtParts(s), x, fss);
    ReadsOfParts(x, StmtPiece(s), fss);
    fs := WithParts(x, StmtPiece(s), fss);
  }

  /** The read references counted are the places in the statements that read `x`, each counted once. */
  lemma {:induction false} ListReads(x: Name, ss: seq<Stmt>) returns (fs: seq<Found<Expr>>)
    ensures AreReads(ListPiece(ss), x, fs) && |fs| == BodyReads(x, ss)
    decreases ss, 1
  {
    var fss := AllStatementReads(x, ss);
    ReadsOfParts(x, ListPiece(ss), fss);
    fs := WithParts(x, ListPiece(ss), fss);
  }

  lemma {:induction false} AllStatementReads(x: Name, ss: seq<Stmt>) returns (fss: seq<seq<Found<Expr>>>)
    ensures |fss| == |ss| && Total(fss) == BodyReads(x, ss)
    ensures forall i :: 0 <= i < |ss| ==> AreReads(StmtPiece(ss[i]), x, fss[i])
    decreases ss, 0
  {
    fss := [];
    if ss != [] {
      var first := StatementReads(x, ss[0]);
      var rest := AllStatementReads(x, ss[1..]);
      fss := [first] + rest;
      TotalCons(first, rest);
    }
  }

  lemma {:induction false} CasesReads(x: Name, cases: seq<Case>) returns (fss: seq<seq<Found<Expr>>>)
    ensures |fss| == |cases| && Total(fss) == CaseReads(x, cases)
    ensures forall i :: 0 <= i < |cases| ==> AreReads(CasePiece(cases[i]), x, fss[i])
    decreases cases, 0
  {
    fss := [];
    if cases != [] {
      var first := OneCaseReads(x, cases[0]);
      var rest := CasesReads(x, cases[1..]);
      fss := [first] + rest;
      TotalCons(first, rest);
    }
  }

  lemma {:induction false} OneCaseReads(x: Name, c: Case) returns (fs: seq<Found<Expr>>)
    ensures AreReads(CasePiece(c), x, fs) && |fs| == ReadsOpt(x, c.test) + BodyReads(x, c.consequent)
    decreases c, 1
  {
    var test := OptReads(x, c.test);
    var body := ListReads(x, c.consequent);
    var fss := test + [body];
    TotalOfFew(body, [], []);
    if c.test.Some? {
      assert test == [test[0]];
      TotalOfFew(test[0], body, []);
      assert fss == [test[0], body];
    } else {
      assert fss == [body];
    }
    ReadsOfParts(x, CasePiece(c), fss);
    fs := WithParts(x, CasePiece(c), fss);
  }

  /** `getOnlyReturnedVariable`. */
  function OnlyReturnedVariable(s: Stmt): Option<Name> {
    match s
    case Return(Some(Identifier(x))) => Some(x)
    case Throw(Identifier(x)) => Some(x)
    case _ => None
  }

  datatype Declared = Declared(id: Name, init: Expr)

  /** `getOnlyDeclaredVariable`. */
  function OnlyDeclaredVariable(s: Stmt): Option<Declared> {
    if s.VariableDeclaration? && |s.declarations| == 1 && s.declarations[0].init.Some?
       && s.declarations[0].id.Id? && !s.declarations[0].id.typed
    then Some(Declared(s.declarations[0].id.name, s.declarations[0].init.value))
    else None
  }

  /** The last statement with its identifier replaced by the initializer. */
  function Immediate(last: Stmt, e: Expr): Stmt
    requires OnlyReturnedVariable(last).Some?
  {
    if last.Return? then Return(Some(e)) else Throw(e)
  }

  /** `ss` is the declaration of `x` followed by its return or throw. */
  predicate Matches(x: Name, ss: seq<Stmt>) {
    && |ss| == 2
    && OnlyReturnedVariable(ss[1]) == Some(x)
    && OnlyDeclaredVariable(ss[0]).Some?
    && OnlyDeclaredVariable(ss[0]).value.id == x
  }

  /** `processStatements` on the statements of a block or switch case of the function body `scope`: the variable
      reported, if any. There must be only one read of it in the whole scope. */
  function ProcessStatements(scope: seq<Stmt>, statements: seq<Stmt>): Option<Name> {
    if |statements| > 1 then
      var lastTwo := statements[|statements| - 2..];
      match OnlyReturnedVariable(lastTwo[1])
      case None => None
      case Some(x) => if Matches(x, lastTwo) && BodyReads(x, scope) == 1 then Some(x) else None
    else None
  }

  /** `fix`: the declaration is removed and the initializer takes the place of the identifier. */
  function Fix(statements: seq<Stmt>): seq<Stmt>
    requires |statements| > 1
    requires OnlyReturnedVariable(statements[|statements| - 1]).Some?
    requires OnlyDeclaredVariable(statements[|statements| - 2]).Some?
  {
    var n := |statements|;
    statements[..n - 2] + [Immediate(statements[n - 1], OnlyDeclaredVariable(statements[n - 2]).value.init)]
  }

  /** The variable is declared without a type and with the initializer `e`, and returned or thrown at once. */
  ghost predicate DeclaredAndLeft(x: Name, list: seq<Stmt>, before: seq<Stmt>, e: Expr, last: Stmt) {
    && list == before + [VariableDeclaration([Declarator(Id(x, false), Some(e))]), last]
    && (last == Return(Some(Identifier(x))) || last == Throw(Identifier(x)))
  }

  /** When the rule reports: the list ends in such a declaration, and the function reads the variable just once. */
  lemma ReportedIff(scope: seq<Stmt>, list: seq<Stmt>, x: Name)
    ensures ProcessStatements(scope, list) == Some(x) <==>
      BodyReads(x, scope) == 1 && exists before, e, last :: DeclaredAndLeft(x, list, before, e, last)
  {
    var n := |list|;
    if ProcessStatements(scope, list) == Some(x) {
      var d := OnlyDeclaredVariable(list[n - 2]).value;
      assert list[n - 2] == VariableDeclaration([Declarator(Id(x, false), Some(d.init))]);
      assert list == list[..n - 2] + [list[n - 2], list[n - 1]];
      assert DeclaredAndLeft(x, list, list[..n - 2], d.init, list[n - 1]);
    }
    if BodyReads(x, scope) == 1 && exists before, e, last :: DeclaredAndLeft(x, list, before, e, last) {
      var before, e, last :| DeclaredAndLeft(x, list, before, e, last);
      assert list[n - 2..] == [VariableDeclaration([Declarator(Id(x, false), Some(e))]), last];
      assert Matches(x, list[n - 2..]);
    }
  }

  /** What the fix makes of such a list. */
  lemma FixedAtOnce(x: Name, list: seq<Stmt>, before: seq<Stmt>, e: Expr, last: Stmt)
    requires DeclaredAndLeft(x, list, before, e, last)
    ensures |list| > 1 && OnlyReturnedVariable(list[|list| - 1]).Some?
    ensures OnlyDeclaredVariable(list[|list| - 2]).Some?
    ensures Fix(list) == before + [if last == Return(Some(Identifier(x))) then Return(Some(e)) else Throw(e)]
  {
    assert list[..|list| - 2] == before;
  }

  /** The scope with the fix applied wherever `x` is declared and returned at once. */
  function FixBody(x: Name, ss: seq<Stmt>): seq<Stmt>
    decreases ss, 0
  {
    if Matches(x, ss) then Fix(ss)
    else if ss == [] then []
    else [FixStmt(x, ss[0])] + FixBody(x, ss[1..])
  }

  function FixStmt(x: Name, s: Stmt): Stmt
    decreases s, 1
  {
    match s
    case Block(body) => Block(FixBody(x, body))
    case If(t, c, None) => If(t, FixStmt(x, c), None)
    case If(t, c, Some(a)) => If(t, FixStmt(x, c), Some(FixStmt(x, a)))
    case While(t, b) => While(t, FixStmt(x, b))
    case Switch(d, cases) => Switch(d, FixCases(x, cases))
    case Try(b, param, handler, f) => Try(FixBody(x, b), param, FixBody(x, handler), FixBody(x, f))
    case _ => s
  }

  function FixCases(x: Name, cases: seq<Case>): (r: seq<Case>)
    ensures |r| == |cases|
    decreases cases, 0
  {
    if cases == [] then []
    else [Case(cases[0].test, FixBody(x, cases[0].consequent))] + FixCases(x, cases[1..])
  }

  /** Every read of `x` is the one of a declaration returned at once. */
  predicate OnlyReadsAtOnce(x: Name, ss: seq<Stmt>)
    decreases ss, 0
  {
    if Matches(x, ss) then Reads(x, OnlyDeclaredVariable(ss[0]).value.init) == 0
    else ss == [] || (StmtOnlyReadsAtOnce(x, ss[0]) && OnlyReadsAtOnce(x, ss[1..]))
  }

  predicate StmtOnlyReadsAtOnce(x: Name, s: Stmt)
    decreases s, 1
  {
    match s
    case Block(body) => OnlyReadsAtOnce(x, body)
    case If(t, c, None) => Reads(x, t) == 0 && StmtOnlyReadsAtOnce(x, c)
    case If(t, c, Some(a)) => Reads(x, t) == 0 && StmtOnlyReadsAtOnce(x, c) && StmtOnlyReadsAtOnce(x, a)
    case While(t, b) => Reads(x, t) == 0 && StmtOnlyReadsAtOnce(x, b)
    case Switch(d, cases) => Reads(x, d) == 0 && CasesOnlyReadAtOnce(x, cases)
    case Try(b, _, handler, f) => OnlyReadsAtOnce(x, b) && OnlyReadsAtOnce(x, handler) && OnlyReadsAtOnce(x, f)
    case _ => StmtReads(x, s) == 0
  }

  predicate CasesOnlyReadAtOnce(x: Name, cases: seq<Case>)
    decreases cases, 0
  {
    cases == [] ||
    (ReadsOpt(x, cases[0].test) == 0 && OnlyReadsAtOnce(x, cases[0].consequent) && CasesOnlyReadAtOnce(x, cases[1..]))
  }

  /** Equal but for the value of `x`. */
  ghost predicate Agree(x: Name, a: State, b: State) {
    a.trace == b.trace && a.store - {x} == b.store - {x}
  }

  ghost predicate AgreeResult(x: Name, a: Result, b: Result) {
    a.Done? == b.Done? && a.v == b.v && Agree(x, a.st, b.st)
  }

  ghost predicate AgreeOutcome(x: Name, a: Outcome, b: Outcome) {
    a.c == b.c && Agree(x, a.st, b.st)
  }

  lemma AgreeRead(x: Name, y: Name, a: State, b: State)
    requires Agree(x, a, b) && x != y
    ensures AgreeResult(x, Read(a, y), Read(b, y))
  {
    assert y in a.store <==> y in a.store - {x};
    assert y in b.store <==> y in b.store - {x};
    assert y in a.store ==> (a.store - {x})[y] == a.store[y];
    assert y in b.store ==> (b.store - {x})[y] == b.store[y];
  }

  lemma AgreeWrite(x: Name, y: Name, v: Value, a: State, b: State)
    requires Agree(x, a, b)
    ensures Agree(x, Write(a, y, v), Write(b, y, v))
    ensures Agree(x, Write(a, x, v), b)
  {
    assert Write(a, x, v).store - {x} == a.store - {x};
    if x != y {
      assert Write(a, y, v).store - {x} == (a.store - {x})[y := v];
      assert Write(b, y, v).store - {x} == (b.store - {x})[y := v];
    } else {
      assert Write(b, x, v).store - {x} == b.store - {x};
    }
  }

  /** Non-interference: an expression that does not read `x` does not depend on it. */
  lemma {:induction false} EvalAgrees(h: Host, x: Name, e: Expr, a: State, b: State)
    requires Reads(x, e) == 0 && Agree(x, a, b)
    ensures AgreeResult(x, Eval(h, e, a), Eval(h, e, b))
    decreases e, 1
  {
    match e {
      case Literal(_) =>
      case Identifier(y) => AgreeRead(x, y, a, b);
      case Assignment(op, y, value) =>
        if op == "=" {
          EvalAgrees(h, x, value, a, b);
          AgreeWrite(x, y, Eval(h, value, a).v, Eval(h, value, a).st, Eval(h, value, b).st);
        } else {
          AgreeRead(x, y, a, b);
          EvalAgrees(h, x, value, a, b);
          var r := Eval(h, value, a);
          if Read(a, y).Done? && r.Done? && h.binary(op, Read(a, y).v, r.v).Value? {
            AgreeWrite(x, y, h.binary(op, Read(a, y).v, r.v).v, r.st, Eval(h, value, b).st);
          }
        }
      case Unary(_, argument) => EvalAgrees(h, x, argument, a, b);
      case Binary(_, left, right) =>
        EvalAgrees(h, x, left, a, b);
        if Eval(h, left, a).Done? {
          EvalAgrees(h, x, right, Eval(h, left, a).st, Eval(h, left, b).st);
        }
      case Conditional(test, consequent, alternate) =>
        EvalAgrees(h, x, test, a, b);
        if Eval(h, test, a).Done? {
          EvalAgrees(h, x, consequent, Eval(h, test, a).st, Eval(h, test, b).st);
          EvalAgrees(h, x, alternate, Eval(h, test, a).st, Eval(h, test, b).st);
        }
      case Call(_, arguments) => EvalAllAgrees(h, x, arguments, a, b);
    }
  }

  lemma {:induction false} EvalAllAgrees(h: Host, x: Name, es: seq<Expr>, a: State, b: State)
    requires ReadsAll(x, es) == 0 && Agree(x, a, b)
    ensures var ra, rb := EvalAll(h, es, a), EvalAll(h, es, b);
            && ra.AllDone? == rb.AllDone? && Agree(x, ra.st, rb.st)
            && (ra.AllDone? ==> ra.vs == rb.vs) && (ra.OneRaised? ==> ra.v == rb.v)
    decreases es, 0
  {
    if es != [] {
      EvalAgrees(h, x, es[0], a, b);
      if Eval(h, es[0], a).Done? {
        EvalAllAgrees(h, x, es[1..], Eval(h, es[0], a).st, Eval(h, es[0], b).st);
      }
    }
  }

  lemma {:induction false} BindAgrees(h: Host, x: Name, names: seq<Name>, v: Value, a: State, b: State)
    requires Agree(x, a, b)
    ensures Agree(x, BindAll(h, names, v, a), BindAll(h, names, v, b))
    decreases |names|
  {
    if names != [] {
      AgreeWrite(x, names[0], h.property(names[0], v), a, b);
      var w := h.property(names[0], v);
      BindAgrees(h, x, names[1..], v, Write(a, names[0], w), Write(b, names[0], w));
    }
  }

  lemma {:induction false} DeclareAgrees(h: Host, x: Name, ds: seq<Declarator>, a: State, b: State)
    requires DeclReads(x, ds) == 0 && Agree(x, a, b)
    ensures AgreeOutcome(x, Declare(h, ds, a), Declare(h, ds, b))
  {
    if ds != [] {
      var d := ds[0];
      var ra := if d.init.Some? then Eval(h, d.init.value, a) else Done(Undefined, a);
      var rb := if d.init.Some? then Eval(h, d.init.value, b) else Done(Undefined, b);
      if d.init.Some? {
        EvalAgrees(h, x, d.init.value, a, b);
      }
      if ra.Done? {
        if d.id.Id? {
          AgreeWrite(x, d.id.name, ra.v, ra.st, rb.st);
        } else {
          BindAgrees(h, x, d.id.names, ra.v, ra.st, rb.st);
        }
        DeclareAgrees(h, x, ds[1..], Bind(h, d.id, ra.v, ra.st), Bind(h, d.id, rb.v, rb.st));
      }
    }
  }

  lemma {:induction false} SelectAgrees(h: Host, x: Name, d: Value, cases: seq<Case>, a: State, b: State)
    requires CasesOnlyReadAtOnce(x, cases) && Agree(x, a, b)
    ensures var sa, sb := Select(h, d, cases, a), Select(h, d, FixCases(x, cases), b);
            && sa.Selected? == sb.Selected? && Agree(x, sa.st, sb.st)
            && (sa.Selected? ==> sa.index == sb.index) && (sa.SelectionRaised? ==> sa.v == sb.v)
    ensures DefaultIndex(FixCases(x, cases)) == DefaultIndex(cases)
    decreases |cases|
  {
    if cases != [] {
      var fixedCases := FixCases(x, cases);
      assert fixedCases[0].test == cases[0].test && fixedCases[1..] == FixCases(x, cases[1..]);
      SelectAgrees(h, x, d, cases[1..], a, b);
      if cases[0].test.Some? {
        var t := cases[0].test.value;
        EvalAgrees(h, x, t, a, b);
        if Eval(h, t, a).Done? {
          SelectAgrees(h, x, d, cases[1..], Eval(h, t, a).st, Eval(h, t, b).st);
        }
      }
    }
  }

  /** The site itself: declaring and returning at once, against returning directly. */
  lemma FixSiteAgrees(h: Host, x: Name, ss: seq<Stmt>, a: State, b: State, fuel: nat)
    requires Matches(x, ss) && Reads(x, OnlyDeclaredVariable(ss[0]).value.init) == 0 && Agree(x, a, b)
    ensures AgreeOutcome(x, ExecAll(h, ss, a, fuel), ExecAll(h, Fix(ss), b, fuel))
  {
    var e := OnlyDeclaredVariable(ss[0]).value.init;
    EvalAgrees(h, x, e, a, b);
    var r, ds := Eval(h, e, a), ss[0].declarations;
    assert ss[1..][0] == ss[1] && ds[1..] == [];
    assert Fix(ss) == [Immediate(ss[1], e)];
    ExecOne(h, Immediate(ss[1], e), b, fuel);
    ExecOne(h, ss[1], if r.Done? then Write(r.st, x, r.v) else a, fuel);
    assert ss[1..] == [ss[1]];
    if r.Done? {
      var written := Write(r.st, x, r.v);
      AgreeWrite(x, x, r.v, r.st, Eval(h, e, b).st);
      assert Declare(h, [], written) == Outcome(Normal, written);
      assert Declare(h, ds, a) == Declare(h, ds[1..], written);
      assert Exec(h, ss[0], a, fuel) == Outcome(Normal, written);
      assert Eval(h, Identifier(x), written) == Done(r.v, written);
    } else {
      assert Exec(h, ss[0], a, fuel) == Outcome(Thrown(r.v), r.st);
    }
  }

  lemma ExecOne(h: Host, s: Stmt, st: State, fuel: nat)
    ensures ExecAll(h, [s], st, fuel) == Exec(h, s, st, fuel)
  {
    var o := Exec(h, s, st, fuel);
    assert [s][1..] == [];
    assert ExecAll(h, [], o.st, fuel) == Outcome(Normal, o.st);
  }

  /** The fixed program does the same, from states that agree but for `x`. */
  lemma {:induction false} FixAgrees(h: Host, x: Name, s: Stmt, a: State, b: State, fuel: nat)
    requires StmtOnlyReadsAtOnce(x, s) && Agree(x, a, b)
    ensures AgreeOutcome(x, Exec(h, s, a, fuel), Exec(h, FixStmt(x, s), b, fuel))
    decreases fuel, s, 1
  {
    match s {
      case Block(body) => FixBodyAgrees(h, x, body, a, b, fuel);
      case If(t, c, alternate) =>
        EvalAgrees(h, x, t, a, b);
        if Eval(h, t, a).Done? {
          FixAgrees(h, x, c, Eval(h, t, a).st, Eval(h, t, b).st, fuel);
          if alternate.Some? {
            FixAgrees(h, x, alternate.value, Eval(h, t, a).st, Eval(h, t, b).st, fuel);
          }
        }
      case While(t, body) => FixWhileAgrees(h, x, t, body, a, b, fuel);
      case Switch(d, cases) =>
        EvalAgrees(h, x, d, a, b);
        var ra, rb := Eval(h, d, a), Eval(h, d, b);
        if ra.Done? {
          SelectAgrees(h, x, ra.v, cases, ra.st, rb.st);
          var selected := Select(h, ra.v, cases, ra.st);
          if selected.Selected? {
            var i := if selected.index < |cases| then selected.index else DefaultIndex(cases);
            FixCasesAgree(h, x, cases, i, selected.st, Select(h, rb.v, FixCases(x, cases), rb.st).st, fuel);
          }
        }
      case Try(block, param, handler, finalizer) => FixTryAgrees(h, x, s, a, b, fuel);
      case ExpressionStatement(e) => EvalAgrees(h, x, e, a, b);
      case VariableDeclaration(ds) => DeclareAgrees(h, x, ds, a, b);
      case Return(e) =>
        if e.Some? {
          EvalAgrees(h, x, e.value, a, b);
        }
      case Throw(e) => EvalAgrees(h, x, e, a, b);
      case Break =>
      case Continue =>
    }
  }

  lemma {:induction false} FixWhileAgrees(h: Host, x: Name, t: Expr, body: Stmt, a: State, b: State, fuel: nat)
    requires StmtOnlyReadsAtOnce(x, While(t, body)) && Agree(x, a, b)
    ensures AgreeOutcome(x, Exec(h, While(t, body), a, fuel), Exec(h, FixStmt(x, While(t, body)), b, fuel))
    decreases fuel, While(t, body), 0
  {
    if fuel > 0 {
      EvalAgrees(h, x, t, a, b);
      var ra, rb := Eval(h, t, a), Eval(h, t, b);
      if ra.Done? && Truthy(ra.v) {
        FixAgrees(h, x, body, ra.st, rb.st, fuel);
        var oa, ob := Exec(h, body, ra.st, fuel), Exec(h, FixStmt(x, body), rb.st, fuel);
        if oa.c == Normal || oa.c == Continued {
          FixAgrees(h, x, While(t, body), oa.st, ob.st, fuel - 1);
        }
      }
    }
  }

  lemma {:induction false} FixTryAgrees(h: Host, x: Name, s: Stmt, a: State, b: State, fuel: nat)
    requires s.Try? && StmtOnlyReadsAtOnce(x, s) && Agree(x, a, b)
    ensures AgreeOutcome(x, Exec(h, s, a, fuel), Exec(h, FixStmt(x, s), b, fuel))
    decreases fuel, s, 0
  {
    FixBodyAgrees(h, x, s.block, a, b, fuel);
    var oa, ob := ExecAll(h, s.block, a, fuel), ExecAll(h, FixBody(x, s.block), b, fuel);
    if oa.c.Thrown? && s.param.Some? {
      AgreeWrite(x, s.param.value, oa.c.v, oa.st, ob.st);
      var wa, wb := Write(oa.st, s.param.value, oa.c.v), Write(ob.st, s.param.value, ob.c.v);
      FixBodyAgrees(h, x, s.handler, wa, wb, fuel);
      oa, ob := ExecAll(h, s.handler, wa, fuel), ExecAll(h, FixBody(x, s.handler), wb, fuel);
    }
    FixBodyAgrees(h, x, s.finalizer, oa.st, ob.st, fuel);
  }

  lemma {:induction false} FixBodyAgrees(h: Host, x: Name, ss: seq<Stmt>, a: State, b: State, fuel: nat)
    requires OnlyReadsAtOnce(x, ss) && Agree(x, a, b)
    ensures AgreeOutcome(x, ExecAll(h, ss, a, fuel), ExecAll(h, FixBody(x, ss), b, fuel))
    decreases fuel, ss, 0
  {
    if Matches(x, ss) {
      FixSiteAgrees(h, x, ss, a, b, fuel);
    } else if ss != [] {
      FixAgrees(h, x, ss[0], a, b, fuel);
      var oa, ob := Exec(h, ss[0], a, fuel), Exec(h, FixStmt(x, ss[0]), b, fuel);
      assert FixBody(x, ss)[0] == FixStmt(x, ss[0]) && FixBody(x, ss)[1..] == FixBody(x, ss[1..]);
      if oa.c == Normal {
        FixBodyAgrees(h, x, ss[1..], oa.st, ob.st, fuel);
      }
    }
  }

  lemma {:induction false} FixCasesAgree(h: Host, x: Name, cases: seq<Case>, skip: nat, a: State, b: State, fuel: nat)
    requires CasesOnlyReadAtOnce(x, cases) && Agree(x, a, b)
    ensures AgreeOutcome(x, ExecCases(h, cases, skip, a, fuel), ExecCases(h, FixCases(x, cases), skip, b, fuel))
    decreases fuel, cases, 0
  {
    if cases != [] {
      var fixedCases := FixCases(x, cases);
      assert fixedCases[0].consequent == FixBody(x, cases[0].consequent) && fixedCases[1..] == FixCases(x, cases[1..]);
      if skip > 0 {
        FixCasesAgree(h, x, cases[1..], skip - 1, a, b, fuel);
      } else {
        FixBodyAgrees(h, x, cases[0].consequent, a, b, fuel);
        var oa := ExecAll(h, cases[0].consequent, a, fuel);
        if oa.c == Normal {
          FixCasesAgree(h, x, cases[1..], 0, oa.st, ExecAll(h, fixedCases[0].consequent, b, fuel).st, fuel);
        }
      }
    }
  }

  /** The statement lists of all blocks and switch cases of a scope, its own body first. */
  function StatementLists(ss: seq<Stmt>): seq<seq<Stmt>>
    decreases ss, 1
  {
    [ss] + ListsBelow(ss)
  }

  function ListsBelow(ss: seq<Stmt>): seq<seq<Stmt>>
    decreases ss, 0
  {
    if ss == [] then [] else ListsIn(ss[0]) + ListsBelow(ss[1..])
  }

  function ListsIn(s: Stmt): seq<seq<Stmt>>
    decreases s, 2
  {
    match s
    case Block(body) => StatementLists(body)
    case If(_, c, None) => ListsIn(c)
    case If(_, c, Some(a)) => ListsIn(c) + ListsIn(a)
    case While(_, b) => ListsIn(b)
    case Switch(_, cases) => ListsInCases(cases)
    case Try(b, _, handler, f) => StatementLists(b) + StatementLists(handler) + StatementLists(f)
    case _ => []
  }

  function ListsInCases(cases: seq<Case>): seq<seq<Stmt>>
    decreases cases, 0
  {
    if cases == [] then [] else StatementLists(cases[0].consequent) + ListsInCases(cases[1..])
  }

  /** Somewhere in the piece is this list of statements. */
  ghost predicate Holds(p: Piece, list: seq<Stmt>) {
    exists path :: IsPath(p, path) && At(p, path) == ListPiece(list)
  }

  lemma HoldsIff(p: Piece, list: seq<Stmt>)
    ensures Holds(p, list) <==> p == ListPiece(list) || exists i :: 0 <= i < |Parts(p)| && Holds(Parts(p)[i], list)
  {
    if Holds(p, list) {
      var path :| IsPath(p, path) && At(p, path) == ListPiece(list);
      if path != [] {
        assert Holds(Parts(p)[path[0]], list) by {
          assert IsPath(Parts(p)[path[0]], path[1..]);
        }
      }
    }
    if p == ListPiece(list) {
      assert IsPath(p, []) && At(p, []) == p;
    }
    if i :| 0 <= i < |Parts(p)| && Holds(Parts(p)[i], list) {
      var rest :| IsPath(Parts(p)[i], rest) && At(Parts(p)[i], rest) == ListPiece(list);
      assert ([i] + rest)[1..] == rest;
      assert IsPath(p, [i] + rest) && At(p, [i] + rest) == ListPiece(list);
    }
  }

  lemma AmongFew(p: Piece, list: seq<Stmt>)
    requires !p.ListPiece?
    ensures var ps := Parts(p);
            && (|ps| == 0 ==> !Holds(p, list))
            && (|ps| == 1 ==> (Holds(p, list) <==> Holds(ps[0], list)))
            && (|ps| == 2 ==> (Holds(p, list) <==> Holds(ps[0], list) || Holds(ps[1], list)))
            && (|ps| == 3 ==> (Holds(p, list) <==> Holds(ps[0], list) || Holds(ps[1], list) || Holds(ps[2], list)))
  {
    HoldsIff(p, list);
  }

  lemma AmongCases(d: Expr, cases: seq<Case>, list: seq<Stmt>)
    requires !Holds(ExprPiece(d), list)
    ensures Holds(StmtPiece(Switch(d, cases)), list) <==>
      exists i :: 0 <= i < |cases| && Holds(CasePiece(cases[i]), list)
  {
    var p := StmtPiece(Switch(d, cases));
    var ps := Parts(p);
    HoldsIff(p, list);
    assert |ps| == 1 + |cases| && ps[0] == ExprPiece(d);
    assert forall i :: 0 < i < |ps| ==> ps[i] == CasePiece(cases[i - 1]);
    if i :| 0 <= i < |cases| && Holds(CasePiece(cases[i]), list) {
      assert Holds(ps[i + 1], list);
    }
    if i :| 0 <= i < |ps| && Holds(ps[i], list) {
      assert i > 0 && Holds(CasePiece(cases[i - 1]), list);
    }
  }

  lemma {:induction false} ExprHoldsNone(e: Expr, path: Path)
    ensures IsPath(ExprPiece(e), path) ==> At(ExprPiece(e), path).ExprPiece?
    decreases |path|
  {
    if path != [] && path[0] < |ExprParts(e)| {
      ExprHoldsNone(ExprParts(e)[path[0]].e, path[1..]);
    }
  }

  lemma ExprsHoldNone(list: seq<Stmt>)
    ensures forall e :: !Holds(ExprPiece(e), list)
  {
    forall e, path | IsPath(ExprPiece(e), path) ensures At(ExprPiece(e), path) != ListPiece(list) {
      ExprHoldsNone(e, path);
    }
  }

  /** The lists that are searched are all those in the scope. */
  lemma {:induction false} StatementListsIff(ss: seq<Stmt>, list: seq<Stmt>)
    ensures list in StatementLists(ss) <==> Holds(ListPiece(ss), list)
    decreases ss, 1
  {
    ListsBelowIff(ss, list);
    HoldsIff(ListPiece(ss), list);
    assert forall i :: 0 <= i < |ss| ==> Parts(ListPiece(ss))[i] == StmtPiece(ss[i]);
  }

  lemma {:induction false} ListsBelowIff(ss: seq<Stmt>, list: seq<Stmt>)
    ensures list in ListsBelow(ss) <==> exists i :: 0 <= i < |ss| && Holds(StmtPiece(ss[i]), list)
    decreases ss, 0
  {
    if ss != [] {
      ListsInIff(ss[0], list);
      ListsBelowIff(ss[1..], list);
      assert forall i :: 0 < i < |ss| ==> ss[i] == ss[1..][i - 1];
      assert forall i :: 0 <= i < |ss| - 1 ==> ss[1..][i] == ss[i + 1];
    }
  }

  lemma {:induction false} ListsInIff(s: Stmt, list: seq<Stmt>)
    ensures list in ListsIn(s) <==> Holds(StmtPiece(s), list)
    decreases s, 2
  {
    ExprsHoldNone(list);
    match s {
      case Switch(d, cases) =>
        ListsInCasesIff(cases, list);
        AmongCases(d, cases, list);
      case VariableDeclaration(ds) => DeclaratorsHoldNone(ds, list);
      case _ =>
        AmongFew(StmtPiece(s), list);
        ListsInPartsIff(s, list);
    }
  }

  lemma {:induction false} ListsInPartsIff(s: Stmt, list: seq<Stmt>)
    ensures match s
      case Block(body) => list in StatementLists(body) <==> Holds(ListPiece(body), list)
      case If(_, c, None) => list in ListsIn(c) <==> Holds(StmtPiece(c), list)
      case If(_, c, Some(a)) =>
        (list in ListsIn(c) <==> Holds(StmtPiece(c), list)) && (list in ListsIn(a) <==> Holds(StmtPiece(a), list))
      case While(_, b) => list in ListsIn(b) <==> Holds(StmtPiece(b), list)
      case Try(b, _, handler, f) =>
        && (list in StatementLists(b) <==> Holds(ListPiece(b), list))
        && (list in StatementLists(handler) <==> Holds(ListPiece(handler), list))
        && (list in StatementLists(f) <==> Holds(ListPiece(f), list))
      case _ => true
    decreases s, 1
  {
    match s {
      case Block(body) => StatementListsIff(body, list);
      case If(_, c, alternate) =>
        ListsInIff(c, list);
        if alternate.Some? {
          ListsInIff(alternate.value, list);
        }
      case While(_, b) => ListsInIff(b, list);
      case Try(b, _, handler, f) =>
        StatementListsIff(b, list);
        StatementListsIff(handler, list);
        StatementListsIff(f, list);
      case _ =>
    }
  }

  lemma DeclaratorsHoldNone(ds: seq<Declarator>, list: seq<Stmt>)
    ensures !Holds(StmtPiece(VariableDeclaration(ds)), list)
  {
    ExprsHoldNone(list);
    forall i | 0 <= i < |ds| ensures !Holds(DeclaratorPiece(ds[i]), list) {
      AmongFew(DeclaratorPiece(ds[i]), list);
    }
    HoldsIff(StmtPiece(VariableDeclaration(ds)), list);
  }

  lemma {:induction false} ListsInCasesIff(cases: seq<Case>, list: seq<Stmt>)
    ensures list in ListsInCases(cases) <==> exists i :: 0 <= i < |cases| && Holds(CasePiece(cases[i]), list)
    decreases cases, 0
  {
    if cases != [] {
      var c := cases[0];
      StatementListsIff(c.consequent, list);
      ListsInCasesIff(cases[1..], list);
      AmongFew(CasePiece(c), list);
      ExprsHoldNone(list);
      assert forall i :: 0 < i < |cases| ==> cases[i] == cases[1..][i - 1];
      assert forall i :: 0 <= i < |cases| - 1 ==> cases[1..][i] == cases[i + 1];
    }
  }

  function FixEach(x: Name, lists: seq<seq<Stmt>>): (r: seq<seq<Stmt>>)
    ensures |r| == |lists| && forall i :: 0 <= i < |lists| ==> r[i] == FixBody(x, lists[i])
  {
    seq(|lists|, i requires 0 <= i < |lists| => FixBody(x, lists[i]))
  }

  lemma FixEachAppend(x: Name, a: seq<seq<Stmt>>, b: seq<seq<Stmt>>)
    ensures FixEach(x, a + b) == FixEach(x, a) + FixEach(x, b)
  {
  }

  /** The fixed scope has the same statement lists, each of them fixed. */
  lemma {:induction false} ListsOfFixed(x: Name, ss: seq<Stmt>)
    ensures StatementLists(FixBody(x, ss)) == FixEach(x, StatementLists(ss))
    decreases ss, 1
  {
    BelowFixed(x, ss);
    FixEachAppend(x, [ss], ListsBelow(ss));
    assert FixEach(x, [ss]) == [FixBody(x, ss)];
  }

  lemma {:induction false} BelowFixed(x: Name, ss: seq<Stmt>)
    ensures ListsBelow(FixBody(x, ss)) == FixEach(x, ListsBelow(ss))
    decreases ss, 0
  {
    if Matches(x, ss) {
      assert ss == [ss[0]] + [ss[1]] && ss[1..] == [ss[1]] && [ss[1]][1..] == [];
      var fixedLast := Fix(ss);
      assert fixedLast == [fixedLast[0]] && fixedLast[1..] == [];
      assert ListsBelow(ss[1..]) == ListsIn(ss[1]) + ListsBelow([]) == [];
      assert ListsBelow(ss) == ListsIn(ss[0]) + ListsBelow(ss[1..]) == [];
    } else if ss != [] {
      var fixedFirst, fixedRest := FixStmt(x, ss[0]), FixBody(x, ss[1..]);
      assert ([fixedFirst] + fixedRest)[1..] == fixedRest;
      InsideFixed(x, ss[0]);
      BelowFixed(x, ss[1..]);
      FixEachAppend(x, ListsIn(ss[0]), ListsBelow(ss[1..]));
    }
  }

  lemma {:induction false} InsideFixed(x: Name, s: Stmt)
    ensures ListsIn(FixStmt(x, s)) == FixEach(x, ListsIn(s))
    decreases s, 2
  {
    match s {
      case Block(body) => ListsOfFixed(x, body);
      case If(_, c, alternate) =>
        InsideFixed(x, c);
        if alternate.Some? {
          InsideFixed(x, alternate.value);
          FixEachAppend(x, ListsIn(c), ListsIn(alternate.value));
        }
      case While(_, b) => InsideFixed(x, b);
      case Switch(_, cases) => CasesFixed(x, cases);
      case Try(b, _, handler, f) => TryFixed(x, s);
      case _ =>
    }
  }

  lemma {:induction false} TryFixed(x: Name, s: Stmt)
    requires s.Try?
    ensures ListsIn(FixStmt(x, s)) == FixEach(x, ListsIn(s))
    decreases s, 1
  {
    ListsOfFixed(x, s.block);
    ListsOfFixed(x, s.handler);
    ListsOfFixed(x, s.finalizer);
    FixEachAppend(x, StatementLists(s.block), StatementLists(s.handler));
    FixEachAppend(x, StatementLists(s.block) + StatementLists(s.handler), StatementLists(s.finalizer));
  }

  lemma {:induction false} CasesFixed(x: Name, cases: seq<Case>)
    ensures ListsInCases(FixCases(x, cases)) == FixEach(x, ListsInCases(cases))
    decreases cases, 0
  {
    if cases != [] {
      assert FixCases(x, cases)[1..] == FixCases(x, cases[1..]);
      ListsOfFixed(x, cases[0].consequent);
      CasesFixed(x, cases[1..]);
      FixEachAppend(x, StatementLists(cases[0].consequent), ListsInCases(cases[1..]));
    }
  }

  /** Without reads of `x` there is nothing to fix. */
  lemma {:induction false} NoReadsNoFix(x: Name, ss: seq<Stmt>)
    requires BodyReads(x, ss) == 0
    ensures OnlyReadsAtOnce(x, ss) && FixBody(x, ss) == ss
    decreases ss, 0
  {
    if |ss| == 2 {
      assert ss[1..][0] == ss[1];
    }
    if ss != [] {
      StmtNoReadsNoFix(x, ss[0]);
      NoReadsNoFix(x, ss[1..]);
      assert !Matches(x, ss);
    }
  }

  lemma {:induction false} StmtNoReadsNoFix(x: Name, s: Stmt)
    requires StmtReads(x, s) == 0
    ensures StmtOnlyReadsAtOnce(x, s) && FixStmt(x, s) == s
    decreases s, 1
  {
    match s {
      case Block(body) => NoReadsNoFix(x, body);
      case If(_, c, alternate) =>
        StmtNoReadsNoFix(x, c);
        if alternate.Some? {
          StmtNoReadsNoFix(x, alternate.value);
        }
      case While(_, b) => StmtNoReadsNoFix(x, b);
      case Switch(_, cases) => CasesNoReadsNoFix(x, cases);
      case Try(b, _, handler, f) =>
        NoReadsNoFix(x, b);
        NoReadsNoFix(x, handler);
        NoReadsNoFix(x, f);
      case _ =>
    }
  }

  lemma {:induction false} CasesNoReadsNoFix(x: Name, cases: seq<Case>)
    requires CaseReads(x, cases) == 0
    ensures CasesOnlyReadAtOnce(x, cases) && FixCases(x, cases) == cases
    decreases cases, 0
  {
    if cases != [] {
      NoReadsNoFix(x, cases[0].consequent);
      CasesNoReadsNoFix(x, cases[1..]);
    }
  }

  predicate EndsInMatch(x: Name, list: seq<Stmt>) {
    |list| > 1 && Matches(x, list[|list| - 2..])
  }

  /** If `x` is read at most once and some list ends in a match, that match holds the only read. */
  lemma {:induction false} SiteHoldsOnlyRead(x: Name, ss: seq<Stmt>, list: seq<Stmt>)
    requires list in StatementLists(ss) && EndsInMatch(x, list) && BodyReads(x, ss) <= 1
    ensures OnlyReadsAtOnce(x, ss) && 1 <= BodyReads(x, list) <= BodyReads(x, ss)
    decreases ss, 1
  {
    if list == ss {
      MatchAtEnd(x, ss);
    } else {
      BelowHoldsOnlyRead(x, ss, list);
    }
  }

  lemma {:induction false} MatchAtEnd(x: Name, ss: seq<Stmt>)
    requires EndsInMatch(x, ss) && BodyReads(x, ss) <= 1
    ensures OnlyReadsAtOnce(x, ss) && 1 <= BodyReads(x, ss)
  {
    if |ss| == 2 {
      assert ss[0..] == ss;
      MatchReads(x, ss);
    } else {
      assert ss[|ss| - 2..] == ss[1..][|ss[1..]| - 2..];
      MatchAtEnd(x, ss[1..]);
      StmtNoReadsNoFix(x, ss[0]);
    }
  }

  lemma MatchReads(x: Name, ss: seq<Stmt>)
    requires Matches(x, ss)
    ensures BodyReads(x, ss) == Reads(x, OnlyDeclaredVariable(ss[0]).value.init) + 1
  {
    var ds := ss[0].declarations;
    assert ss == [ss[0]] + [ss[1]] && ss[1..] == [ss[1]] && [ss[1]][1..] == [];
    assert BodyReads(x, [ss[1]]) == StmtReads(x, ss[1]) + BodyReads(x, []);
    assert StmtReads(x, ss[1]) == 1;
    assert ds[1..] == [] && DeclReads(x, ds) == ReadsOpt(x, ds[0].init) + DeclReads(x, []);
  }

  lemma {:induction false} BelowHoldsOnlyRead(x: Name, ss: seq<Stmt>, list: seq<Stmt>)
    requires list in ListsBelow(ss) && EndsInMatch(x, list) && BodyReads(x, ss) <= 1
    ensures OnlyReadsAtOnce(x, ss) && 1 <= BodyReads(x, list) <= BodyReads(x, ss)
    decreases ss, 0
  {
    if list in ListsIn(ss[0]) {
      InsideHoldsOnlyRead(x, ss[0], list);
      NoReadsNoFix(x, ss[1..]);
    } else {
      BelowHoldsOnlyRead(x, ss[1..], list);
      StmtNoReadsNoFix(x, ss[0]);
    }
  }

  lemma {:induction false} InsideHoldsOnlyRead(x: Name, s: Stmt, list: seq<Stmt>)
    requires list in ListsIn(s) && EndsInMatch(x, list) && StmtReads(x, s) <= 1
    ensures StmtOnlyReadsAtOnce(x, s) && 1 <= BodyReads(x, list) <= StmtReads(x, s)
    decreases s, 2
  {
    match s {
      case Block(body) => SiteHoldsOnlyRead(x, body, list);
      case If(_, c, alternate) =>
        if list in ListsIn(c) {
          InsideHoldsOnlyRead(x, c, list);
          if alternate.Some? {
            StmtNoReadsNoFix(x, alternate.value);
          }
        } else {
          InsideHoldsOnlyRead(x, alternate.value, list);
          StmtNoReadsNoFix(x, c);
        }
      case While(_, b) => InsideHoldsOnlyRead(x, b, list);
      case Switch(_, cases) => CasesHoldOnlyRead(x, cases, list);
      case Try(b, _, handler, f) => TryHoldsOnlyRead(x, s, list);
    }
  }

  lemma {:induction false} TryHoldsOnlyRead(x: Name, s: Stmt, list: seq<Stmt>)
    requires s.Try? && list in ListsIn(s) && EndsInMatch(x, list) && StmtReads(x, s) <= 1
    ensures StmtOnlyReadsAtOnce(x, s) && 1 <= BodyReads(x, list) <= StmtReads(x, s)
    decreases s, 1
  {
    if list in StatementLists(s.block) {
      SiteHoldsOnlyRead(x, s.block, list);
    } else if list in StatementLists(s.handler) {
      SiteHoldsOnlyRead(x, s.handler, list);
    } else {
      SiteHoldsOnlyRead(x, s.finalizer, list);
    }
    if BodyReads(x, s.block) == 0 { NoReadsNoFix(x, s.block); }
    if BodyReads(x, s.handler) == 0 { NoReadsNoFix(x, s.handler); }
    if BodyReads(x, s.finalizer) == 0 { NoReadsNoFix(x, s.finalizer); }
  }

  lemma {:induction false} CasesHoldOnlyRead(x: Name, cases: seq<Case>, list: seq<Stmt>)
    requires list in ListsInCases(cases) && EndsInMatch(x, list) && CaseReads(x, cases) <= 1
    ensures CasesOnlyReadAtOnce(x, cases) && 1 <= BodyReads(x, list) <= CaseReads(x, cases)
    decreases cases, 0
  {
    if list in StatementLists(cases[0].consequent) {
      SiteHoldsOnlyRead(x, cases[0].consequent, list);
      CasesNoReadsNoFix(x, cases[1..]);
    } else {
      CasesHoldOnlyRead(x, cases[1..], list);
      NoReadsNoFix(x, cases[0].consequent);
    }
  }

  /** Whenever the rule reports `x`, wherever in the function the two statements stand, the fixed function ends in the
      same way after the same calls, and every variable but `x` has the same value. */
  lemma FixPreservesMeaning(h: Host, scope: seq<Stmt>, list: seq<Stmt>, x: Name, st: State, fuel: nat)
    requires list in StatementLists(scope) && ProcessStatements(scope, list) == Some(x)
    ensures AgreeOutcome(x, ExecAll(h, scope, st, fuel), ExecAll(h, FixBody(x, scope), st, fuel))
  {
    SiteHoldsOnlyRead(x, scope, list);
    FixBodyAgrees(h, x, scope, st, st, fuel);
  }

  /** `FixBody` is the rule's one fix: the reported list is changed as `fix` says, and any other one without a read of
      `x` is left as it is. */
  lemma FixBodyIsTheFix(scope: seq<Stmt>, list: seq<Stmt>, x: Name, other: seq<Stmt>)
    requires list in StatementLists(scope) && ProcessStatements(scope, list) == Some(x)
    ensures FixBody(x, list) == Fix(list)
    ensures BodyReads(x, other) == 0 ==> FixBody(x, other) == other
  {
    SiteHoldsOnlyRead(x, scope, list);
    FixAtEnd(x, list);
    if BodyReads(x, other) == 0 {
      NoReadsNoFix(x, other);
    }
  }

  lemma {:induction false} FixAtEnd(x: Name, list: seq<Stmt>)
    requires EndsInMatch(x, list) && BodyReads(x, list) <= 1
    ensures FixBody(x, list) == Fix(list)
  {
    if |list| == 2 {
      assert list[0..] == list;
    } else {
      var rest := list[1..];
      assert list[|list| - 2..] == rest[|rest| - 2..];
      MatchAtEnd(x, rest);
      StmtNoReadsNoFix(x, list[0]);
      FixAtEnd(x, rest);
      assert Fix(list) == [list[0]] + Fix(rest);
    }
  }
}
