/** A small imperative language with the constructs that the fixes of S1488 and S1126 meet.
    Names are resolved: different variables have different names. Closures are not part of it. */
module MiniLang {
  import opened Common
  import opened Paths

  type Name = string

  datatype Value = Undefined | Null | Bool(b: bool) | Num(n: int) | Str(s: string) | Ref(id: nat)

  predicate Truthy(v: Value) {
    match v
    case Undefined => false
    case Null => false
    case Bool(b) => b
    case Num(n) => n != 0
    case Str(s) => s != ""
    case Ref(_) => true
  }

  datatype Expr =
    | Literal(v: Value)
    | Identifier(name: Name)
    | Assignment(operator: string, target: Name, value: Expr)
    | Unary(operator: string, argument: Expr)
    | Binary(operator: string, left: Expr, right: Expr)
    | Conditional(test: Expr, consequent: Expr, alternate: Expr)
    | Call(callee: Name, arguments: seq<Expr>)

  datatype Pattern = Id(name: Name, typed: bool) | Destructuring(names: seq<Name>)

  datatype Declarator = Declarator(id: Pattern, init: Option<Expr>)

  datatype Stmt =
    | ExpressionStatement(e: Expr)
    | VariableDeclaration(declarations: seq<Declarator>)
    | Return(argument: Option<Expr>)
    | Throw(thrown: Expr)
    | Block(body: seq<Stmt>)
    | If(test: Expr, consequent: Stmt, alternate: Option<Stmt>)
    | While(test: Expr, body_: Stmt)
    | Switch(discriminant: Expr, cases: seq<Case>)
    | Try(block: seq<Stmt>, param: Option<Name>, handler: seq<Stmt>, finalizer: seq<Stmt>)
    | Break | Continue

  /** `Try` without `param` has no `catch` clause; `test` is `None` for the default case. */
  datatype Case = Case(test: Option<Expr>, consequent: seq<Stmt>)

  /** One call of the outside world. */
  datatype Event = Event(callee: Name, arguments: seq<Value>)

  datatype State = State(store: map<Name, Value>, trace: seq<Event>)

  datatype Answer = Value(v: Value) | Exception(v: Value)

  /** What the language leaves to its environment: calls may depend on everything that was called before. */
  datatype Host = Host(
    call: (Event, seq<Event>) -> Answer,
    unary: (string, Value) -> Answer,
    binary: (string, Value, Value) -> Answer,
    property: (Name, Value) -> Value)

  /** The result of an expression. */
  datatype Result = Done(v: Value, st: State) | Raised(v: Value, st: State)

  datatype Results = AllDone(vs: seq<Value>, st: State) | OneRaised(v: Value, st: State)

  function FromAnswer(a: Answer, st: State): Result {
    match a
    case Value(v) => Done(v, st)
    case Exception(v) => Raised(v, st)
  }

  function Write(st: State, x: Name, v: Value): State {
    st.(store := st.store[x := v])
  }

  const REFERENCE_ERROR := Str("ReferenceError")

  function Read(st: State, x: Name): Result {
    if x in st.store then Done(st.store[x], st) else Raised(REFERENCE_ERROR, st)
  }

  function Eval(h: Host, e: Expr, st: State): Result
    decreases e, 1
  {
    match e
    case Literal(v) => Done(v, st)
    case Identifier(x) => Read(st, x)
    case Assignment(op, x, value) =>
      if op == "=" then
        (match Eval(h, value, st)
         case Done(v, st1) => Done(v, Write(st1, x, v))
         case Raised(v, st1) => Raised(v, st1))
      else
        (match Read(st, x)
         case Raised(v, st1) => Raised(v, st1)
         case Done(before, st1) =>
           match Eval(h, value, st1)
           case Raised(v, st2) => Raised(v, st2)
           case Done(v, st2) =>
             match h.binary(op, before, v)
             case Exception(w) => Raised(w, st2)
             case Value(w) => Done(w, Write(st2, x, w)))
    case Unary(op, argument) =>
      (match Eval(h, argument, st)
       case Raised(v, st1) => Raised(v, st1)
       case Done(v, st1) => if op == "!" then Done(Bool(!Truthy(v)), st1) else FromAnswer(h.unary(op, v), st1))
    case Binary(op, left, right) =>
      (match Eval(h, left, st)
       case Raised(v, st1) => Raised(v, st1)
       case Done(v, st1) =>
         match Eval(h, right, st1)
         case Raised(w, st2) => Raised(w, st2)
         case Done(w, st2) => FromAnswer(h.binary(op, v, w), st2))
    case Conditional(test, consequent, alternate) =>
      (match Eval(h, test, st)
       case Raised(v, st1) => Raised(v, st1)
       case Done(v, st1) => if Truthy(v) then Eval(h, consequent, st1) else Eval(h, alternate, st1))
    case Call(callee, arguments) =>
      match EvalAll(h, arguments, st)
      case OneRaised(v, st1) => Raised(v, st1)
      case AllDone(vs, st1) =>
        var event := Event(callee, vs);
        FromAnswer(h.call(event, st1.trace), st1.(trace := st1.trace + [event]))
  }

  function EvalAll(h: Host, es: seq<Expr>, st: State): Results
    decreases es, 0
  {
    if es == [] then AllDone([], st)
    else
      match Eval(h, es[0], st)
      case Raised(v, st1) => OneRaised(v, st1)
      case Done(v, st1) =>
        match EvalAll(h, es[1..], st1)
        case OneRaised(w, st2) => OneRaised(w, st2)
        case AllDone(vs, st2) => AllDone([v] + vs, st2)
  }

  /** How a statement ends. `Diverged` means that a loop has used up its fuel. */
  datatype Completion = Normal | Returned(v: Value) | Thrown(v: Value) | Broke | Continued | Diverged

  datatype Outcome = Outcome(c: Completion, st: State)

  function Bind(h: Host, id: Pattern, v: Value, st: State): State {
    match id
    case Id(name, _) => Write(st, name, v)
    case Destructuring(names) => BindAll(h, names, v, st)
  }

  function BindAll(h: Host, names: seq<Name>, v: Value, st: State): State
    decreases |names|
  {
    if names == [] then st else BindAll(h, names[1..], v, Write(st, names[0], h.property(names[0], v)))
  }

  function Declare(h: Host, ds: seq<Declarator>, st: State): Outcome {
    if ds == [] then Outcome(Normal, st)
    else
      match ds[0].init
      case None => Declare(h, ds[1..], Bind(h, ds[0].id, Undefined, st))
      case Some(e) =>
        match Eval(h, e, st)
        case Raised(v, st1) => Outcome(Thrown(v), st1)
        case Done(v, st1) => Declare(h, ds[1..], Bind(h, ds[0].id, v, st1))
  }

  /** The index of the case to start with, `|cases|` if there is none; or an exception from a test. */
  datatype Selection = Selected(index: nat, st: State) | SelectionRaised(v: Value, st: State)

  function Select(h: Host, d: Value, cases: seq<Case>, st: State): Selection
    decreases |cases|
  {
    if cases == [] then Selected(0, st)
    else
      match cases[0].test
      case None => Next(Select(h, d, cases[1..], st))
      case Some(test) =>
        match Eval(h, test, st)
        case Raised(v, st1) => SelectionRaised(v, st1)
        case Done(v, st1) => if v == d then Selected(0, st1) else Next(Select(h, d, cases[1..], st1))
  }

  function Next(s: Selection): Selection {
    match s
    case Selected(i, st) => Selected(i + 1, st)
    case SelectionRaised(v, st) => SelectionRaised(v, st)
  }

  function DefaultIndex(cases: seq<Case>): nat {
    if cases == [] || cases[0].test.None? then 0 else 1 + DefaultIndex(cases[1..])
  }

  /** A `finally` block overrides what came before unless it ends normally. */
  function AfterFinally(before: Outcome, f: Outcome): Outcome {
    if f.c == Normal then Outcome(before.c, f.st) else f
  }

  function Exec(h: Host, s: Stmt, st: State, fuel: nat): Outcome
    decreases fuel, s, 1
  {
    match s
    case ExpressionStatement(e) =>
      (match Eval(h, e, st)
       case Raised(v, st1) => Outcome(Thrown(v), st1)
       case Done(_, st1) => Outcome(Normal, st1))
    case VariableDeclaration(ds) => Declare(h, ds, st)
    case Return(None) => Outcome(Returned(Undefined), st)
    case Return(Some(e)) =>
      (match Eval(h, e, st)
       case Raised(v, st1) => Outcome(Thrown(v), st1)
       case Done(v, st1) => Outcome(Returned(v), st1))
    case Throw(e) => Outcome(Thrown(Eval(h, e, st).v), Eval(h, e, st).st)
    case Block(body) => ExecAll(h, body, st, fuel)
    case If(test, consequent, alternate) =>
      (match Eval(h, test, st)
       case Raised(v, st1) => Outcome(Thrown(v), st1)
       case Done(v, st1) =>
         if Truthy(v) then Exec(h, consequent, st1, fuel)
         else match alternate
           case None => Outcome(Normal, st1)
           case Some(a) => Exec(h, a, st1, fuel))
    case While(test, body) =>
      if fuel == 0 then Outcome(Diverged, st)
      else
        (match Eval(h, test, st)
         case Raised(v, st1) => Outcome(Thrown(v), st1)
         case Done(v, st1) =>
           if !Truthy(v) then Outcome(Normal, st1)
           else
             var round := Exec(h, body, st1, fuel);
             match round.c
             case Normal => Exec(h, s, round.st, fuel - 1)
             case Continued => Exec(h, s, round.st, fuel - 1)
             case Broke => Outcome(Normal, round.st)
             case _ => round)
    case Switch(discriminant, cases) =>
      (match Eval(h, discriminant, st)
       case Raised(v, st1) => Outcome(Thrown(v), st1)
       case Done(d, st1) =>
         match Select(h, d, cases, st1)
         case SelectionRaised(v, st2) => Outcome(Thrown(v), st2)
         case Selected(i, st2) =>
           var o := ExecCases(h, cases, if i < |cases| then i else DefaultIndex(cases), st2, fuel);
           if o.c == Broke then Outcome(Normal, o.st) else o)
    case Try(block, param, handler, finalizer) =>
      var tried := ExecAll(h, block, st, fuel);
      var handled :=
        if tried.c.Thrown? && param.Some? then ExecAll(h, handler, Write(tried.st, param.value, tried.c.v), fuel)
        else tried;
      if handled.c == Diverged then handled else AfterFinally(handled, ExecAll(h, finalizer, handled.st, fuel))
    case Break => Outcome(Broke, st)
    case Continue => Outcome(Continued, st)
  }

  function ExecAll(h: Host, ss: seq<Stmt>, st: State, fuel: nat): Outcome
    decreases fuel, ss, 0
  {
    if ss == [] then Outcome(Normal, st)
    else
      var o := Exec(h, ss[0], st, fuel);
      if o.c == Normal then ExecAll(h, ss[1..], o.st, fuel) else o
  }

  /** Cases fall through: from the first one on, skipping `skip` of them. */
  function ExecCases(h: Host, cases: seq<Case>, skip: nat, st: State, fuel: nat): Outcome
    decreases fuel, cases, 0
  {
    if cases == [] then Outcome(Normal, st)
    else if skip > 0 then ExecCases(h, cases[1..], skip - 1, st, fuel)
    else
      var o := ExecAll(h, cases[0].consequent, st, fuel);
      if o.c == Normal then ExecCases(h, cases[1..], 0, o.st, fuel) else o
  }

  /** The syntax tree, with the lists of statements as nodes of their own. */
  datatype Piece =
    | ExprPiece(e: Expr) | StmtPiece(s: Stmt) | ListPiece(list: seq<Stmt>)
    | DeclaratorPiece(d: Declarator) | CasePiece(c: Case)

  function Parts(p: Piece): seq<Piece> {
    match p
    case ExprPiece(e) => ExprParts(e)
    case StmtPiece(s) => StmtParts(s)
    case ListPiece(ss) => seq(|ss|, i requires 0 <= i < |ss| => StmtPiece(ss[i]))
    case DeclaratorPiece(d) => OptParts(d.init)
    case CasePiece(c) => OptParts(c.test) + [ListPiece(c.consequent)]
  }

  function OptParts(e: Option<Expr>): seq<Piece> {
    if e.Some? then [ExprPiece(e.value)] else []
  }

  function ExprParts(e: Expr): seq<Piece> {
    match e
    case Literal(_) => []
    case Identifier(_) => []
    case Assignment(_, _, value) => [ExprPiece(value)]
    case Unary(_, a) => [ExprPiece(a)]
    case Binary(_, l, r) => [ExprPiece(l), ExprPiece(r)]
    case Conditional(t, c, a) => [ExprPiece(t), ExprPiece(c), ExprPiece(a)]
    case Call(_, es) => seq(|es|, i requires 0 <= i < |es| => ExprPiece(es[i]))
  }

  function StmtParts(s: Stmt): seq<Piece> {
    match s
    case ExpressionStatement(e) => [ExprPiece(e)]
    case VariableDeclaration(ds) => seq(|ds|, i requires 0 <= i < |ds| => DeclaratorPiece(ds[i]))
    case Return(e) => OptParts(e)
    case Throw(e) => [ExprPiece(e)]
    case Block(body) => [ListPiece(body)]
    case If(t, c, None) => [ExprPiece(t), StmtPiece(c)]
    case If(t, c, Some(a)) => [ExprPiece(t), StmtPiece(c), StmtPiece(a)]
    case While(t, b) => [ExprPiece(t), StmtPiece(b)]
    case Switch(d, cases) => [ExprPiece(d)] + seq(|cases|, i requires 0 <= i < |cases| => CasePiece(cases[i]))
    case Try(b, _, handler, f) => [ListPiece(b), ListPiece(handler), ListPiece(f)]
    case Break => []
    case Continue => []
  }

  predicate IsPath(p: Piece, path: Path)
    decreases |path|
  {
    path == [] || (path[0] < |Parts(p)| && IsPath(Parts(p)[path[0]], path[1..]))
  }

  function At(p: Piece, path: Path): Piece
    requires IsPath(p, path)
    decreases |path|
  {
    if path == [] then p else At(Parts(p)[path[0]], path[1..])
  }
}
