/** The syntax tree sent to the Java side: `packages/jsts/src/parsers/ast.ts` builds objects shaped like the messages of
    `packages/jsts/src/parsers/estree.proto`.
    Property names and node types are constructors here, so looking one up by its spelling is a match. */
module AstShape {
  import opened Common

  /** The positions of a file that the encoder can hold. */
  type Int32 = x: int | -0x8000_0000 <= x < 0x8000_0000

  datatype Location = Location(startLine: Int32, startColumn: Int32, endLine: Int32, endColumn: Int32)

  datatype Kind =
    | Program | Identifier | Literal | ThisExpression | BlockStatement | ExpressionStatement | BinaryExpression
    | AssignmentExpression | CallExpression | MemberExpression | ConditionalExpression | IfStatement | ReturnStatement
    | SwitchStatement | SwitchCase | TryStatement | CatchClause | VariableDeclaration | VariableDeclarator
    | FunctionDeclaration | FunctionExpression | ArrayExpression | ArrayPattern | AssignmentPattern | ClassDeclaration
    | ClassBody | MethodDefinition | TSExportAssignment

  /** Nodes that exist for the type checker only. */
  datatype Wrapper =
    | TSAsExpression | TSSatisfiesExpression | TSNonNullExpression | TSTypeAssertion | TSParameterProperty

  datatype NodeType = Supported(kind: Kind) | Wrapping(wrapper: Wrapper) | Unsupported(rawType: string)

  datatype Property =
    | SourceType | Body | Name | Raw | Value | Bigint | Pattern | Flags | Expression | Directive | Operator | Left
    | Right | Callee | Arguments | Optional | Object | PropertyKey | Computed | Test | Consequent | Alternate | Argument
    | Discriminant | Cases | Block | Handler | Finalizer | Param | Declarations | DeclarationKind | Id | Init | Params
    | Generator | Async | Elements | SuperClass | Key | Static | Parameter
    // names that only the shape has
    | ValueString | ValueNumber | ValueBoolean | BigInt | RawType

  datatype Item<T> =
    | Absent
    | Null
    | Text(text: string)
    | Flag(flag: bool)
    | Number(number: real)
    | Big(big: int)
    | One(one: T)
    | Many(many: seq<Option<T>>)
    // a list of objects with the one property `element`
    | Boxed(boxed: seq<Option<T>>)

  datatype Node = Node(ty: NodeType, loc: Location, props: map<Property, Item<Node>>)

  /** The property that holds the body: the node type with a lower-case first letter. Transmission can unset it. */
  datatype Member = Member(ty: NodeType) | Unset

  datatype Shape = Shape(code: int, loc: Location, member: Member, body: map<Property, Item<Shape>>)

  /** What a visitor does with a property. */
  datatype Pick = VisitOne | VisitMany | VisitElements | Copy

  /** The properties in the result of each visitor. `Literal` has a visitor of its own. */
  function Visitor(kind: Kind): map<Property, Pick> {
    match kind
    case Program => map[SourceType := Copy, Body := VisitMany]
    case Identifier => map[Name := Copy]
    case Literal => map[]
    case ThisExpression => map[]
    case BlockStatement => map[Body := VisitMany]
    case ExpressionStatement => map[Expression := VisitOne, Directive := Copy]
    case BinaryExpression => map[Operator := Copy, Left := VisitOne, Right := VisitOne]
    case AssignmentExpression => map[Operator := Copy, Left := VisitOne, Right := VisitOne]
    case CallExpression => map[Optional := Copy, Callee := VisitOne, Arguments := VisitMany]
    case MemberExpression => map[Object := VisitOne, PropertyKey := VisitOne, Computed := Copy, Optional := Copy]
    case ConditionalExpression => map[Test := VisitOne, Consequent := VisitOne, Alternate := VisitOne]
    case IfStatement => map[Test := VisitOne, Consequent := VisitOne, Alternate := VisitOne]
    case ReturnStatement => map[Argument := VisitOne]
    case SwitchStatement => map[Discriminant := VisitOne, Cases := VisitMany]
    case SwitchCase => map[Test := VisitOne, Consequent := VisitMany]
    case TryStatement => map[Block := VisitOne, Handler := VisitOne, Finalizer := VisitOne]
    case CatchClause => map[Param := VisitOne, Body := VisitOne]
    case VariableDeclaration => map[Declarations := VisitMany, DeclarationKind := Copy]
    case VariableDeclarator => map[Id := VisitOne, Init := VisitOne]
    case FunctionDeclaration =>
      map[Id := VisitOne, Body := VisitOne, Params := VisitMany, Generator := Copy, Async := Copy]
    case FunctionExpression =>
      map[Id := VisitOne, Body := VisitOne, Params := VisitMany, Generator := Copy, Async := Copy]
    case ArrayExpression => map[Elements := VisitElements]
    case ArrayPattern => map[Elements := VisitElements]
    case AssignmentPattern => map[Left := VisitOne, Right := VisitOne]
    case ClassDeclaration => map[Id := VisitOne, SuperClass := VisitOne, Body := VisitOne]
    case ClassBody => map[Body := VisitMany]
    case MethodDefinition =>
      map[Key := VisitOne, Value := VisitOne, DeclarationKind := Copy, Computed := Copy, Static := Copy]
    case TSExportAssignment => map[Expression := VisitOne]
  }

  /** The number of the node type in the schema. `TSExportAssignment` has none: the schema has `ExportAssignment`. */
  function NodeTypeEnum(ty: NodeType): Option<int> {
    match ty
    case Supported(kind) =>
      (match kind
       case Program => Some(0)
       case Identifier => Some(2)
       case Literal => Some(68)
       case ThisExpression => Some(7)
       case BlockStatement => Some(25)
       case ExpressionStatement => Some(67)
       case BinaryExpression => Some(34)
       case AssignmentExpression => Some(36)
       case CallExpression => Some(33)
       case MemberExpression => Some(22)
       case ConditionalExpression => Some(26)
       case IfStatement => Some(59)
       case ReturnStatement => Some(63)
       case SwitchStatement => Some(57)
       case SwitchCase => Some(58)
       case TryStatement => Some(54)
       case CatchClause => Some(55)
       case VariableDeclaration => Some(43)
       case VariableDeclarator => Some(44)
       case FunctionDeclaration => Some(40)
       case FunctionExpression => Some(70)
       case ArrayExpression => Some(38)
       case ArrayPattern => Some(16)
       case AssignmentPattern => Some(14)
       case ClassDeclaration => Some(39)
       case ClassBody => Some(28)
       case MethodDefinition => Some(31)
       case TSExportAssignment => None)
    case Wrapping(_) => None
    case Unsupported(_) => None
  }

  const UNKNOWN_NODE_TYPE := 1000

  function Code(ty: NodeType): int {
    if NodeTypeEnum(ty).Some? then NodeTypeEnum(ty).value else UNKNOWN_NODE_TYPE
  }

  function Get<T>(props: map<Property, Item<T>>, p: Property): Item<T> {
    if p in props then props[p] else Absent
  }

  /** `visitLiteral` */
  function VisitLiteral(props: map<Property, Item<Node>>): map<Property, Item<Shape>> {
    if Bigint in props then
      map[Value := CopyItem(Get(props, Value)), BigInt := CopyItem(props[Bigint]), Raw := CopyItem(Get(props, Raw))]
    else if Pattern in props then
      map[Flags := CopyItem(Get(props, Flags)), Pattern := CopyItem(props[Pattern]), Raw := CopyItem(Get(props, Raw))]
    else map[Raw := CopyItem(Get(props, Raw))] + TranslateValue(Get(props, Value))
  }

  function TranslateValue(value: Item<Node>): map<Property, Item<Shape>> {
    match value
    case Text(s) => map[ValueString := Text(s)]
    case Number(r) => map[ValueNumber := Number(r)]
    case Flag(b) => map[ValueBoolean := Flag(b)]
    case _ => map[]
  }

  function CopyItem(item: Item<Node>): Item<Shape> {
    match item
    case Null => Null
    case Text(s) => Text(s)
    case Flag(b) => Flag(b)
    case Number(r) => Number(r)
    case Big(i) => Big(i)
    case _ => Absent
  }

  /** The node inside a wrapper. */
  function Inner(n: Node): (r: Option<Node>)
    requires n.ty.Wrapping?
    ensures r.Some? ==> r.value < n
  {
    var p := if n.ty.wrapper == TSParameterProperty then Parameter else Expression;
    if p in n.props && n.props[p].One? then Some(n.props[p].one) else None
  }

  /** `visitNode` for a node or for `null`. */
  function VisitNode(node: Option<Node>): Option<Shape> {
    match node
    case None => None
    case Some(n) => ShapeOf(n)
  }

  /** `getProtobufShapeForNode` */
  function ShapeOf(n: Node): Option<Shape> {
    match n.ty
    case Wrapping(_) =>
      (match Inner(n)
       case None => None
       case Some(inner) => ShapeOf(inner))
    case Supported(kind) =>
      var body := if kind == Literal then VisitLiteral(n.props) else VisitProps(n, Visitor(kind));
      Some(Shape(Code(n.ty), n.loc, Member(n.ty), body))
    case Unsupported(rawType) => Some(Shape(Code(n.ty), n.loc, Member(n.ty), map[RawType := Text(rawType)]))
  }

  function VisitProps(n: Node, visitor: map<Property, Pick>): map<Property, Item<Shape>> {
    map p | p in visitor :: if p in n.props then VisitItem(n.props[p], visitor[p]) else Absent
  }

  function VisitItem(item: Item<Node>, pick: Pick): Item<Shape> {
    match pick
    case VisitOne =>
      if item.One? then
        match ShapeOf(item.one)
        case None => Absent
        case Some(s) => One(s)
      else Absent
    case VisitMany => if item.Many? then Many(VisitAll(item.many)) else Absent
    case VisitElements => if item.Many? then Boxed(VisitAll(item.many)) else Absent
    case Copy => CopyItem(item)
  }

  function VisitAll(nodes: seq<Option<Node>>): (r: seq<Option<Shape>>)
    ensures |r| == |nodes|
    ensures forall i :: 0 <= i < |nodes| ==> r[i] == VisitNode(nodes[i])
  {
    if nodes == [] then [] else [VisitNode(nodes[0])] + VisitAll(nodes[1..])
  }

  /** The types of the schema. */
  datatype FieldType =
    | NodeField | NodesField | ElementsField
    | StringField(optional: bool) | BoolField(optional: bool) | Int32Field

  /** The message of each kind. */
  function Schema(kind: Kind): map<Property, FieldType> {
    match kind
    case Program => map[SourceType := StringField(false), Body := NodesField]
    case Identifier => map[Name := StringField(false)]
    case Literal =>
      map[Raw := StringField(false), Bigint := StringField(true), Pattern := StringField(true),
          Flags := StringField(true), ValueString := StringField(true), ValueBoolean := BoolField(true),
          ValueNumber := Int32Field]
    case ThisExpression => map[]
    case BlockStatement => map[Body := NodesField]
    case ExpressionStatement => map[Expression := NodeField, Directive := StringField(true)]
    case BinaryExpression => map[Operator := StringField(false), Left := NodeField, Right := NodeField]
    case AssignmentExpression => map[Operator := StringField(false), Left := NodeField, Right := NodeField]
    case CallExpression => map[Optional := BoolField(false), Callee := NodeField, Arguments := NodesField]
    case MemberExpression =>
      map[Object := NodeField, PropertyKey := NodeField, Computed := BoolField(false), Optional := BoolField(false)]
    case ConditionalExpression => map[Test := NodeField, Alternate := NodeField, Consequent := NodeField]
    case IfStatement => map[Test := NodeField, Consequent := NodeField, Alternate := NodeField]
    case ReturnStatement => map[Argument := NodeField]
    case SwitchStatement => map[Discriminant := NodeField, Cases := NodesField]
    case SwitchCase => map[Test := NodeField, Consequent := NodesField]
    case TryStatement => map[Block := NodeField, Handler := NodeField, Finalizer := NodeField]
    case CatchClause => map[Param := NodeField, Body := NodeField]
    case VariableDeclaration => map[Declarations := NodesField, DeclarationKind := StringField(false)]
    case VariableDeclarator => map[Id := NodeField, Init := NodeField]
    case FunctionDeclaration =>
      map[Id := NodeField, Body := NodeField, Params := NodesField, Generator := BoolField(true),
          Async := BoolField(true)]
    case FunctionExpression =>
      map[Id := NodeField, Body := NodeField, Params := NodesField, Generator := BoolField(true),
          Async := BoolField(true)]
    case ArrayExpression => map[Elements := ElementsField]
    case ArrayPattern => map[Elements := ElementsField]
    case AssignmentPattern => map[Left := NodeField, Right := NodeField]
    case ClassDeclaration => map[Id := NodeField, SuperClass := NodeField, Body := NodeField]
    case ClassBody => map[Body := NodesField]
    case MethodDefinition =>
      map[Key := NodeField, Value := NodeField, DeclarationKind := StringField(false), Computed := BoolField(false),
          Static := BoolField(false)]
    case TSExportAssignment => map[Expression := NodeField]
  }

  /** What the text of a literal says about its properties. */
  type Spelling = string -> map<Property, Item<Node>>

  /** Ways to read literals: by their fields, or by their text. */
  datatype Reader = ByFields | BySpelling(spelling: Spelling)

  /** A node of a parsed file: its properties have the types for which the schema was generated. Anything else a parser
      adds to a node is unconstrained. */
  ghost predicate WellTyped(n: Node, reader: Reader)
    decreases n, 1
  {
    match n.ty
    case Wrapping(_) => Inner(n).Some? && WellTyped(Inner(n).value, reader)
    case Unsupported(rawType) => rawType != ""
    case Supported(kind) =>
      if kind == Literal then WellTypedLiteral(n.props, reader)
      else WellTypedProps(n, Schema(kind), reader)
  }

  ghost predicate WellTypedProps(n: Node, schema: map<Property, FieldType>, reader: Reader)
    decreases n, 0
  {
    forall p :: p in schema ==>
      if p in n.props then WellTypedItem(n.props[p], schema[p], reader) else MayBeAbsent(schema[p])
  }

  /** When literals are read by their text, the other properties are what the text says. */
  predicate WellTypedLiteral(props: map<Property, Item<Node>>, reader: Reader) {
    && Get(props, Raw).Text?
    && (Bigint in props ==> props[Bigint].Text? && (Get(props, Value).Null? || Get(props, Value).Big?))
    && (Pattern in props ==> props[Pattern].Text? && Get(props, Flags).Text?)
    && (Bigint !in props && Pattern !in props ==>
          var value := Get(props, Value);
          value.Text? || value.Flag? || value.Null? || (value.Number? && value.number >= 0.0))
    && (reader.BySpelling? ==> EraseLiteral(props) == reader.spelling(props[Raw].text))
  }

  predicate MayBeAbsent(field: FieldType) {
    field == NodeField || (field.StringField? && field.optional) || (field.BoolField? && field.optional)
  }

  ghost predicate WellTypedItem(item: Item<Node>, field: FieldType, reader: Reader) {
    match field
    case NodeField => item.Absent? || item.Null? || (item.One? && WellTyped(item.one, reader))
    case NodesField => item.Many? && None !in item.many && WellTypedAll(item.many, reader)
    case ElementsField => item.Many? && WellTypedAll(item.many, reader)
    case StringField(optional) => item.Text? || (optional && item.Absent?)
    case BoolField(optional) => item.Flag? || (optional && item.Absent?)
    case Int32Field => item.Number?
  }

  ghost predicate WellTypedAll(nodes: seq<Option<Node>>, reader: Reader) {
    forall i :: 0 <= i < |nodes| ==> WellTypedNode(nodes[i], reader)
  }

  ghost predicate WellTypedNode(node: Option<Node>, reader: Reader) {
    match node
    case None => true
    case Some(n) => WellTyped(n, reader)
  }

  predicate Present<T(!new)>(item: Item<T>) {
    !item.Absent? && !item.Null?
  }

  /** `e` stands directly under an `as`, `satisfies`, `!` or `<T>`, or is a parameter with an accessibility
      modifier. */
  ghost predicate Wraps(n: Node, e: Node) {
    if n.ty == Wrapping(TSParameterProperty) then Parameter in n.props && n.props[Parameter] == One(e)
    else
      && n.ty in {Wrapping(TSAsExpression), Wrapping(TSSatisfiesExpression), Wrapping(TSNonNullExpression),
                  Wrapping(TSTypeAssertion)}
      && Expression in n.props && n.props[Expression] == One(e)
  }

  /** `e` stands under any number of them. */
  ghost predicate WrapsDeep(n: Node, e: Node, depth: nat) {
    if depth == 0 then n == e else exists inner :: Wraps(n, inner) && WrapsDeep(inner, e, depth - 1)
  }

  /** What is wrapped is translated as it stands, whatever is around it. */
  lemma {:induction false} Unwrapped(n: Node, e: Node, depth: nat, reader: Reader)
    requires WrapsDeep(n, e, depth)
    ensures ShapeOf(n) == ShapeOf(e) && Erase(n) == Erase(e) && (WellTyped(n, reader) <==> WellTyped(e, reader))
    decreases depth
  {
    if depth > 0 {
      var inner :| Wraps(n, inner) && WrapsDeep(inner, e, depth - 1);
      Unwrapped(inner, e, depth - 1, reader);
    }
  }

  /** The program as it runs: without wrappers, and of every node only what its visitor picks. */
  function Erase(n: Node): Node {
    match n.ty
    case Wrapping(_) =>
      (match Inner(n)
       case None => n
       case Some(inner) => Erase(inner))
    case Unsupported(_) => n.(props := map[])
    case Supported(kind) =>
      n.(props := if kind == Literal then EraseLiteral(n.props) else EraseProps(n, Visitor(kind).Keys))
  }

  function EraseProps(n: Node, kept: set<Property>): map<Property, Item<Node>> {
    map p | p in kept && p in n.props && Present(n.props[p]) :: EraseItem(n.props[p])
  }

  function EraseLiteral(props: map<Property, Item<Node>>): map<Property, Item<Node>> {
    var kept :=
      if Bigint in props then {Raw, Value, Bigint}
      else if Pattern in props then {Raw, Pattern, Flags}
      else {Raw, Value};
    map p | p in kept && p in props :: props[p]
  }

  function EraseItem(item: Item<Node>): Item<Node> {
    match item
    case One(n) => One(Erase(n))
    case Many(nodes) => Many(EraseAll(nodes))
    case _ => item
  }

  function EraseAll(nodes: seq<Option<Node>>): (r: seq<Option<Node>>)
    ensures |r| == |nodes|
    ensures forall i :: 0 <= i < |nodes| ==> r[i] == EraseNode(nodes[i])
  {
    if nodes == [] then [] else [EraseNode(nodes[0])] + EraseAll(nodes[1..])
  }

  function EraseNode(node: Option<Node>): Option<Node> {
    match node
    case None => None
    case Some(n) => Some(Erase(n))
  }

  /** Reading a shape back, with a name for nodes of unknown type. */
  function Decode(s: Shape, reader: Reader, unknown: string): Node
    decreases s, 1
  {
    match s.member
    case Unset => Node(Unsupported(unknown), s.loc, map[])
    case Member(ty) =>
      if ty.Unsupported? then
        var raw := Get(s.body, RawType);
        Node(Unsupported(if raw.Text? then raw.text else ""), s.loc, map[])
      else
        Node(ty, s.loc,
             if ty == Supported(Literal) then ReadLiteral(s.body, reader) else DecodeBody(s, reader, unknown))
  }

  function DecodeBody(s: Shape, reader: Reader, unknown: string): map<Property, Item<Node>>
    decreases s, 0
  {
    map p | p in s.body && Present(s.body[p]) :: DecodeItem(s.body[p], reader, unknown)
  }

  function DecodeItem(item: Item<Shape>, reader: Reader, unknown: string): Item<Node> {
    match item
    case One(s) => One(Decode(s, reader, unknown))
    case Many(shapes) => Many(DecodeAll(shapes, reader, unknown))
    case Boxed(shapes) => Many(DecodeAll(shapes, reader, unknown))
    case _ => DecodeScalar(item)
  }

  function DecodeAll(shapes: seq<Option<Shape>>, reader: Reader, unknown: string): seq<Option<Node>> {
    if shapes == [] then [] else [DecodeNode(shapes[0], reader, unknown)] + DecodeAll(shapes[1..], reader, unknown)
  }

  function DecodeNode(shape: Option<Shape>, reader: Reader, unknown: string): Option<Node> {
    match shape
    case None => None
    case Some(s) => Some(Decode(s, reader, unknown))
  }

  function DecodeScalar(item: Item<Shape>): Item<Node> {
    match item
    case Null => Null
    case Text(s) => Text(s)
    case Flag(b) => Flag(b)
    case Number(r) => Number(r)
    case Big(i) => Big(i)
    case _ => Absent
  }

  function ReadLiteral(body: map<Property, Item<Shape>>, reader: Reader): map<Property, Item<Node>> {
    match reader
    case ByFields => DecodeLiteral(body)
    case BySpelling(spelling) => if Get(body, Raw).Text? then spelling(body[Raw].text) else map[]
  }

  /** A big integer is accepted under the visitor's name for it and under the schema's. */
  function DecodeLiteral(body: map<Property, Item<Shape>>): map<Property, Item<Node>> {
    var raw := DecodeScalar(Get(body, Raw));
    var big := if BigInt in body then body[BigInt] else Get(body, Bigint);
    if Present(big) then
      map[Raw := raw, Value := DecodeScalar(Get(body, Value)), Bigint := DecodeScalar(big)]
    else if Pattern in body then
      map[Raw := raw, Pattern := DecodeScalar(body[Pattern]), Flags := DecodeScalar(Get(body, Flags))]
    else map[Raw := raw, Value := DecodeValue(body)]
  }

  /** A literal without a value is `null`. */
  function DecodeValue(body: map<Property, Item<Shape>>): Item<Node> {
    if ValueString in body then DecodeScalar(body[ValueString])
    else if ValueNumber in body then DecodeScalar(body[ValueNumber])
    else if ValueBoolean in body then DecodeScalar(body[ValueBoolean])
    else Null
  }

  predicate Agrees(pick: Pick, field: FieldType) {
    match pick
    case VisitOne => field == NodeField
    case VisitMany => field == NodesField
    case VisitElements => field == ElementsField
    case Copy => field.StringField? || field.BoolField?
  }

  predicate Fills(visitor: map<Property, Pick>, schema: map<Property, FieldType>) {
    visitor.Keys == schema.Keys && forall p :: p in visitor ==> Agrees(visitor[p], schema[p])
  }

  /** Every visitor fills exactly the fields of its message, each as the schema types it. */
  lemma VisitorsFillMessages(kind: Kind)
    requires kind != Literal
    ensures Fills(Visitor(kind), Schema(kind))
  {
    SameProperties(kind);
  }

  lemma SameProperties(kind: Kind)
    requires kind != Literal
    ensures Visitor(kind).Keys == Schema(kind).Keys
  {
  }

  /** What a node of the ESTree format has: single children, lists of children, and values. */
  datatype Parts = Parts(ones: set<Property>, lists: set<Property>, values: set<Property>)

  function PartsOf(kind: Kind): Parts {
    match kind
    case Program => Parts({}, {Body}, {SourceType})
    case Identifier => Parts({}, {}, {Name})
    case Literal => Parts({}, {}, {})
    case ThisExpression => Parts({}, {}, {})
    case BlockStatement => Parts({}, {Body}, {})
    case ExpressionStatement => Parts({Expression}, {}, {Directive})
    case BinaryExpression => Parts({Left, Right}, {}, {Operator})
    case AssignmentExpression => Parts({Left, Right}, {}, {Operator})
    case CallExpression => Parts({Callee}, {Arguments}, {Optional})
    case MemberExpression => Parts({Object, PropertyKey}, {}, {Computed, Optional})
    case ConditionalExpression => Parts({Test, Consequent, Alternate}, {}, {})
    case IfStatement => Parts({Test, Consequent, Alternate}, {}, {})
    case ReturnStatement => Parts({Argument}, {}, {})
    case SwitchStatement => Parts({Discriminant}, {Cases}, {})
    case SwitchCase => Parts({Test}, {Consequent}, {})
    case TryStatement => Parts({Block, Handler, Finalizer}, {}, {})
    case CatchClause => Parts({Param, Body}, {}, {})
    case VariableDeclaration => Parts({}, {Declarations}, {DeclarationKind})
    case VariableDeclarator => Parts({Id, Init}, {}, {})
    case FunctionDeclaration => Parts({Id, Body}, {Params}, {Generator, Async})
    case FunctionExpression => Parts({Id, Body}, {Params}, {Generator, Async})
    case ArrayExpression => Parts({}, {Elements}, {})
    case ArrayPattern => Parts({}, {Elements}, {})
    case AssignmentPattern => Parts({Left, Right}, {}, {})
    case ClassDeclaration => Parts({Id, SuperClass, Body}, {}, {})
    case ClassBody => Parts({}, {Body}, {})
    case MethodDefinition => Parts({Key, Value}, {}, {DeclarationKind, Computed, Static})
    case TSExportAssignment => Parts({Expression}, {}, {})
  }

  /** The shape of a node holds the shapes of all its children, under the same names and in the same order, and its
      values. */
  lemma PartsAreVisited(n: Node, p: Property)
    requires n.ty.Supported? && p in n.props
    ensures var kind := n.ty.kind;
            var body := ShapeOf(n).value.body;
            && (p in PartsOf(kind).ones && n.props[p].One? && ShapeOf(n.props[p].one).Some? ==>
                  Get(body, p) == One(ShapeOf(n.props[p].one).value))
            && (p in PartsOf(kind).lists && n.props[p].Many? ==>
                  Get(body, p) == if p == Elements then Boxed(VisitAll(n.props[p].many))
                                  else Many(VisitAll(n.props[p].many)))
            && (p in PartsOf(kind).values ==> Get(body, p) == CopyItem(n.props[p]))
  {
    var kind := n.ty.kind;
    if kind != Literal {
      match GroupOf(kind) {
        case OfExpressions => PartsOfExpressions(kind, p);
        case OfBranches => PartsOfBranches(kind, p);
        case OfDeclarations => PartsOfDeclarations(kind, p);
        case OfOthers => PartsOfOthers(kind, p);
      }
      assert p in Visitor(kind) ==> Get(ShapeOf(n).value.body, p) == VisitItem(n.props[p], Visitor(kind)[p]);
    }
  }

  predicate Picks(visitor: map<Property, Pick>, parts: Parts, p: Property) {
    && (p in parts.ones <==> p in visitor && visitor[p] == VisitOne)
    && (p in parts.lists <==> p in visitor && visitor[p] == if p == Elements then VisitElements else VisitMany)
    && (p in parts.values <==> p in visitor && visitor[p] == Copy)
  }

  datatype Group = OfExpressions | OfBranches | OfDeclarations | OfOthers

  function GroupOf(kind: Kind): Group {
    match kind
    case ThisExpression | BinaryExpression | AssignmentExpression | CallExpression | MemberExpression
       | ConditionalExpression | FunctionExpression => OfExpressions
    case BlockStatement | ExpressionStatement | IfStatement | ReturnStatement | SwitchStatement | SwitchCase
       | TryStatement => OfBranches
    case CatchClause | VariableDeclaration | VariableDeclarator | FunctionDeclaration | ClassDeclaration
       | TSExportAssignment | Program => OfDeclarations
    case _ => OfOthers
  }

  lemma PartsOfExpressions(kind: Kind, p: Property)
    requires GroupOf(kind) == OfExpressions
    ensures Picks(Visitor(kind), PartsOf(kind), p)
  {
  }

  lemma PartsOfBranches(kind: Kind, p: Property)
    requires GroupOf(kind) == OfBranches
    ensures Picks(Visitor(kind), PartsOf(kind), p)
  {
  }

  lemma PartsOfDeclarations(kind: Kind, p: Property)
    requires GroupOf(kind) == OfDeclarations
    ensures Picks(Visitor(kind), PartsOf(kind), p)
  {
  }

  lemma PartsOfOthers(kind: Kind, p: Property)
    requires GroupOf(kind) == OfOthers && kind != Literal
    ensures Picks(Visitor(kind), PartsOf(kind), p)
  {
  }

  lemma DecodeVisitedLiteral(props: map<Property, Item<Node>>)
    requires WellTypedLiteral(props, ByFields)
    ensures DecodeLiteral(VisitLiteral(props)) == EraseLiteral(props)
  {
  }

  /** Nothing but the wrappers and the unpicked properties is lost on the way to the shape. */
  lemma {:induction false} DecodeVisited(n: Node)
    requires WellTyped(n, ByFields)
    ensures ShapeOf(n).Some? && Decode(ShapeOf(n).value, ByFields, "") == Erase(n)
    decreases n
  {
    match n.ty
    case Wrapping(_) => DecodeVisited(Inner(n).value);
    case Unsupported(_) =>
    case Supported(kind) =>
      if kind == Literal {
        DecodeVisitedLiteral(n.props);
      } else {
        VisitorsFillMessages(kind);
        DecodeVisitedProps(n, Visitor(kind), Schema(kind), ShapeOf(n).value);
      }
  }

  lemma {:induction false} DecodeVisitedProps(n: Node, visitor: map<Property, Pick>,
      schema: map<Property, FieldType>, s: Shape)
    requires Fills(visitor, schema) && WellTypedProps(n, schema, ByFields) && s.body == VisitProps(n, visitor)
    ensures DecodeBody(s, ByFields, "") == EraseProps(n, visitor.Keys)
    decreases n, 0
  {
    forall p | p in visitor && p in n.props
      ensures Present(s.body[p]) <==> Present(n.props[p])
      ensures Present(s.body[p]) ==> DecodeItem(s.body[p], ByFields, "") == EraseItem(n.props[p])
    {
      DecodeVisitedItem(n.props[p], visitor[p], schema[p]);
    }
  }

  lemma {:induction false} DecodeVisitedItem(item: Item<Node>, pick: Pick, field: FieldType)
    requires WellTypedItem(item, field, ByFields) && Agrees(pick, field)
    ensures Present(VisitItem(item, pick)) <==> Present(item)
    ensures Present(item) ==> DecodeItem(VisitItem(item, pick), ByFields, "") == EraseItem(item)
    decreases item
  {
    if item.One? {
      DecodeVisited(item.one);
    } else if item.Many? {
      DecodeVisitedAll(item.many);
    }
  }

  lemma {:induction false} DecodeVisitedAll(nodes: seq<Option<Node>>)
    requires WellTypedAll(nodes, ByFields)
    ensures DecodeAll(VisitAll(nodes), ByFields, "") == EraseAll(nodes)
    decreases nodes
  {
    if nodes != [] {
      if nodes[0].Some? {
        assert (nodes decreases to nodes[0]) && WellTypedNode(nodes[0], ByFields);
        DecodeVisited(nodes[0].value);
      }
      DecodeVisitedAll(nodes[1..]);
      assert VisitAll(nodes)[1..] == VisitAll(nodes[1..]);
    }
  }

  /** The shape of a node is the shape of its erasure. */
  lemma {:induction false} VisitErased(n: Node)
    requires WellTyped(n, ByFields)
    ensures ShapeOf(Erase(n)) == ShapeOf(n)
    decreases n
  {
    match n.ty
    case Wrapping(_) => VisitErased(Inner(n).value);
    case Unsupported(_) =>
    case Supported(kind) =>
      if kind == Literal {
        VisitErasedLiteral(n.props);
      } else {
        VisitorsFillMessages(kind);
        VisitErasedProps(n, Visitor(kind), Schema(kind));
      }
  }

  lemma {:induction false} VisitErasedProps(n: Node, visitor: map<Property, Pick>, schema: map<Property, FieldType>)
    requires Fills(visitor, schema) && WellTypedProps(n, schema, ByFields)
    ensures VisitProps(n.(props := EraseProps(n, visitor.Keys)), visitor) == VisitProps(n, visitor)
    decreases n, 0
  {
    forall p | p in visitor && p in n.props
      ensures VisitItem(n.props[p], visitor[p]) ==
        if Present(n.props[p]) then VisitItem(EraseItem(n.props[p]), visitor[p]) else Absent
    {
      VisitErasedItem(n.props[p], visitor[p], schema[p]);
    }
  }

  lemma VisitErasedLiteral(props: map<Property, Item<Node>>)
    requires WellTypedLiteral(props, ByFields)
    ensures VisitLiteral(EraseLiteral(props)) == VisitLiteral(props)
  {
  }

  lemma {:induction false} VisitErasedItem(item: Item<Node>, pick: Pick, field: FieldType)
    requires WellTypedItem(item, field, ByFields) && Agrees(pick, field)
    ensures VisitItem(item, pick) == if Present(item) then VisitItem(EraseItem(item), pick) else Absent
    decreases item
  {
    if item.One? {
      VisitErased(item.one);
    } else if item.Many? {
      VisitErasedAll(item.many);
    }
  }

  lemma {:induction false} VisitErasedAll(nodes: seq<Option<Node>>)
    requires WellTypedAll(nodes, ByFields)
    ensures VisitAll(EraseAll(nodes)) == VisitAll(nodes)
    decreases nodes
  {
    if nodes != [] {
      if nodes[0].Some? {
        assert (nodes decreases to nodes[0]) && WellTypedNode(nodes[0], ByFields);
        VisitErased(nodes[0].value);
      }
      VisitErasedAll(nodes[1..]);
      assert EraseAll(nodes)[1..] == EraseAll(nodes[1..]);
    }
  }

  /** Two trees have the same shape exactly when they are the same program as it runs. */
  lemma SameShapeIff(a: Node, b: Node)
    requires WellTyped(a, ByFields) && WellTyped(b, ByFields)
    ensures ShapeOf(a) == ShapeOf(b) <==> Erase(a) == Erase(b)
  {
    DecodeVisited(a);
    DecodeVisited(b);
    VisitErased(a);
    VisitErased(b);
  }

  /** No wrapper anywhere in a shape. */
  ghost predicate Runtime(s: Shape) {
    && s.member.Member? && !s.member.ty.Wrapping?
    && forall p :: p in s.body ==> RuntimeItem(s.body[p])
  }

  ghost predicate RuntimeItem(item: Item<Shape>) {
    match item
    case One(s) => Runtime(s)
    case Many(shapes) => forall i :: 0 <= i < |shapes| ==> shapes[i].Some? ==> Runtime(shapes[i].value)
    case Boxed(shapes) => forall i :: 0 <= i < |shapes| ==> shapes[i].Some? ==> Runtime(shapes[i].value)
    case _ => true
  }

  lemma {:induction false} VisitedIsRuntime(n: Node)
    ensures ShapeOf(n).Some? ==> Runtime(ShapeOf(n).value)
    decreases n
  {
    match n.ty
    case Wrapping(_) =>
      if Inner(n).Some? {
        VisitedIsRuntime(Inner(n).value);
      }
    case Unsupported(_) =>
    case Supported(kind) =>
      if kind != Literal {
        var visitor := Visitor(kind);
        forall p | p in visitor && p in n.props ensures RuntimeItem(VisitItem(n.props[p], visitor[p])) {
          VisitedItemIsRuntime(n.props[p], visitor[p]);
        }
      }
  }

  lemma {:induction false} VisitedItemIsRuntime(item: Item<Node>, pick: Pick)
    ensures RuntimeItem(VisitItem(item, pick))
    decreases item
  {
    if item.One? {
      VisitedIsRuntime(item.one);
    } else if item.Many? {
      forall i | 0 <= i < |item.many| && item.many[i].Some?
        ensures ShapeOf(item.many[i].value).Some? ==> Runtime(ShapeOf(item.many[i].value).value)
      {
        assert item.many decreases to item.many[i];
        VisitedIsRuntime(item.many[i].value);
      }
    }
  }
}
