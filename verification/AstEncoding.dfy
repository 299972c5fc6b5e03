/** What the protobuf encoder keeps of the shapes of `packages/jsts/src/parsers/ast.ts`: what the schema in
    `packages/jsts/src/parsers/estree.proto` names. */
module AstEncoding {
  import opened Common
  import opened AstShape

  /** The encoder writes a body only under a member the schema knows, and that has a number. */
  predicate InSchema(member: Member) {
    member.Member? && member.ty.Supported? && NodeTypeEnum(member.ty).Some?
  }

  /** The kind that the schema has under a number. */
  function KindOf(code: int): Option<Kind> {
    match code
    case 0 => Some(Program)
    case 2 => Some(Identifier)
    case 7 => Some(ThisExpression)
    case 14 => Some(AssignmentPattern)
    case 16 => Some(ArrayPattern)
    case 22 => Some(MemberExpression)
    case 25 => Some(BlockStatement)
    case 26 => Some(ConditionalExpression)
    case 28 => Some(ClassBody)
    case 31 => Some(MethodDefinition)
    case 33 => Some(CallExpression)
    case 34 => Some(BinaryExpression)
    case 36 => Some(AssignmentExpression)
    case 38 => Some(ArrayExpression)
    case 39 => Some(ClassDeclaration)
    case 40 => Some(FunctionDeclaration)
    case 43 => Some(VariableDeclaration)
    case 44 => Some(VariableDeclarator)
    case 54 => Some(TryStatement)
    case 55 => Some(CatchClause)
    case 57 => Some(SwitchStatement)
    case 58 => Some(SwitchCase)
    case 59 => Some(IfStatement)
    case 63 => Some(ReturnStatement)
    case 67 => Some(ExpressionStatement)
    case 68 => Some(Literal)
    case 70 => Some(FunctionExpression)
    case _ => None
  }

  /** The number in a shape tells the kind of its node; all nodes that the schema does not know share one number. */
  lemma CodeTellsKind(n: Node)
    requires ShapeOf(n).Some?
    ensures var s := ShapeOf(n).value;
            && (InSchema(s.member) ==> KindOf(s.code) == Some(s.member.ty.kind))
            && (!InSchema(s.member) ==> s.code == 1000 && KindOf(1000) == None)
    decreases n
  {
    if n.ty.Wrapping? {
      CodeTellsKind(Inner(n).value);
    }
  }

  /** Encoding a shape and decoding the bytes: fields outside the schema vanish, numbers become 32-bit integers. */
  function Transmit(s: Shape): Shape {
    if InSchema(s.member) then s.(body := TransmitBody(s, Schema(s.member.ty.kind)))
    else Shape(s.code, s.loc, Unset, map[])
  }

  function TransmitBody(s: Shape, schema: map<Property, FieldType>): map<Property, Item<Shape>> {
    map p | p in s.body && p in schema && Present(s.body[p]) :: TransmitItem(s.body[p], schema[p])
  }

  function TransmitItem(item: Item<Shape>, field: FieldType): (r: Item<Shape>)
    ensures Present(r) <==> Present(item)
  {
    match item
    case One(s) => One(Transmit(s))
    case Many(shapes) => Many(TransmitAll(shapes))
    case Boxed(shapes) => Boxed(TransmitAll(shapes))
    case Number(r) => if field == Int32Field then Number(ToInt32(r) as real) else item
    case _ => item
  }

  function TransmitAll(shapes: seq<Option<Shape>>): seq<Option<Shape>> {
    if shapes == [] then [] else [TransmitNode(shapes[0])] + TransmitAll(shapes[1..])
  }

  function TransmitNode(shape: Option<Shape>): Option<Shape> {
    match shape
    case None => None
    case Some(s) => Some(Transmit(s))
  }

  /** The low 32 bits of the integral part, as a signed number. */
  function ToInt32(r: real): int {
    var low := r.Floor % 0x1_0000_0000;
    if low < 0x8000_0000 then low else low - 0x1_0000_0000
  }

  lemma ToInt32Exact(r: real)
    requires r >= 0.0
    ensures ToInt32(r) as real == r <==> r == r.Floor as real && r < 2147483648.0
  {
  }

  /** Otherwise it is the one number of its range with the same low bits. */
  lemma ToInt32LowBits(r: real, n: int)
    requires -0x8000_0000 <= n < 0x8000_0000
    ensures n == ToInt32(r) <==> n % 0x1_0000_0000 == r.Floor % 0x1_0000_0000
  {
  }

  /** The literal fields after transmission. */
  function TransmitLiteral(body: map<Property, Item<Shape>>): map<Property, Item<Shape>> {
    map p | p in body && p in Schema(Literal) && Present(body[p]) :: TransmitItem(body[p], Schema(Literal)[p])
  }

  /** Field by field: what arrives of each literal. A big integer arrives as text alone, for the field of the schema is
      never filled, and a number exactly when it is a 32-bit integer. */
  lemma LiteralFields(props: map<Property, Item<Node>>)
    requires WellTypedLiteral(props, ByFields)
    ensures var sent, raw := TransmitLiteral(VisitLiteral(props)), Text(props[Raw].text);
            if Bigint in props then sent == map[Raw := raw]
            else if Pattern in props then
              sent == map[Raw := raw, Pattern := Text(props[Pattern].text), Flags := Text(props[Flags].text)]
            else
              var value := Get(props, Value);
              if value.Text? then sent == map[Raw := raw, ValueString := Text(value.text)]
              else if value.Flag? then sent == map[Raw := raw, ValueBoolean := Flag(value.flag)]
              else if !value.Number? then sent == map[Raw := raw]
              else
                && sent == map[Raw := raw, ValueNumber := sent[ValueNumber]]
                && (sent[ValueNumber] == Number(value.number) <==>
                      value.number == value.number.Floor as real && value.number < 2147483648.0)
  {
    var value := Get(props, Value);
    if Bigint !in props && Pattern !in props && value.Number? {
      ToInt32Exact(value.number);
    }
  }

  /** A tree as it arrives: nodes whose type the schema does not know have lost type and content, and are all read as
      nodes of type `unknown`. */
  function Arrived(n: Node, unknown: string): Node
    decreases n, 1
  {
    match n.ty
    case Wrapping(_) =>
      (match Inner(n)
       case None => n
       case Some(inner) => Arrived(inner, unknown))
    case Unsupported(_) => Node(Unsupported(unknown), n.loc, map[])
    case Supported(kind) =>
      if kind == Literal then n.(props := EraseLiteral(n.props))
      else if kind == TSExportAssignment then Node(Unsupported(unknown), n.loc, map[])
      else n.(props := ArrivedProps(n, Visitor(kind).Keys, unknown))
  }

  function ArrivedProps(n: Node, kept: set<Property>, unknown: string): map<Property, Item<Node>>
    decreases n, 0
  {
    map p | p in kept && p in n.props && Present(n.props[p]) :: ArrivedItem(n.props[p], unknown)
  }

  function ArrivedItem(item: Item<Node>, unknown: string): Item<Node> {
    match item
    case One(n) => One(Arrived(n, unknown))
    case Many(nodes) => Many(ArrivedAll(nodes, unknown))
    case _ => item
  }

  function ArrivedAll(nodes: seq<Option<Node>>, unknown: string): (r: seq<Option<Node>>)
    ensures |r| == |nodes|
    ensures forall i :: 0 <= i < |nodes| ==> r[i] == ArrivedNode(nodes[i], unknown)
  {
    if nodes == [] then [] else [ArrivedNode(nodes[0], unknown)] + ArrivedAll(nodes[1..], unknown)
  }

  function ArrivedNode(node: Option<Node>, unknown: string): Option<Node> {
    match node
    case None => None
    case Some(n) => Some(Arrived(n, unknown))
  }

  /** The bytes of a tree. */
  function Encoding(n: Node): Option<Shape> {
    match ShapeOf(n)
    case None => None
    case Some(s) => Some(Transmit(s))
  }

  /** What is wrapped is encoded as it stands, whatever is around it. */
  lemma {:induction false} UnwrappedBytes(n: Node, e: Node, depth: nat, unknown: string)
    requires WrapsDeep(n, e, depth)
    ensures Encoding(n) == Encoding(e) && Arrived(n, unknown) == Arrived(e, unknown)
    decreases depth
  {
    if depth > 0 {
      var inner :| Wraps(n, inner) && WrapsDeep(inner, e, depth - 1);
      UnwrappedBytes(inner, e, depth - 1, unknown);
    }
  }

  /** One reader of the bytes, which reads literals by their text, finds the tree as it arrives. */
  lemma {:induction false} DecodeEncoded(n: Node, reader: Reader, unknown: string)
    requires WellTyped(n, reader) && reader.BySpelling?
    ensures Encoding(n).Some? && Decode(Encoding(n).value, reader, unknown) == Arrived(n, unknown)
    decreases n
  {
    match n.ty
    case Wrapping(_) => DecodeEncoded(Inner(n).value, reader, unknown);
    case Unsupported(_) =>
    case Supported(kind) =>
      if kind == Literal {
        EncodedLiteral(n, reader, unknown);
      } else if kind != TSExportAssignment {
        VisitorsFillMessages(kind);
        EncodingOf(n);
        DecodeEncodedProps(n, Visitor(kind), Schema(kind), Encoding(n).value, reader, unknown);
      }
  }

  /** The bytes of a node whose message the schema has. */
  lemma EncodingOf(n: Node)
    requires n.ty.Supported? && n.ty.kind != Literal && n.ty.kind != TSExportAssignment
    ensures Visitor(n.ty.kind).Keys == Schema(n.ty.kind).Keys
    ensures Encoding(n) ==
      Some(Shape(Code(n.ty), n.loc, Member(n.ty), EncodedProps(n, Visitor(n.ty.kind), Schema(n.ty.kind))))
  {
    VisitorsFillMessages(n.ty.kind);
    assert InSchema(Member(n.ty));
    SentBody(n, Visitor(n.ty.kind), Schema(n.ty.kind), ShapeOf(n).value);
  }

  lemma EncodedLiteral(n: Node, reader: Reader, unknown: string)
    requires n.ty == Supported(Literal) && WellTypedLiteral(n.props, reader) && reader.BySpelling?
    ensures Encoding(n).Some? && Decode(Encoding(n).value, reader, unknown) == Arrived(n, unknown)
  {
    LiteralFields(n.props);
    var s := ShapeOf(n).value;
    assert InSchema(s.member) && s.body == VisitLiteral(n.props);
    assert TransmitBody(s, Schema(Literal)) == TransmitLiteral(s.body);
  }

  /** A property as it is encoded. */
  function Encoded(item: Item<Node>, pick: Pick, field: FieldType): Item<Shape> {
    TransmitItem(VisitItem(item, pick), field)
  }

  function EncodedProps(n: Node, visitor: map<Property, Pick>, schema: map<Property, FieldType>)
    : map<Property, Item<Shape>>
    requires visitor.Keys == schema.Keys
  {
    map p | p in visitor && p in n.props && Present(VisitItem(n.props[p], visitor[p])) ::
      Encoded(n.props[p], visitor[p], schema[p])
  }

  lemma SentBody(n: Node, visitor: map<Property, Pick>, schema: map<Property, FieldType>, s: Shape)
    requires visitor.Keys == schema.Keys && s.body == VisitProps(n, visitor)
    ensures TransmitBody(s, schema) == EncodedProps(n, visitor, schema)
  {
  }

  lemma {:induction false} DecodeEncodedProps(n: Node, visitor: map<Property, Pick>, schema: map<Property, FieldType>,
      sent: Shape, reader: Reader, unknown: string)
    requires Fills(visitor, schema) && WellTypedProps(n, schema, reader) && reader.BySpelling?
    requires sent.body == EncodedProps(n, visitor, schema)
    ensures DecodeBody(sent, reader, unknown) == ArrivedProps(n, visitor.Keys, unknown)
    decreases n, 0
  {
    forall p | p in visitor && p in n.props
      ensures Present(VisitItem(n.props[p], visitor[p])) <==> Present(n.props[p])
      ensures Present(n.props[p]) ==>
        DecodeItem(Encoded(n.props[p], visitor[p], schema[p]), reader, unknown) == ArrivedItem(n.props[p], unknown)
    {
      DecodeEncodedItem(n.props[p], visitor[p], schema[p], reader, unknown);
    }
    assert forall p :: p in sent.body ==> Present(sent.body[p]);
  }

  lemma {:induction false} DecodeEncodedItem(item: Item<Node>, pick: Pick, field: FieldType, reader: Reader,
      unknown: string)
    requires WellTypedItem(item, field, reader) && Agrees(pick, field) && reader.BySpelling?
    ensures Present(VisitItem(item, pick)) <==> Present(item)
    ensures Present(item) ==> DecodeItem(Encoded(item, pick, field), reader, unknown) == ArrivedItem(item, unknown)
    decreases item
  {
    if item.One? {
      DecodeEncoded(item.one, reader, unknown);
    } else if item.Many? {
      DecodeEncodedAll(item.many, reader, unknown);
      EncodedList(item.many, pick, field);
    }
  }

  lemma EncodedList(nodes: seq<Option<Node>>, pick: Pick, field: FieldType)
    requires pick == VisitMany || pick == VisitElements
    ensures Encoded(Many(nodes), pick, field) ==
      if pick == VisitMany then Many(TransmitAll(VisitAll(nodes))) else Boxed(TransmitAll(VisitAll(nodes)))
  {
  }

  lemma {:induction false} DecodeEncodedAll(nodes: seq<Option<Node>>, reader: Reader, unknown: string)
    requires WellTypedAll(nodes, reader) && reader.BySpelling?
    ensures DecodeAll(TransmitAll(VisitAll(nodes)), reader, unknown) == ArrivedAll(nodes, unknown)
    decreases nodes
  {
    if nodes != [] {
      if nodes[0].Some? {
        assert (nodes decreases to nodes[0]) && WellTypedNode(nodes[0], reader);
        DecodeEncoded(nodes[0].value, reader, unknown);
      }
      DecodeEncodedAll(nodes[1..], reader, unknown);
      EncodedCons(nodes);
    }
  }

  lemma EncodedCons(nodes: seq<Option<Node>>)
    requires nodes != []
    ensures TransmitAll(VisitAll(nodes)) == [TransmitNode(VisitNode(nodes[0]))] + TransmitAll(VisitAll(nodes[1..]))
    ensures TransmitAll(VisitAll(nodes))[1..] == TransmitAll(VisitAll(nodes[1..]))
  {
    assert VisitAll(nodes)[1..] == VisitAll(nodes[1..]);
  }

  /** The tree as it arrives is itself a well-typed tree without wrappers, and has the same bytes. */
  lemma {:induction false} ArrivedHasSameBytes(n: Node, reader: Reader, unknown: string)
    requires WellTyped(n, reader) && unknown != ""
    ensures var a := Arrived(n, unknown);
            WellTyped(a, reader) && Erase(a) == a && Encoding(n).Some? && Encoding(a) == Encoding(n)
    decreases n
  {
    match n.ty
    case Wrapping(_) => ArrivedHasSameBytes(Inner(n).value, reader, unknown);
    case Unsupported(_) =>
    case Supported(kind) =>
      if kind == Literal {
        VisitErasedLiteral(n.props);
        assert EraseLiteral(EraseLiteral(n.props)) == EraseLiteral(n.props);
      } else if kind != TSExportAssignment {
        VisitorsFillMessages(kind);
        ArrivedPropsHaveSameBytes(n, Visitor(kind), Schema(kind), reader, unknown);
        EncodingOf(n);
        EncodingOf(Arrived(n, unknown));
      }
  }

  lemma {:induction false} ArrivedPropsHaveSameBytes(n: Node, visitor: map<Property, Pick>,
      schema: map<Property, FieldType>, reader: Reader, unknown: string)
    requires Fills(visitor, schema) && WellTypedProps(n, schema, reader) && unknown != ""
    ensures var a := n.(props := ArrivedProps(n, visitor.Keys, unknown));
            && WellTypedProps(a, schema, reader) && EraseProps(a, visitor.Keys) == a.props
            && EncodedProps(a, visitor, schema) == EncodedProps(n, visitor, schema)
    decreases n, 0
  {
    var a := n.(props := ArrivedProps(n, visitor.Keys, unknown));
    forall p | p in visitor && p in n.props
      ensures Present(VisitItem(n.props[p], visitor[p])) <==> Present(n.props[p])
      ensures Present(n.props[p]) ==>
        var item := ArrivedItem(n.props[p], unknown);
        && Present(item) && WellTypedItem(item, schema[p], reader) && EraseItem(item) == item
        && Encoded(item, visitor[p], schema[p]) == Encoded(n.props[p], visitor[p], schema[p])
        && Present(VisitItem(item, visitor[p]))
      ensures !Present(n.props[p]) ==> MayBeAbsent(schema[p])
    {
      ArrivedItemHasSameBytes(n.props[p], visitor[p], schema[p], reader, unknown);
    }
  }

  lemma {:induction false} ArrivedItemHasSameBytes(item: Item<Node>, pick: Pick, field: FieldType, reader: Reader,
      unknown: string)
    requires WellTypedItem(item, field, reader) && Agrees(pick, field) && unknown != ""
    ensures Present(VisitItem(item, pick)) <==> Present(item)
    ensures Present(item) ==>
      var a := ArrivedItem(item, unknown);
      && Present(a) && WellTypedItem(a, field, reader) && EraseItem(a) == a
      && Encoded(a, pick, field) == Encoded(item, pick, field)
      && Present(VisitItem(a, pick))
    ensures !Present(item) ==> MayBeAbsent(field)
    decreases item, 1
  {
    match pick
    case VisitOne =>
      if item.One? {
        ArrivedHasSameBytes(item.one, reader, unknown);
      }
    case Copy =>
    case _ => ArrivedListHasSameBytes(item, pick, field, reader, unknown);
  }

  lemma {:induction false} ArrivedListHasSameBytes(item: Item<Node>, pick: Pick, field: FieldType, reader: Reader,
      unknown: string)
    requires WellTypedItem(item, field, reader) && Agrees(pick, field) && unknown != "" && item.Many?
    ensures var a := ArrivedItem(item, unknown);
            && WellTypedItem(a, field, reader) && EraseItem(a) == a
            && Encoded(a, pick, field) == Encoded(item, pick, field)
    decreases item, 0
  {
    ArrivedAllHaveSameBytes(item.many, reader, unknown);
    EncodedList(item.many, pick, field);
    EncodedList(ArrivedAll(item.many, unknown), pick, field);
  }

  lemma {:induction false} ArrivedAllHaveSameBytes(nodes: seq<Option<Node>>, reader: Reader, unknown: string)
    requires WellTypedAll(nodes, reader) && unknown != ""
    ensures var a := ArrivedAll(nodes, unknown);
            && WellTypedAll(a, reader) && EraseAll(a) == a && (None in a <==> None in nodes)
            && TransmitAll(VisitAll(a)) == TransmitAll(VisitAll(nodes))
    decreases nodes
  {
    if nodes != [] {
      if nodes[0].Some? {
        assert (nodes decreases to nodes[0]) && WellTypedNode(nodes[0], reader);
        ArrivedHasSameBytes(nodes[0].value, reader, unknown);
      }
      ArrivedAllHaveSameBytes(nodes[1..], reader, unknown);
      EncodedCons(nodes);
      EncodedCons(ArrivedAll(nodes, unknown));
      assert ArrivedAll(nodes, unknown)[1..] == ArrivedAll(nodes[1..], unknown);
    }
  }

  /** Two trees have the same bytes exactly when they arrive as the same tree. */
  lemma SameEncodingIff(a: Node, b: Node, reader: Reader, unknown: string)
    requires WellTyped(a, reader) && WellTyped(b, reader) && reader.BySpelling? && unknown != ""
    ensures Encoding(a) == Encoding(b) <==> Arrived(a, unknown) == Arrived(b, unknown)
  {
    DecodeEncoded(a, reader, unknown);
    DecodeEncoded(b, reader, unknown);
    ArrivedHasSameBytes(a, reader, unknown);
    ArrivedHasSameBytes(b, reader, unknown);
  }

  /** All types of nodes are in the schema: no unsupported node and no `export =`. */
  ghost predicate Portable(n: Node)
    decreases n, 1
  {
    match n.ty
    case Wrapping(_) => Inner(n).Some? && Portable(Inner(n).value)
    case Unsupported(_) => false
    case Supported(kind) => kind != TSExportAssignment && (kind == Literal || PortableProps(n, Visitor(kind).Keys))
  }

  ghost predicate PortableProps(n: Node, picked: set<Property>)
    decreases n, 0
  {
    forall p :: p in picked && p in n.props ==> PortableItem(n.props[p])
  }

  ghost predicate PortableItem(item: Item<Node>) {
    match item
    case One(n) => Portable(n)
    case Many(nodes) => PortableAll(nodes)
    case _ => true
  }

  ghost predicate PortableAll(nodes: seq<Option<Node>>) {
    forall i :: 0 <= i < |nodes| ==> PortableNode(nodes[i])
  }

  ghost predicate PortableNode(node: Option<Node>) {
    match node
    case None => true
    case Some(n) => Portable(n)
  }

  /** Portable trees arrive as they are; in all others the name for unknown nodes shows. */
  lemma {:induction false} ArrivedIff(n: Node, reader: Reader, u1: string, u2: string)
    requires WellTyped(n, reader) && u1 != u2
    ensures Arrived(n, u1) == Arrived(n, u2) <==> Portable(n)
    ensures Portable(n) ==> Arrived(n, u1) == Erase(n)
    decreases n
  {
    match n.ty
    case Wrapping(_) => ArrivedIff(Inner(n).value, reader, u1, u2);
    case Unsupported(_) =>
    case Supported(kind) =>
      if kind != Literal && kind != TSExportAssignment {
        VisitorsFillMessages(kind);
        ArrivedPropsIff(n, Schema(kind), reader, u1, u2);
      }
  }

  lemma {:induction false} ArrivedPropsIff(n: Node, schema: map<Property, FieldType>, reader: Reader, u1: string,
      u2: string)
    requires WellTypedProps(n, schema, reader) && u1 != u2
    ensures ArrivedProps(n, schema.Keys, u1) == ArrivedProps(n, schema.Keys, u2) <==> PortableProps(n, schema.Keys)
    ensures PortableProps(n, schema.Keys) ==> ArrivedProps(n, schema.Keys, u1) == EraseProps(n, schema.Keys)
    decreases n, 0
  {
    forall p | p in schema && p in n.props
      ensures ArrivedItem(n.props[p], u1) == ArrivedItem(n.props[p], u2) <==> PortableItem(n.props[p])
      ensures PortableItem(n.props[p]) ==> ArrivedItem(n.props[p], u1) == EraseItem(n.props[p])
      ensures !Present(n.props[p]) ==> PortableItem(n.props[p])
    {
      ArrivedItemIff(n.props[p], schema[p], reader, u1, u2);
    }
    var got, want := ArrivedProps(n, schema.Keys, u1), ArrivedProps(n, schema.Keys, u2);
    assert PortableProps(n, schema.Keys) <==> forall p :: p in want ==> PortableItem(n.props[p]);
    SameWhere(got, want, set p | p in want && PortableItem(n.props[p]));
  }

  lemma SameWhere<V>(got: map<Property, V>, want: map<Property, V>, good: set<Property>)
    requires got.Keys == want.Keys
    requires forall p :: p in want ==> (got[p] == want[p] <==> p in good)
    ensures got == want <==> forall p :: p in want ==> p in good
  {
  }

  lemma {:induction false} ArrivedItemIff(item: Item<Node>, field: FieldType, reader: Reader, u1: string, u2: string)
    requires WellTypedItem(item, field, reader) && u1 != u2
    ensures ArrivedItem(item, u1) == ArrivedItem(item, u2) <==> PortableItem(item)
    ensures PortableItem(item) ==> ArrivedItem(item, u1) == EraseItem(item)
    decreases item
  {
    if item.One? {
      ArrivedIff(item.one, reader, u1, u2);
    } else if item.Many? {
      ArrivedAllIff(item.many, reader, u1, u2);
    }
  }

  lemma {:induction false} ArrivedAllIff(nodes: seq<Option<Node>>, reader: Reader, u1: string, u2: string)
    requires WellTypedAll(nodes, reader) && u1 != u2
    ensures ArrivedAll(nodes, u1) == ArrivedAll(nodes, u2) <==> PortableAll(nodes)
    ensures PortableAll(nodes) ==> ArrivedAll(nodes, u1) == EraseAll(nodes)
    decreases nodes
  {
    forall i | 0 <= i < |nodes|
      ensures ArrivedNode(nodes[i], u1) == ArrivedNode(nodes[i], u2) <==> PortableNode(nodes[i])
      ensures PortableNode(nodes[i]) ==> ArrivedNode(nodes[i], u1) == EraseNode(nodes[i])
    {
      if nodes[i].Some? {
        assert (nodes decreases to nodes[i]) && WellTypedNode(nodes[i], reader);
        ArrivedIff(nodes[i].value, reader, u1, u2);
      }
    }
    var a1, a2 := ArrivedAll(nodes, u1), ArrivedAll(nodes, u2);
    assert a1 == a2 <==> forall i :: 0 <= i < |nodes| ==> a1[i] == a2[i];
  }

  /** No other program has these bytes, whatever reads them: all trees with the bytes of `n` are the same program. */
  ghost predicate Recoverable(n: Node, reader: Reader) {
    forall b :: WellTyped(b, reader) && Encoding(b) == Encoding(n) ==> Erase(b) == Erase(n)
  }

  /** The bytes of a tree determine the program if and only if the schema knows the types of all its nodes. */
  lemma RecoverableIff(n: Node, reader: Reader)
    requires WellTyped(n, reader) && reader.BySpelling?
    ensures Recoverable(n, reader) <==> Portable(n)
  {
    var u1, u2 := "TSEnumDeclaration", "TSModuleDeclaration";
    assert u1[2] != u2[2];
    ArrivedIff(n, reader, u1, u2);
    if Portable(n) {
      forall b | WellTyped(b, reader) && Encoding(b) == Encoding(n) ensures Erase(b) == Erase(n) {
        SameEncodingIff(n, b, reader, u1);
        SameEncodingIff(n, b, reader, u2);
        ArrivedIff(b, reader, u1, u2);
      }
    } else {
      ArrivedHasSameBytes(n, reader, u1);
      ArrivedHasSameBytes(n, reader, u2);
      assert Erase(Arrived(n, u1)) != Erase(Arrived(n, u2));
    }
  }
}
