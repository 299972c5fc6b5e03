/** Moving the tree of an embedded snippet to its place in the whole file.
    `packages/jsts/src/embedded/builder/patch.ts` and `packages/jsts/src/linter/visitors/visitor.ts`. */
module EmbeddedPatch {
  import opened Common
  import opened Paths
  import opened LineTable

  datatype SourceLocation = SourceLocation(start: Position, end: Position)

  /** A node, comment or token; both fields are assigned in place. */
  class Located {
    var loc: Option<SourceLocation>
    var range: Option<(nat, nat)>
  }

  /** A node with its children as `childrenOf` lists them. Nothing forbids that a node occurs twice. */
  datatype Tree = Tree(node: Located, children: seq<Tree>)

  function Preorder(t: Tree): seq<Located>
    decreases t, 1
  {
    [t.node] + PreorderOfAll(t.children)
  }

  function PreorderOfAll(ts: seq<Tree>): seq<Located>
    decreases ts, 0
  {
    if ts == [] then [] else Preorder(ts[0]) + PreorderOfAll(ts[1..])
  }

  predicate IsPath(t: Tree, path: Path)
    decreases |path|
  {
    path == [] || (path[0] < |t.children| && IsPath(t.children[path[0]], path[1..]))
  }

  function At(t: Tree, path: Path): Located
    requires IsPath(t, path)
    decreases |path|
  {
    if path == [] then t.node else At(t.children[path[0]], path[1..])
  }

  /** The node of the tree at that place. */
  predicate StandsIn(t: Tree, f: Found<Located>) {
    IsPath(t, f.path) && f.value == At(t, f.path)
  }

  function Places(t: Tree): seq<Found<Located>>
    decreases t, 1
  {
    [Found([], t.node)] + Spread(PlacesOfAll(t.children), 0)
  }

  function PlacesOfAll(ts: seq<Tree>): (r: seq<seq<Found<Located>>>)
    ensures |r| == |ts| && forall i :: 0 <= i < |ts| ==> r[i] == Places(ts[i])
    decreases ts, 0
  {
    if ts == [] then [] else [Places(ts[0])] + PlacesOfAll(ts[1..])
  }

  lemma {:induction false} PlacesHoldNodes(t: Tree)
    ensures Values(Places(t)) == Preorder(t)
    decreases t, 1
  {
    ValuesAppend([Found([], t.node)], Spread(PlacesOfAll(t.children), 0));
    ValuesSpread(PlacesOfAll(t.children), 0);
    AllPlacesHoldNodes(t.children);
    assert Values([Found([], t.node)]) == [t.node];
  }

  lemma {:induction false} AllPlacesHoldNodes(ts: seq<Tree>)
    ensures Flat(AllValues(PlacesOfAll(ts))) == PreorderOfAll(ts)
    decreases ts, 0
  {
    if ts != [] {
      PlacesHoldNodes(ts[0]);
      AllPlacesHoldNodes(ts[1..]);
      assert PlacesOfAll(ts)[1..] == PlacesOfAll(ts[1..]);
    }
  }

  lemma {:induction false} PlacesInOrder(t: Tree)
    ensures InOrder(Places(t), false)
    decreases t
  {
    forall i | 0 <= i < |t.children| ensures InOrder(PlacesOfAll(t.children)[i], false) {
      PlacesInOrder(t.children[i]);
    }
    SpreadInOrder(PlacesOfAll(t.children), 0, false);
    ParentFirst([Found([], t.node)], Spread(PlacesOfAll(t.children), 0));
  }

  lemma {:induction false} PlacesAreInTree(t: Tree, f: Found<Located>)
    ensures f in Places(t) <==> StandsIn(t, f)
    decreases t
  {
    MembersWithOwn([Found([], t.node)], PlacesOfAll(t.children), f);
    if f.path != [] && f.path[0] < |t.children| {
      PlacesAreInTree(t.children[f.path[0]], Found(f.path[1..], f.value));
      assert StandsIn(t, f) <==> StandsIn(t.children[f.path[0]], Found(f.path[1..], f.value));
    }
  }

  /** Preorder meets the node of every place once, parents first and children in order. */
  lemma PreorderPlaces(t: Tree) returns (places: seq<Found<Located>>)
    ensures Preorder(t) == Values(places) && InOrder(places, false)
    ensures forall f :: f in places <==> StandsIn(t, f)
  {
    places := Places(t);
    PlacesHoldNodes(t);
    PlacesInOrder(t);
    forall f ensures f in places <==> StandsIn(t, f) {
      PlacesAreInTree(t, f);
    }
  }

  function Reversed(ts: seq<Tree>): seq<Tree> {
    if ts == [] then [] else Reversed(ts[1..]) + [ts[0]]
  }

  /** The nodes still to come, for a stack whose top is its last element. */
  function Pending(stack: seq<Tree>): seq<Located> {
    if stack == [] then [] else Preorder(stack[|stack| - 1]) + Pending(stack[..|stack| - 1])
  }

  lemma {:induction false} PendingReversed(stack: seq<Tree>, ts: seq<Tree>)
    ensures Pending(stack + Reversed(ts)) == PreorderOfAll(ts) + Pending(stack)
    decreases ts
  {
    if ts == [] {
      assert stack + [] == stack;
    } else {
      var all := stack + Reversed(ts);
      assert all == (stack + Reversed(ts[1..])) + [ts[0]];
      assert all[|all| - 1] == ts[0] && all[..|all| - 1] == stack + Reversed(ts[1..]);
      PendingReversed(stack, ts[1..]);
    }
  }

  /** The explicit-stack traversal. `visited` are the arguments of the callback, in the order of the calls; a
      callback never changes which children a node has. */
  method Visit(ast: Tree) returns (visited: seq<Located>)
    ensures visited == Preorder(ast)
  {
    visited := [];
    var stack := [ast];
    assert stack[..0] == [];
    while stack != []
      invariant visited + Pending(stack) == Preorder(ast)
      decreases |Pending(stack)|
    {
      var t := stack[|stack| - 1];
      stack := stack[..|stack| - 1];
      visited := visited + [t.node];
      PendingReversed(stack, t.children);
      stack := stack + Reversed(t.children);
    }
  }

  /** The fields of a patched source that ESLint reads: the text, the line starts and the lines made from both. */
  datatype File = File(text: Text, starts: seq<nat>)
  {
    ghost predicate Valid() {
      IsTable(starts)
    }

    /** ESLint's `getLocFromIndex`: the end of the text gets its position from the lines, not from the table. */
    function GetLocFromIndex(offset: nat): Position
      requires Valid()
    {
      if offset == |text| then
        var lines := LinesOf(text, starts);
        Position(|lines|, |lines[|lines| - 1]|)
      else LineTable.GetLocFromIndex(starts, offset)
    }
  }

  /** An offset of a file is located on its line of the table, but for the end of a file with U+2028 or U+2029. */
  lemma LocatedIff(file: File, offset: nat)
    requires file.starts == LineStarts(file.text) && file.Valid() && offset <= |file.text|
    ensures IsLoc(file.starts, offset, file.GetLocFromIndex(offset)) <==>
      offset < |file.text| || Separators(file.text, 0) == 0
  {
    if offset == |file.text| {
      var starts := file.starts;
      StartsInText(file.text, |starts| - 1);
      assert OnLine(starts, offset, |starts|);
      LinesFitTable(file.text);
      var p := file.GetLocFromIndex(offset);
      if OnLine(starts, offset, p.line) {
        LineIsUnique(starts, offset, p.line, |starts|);
      }
    }
  }

  function LocOf(file: File, range: (nat, nat)): SourceLocation
    requires file.Valid()
  {
    SourceLocation(file.GetLocFromIndex(range.0), file.GetLocFromIndex(range.1))
  }

  /** The two fields of an object. */
  datatype Fields = Fields(loc: Option<SourceLocation>, range: Option<(nat, nat)>)

  ghost function FieldsOf(n: Located): Fields
    reads n
  {
    Fields(n.loc, n.range)
  }

  function FixOnce(f: Fields, file: File, offset: nat): Fields
    requires file.Valid()
  {
    match f.range
    case None => f
    case Some((s, e)) =>
      var range := (s + offset, e + offset);
      Fields(if f.loc.Some? then Some(LocOf(file, range)) else None, Some(range))
  }

  method FixNodeLocation(n: Located, file: File, offset: nat)
    requires file.Valid()
    modifies n
    ensures FieldsOf(n) == FixOnce(old(FieldsOf(n)), file, offset)
  {
    if n.loc.Some? && n.range.Some? {
      n.loc := Some(LocOf(file, (n.range.value.0 + offset, n.range.value.1 + offset)));
    }
    if n.range.Some? {
      var (s, e) := n.range.value;
      n.range := Some((s + offset, e + offset));
    }
  }

  /** What becomes of the fields of `n` when the objects `ns` are fixed one after the other. */
  function Passed(f: Fields, n: Located, ns: seq<Located>, file: File, offset: nat): Fields
    requires file.Valid()
    decreases |ns|
  {
    if ns == [] then f
    else Passed(if ns[0] == n then FixOnce(f, file, offset) else f, n, ns[1..], file, offset)
  }

  lemma {:induction false} PassedAppend(f: Fields, n: Located, a: seq<Located>, b: seq<Located>, file: File,
      offset: nat)
    requires file.Valid()
    ensures Passed(Passed(f, n, a, file, offset), n, b, file, offset) == Passed(f, n, a + b, file, offset)
    decreases |a|
  {
    if a == [] {
      assert a + b == b;
    } else {
      assert (a + b)[1..] == a[1..] + b;
      PassedAppend(if a[0] == n then FixOnce(f, file, offset) else f, n, a[1..], b, file, offset);
    }
  }

  /** One of the loops that fix a list. */
  method FixAll(ns: seq<Located>, file: File, offset: nat)
    requires file.Valid()
    modifies ns
    ensures forall n: Located :: old(allocated(n)) ==> FieldsOf(n) == Passed(old(FieldsOf(n)), n, ns, file, offset)
  {
    for i := 0 to |ns|
      invariant forall n: Located :: old(allocated(n)) ==>
        Passed(FieldsOf(n), n, ns[i..], file, offset) == Passed(old(FieldsOf(n)), n, ns, file, offset)
    {
      assert ns[i..][0] == ns[i] && ns[i..][1..] == ns[i + 1..];
      FixNodeLocation(ns[i], file, offset);
    }
  }

  /** Everything that `patchASTLocations` passes over. */
  function AllLocated(ast: Tree, comments: seq<Located>, tokens: seq<Located>): seq<Located> {
    Preorder(ast) + comments + tokens
  }

  lemma PassedThrice(f: Fields, n: Located, a: seq<Located>, b: seq<Located>, c: seq<Located>, file: File,
      offset: nat)
    requires file.Valid()
    ensures Passed(Passed(Passed(f, n, a, file, offset), n, b, file, offset), n, c, file, offset)
      == Passed(f, n, a + b + c, file, offset)
  {
    PassedAppend(f, n, a, b, file, offset);
    PassedAppend(f, n, a + b, c, file, offset);
  }

  /** Nodes in traversal order, then comments, then tokens are fixed; no other object is touched. */
  method PatchASTLocations(ast: Tree, comments: seq<Located>, tokens: seq<Located>, file: File, offset: nat)
    requires file.Valid()
    modifies Preorder(ast), comments, tokens
    ensures forall n: Located :: old(allocated(n)) ==>
      FieldsOf(n) == Passed(old(FieldsOf(n)), n, AllLocated(ast, comments, tokens), file, offset)
  {
    var nodes := Visit(ast);
    forall f: Fields, n: Located { PassedThrice(f, n, nodes, comments, tokens, file, offset); }
    FixAll(nodes, file, offset);
    FixAll(comments, file, offset);
    FixAll(tokens, file, offset);
  }

  /** How often `n` occurs. */
  function Count(ns: seq<Located>, n: Located): (r: nat)
    ensures r == 0 <==> n !in ns
  {
    if ns == [] then 0 else (if ns[0] == n then 1 else 0) + Count(ns[1..], n)
  }

  ghost predicate OnlyAt(ns: seq<Located>, n: Located, i: int) {
    0 <= i < |ns| && ns[i] == n && forall j :: 0 <= j < |ns| && ns[j] == n ==> j == i
  }

  ghost predicate OccursOnce(ns: seq<Located>, n: Located) {
    exists i :: OnlyAt(ns, n, i)
  }

  lemma {:induction false} CountOneIff(ns: seq<Located>, n: Located)
    ensures Count(ns, n) == 1 <==> OccursOnce(ns, n)
  {
    if ns != [] {
      CountOneIff(ns[1..], n);
      if ns[0] == n {
        assert n !in ns[1..] <==> OnlyAt(ns, n, 0);
      } else {
        if i :| OnlyAt(ns[1..], n, i) {
          assert OnlyAt(ns, n, i + 1);
        }
        if i :| OnlyAt(ns, n, i) {
          assert OnlyAt(ns[1..], n, i - 1);
        }
      }
    }
  }

  /** The outcome of fixing an object `times` times. */
  function Fixed(f: Fields, file: File, offset: nat, times: nat): Fields
    requires file.Valid()
    decreases times
  {
    if times == 0 then f else Fixed(FixOnce(f, file, offset), file, offset, times - 1)
  }

  /** An object is fixed as often as the passes meet it. */
  lemma {:induction false} PassedIsFixed(f: Fields, n: Located, ns: seq<Located>, file: File, offset: nat)
    requires file.Valid()
    ensures Passed(f, n, ns, file, offset) == Fixed(f, file, offset, Count(ns, n))
    decreases |ns|
  {
    if ns != [] {
      PassedIsFixed(if ns[0] == n then FixOnce(f, file, offset) else f, n, ns[1..], file, offset);
    }
  }

  /** A range is moved by `offset` each time, and the location always follows the range. */
  lemma {:induction false} FixedMoves(f: Fields, file: File, offset: nat, times: nat)
    requires file.Valid() && f.range.Some?
    ensures var f' := Fixed(f, file, offset, times);
            && f'.range == Some((f.range.value.0 + times * offset, f.range.value.1 + times * offset))
            && f'.loc == if f.loc.Some? && times > 0 then Some(LocOf(file, f'.range.value)) else f.loc
    decreases times
  {
    if times > 0 {
      FixedMoves(FixOnce(f, file, offset), file, offset, times - 1);
      assert times * offset == (times - 1) * offset + offset;
    }
  }

  /** An object ends up exactly `offset` further on if and only if the passes meet it exactly once. */
  lemma MovedByOffsetIff(f: Fields, file: File, offset: nat, times: nat)
    requires file.Valid() && offset > 0 && f.range.Some?
    ensures Fixed(f, file, offset, times).range == Some((f.range.value.0 + offset, f.range.value.1 + offset)) <==>
      times == 1
  {
    FixedMoves(f, file, offset, times);
    if times > 1 {
      assert times * offset == offset + (times - 1) * offset && (times - 1) * offset >= offset > 0;
    }
  }

  /** With the snippet `code` at `offset` of the file, a node met once covers in the file the text it covered in the
      snippet, and its location is that of its new range. */
  lemma PatchedNodeCoversSameText(code: Text, file: File, offset: nat, f: Fields)
    requires file.Valid() && offset + |code| <= |file.text| && file.text[offset..offset + |code|] == code
    requires f.range.Some? && f.range.value.0 <= f.range.value.1 <= |code|
    ensures var f' := Fixed(f, file, offset, 1);
            var (s, e) := f.range.value;
            && f'.range == Some((s + offset, e + offset))
            && file.text[s + offset..e + offset] == code[s..e]
            && f'.loc == if f.loc.Some? then Some(LocOf(file, (s + offset, e + offset))) else None
  {
    var (s, e) := f.range.value;
    FixedMoves(f, file, offset, 1);
    forall i | 0 <= i < e - s ensures file.text[s + offset..e + offset][i] == code[s..e][i] {
      assert file.text[offset..offset + |code|][s + i] == code[s + i];
    }
  }

  predicate InSnippet(range: Option<(nat, nat)>, length: nat) {
    range.Some? && range.value.0 <= range.value.1 <= length
  }

  /** A position is right unless it is that of the end of a file with U+2028 or U+2029, and then it is wrong. */
  ghost predicate RightBeforeEnd(file: File, offset: nat, p: Position) {
    IsLoc(file.starts, offset, p) <==> offset < |file.text| || Separators(file.text, 0) == 0
  }

  ghost predicate Moved(before: Fields, after: Fields, code: Text, file: File, offset: nat)
    requires InSnippet(before.range, |code|) && offset + |code| <= |file.text|
  {
    var (s, e) := before.range.value;
    && after.range == Some((s + offset, e + offset))
    && file.text[s + offset..e + offset] == code[s..e]
    && (before.loc.Some? <==> after.loc.Some?)
    && (after.loc.Some? ==>
          && RightBeforeEnd(file, s + offset, after.loc.value.start)
          && RightBeforeEnd(file, e + offset, after.loc.value.end))
  }

  lemma FixedIsMoved(code: Text, file: File, offset: nat, f: Fields)
    requires file.starts == LineStarts(file.text) && file.Valid()
    requires offset + |code| <= |file.text| && file.text[offset..offset + |code|] == code && InSnippet(f.range, |code|)
    ensures Moved(f, Fixed(f, file, offset, 1), code, file, offset)
  {
    PatchedNodeCoversSameText(code, file, offset, f);
    LocatedIff(file, f.range.value.0 + offset);
    LocatedIff(file, f.range.value.1 + offset);
  }

  /** Relocation of a whole snippet: every node, comment and token that occurs once moves by `offset`, covers in the
      file the text it covered in the snippet and is located by its new range, save for the end of a file with U+2028
      or U+2029; what does not occur stays as it was. */
  method PatchSnippet(ast: Tree, comments: seq<Located>, tokens: seq<Located>, text: Text, code: Text, offset: nat)
    returns (ghost nodes: seq<Found<Located>>)
    requires offset + |code| <= |text| && text[offset..offset + |code|] == code
    modifies Preorder(ast), comments, tokens
    ensures InOrder(nodes, false) && forall f :: f in nodes <==> StandsIn(ast, f)
    ensures forall n: Located :: old(allocated(n)) && n !in Values(nodes) + comments + tokens ==>
      FieldsOf(n) == old(FieldsOf(n))
    ensures forall n: Located ::
      old(allocated(n)) && OccursOnce(Values(nodes) + comments + tokens, n) && InSnippet(old(n.range), |code|) ==>
        Moved(old(FieldsOf(n)), FieldsOf(n), code, File(text, LineStarts(text)), offset)
  {
    nodes := PreorderPlaces(ast);
    var starts := ComputeLineStarts(text);
    var file := File(text, starts);
    ghost var all := AllLocated(ast, comments, tokens);
    PatchASTLocations(ast, comments, tokens, file, offset);
    forall n: Located | old(allocated(n))
      ensures FieldsOf(n) == Fixed(old(FieldsOf(n)), file, offset, Count(all, n))
    {
      PassedIsFixed(old(FieldsOf(n)), n, all, file, offset);
    }
    forall n: Located | old(allocated(n)) && OccursOnce(all, n) && InSnippet(old(n.range), |code|)
      ensures Moved(old(FieldsOf(n)), FieldsOf(n), code, file, offset)
    {
      CountOneIff(all, n);
      FixedIsMoved(code, file, offset, old(FieldsOf(n)));
    }
  }
}
