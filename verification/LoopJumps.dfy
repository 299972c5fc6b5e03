/** S135: at most one `break` or `continue` per loop.
    `packages/jsts/src/rules/S135/rule.ts`: a stack of jump targets that handlers push, fill and pop. */
module LoopJumps {
  import opened Common
  import opened Paths

  type Label = Option<string>

  datatype Kind = Break(dest: Label) | Continue(dest: Label) | Switch | Loop | Labeled(name: string) | Plain

  datatype Node = Node(id: nat, kind: Kind, children: seq<Node>)

  datatype Report = Report(loop: Node, jumps: seq<Node>)

  predicate IsJump(n: Node) { n.kind.Break? || n.kind.Continue? }

  predicate IsTarget(n: Node) { n.kind.Switch? || n.kind.Loop? || n.kind.Labeled? }

  /** The label a jump names; only jumps have one. */
  function Dest(n: Node): Label {
    match n.kind
    case Break(dest) => dest
    case Continue(dest) => dest
    case _ => None
  }

  function TargetLabel(k: Kind): Label {
    match k
    case Labeled(name) => Some(name)
    case _ => None
  }

  /** A jump below some node, with the targets between the two, outermost first. */
  datatype Occurrence = Occurrence(jump: Node, crossed: seq<Kind>)

  /** All jumps of a subtree in source order. */
  function Occurrences(n: Node): seq<Occurrence>
    decreases n, 1
  {
    if IsJump(n) then [Occurrence(n, [])] + OccurrencesOfAll(n.children)
    else if IsTarget(n) then Crossing(n.kind, OccurrencesOfAll(n.children))
    else OccurrencesOfAll(n.children)
  }

  function OccurrencesOfAll(ns: seq<Node>): seq<Occurrence>
    decreases ns, 0
  {
    if ns == [] then [] else Occurrences(ns[0]) + OccurrencesOfAll(ns[1..])
  }

  function Crossing(k: Kind, os: seq<Occurrence>): seq<Occurrence>
  {
    if os == [] then [] else [os[0].(crossed := [k] + os[0].crossed)] + Crossing(k, os[1..])
  }

  /** The jump meets a target with its own label on the way (none counts as a label of its own). */
  predicate Stopped(o: Occurrence)
  {
    exists i :: 0 <= i < |o.crossed| && TargetLabel(o.crossed[i]) == Dest(o.jump)
  }

  /** The jumps that get past the targets they cross and past further targets labelled `above`. */
  function Escaping(os: seq<Occurrence>, above: seq<Label>): seq<Node>
  {
    if os == [] then []
    else (if Stopped(os[0]) || Dest(os[0].jump) in above then [] else [os[0].jump]) + Escaping(os[1..], above)
  }

  /** The jumps a loop is charged with. */
  function JumpsOf(loop: Node): seq<Node> {
    Escaping(OccurrencesOfAll(loop.children), [])
  }

  function PostOrder(n: Node): seq<Node>
    decreases n, 1
  {
    PostOrderOfAll(n.children) + [n]
  }

  function PostOrderOfAll(ns: seq<Node>): seq<Node>
    decreases ns, 0
  {
    if ns == [] then [] else PostOrder(ns[0]) + PostOrderOfAll(ns[1..])
  }

  /** The verdict on one node: only loops are judged. */
  function Verdict(n: Node): seq<Report> {
    if n.kind.Loop? && |JumpsOf(n)| > 1 then [Report(n, JumpsOf(n))] else []
  }

  function ReportsOf(ns: seq<Node>): seq<Report> {
    if ns == [] then [] else Verdict(ns[0]) + ReportsOf(ns[1..])
  }

  lemma {:induction false} ReportsOfAppend(a: seq<Node>, b: seq<Node>)
    ensures ReportsOf(a + b) == ReportsOf(a) + ReportsOf(b)
  {
    if a == [] {
      assert a + b == b;
    } else {
      assert (a + b)[1..] == a[1..] + b;
      ReportsOfAppend(a[1..], b);
    }
  }

  lemma ReportsOfSubtree(n: Node, before: seq<Report>)
    ensures before + ReportsOf(PostOrder(n)) == before + ReportsOf(PostOrderOfAll(n.children)) + Verdict(n)
    ensures before + ReportsOf([]) == before
  {
    ReportsOfAppend(PostOrderOfAll(n.children), [n]);
    assert [n][1..] == [];
    assert ReportsOf([n]) == Verdict(n);
  }

  lemma {:induction false} EscapingAppend(a: seq<Occurrence>, b: seq<Occurrence>, above: seq<Label>)
    ensures Escaping(a + b, above) == Escaping(a, above) + Escaping(b, above)
  {
    if a == [] {
      assert a + b == b;
    } else {
      assert (a + b)[1..] == a[1..] + b;
      EscapingAppend(a[1..], b, above);
    }
  }

  /** Crossing a target and having it above are the same thing. */
  lemma {:induction false} EscapingCrossing(k: Kind, os: seq<Occurrence>, above: seq<Label>)
    ensures Escaping(Crossing(k, os), above) == Escaping(os, above + [TargetLabel(k)])
  {
    if os != [] {
      var o := os[0];
      var o' := o.(crossed := [k] + o.crossed);
      assert Stopped(o') <==> Stopped(o) || Dest(o.jump) == TargetLabel(k) by {
        assert o'.crossed[0] == k;
        assert forall i :: 0 <= i < |o.crossed| ==> o'.crossed[i + 1] == o.crossed[i];
        if Stopped(o') {
          var i :| 0 <= i < |o'.crossed| && TargetLabel(o'.crossed[i]) == Dest(o.jump);
          assert i > 0 ==> o'.crossed[i] == o.crossed[i - 1];
        }
      }
      EscapingCrossing(k, os[1..], above);
    }
  }

  /** What visiting jumps `os` makes of the lists of the targets labelled `names`, outermost first:
      each list gains the jumps that no target further inside stops. */
  function Charge(lists: seq<seq<Node>>, names: seq<Label>, os: seq<Occurrence>): (r: seq<seq<Node>>)
    requires |lists| == |names|
    ensures |r| == |lists|
  {
    if lists == [] then [] else [lists[0] + Escaping(os, names[1..])] + Charge(lists[1..], names[1..], os)
  }

  lemma {:induction false} ChargeAppend(lists: seq<seq<Node>>, names: seq<Label>, a: seq<Occurrence>,
      b: seq<Occurrence>)
    requires |lists| == |names|
    ensures Charge(Charge(lists, names, a), names, b) == Charge(lists, names, a + b)
  {
    if lists != [] {
      EscapingAppend(a, b, names[1..]);
      ChargeAppend(lists[1..], names[1..], a, b);
      var first := lists[0] + Escaping(a, names[1..]);
      assert Charge(lists, names, a) == [first] + Charge(lists[1..], names[1..], a);
      assert Charge(lists, names, a)[1..] == Charge(lists[1..], names[1..], a);
      assert first + Escaping(b, names[1..]) == lists[0] + Escaping(a + b, names[1..]);
    }
  }

  lemma {:induction false} ChargeNothing(lists: seq<seq<Node>>, names: seq<Label>)
    requires |lists| == |names|
    ensures Charge(lists, names, []) == lists
  {
    if lists != [] {
      ChargeNothing(lists[1..], names[1..]);
      assert lists[0] + Escaping([], names[1..]) == lists[0];
      assert lists == [lists[0]] + lists[1..];
    }
  }

  /** Charging through a target pushed on top: it gains what its children let out, the others what it lets out. */
  lemma {:induction false} ChargePushed(lists: seq<seq<Node>>, names: seq<Label>, k: Kind, os: seq<Occurrence>)
    requires |lists| == |names|
    ensures Charge(lists + [[]], names + [TargetLabel(k)], os) ==
      Charge(lists, names, Crossing(k, os)) + [Escaping(os, [])]
  {
    if lists == [] {
      assert lists + [[]] == [[]] && names + [TargetLabel(k)] == [TargetLabel(k)];
      assert [TargetLabel(k)][1..] == [];
      assert [] + Escaping(os, []) == Escaping(os, []);
    } else {
      EscapingCrossing(k, os, names[1..]);
      ChargePushed(lists[1..], names[1..], k, os);
      assert (lists + [[]])[1..] == lists[1..] + [[]];
      assert (names + [TargetLabel(k)])[1..] == names[1..] + [TargetLabel(k)];
      assert Charge(lists + [[]], names + [TargetLabel(k)], os) ==
        [lists[0] + Escaping(os, names[1..] + [TargetLabel(k)])]
        + Charge(lists[1..] + [[]], names[1..] + [TargetLabel(k)], os);
      assert Charge(lists, names, Crossing(k, os)) ==
        [lists[0] + Escaping(Crossing(k, os), names[1..])] + Charge(lists[1..], names[1..], Crossing(k, os));
    }
  }

  /** One jump is appended to every list from target `stop` inwards, the innermost one with its label. */
  lemma {:induction false} ChargeJump(lists: seq<seq<Node>>, names: seq<Label>, jump: Node, stop: int,
      after: seq<seq<Node>>)
    requires |lists| == |names| == |after| && IsJump(jump) && stop < |names|
    requires stop >= 0 ==> names[stop] == Dest(jump)
    requires forall i :: 0 <= i < |names| && stop < i ==> names[i] != Dest(jump)
    requires forall i :: 0 <= i < |lists| ==> after[i] == if i < stop then lists[i] else lists[i] + [jump]
    ensures after == Charge(lists, names, [Occurrence(jump, [])])
  {
    var o := Occurrence(jump, []);
    if lists != [] {
      ChargeJump(lists[1..], names[1..], jump, stop - 1, after[1..]);
      EscapingOne(jump, names[1..]);
      assert stop > 0 ==> names[1..][stop - 1] == Dest(jump);
      assert after[0] == lists[0] + Escaping([o], names[1..]);
      assert after == [after[0]] + after[1..];
    }
  }

  lemma EscapingOne(jump: Node, above: seq<Label>)
    requires IsJump(jump)
    ensures Escaping([Occurrence(jump, [])], above) == if Dest(jump) in above then [] else [jump]
  {
    assert [Occurrence(jump, [])][1..] == [];
  }

  /** Visiting siblings one after the other adds up to visiting them all. */
  lemma SiblingsCharge(lists: seq<seq<Node>>, names: seq<Label>, ns: seq<Node>)
    requires |lists| == |names|
    ensures ns == [] ==> Charge(lists, names, OccurrencesOfAll(ns)) == lists
    ensures ns != [] ==>
      Charge(Charge(lists, names, Occurrences(ns[0])), names, OccurrencesOfAll(ns[1..]))
      == Charge(lists, names, OccurrencesOfAll(ns))
  {
    if ns == [] {
      ChargeNothing(lists, names);
    } else {
      ChargeAppend(lists, names, Occurrences(ns[0]), OccurrencesOfAll(ns[1..]));
    }
  }

  lemma SiblingsReport(before: seq<Report>, ns: seq<Node>)
    ensures ns == [] ==> before + ReportsOf(PostOrderOfAll(ns)) == before
    ensures ns != [] ==>
      before + ReportsOf(PostOrder(ns[0])) + ReportsOf(PostOrderOfAll(ns[1..]))
      == before + ReportsOf(PostOrderOfAll(ns))
  {
    if ns == [] {
      assert ReportsOf([]) == [];
    } else {
      var a, b := PostOrder(ns[0]), PostOrderOfAll(ns[1..]);
      ReportsOfAppend(a, b);
      assert before + ReportsOf(a) + ReportsOf(b) == before + (ReportsOf(a) + ReportsOf(b));
    }
  }

  lemma SameInit<T>(a: seq<T>, x: T, b: seq<T>, y: T)
    requires a + [x] == b + [y]
    ensures a == b && x == y
  {
    assert (a + [x])[..|a|] == a && (a + [x])[|a|] == x;
    assert (b + [y])[..|b|] == b && (b + [y])[|b|] == y;
  }

  class JumpTarget {
    const name: Label
    var jumps: seq<Node>

    constructor (name: Label)
      ensures this.name == name && jumps == []
    {
      this.name, jumps := name, [];
    }
  }

  ghost function Lists(ts: seq<JumpTarget>): (r: seq<seq<Node>>)
    reads ts
    ensures |r| == |ts| && forall i :: 0 <= i < |ts| ==> r[i] == ts[i].jumps
  {
    seq(|ts|, i requires 0 <= i < |ts| reads ts => ts[i].jumps)
  }

  ghost function Names(ts: seq<JumpTarget>): (r: seq<Label>)
    ensures |r| == |ts| && forall i :: 0 <= i < |ts| ==> r[i] == ts[i].name
  {
    seq(|ts|, i requires 0 <= i < |ts| => ts[i].name)
  }

  class Rule {
    var jumpTargets: seq<JumpTarget>
    var reports: seq<Report>

    ghost predicate Valid()
      reads this
    {
      forall i, j :: 0 <= i < j < |jumpTargets| ==> jumpTargets[i] != jumpTargets[j]
    }

    constructor ()
      ensures Valid() && jumpTargets == [] && reports == []
    {
      jumpTargets, reports := [], [];
    }

    method EnterScope(name: Label)
      requires Valid()
      modifies this`jumpTargets
      ensures Valid() && |jumpTargets| == |old(jumpTargets)| + 1
      ensures jumpTargets[..|old(jumpTargets)|] == old(jumpTargets) && fresh(jumpTargets[|old(jumpTargets)|])
      ensures Lists(jumpTargets) == old(Lists(jumpTargets)) + [[]]
      ensures Names(jumpTargets) == old(Names(jumpTargets)) + [name]
    {
      var target := new JumpTarget(name);
      jumpTargets := jumpTargets + [target];
    }

    method LeaveScope() returns (jumps: seq<Node>)
      requires Valid() && jumpTargets != []
      modifies this`jumpTargets
      ensures jumpTargets == old(jumpTargets)[..|old(jumpTargets)| - 1]
      ensures Lists(jumpTargets) + [jumps] == old(Lists(jumpTargets))
    {
      jumps := jumpTargets[|jumpTargets| - 1].jumps;
      jumpTargets := jumpTargets[..|jumpTargets| - 1];
    }

    /** `jumpTarget.jumps.push(jump)` for target `i`. */
    method Push(i: nat, jump: Node)
      requires Valid() && i < |jumpTargets|
      modifies jumpTargets[i]
      ensures Lists(jumpTargets) == old(Lists(jumpTargets))[i := old(jumpTargets[i].jumps) + [jump]]
    {
      jumpTargets[i].jumps := jumpTargets[i].jumps + [jump];
    }

    /** `increateNumberOfJumpsInScopes`: from the innermost target outwards, up to the first with the same label. */
    method IncreaseNumberOfJumpsInScopes(jump: Node)
      requires Valid() && IsJump(jump)
      modifies jumpTargets
      ensures Lists(jumpTargets) == Charge(old(Lists(jumpTargets)), Names(jumpTargets), [Occurrence(jump, [])])
    {
      var dest := Dest(jump);
      ghost var stop := -1;
      ghost var before := Lists(jumpTargets);
      var i := |jumpTargets|;
      while i > 0
        invariant 0 <= i <= |jumpTargets|
        invariant forall k :: 0 <= k < |before| ==>
          Lists(jumpTargets)[k] == if k < i then before[k] else before[k] + [jump]
        invariant forall k :: i <= k < |jumpTargets| ==> jumpTargets[k].name != dest
      {
        i := i - 1;
        Push(i, jump);
        if dest == jumpTargets[i].name {
          stop := i;
          break;
        }
      }
      ChargeJump(before, Names(jumpTargets), jump, stop, Lists(jumpTargets));
    }

    /** Visits a subtree; the stack keeps its shape and every enclosing target is charged. */
    method Visit(n: Node)
      requires Valid()
      modifies this, jumpTargets
      ensures jumpTargets == old(jumpTargets)
      ensures Lists(jumpTargets) == Charge(old(Lists(jumpTargets)), Names(jumpTargets), Occurrences(n))
      ensures reports == old(reports) + ReportsOf(PostOrder(n))
      decreases n, 2
    {
      ReportsOfSubtree(n, reports);
      if IsJump(n) {
        ChargeAppend(Lists(jumpTargets), Names(jumpTargets), [Occurrence(n, [])], OccurrencesOfAll(n.children));
        IncreaseNumberOfJumpsInScopes(n);
        VisitAll(n.children);
      } else if IsTarget(n) {
        var jumps := VisitScope(n);
        if n.kind.Loop? && |jumps| > 1 {
          reports := reports + [Report(n, jumps)];
        }
      } else {
        VisitAll(n.children);
      }
    }

    /** Loops, switches and labelled statements push a target of their own; its list is theirs on exit. */
    method VisitScope(n: Node) returns (jumps: seq<Node>)
      requires Valid() && IsTarget(n)
      modifies this, jumpTargets
      ensures jumpTargets == old(jumpTargets)
      ensures Lists(jumpTargets) == Charge(old(Lists(jumpTargets)), Names(jumpTargets), Occurrences(n))
      ensures jumps == JumpsOf(n)
      ensures reports == old(reports) + ReportsOf(PostOrderOfAll(n.children))
      decreases n, 1
    {
      ghost var targets, lists := jumpTargets, Lists(jumpTargets);
      ChargePushed(lists, Names(targets), n.kind, OccurrencesOfAll(n.children));
      EnterScope(TargetLabel(n.kind));
      VisitAll(n.children);
      assert Lists(jumpTargets) == Charge(lists, Names(targets), Occurrences(n)) + [JumpsOf(n)];
      jumps := LeaveScope();
      SameInit(Lists(jumpTargets), jumps, Charge(lists, Names(targets), Occurrences(n)), JumpsOf(n));
    }

    method VisitAll(ns: seq<Node>)
      requires Valid()
      modifies this, jumpTargets
      ensures jumpTargets == old(jumpTargets)
      ensures Lists(jumpTargets) == Charge(old(Lists(jumpTargets)), Names(jumpTargets), OccurrencesOfAll(ns))
      ensures reports == old(reports) + ReportsOf(PostOrderOfAll(ns))
      decreases ns, 0
    {
      SiblingsCharge(Lists(jumpTargets), Names(jumpTargets), ns);
      SiblingsReport(reports, ns);
      if ns != [] {
        Visit(ns[0]);
        VisitAll(ns[1..]);
      }
    }
  }

  predicate IsPath(n: Node, path: Path)
    decreases |path|
  {
    path == [] || (path[0] < |n.children| && IsPath(n.children[path[0]], path[1..]))
  }

  function At(n: Node, path: Path): Node
    requires IsPath(n, path)
    decreases |path|
  {
    if path == [] then n else At(n.children[path[0]], path[1..])
  }

  /** At that place stands a loop with two jumps or more. */
  predicate Reported(n: Node, f: Found<Report>) {
    && IsPath(n, f.path) && At(n, f.path).kind.Loop?
    && f.value == Report(At(n, f.path), JumpsOf(At(n, f.path))) && |f.value.jumps| >= 2
  }

  /** The reports of a subtree with their places. */
  function Places(n: Node): seq<Found<Report>>
    decreases n, 1
  {
    Spread(PlacesOfAll(n.children), 0) + Own(n)
  }

  function Own(n: Node): seq<Found<Report>> {
    if n.kind.Loop? && |JumpsOf(n)| >= 2 then [Found([], Report(n, JumpsOf(n)))] else []
  }

  function PlacesOfAll(ns: seq<Node>): (r: seq<seq<Found<Report>>>)
    ensures |r| == |ns| && forall i :: 0 <= i < |ns| ==> r[i] == Places(ns[i])
    decreases ns, 0
  {
    if ns == [] then [] else [Places(ns[0])] + PlacesOfAll(ns[1..])
  }

  lemma {:induction false} PlacesHoldReports(n: Node)
    ensures Values(Places(n)) == ReportsOf(PostOrder(n))
    decreases n, 1
  {
    ValuesAppend(Spread(PlacesOfAll(n.children), 0), Own(n));
    ValuesSpread(PlacesOfAll(n.children), 0);
    PlacesOfAllHoldReports(n.children);
    ReportsOfAppend(PostOrderOfAll(n.children), [n]);
    assert [n][1..] == [] && ReportsOf([n]) == Verdict(n) + [] == Verdict(n) == Values(Own(n));
  }

  lemma {:induction false} PlacesOfAllHoldReports(ns: seq<Node>)
    ensures Flat(AllValues(PlacesOfAll(ns))) == ReportsOf(PostOrderOfAll(ns))
    decreases ns, 0
  {
    if ns != [] {
      PlacesHoldReports(ns[0]);
      PlacesOfAllHoldReports(ns[1..]);
      ReportsOfAppend(PostOrder(ns[0]), PostOrderOfAll(ns[1..]));
      assert PlacesOfAll(ns)[1..] == PlacesOfAll(ns[1..]);
    }
  }

  lemma {:induction false} PlacesInOrder(n: Node)
    ensures InOrder(Places(n), true)
    decreases n
  {
    forall i | 0 <= i < |n.children| ensures InOrder(PlacesOfAll(n.children)[i], true) {
      PlacesInOrder(n.children[i]);
    }
    SpreadInOrder(PlacesOfAll(n.children), 0, true);
    ParentLast(Own(n), Spread(PlacesOfAll(n.children), 0));
  }

  lemma {:induction false} PlacesAreReported(n: Node, f: Found<Report>)
    ensures f in Places(n) <==> Reported(n, f)
    decreases n
  {
    MembersWithOwn(Own(n), PlacesOfAll(n.children), f);
    if f.path != [] && f.path[0] < |n.children| {
      PlacesAreReported(n.children[f.path[0]], Found(f.path[1..], f.value));
      assert Reported(n.children[f.path[0]], Found(f.path[1..], f.value)) <==> Reported(n, f);
    }
  }

  /** Linting a program: exactly the loops with two jumps or more are reported, each once, inner loops first. */
  method Lint(program: Node) returns (reports: seq<Report>, ghost places: seq<Found<Report>>)
    ensures reports == ReportsOf(PostOrder(program))
    ensures reports == Values(places) && InOrder(places, true)
    ensures forall f :: f in places <==> Reported(program, f)
  {
    var rule := new Rule();
    rule.Visit(program);
    reports, places := rule.reports, Places(program);
    PlacesHoldReports(program);
    PlacesInOrder(program);
    forall f ensures f in places <==> Reported(program, f) {
      PlacesAreReported(program, f);
    }
  }

  /** Loops and switches stop jumps without a label, a labelled statement those with its label. */
  predicate Stops(k: Kind, dest: Label) {
    match dest
    case None => k in {Loop, Switch}
    case Some(name) => k == Labeled(name)
  }

  /** On the way to that place, its end left out, there is a target with this label. */
  predicate StoppedOn(n: Node, path: Path, dest: Label)
    requires IsPath(n, path)
    decreases |path|
  {
    path != [] && (Stops(n.kind, dest) || StoppedOn(n.children[path[0]], path[1..], dest))
  }

  /** At that place stands a jump that neither a target on the way nor one labelled `above` stops. */
  predicate Unstopped(n: Node, above: seq<Label>, f: Found<Node>) {
    && IsPath(n, f.path) && f.value == At(n, f.path) && IsJump(f.value)
    && Dest(f.value) !in above && !StoppedOn(n, f.path, Dest(f.value))
  }

  function UnstoppedPlaces(n: Node, above: seq<Label>): seq<Found<Node>>
    decreases n, 1
  {
    OwnUnstopped(n, above) + Spread(UnstoppedInAll(n.children, Above(n, above)), 0)
  }

  function OwnUnstopped(n: Node, above: seq<Label>): seq<Found<Node>> {
    if IsJump(n) && Dest(n) !in above then [Found([], n)] else []
  }

  function Above(n: Node, above: seq<Label>): seq<Label> {
    if IsTarget(n) then above + [TargetLabel(n.kind)] else above
  }

  function UnstoppedInAll(ns: seq<Node>, above: seq<Label>): (r: seq<seq<Found<Node>>>)
    ensures |r| == |ns| && forall i :: 0 <= i < |ns| ==> r[i] == UnstoppedPlaces(ns[i], above)
    decreases ns, 0
  {
    if ns == [] then [] else [UnstoppedPlaces(ns[0], above)] + UnstoppedInAll(ns[1..], above)
  }

  lemma {:induction false} UnstoppedHoldEscaping(n: Node, above: seq<Label>)
    ensures Values(UnstoppedPlaces(n, above)) == Escaping(Occurrences(n), above)
    decreases n, 1
  {
    var own := OwnUnstopped(n, above);
    var below := UnstoppedInAll(n.children, Above(n, above));
    ValuesAppend(own, Spread(below, 0));
    ValuesSpread(below, 0);
    UnstoppedInAllHoldEscaping(n.children, Above(n, above));
    EscapingOf(n, above);
  }

  lemma EscapingOf(n: Node, above: seq<Label>)
    ensures Escaping(Occurrences(n), above)
         == Values(OwnUnstopped(n, above)) + Escaping(OccurrencesOfAll(n.children), Above(n, above))
  {
    var below := Escaping(OccurrencesOfAll(n.children), Above(n, above));
    if IsJump(n) {
      EscapingAppend([Occurrence(n, [])], OccurrencesOfAll(n.children), above);
      EscapingOne(n, above);
      assert Values([Found([], n)]) == [n];
    } else if IsTarget(n) {
      EscapingCrossing(n.kind, OccurrencesOfAll(n.children), above);
    }
    assert [] + below == below;
  }

  lemma {:induction false} UnstoppedInAllHoldEscaping(ns: seq<Node>, above: seq<Label>)
    ensures Flat(AllValues(UnstoppedInAll(ns, above))) == Escaping(OccurrencesOfAll(ns), above)
    decreases ns, 0
  {
    if ns != [] {
      UnstoppedHoldEscaping(ns[0], above);
      UnstoppedInAllHoldEscaping(ns[1..], above);
      EscapingAppend(Occurrences(ns[0]), OccurrencesOfAll(ns[1..]), above);
      assert UnstoppedInAll(ns, above)[1..] == UnstoppedInAll(ns[1..], above);
    }
  }

  lemma {:induction false} UnstoppedInOrder(n: Node, above: seq<Label>)
    ensures InOrder(UnstoppedPlaces(n, above), false)
    decreases n
  {
    var below := UnstoppedInAll(n.children, Above(n, above));
    forall i | 0 <= i < |n.children| ensures InOrder(below[i], false) {
      UnstoppedInOrder(n.children[i], Above(n, above));
    }
    SpreadInOrder(below, 0, false);
    ParentFirst(OwnUnstopped(n, above), Spread(below, 0));
  }

  lemma {:induction false} UnstoppedMembers(n: Node, above: seq<Label>, f: Found<Node>)
    ensures f in UnstoppedPlaces(n, above) <==> Unstopped(n, above, f)
    decreases n
  {
    MembersWithOwn(OwnUnstopped(n, above), UnstoppedInAll(n.children, Above(n, above)), f);
    if f.path != [] && f.path[0] < |n.children| {
      UnstoppedBelow(n, above, f);
      UnstoppedMembers(n.children[f.path[0]], Above(n, above), Found(f.path[1..], f.value));
    }
  }

  lemma UnstoppedBelow(n: Node, above: seq<Label>, f: Found<Node>)
    requires f.path != [] && f.path[0] < |n.children|
    ensures Unstopped(n, above, f)
      <==> Unstopped(n.children[f.path[0]], Above(n, above), Found(f.path[1..], f.value))
  {
    if IsTarget(n) {
      assert Dest(f.value) in Above(n, above) <==> Dest(f.value) in above || Dest(f.value) == TargetLabel(n.kind);
      assert Stops(n.kind, Dest(f.value)) <==> Dest(f.value) == TargetLabel(n.kind);
    }
  }

  /** Inside a loop stands, at that place, a jump that no target strictly between the two stops. */
  predicate ChargedTo(loop: Node, f: Found<Node>) {
    f.path != [] && IsPath(loop, f.path) && f.value == At(loop, f.path) &&
    match f.value.kind
    case Break(dest) => !StoppedOn(loop.children[f.path[0]], f.path[1..], dest)
    case Continue(dest) => !StoppedOn(loop.children[f.path[0]], f.path[1..], dest)
    case _ => false
  }

  /** A loop's list holds exactly these jumps, each once, in source order. */
  lemma JumpsOfPlaces(loop: Node) returns (places: seq<Found<Node>>)
    ensures JumpsOf(loop) == Values(places) && InOrder(places, false)
    ensures forall f :: f in places <==> ChargedTo(loop, f)
  {
    var below := UnstoppedInAll(loop.children, []);
    places := Spread(below, 0);
    ValuesSpread(below, 0);
    UnstoppedInAllHoldEscaping(loop.children, []);
    forall i | 0 <= i < |loop.children| ensures InOrder(below[i], false) {
      UnstoppedInOrder(loop.children[i], []);
    }
    SpreadInOrder(below, 0, false);
    forall f ensures f in places <==> ChargedTo(loop, f) {
      ChargedIff(loop, f);
    }
  }

  lemma ChargedIff(loop: Node, f: Found<Node>)
    ensures f in Spread(UnstoppedInAll(loop.children, []), 0) <==> ChargedTo(loop, f)
  {
    SpreadMembers(UnstoppedInAll(loop.children, []), 0, f);
    if f.path != [] && f.path[0] < |loop.children| {
      var rest := Found(f.path[1..], f.value);
      UnstoppedMembers(loop.children[f.path[0]], [], rest);
      assert Unstopped(loop.children[f.path[0]], [], rest) <==> ChargedTo(loop, f);
    }
  }

  /** Where the language itself ends a jump: an unlabelled `continue` passes through a switch. */
  predicate Bound(o: Occurrence) {
    match o.jump.kind
    case Continue(None) => exists i :: 0 <= i < |o.crossed| && o.crossed[i] == Loop
    case _ =>
      match Dest(o.jump)
      case None => exists i :: 0 <= i < |o.crossed| && (o.crossed[i] == Loop || o.crossed[i] == Switch)
      case Some(name) => exists i :: 0 <= i < |o.crossed| && o.crossed[i] == Labeled(name)
  }

  /** The jumps below a loop that leave it or start its next round (or those of a loop further out). */
  function Unbound(os: seq<Occurrence>): seq<Node> {
    if os == [] then [] else (if Bound(os[0]) then [] else [os[0].jump]) + Unbound(os[1..])
  }

  /** An unlabelled `continue` with a switch, but no loop, around it. */
  predicate ContinuesThroughSwitch(o: Occurrence) {
    o.jump.kind == Continue(None) && Switch in o.crossed && Loop !in o.crossed
  }

  lemma StoppedOrBound(o: Occurrence)
    requires OnlyTargets(o.crossed)
    ensures Stopped(o) <==> Bound(o) || ContinuesThroughSwitch(o)
    ensures !(Bound(o) && ContinuesThroughSwitch(o))
  {
    forall i | 0 <= i < |o.crossed|
      ensures TargetLabel(o.crossed[i]) == None <==> o.crossed[i] == Loop || o.crossed[i] == Switch
    {
    }
  }

  predicate OnlyTargets(ks: seq<Kind>) {
    forall i :: 0 <= i < |ks| ==> ks[i].Switch? || ks[i].Loop? || ks[i].Labeled?
  }

  lemma {:induction false} CrossedAreTargets(ns: seq<Node>)
    ensures forall o :: o in OccurrencesOfAll(ns) ==> OnlyTargets(o.crossed)
    decreases ns
  {
    if ns != [] {
      CrossedAreTargets(ns[0].children);
      CrossedAreTargets(ns[1..]);
      if IsTarget(ns[0]) {
        CrossingAreTargets(ns[0].kind, OccurrencesOfAll(ns[0].children));
      }
    }
  }

  lemma {:induction false} CrossingAreTargets(k: Kind, os: seq<Occurrence>)
    requires OnlyTargets([k]) && forall o :: o in os ==> OnlyTargets(o.crossed)
    ensures forall o :: o in Crossing(k, os) ==> OnlyTargets(o.crossed)
  {
    if os != [] {
      assert [k][0] == k;
      CrossingAreTargets(k, os[1..]);
    }
  }

  lemma {:induction false} EscapingVersusUnbound(os: seq<Occurrence>)
    requires forall o :: o in os ==> OnlyTargets(o.crossed)
    ensures |Escaping(os, [])| <= |Unbound(os)|
    ensures (exists o :: o in os && ContinuesThroughSwitch(o)) ==> |Escaping(os, [])| < |Unbound(os)|
    ensures (forall o :: o in os ==> !ContinuesThroughSwitch(o)) ==> Escaping(os, []) == Unbound(os)
  {
    if os != [] {
      StoppedOrBound(os[0]);
      EscapingVersusUnbound(os[1..]);
    }
  }

  function CountThroughSwitch(os: seq<Occurrence>): nat {
    if os == [] then 0 else (if ContinuesThroughSwitch(os[0]) then 1 else 0) + CountThroughSwitch(os[1..])
  }

  lemma {:induction false} EscapingCount(os: seq<Occurrence>)
    requires forall o :: o in os ==> OnlyTargets(o.crossed)
    ensures |Unbound(os)| == |Escaping(os, [])| + CountThroughSwitch(os)
  {
    if os != [] {
      StoppedOrBound(os[0]);
      EscapingCount(os[1..]);
    }
  }

  /** Every loop that the rule reports has two jumps or more by the rules of the language. One that it should report
      goes unreported exactly when, without the unlabelled `continue`s inside a switch, at most one jump is left. */
  lemma UnreportedIff(loop: Node)
    ensures var os := OccurrencesOfAll(loop.children);
            && |Unbound(os)| == |JumpsOf(loop)| + CountThroughSwitch(os)
            && (|JumpsOf(loop)| > 1 ==> |Unbound(os)| > 1)
            && (|Unbound(os)| > 1 && |JumpsOf(loop)| <= 1 <==>
                  2 - CountThroughSwitch(os) <= |JumpsOf(loop)| <= 1)
  {
    CrossedAreTargets(loop.children);
    EscapingCount(OccurrencesOfAll(loop.children));
  }

  /** The rule charges a loop with the jumps that concern it, except for each unlabelled `continue` inside a
      switch: the two lists agree exactly when the loop has none of these, and otherwise the rule's is shorter. */
  lemma JumpsOfVersusLanguage(loop: Node)
    ensures JumpsOf(loop) == Unbound(OccurrencesOfAll(loop.children)) <==>
      forall o :: o in OccurrencesOfAll(loop.children) ==> !ContinuesThroughSwitch(o)
    ensures |JumpsOf(loop)| <= |Unbound(OccurrencesOfAll(loop.children))|
  {
    CrossedAreTargets(loop.children);
    EscapingVersusUnbound(OccurrencesOfAll(loop.children));
  }

  /** `for (..) { switch (x) { default: continue; } continue; }` - two `continue`s of one loop, not reported. */
  lemma ContinueInSwitchIsMissed()
    ensures var c := Node(0, Continue(None), []);
            var loop := Node(1, Loop, [Node(2, Switch, [c]), c]);
            JumpsOf(loop) == [c] && Unbound(OccurrencesOfAll(loop.children)) == [c, c]
  {
    var c := Node(0, Continue(None), []);
    var s := Node(2, Switch, [c]);
    var inSwitch, own := Occurrence(c, [Switch]), Occurrence(c, []);
    assert OccurrencesOfAll([c]) == [own];
    assert [Switch] + own.crossed == [Switch] && [own][1..] == [];
    assert Crossing(Switch, [own]) == [inSwitch];
    assert OccurrencesOfAll([s, c]) == [inSwitch] + OccurrencesOfAll([s, c][1..]);
    assert [s, c][1..] == [c] && [inSwitch, own][1..] == [own];
    assert TargetLabel(inSwitch.crossed[0]) == None;
  }
}
