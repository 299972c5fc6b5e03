/** Things found in a tree, each with the path to its place. */
module Paths {

  /** The indices of the children to go to, from the root on. */
  type Path = seq<nat>

  /** `p` is met before `q` when children are visited in order, a parent before or after its children. */
  predicate Earlier(p: Path, q: Path, childrenFirst: bool)
    decreases |p|
  {
    if p == [] || q == [] then if childrenFirst then p != [] else q != []
    else p[0] < q[0] || (p[0] == q[0] && Earlier(p[1..], q[1..], childrenFirst))
  }

  /** So nothing in order is met twice. */
  lemma {:induction false} NotEarlierThanItself(p: Path, childrenFirst: bool)
    ensures !Earlier(p, p, childrenFirst)
  {
    if p != [] {
      NotEarlierThanItself(p[1..], childrenFirst);
    }
  }

  datatype Found<R> = Found(path: Path, value: R)

  ghost predicate InOrder<R>(fs: seq<Found<R>>, childrenFirst: bool) {
    forall i, j :: 0 <= i < j < |fs| ==> Earlier(fs[i].path, fs[j].path, childrenFirst)
  }

  function Values<R>(fs: seq<Found<R>>): (r: seq<R>)
    ensures |r| == |fs| && forall i :: 0 <= i < |fs| ==> r[i] == fs[i].value
  {
    seq(|fs|, i requires 0 <= i < |fs| => fs[i].value)
  }

  /** What is found in child `i`, seen from the parent. */
  function Under<R>(i: nat, fs: seq<Found<R>>): (r: seq<Found<R>>)
    ensures |r| == |fs| && forall k :: 0 <= k < |fs| ==> r[k] == Found([i] + fs[k].path, fs[k].value)
  {
    seq(|fs|, k requires 0 <= k < |fs| => Found([i] + fs[k].path, fs[k].value))
  }

  /** What is found in the children from number `from` on, one child after the other. */
  function Spread<R>(fss: seq<seq<Found<R>>>, from: nat): seq<Found<R>> {
    if fss == [] then [] else Under(from, fss[0]) + Spread(fss[1..], from + 1)
  }

  function Flat<R>(rss: seq<seq<R>>): seq<R> {
    if rss == [] then [] else rss[0] + Flat(rss[1..])
  }

  function AllValues<R>(fss: seq<seq<Found<R>>>): seq<seq<R>> {
    if fss == [] then [] else [Values(fss[0])] + AllValues(fss[1..])
  }

  lemma ValuesAppend<R>(a: seq<Found<R>>, b: seq<Found<R>>)
    ensures Values(a + b) == Values(a) + Values(b)
  {
  }

  lemma {:induction false} ValuesSpread<R>(fss: seq<seq<Found<R>>>, from: nat)
    ensures Values(Spread(fss, from)) == Flat(AllValues(fss))
    decreases |fss|
  {
    if fss != [] {
      ValuesSpread(fss[1..], from + 1);
      ValuesAppend(Under(from, fss[0]), Spread(fss[1..], from + 1));
      assert Values(Under(from, fss[0])) == Values(fss[0]);
    }
  }

  lemma UnderMembers<R>(i: nat, fs: seq<Found<R>>, f: Found<R>)
    ensures f in Under(i, fs) <==> f.path != [] && f.path[0] == i && Found(f.path[1..], f.value) in fs
  {
    if f in Under(i, fs) {
      var k :| 0 <= k < |fs| && Under(i, fs)[k] == f;
      assert f.path[1..] == fs[k].path;
      assert fs[k] == Found(f.path[1..], f.value);
    }
    if f.path != [] && f.path[0] == i && Found(f.path[1..], f.value) in fs {
      var k :| 0 <= k < |fs| && fs[k] == Found(f.path[1..], f.value);
      assert f.path == [i] + f.path[1..];
      assert Under(i, fs)[k] == f;
    }
  }

  lemma {:induction false} SpreadMembers<R>(fss: seq<seq<Found<R>>>, from: nat, f: Found<R>)
    ensures f in Spread(fss, from) <==>
      f.path != [] && from <= f.path[0] < from + |fss| && Found(f.path[1..], f.value) in fss[f.path[0] - from]
    decreases |fss|
  {
    if fss != [] {
      UnderMembers(from, fss[0], f);
      SpreadMembers(fss[1..], from + 1, f);
    }
  }

  /** What stands in the node itself and below it. */
  lemma MembersWithOwn<R>(own: seq<Found<R>>, fss: seq<seq<Found<R>>>, f: Found<R>)
    requires forall i :: 0 <= i < |own| ==> own[i].path == []
    ensures var here := if f.path == [] then f in own else BelowIn(fss, f);
            (f in own + Spread(fss, 0) <==> here) && (f in Spread(fss, 0) + own <==> here)
  {
    SpreadMembers(fss, 0, f);
  }

  ghost predicate BelowIn<R>(fss: seq<seq<Found<R>>>, f: Found<R>) {
    f.path != [] && f.path[0] < |fss| && Found(f.path[1..], f.value) in fss[f.path[0]]
  }

  lemma UnderInOrder<R>(i: nat, fs: seq<Found<R>>, childrenFirst: bool)
    requires InOrder(fs, childrenFirst)
    ensures InOrder(Under(i, fs), childrenFirst)
  {
    forall j, k | 0 <= j < k < |fs| ensures Earlier([i] + fs[j].path, [i] + fs[k].path, childrenFirst) {
      assert ([i] + fs[j].path)[1..] == fs[j].path && ([i] + fs[k].path)[1..] == fs[k].path;
    }
  }

  lemma {:induction false} SpreadInOrder<R>(fss: seq<seq<Found<R>>>, from: nat, childrenFirst: bool)
    requires forall i :: 0 <= i < |fss| ==> InOrder(fss[i], childrenFirst)
    ensures InOrder(Spread(fss, from), childrenFirst)
    ensures forall i :: 0 <= i < |Spread(fss, from)| ==>
      Spread(fss, from)[i].path != [] && Spread(fss, from)[i].path[0] >= from
    decreases |fss|
  {
    if fss != [] {
      SpreadInOrder(fss[1..], from + 1, childrenFirst);
      UnderInOrder(from, fss[0], childrenFirst);
      var a, b := Under(from, fss[0]), Spread(fss[1..], from + 1);
      forall i, j | 0 <= i < |a| && 0 <= j < |b| ensures Earlier(a[i].path, b[j].path, childrenFirst) {
        assert a[i].path[0] == from < b[j].path[0];
      }
    }
  }

  lemma ParentFirst<R>(own: seq<Found<R>>, below: seq<Found<R>>)
    requires InOrder(below, false) && |own| <= 1 && forall i :: 0 <= i < |own| ==> own[i].path == []
    requires forall i :: 0 <= i < |below| ==> below[i].path != []
    ensures InOrder(own + below, false)
  {
  }

  lemma ParentLast<R>(own: seq<Found<R>>, below: seq<Found<R>>)
    requires InOrder(below, true) && |own| <= 1 && forall i :: 0 <= i < |own| ==> own[i].path == []
    requires forall i :: 0 <= i < |below| ==> below[i].path != []
    ensures InOrder(below + own, true)
  {
  }
}
