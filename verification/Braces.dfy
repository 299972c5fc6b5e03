/** Highlighting of matching braces: the token loop of `packages/jsts/src/linter/visitors/symbol-highlighting.ts`. */
module Braces {
  import opened Common

  /** `{`, `}`, anything else. A token is known by its position in the file. */
  datatype Token = Open | Close | Other

  /** Opening minus closing braces among the first `k` tokens. */
  function Depth(tokens: seq<Token>, k: nat): int
    requires k <= |tokens|
  {
    if k == 0 then 0
    else Depth(tokens, k - 1) + match tokens[k - 1] case Open => 1 case Close => -1 case Other => 0
  }

  /** Some `}` comes too early. */
  ghost predicate Unopened(tokens: seq<Token>) {
    exists k :: 0 <= k <= |tokens| && Depth(tokens, k) < 0
  }

  /** The braces at `i` and `j` enclose a balanced stretch. */
  ghost predicate Matching(tokens: seq<Token>, i: nat, j: nat)
    requires i < |tokens| && j < |tokens|
  {
    && i < j && tokens[i] == Open && tokens[j] == Close
    && Depth(tokens, j) == Depth(tokens, i) + 1
    && forall k :: i < k <= j ==> Depth(tokens, k) > Depth(tokens, i)
  }

  /** Matching braces never cross, and no brace has two partners. */
  lemma MatchingIsNested(tokens: seq<Token>, i: nat, j: nat, i': nat, j': nat)
    requires i < |tokens| && j < |tokens| && Matching(tokens, i, j)
    requires i' < |tokens| && j' < |tokens| && Matching(tokens, i', j')
    ensures i == i' <==> j == j'
    ensures i < i' ==> j < i' || j' < j
  {
    assert Depth(tokens, j + 1) == Depth(tokens, i) && Depth(tokens, j' + 1) == Depth(tokens, i');
    assert Depth(tokens, i + 1) == Depth(tokens, i) + 1 && Depth(tokens, i' + 1) == Depth(tokens, i') + 1;
  }

  /** Every `}` that is not too early has a partner. */
  lemma HasPartner(tokens: seq<Token>, j: nat) returns (i: nat)
    requires j < |tokens| && tokens[j] == Close && !Unopened(tokens)
    ensures i < |tokens| && Matching(tokens, i, j)
  {
    assert Depth(tokens, j + 1) >= 0;
    i := LastBelow(tokens, j, Depth(tokens, j));
  }

  lemma {:induction false} LastBelow(tokens: seq<Token>, j: nat, d: int) returns (i: nat)
    requires j <= |tokens| && 0 < d <= Depth(tokens, j)
    ensures i < j && tokens[i] == Open && Depth(tokens, i) == d - 1
    ensures forall k :: i < k <= j ==> Depth(tokens, k) >= d
  {
    if Depth(tokens, j - 1) >= d {
      i := LastBelow(tokens, j - 1, d);
    } else {
      i := j - 1;
    }
  }

  /** The first place from `k` on where the depth falls below `d`. */
  lemma {:induction false} FirstBelow(tokens: seq<Token>, k: nat, d: int) returns (j: nat)
    requires k <= |tokens| && Depth(tokens, |tokens|) < d <= Depth(tokens, k)
    ensures k <= j < |tokens| && tokens[j] == Close && Depth(tokens, j) == d
    ensures forall m :: k <= m <= j ==> Depth(tokens, m) >= d
    decreases |tokens| - k
  {
    if Depth(tokens, k + 1) < d {
      j := k;
    } else {
      j := FirstBelow(tokens, k + 1, d);
    }
  }

  ghost predicate EveryOpenMatched(tokens: seq<Token>) {
    forall i :: 0 <= i < |tokens| && tokens[i] == Open ==> exists j :: 0 <= j < |tokens| && Matching(tokens, i, j)
  }

  /** Of a text without early closing braces: every `{` has a partner exactly when there are as many `}`. */
  lemma EveryOpenMatchedIff(tokens: seq<Token>)
    requires !Unopened(tokens)
    ensures EveryOpenMatched(tokens) <==> Depth(tokens, |tokens|) == 0
  {
    if Depth(tokens, |tokens|) == 0 {
      forall i | 0 <= i < |tokens| && tokens[i] == Open
        ensures exists j :: 0 <= j < |tokens| && Matching(tokens, i, j)
      {
        assert Depth(tokens, i + 1) == Depth(tokens, i) + 1 && Depth(tokens, i) >= 0;
        var j := FirstBelow(tokens, i + 1, Depth(tokens, i) + 1);
        assert Matching(tokens, i, j);
      }
    } else {
      var i := LastBelow(tokens, |tokens|, 1);
      forall j | 0 <= j < |tokens| ensures !Matching(tokens, i, j) {
        assert i < j && tokens[j] == Close ==> Depth(tokens, j + 1) == Depth(tokens, j) - 1;
      }
    }
  }

  /** The `}` tokens among the first `k`, in order. */
  function Closings(tokens: seq<Token>, k: nat): seq<nat>
    requires k <= |tokens|
  {
    if k == 0 then []
    else Closings(tokens, k - 1) + if tokens[k - 1] == Close then [k - 1] else []
  }

  /** The stack of open braces after `k` tokens: one for each level, the last one that opened it. */
  ghost predicate OpenBraces(tokens: seq<Token>, k: nat, stack: seq<nat>)
    requires k <= |tokens|
  {
    && |stack| == Depth(tokens, k)
    && forall s :: 0 <= s < |stack| ==>
      && stack[s] < k && tokens[stack[s]] == Open && Depth(tokens, stack[s]) == s
      && forall m :: stack[s] < m <= k ==> Depth(tokens, m) > s
  }

  lemma PushOpen(tokens: seq<Token>, k: nat, stack: seq<nat>)
    requires k < |tokens| && tokens[k] == Open && OpenBraces(tokens, k, stack)
    ensures OpenBraces(tokens, k + 1, stack + [k])
  {
    var next := stack + [k];
    assert Depth(tokens, k + 1) == Depth(tokens, k) + 1;
    forall s | 0 <= s < |next|
      ensures next[s] < k + 1 && tokens[next[s]] == Open && Depth(tokens, next[s]) == s
      ensures forall m :: next[s] < m <= k + 1 ==> Depth(tokens, m) > s
    {
      assert s < |stack| ==> next[s] == stack[s];
    }
  }

  lemma PopClose(tokens: seq<Token>, k: nat, stack: seq<nat>)
    requires k < |tokens| && tokens[k] == Close && stack != [] && OpenBraces(tokens, k, stack)
    ensures OpenBraces(tokens, k + 1, stack[..|stack| - 1])
    ensures stack[|stack| - 1] < |tokens| && Matching(tokens, stack[|stack| - 1], k)
  {
    assert Depth(tokens, k + 1) == Depth(tokens, k) - 1;
  }

  lemma SkipOther(tokens: seq<Token>, k: nat, stack: seq<nat>)
    requires k < |tokens| && tokens[k] == Other && OpenBraces(tokens, k, stack)
    ensures OpenBraces(tokens, k + 1, stack)
  {
    assert Depth(tokens, k + 1) == Depth(tokens, k);
  }

  /** One matching pair for each `}` among the first `k` tokens, in their order. */
  ghost predicate Emitted(tokens: seq<Token>, k: nat, pairs: seq<(nat, nat)>)
    requires k <= |tokens|
  {
    && |pairs| == |Closings(tokens, k)|
    && forall r :: 0 <= r < |pairs| ==>
      && pairs[r].1 == Closings(tokens, k)[r]
      && pairs[r].0 < |tokens| && pairs[r].1 < |tokens|
      && Matching(tokens, pairs[r].0, pairs[r].1)
  }

  /** The loop over the tokens. `None` when it pops an empty stack, which throws; `unclosed` is what the stack holds
      in the end. */
  method HighlightBraces(tokens: seq<Token>) returns (result: Option<seq<(nat, nat)>>, ghost unclosed: seq<nat>)
    ensures result == None <==> Unopened(tokens)
    ensures result.Some? ==> Emitted(tokens, |tokens|, result.value)
    ensures result.Some? ==> OpenBraces(tokens, |tokens|, unclosed) && (unclosed == [] <==> EveryOpenMatched(tokens))
  {
    var stack: seq<nat> := [];
    var pairs: seq<(nat, nat)> := [];
    var k := 0;
    while k < |tokens|
      invariant 0 <= k <= |tokens|
      invariant OpenBraces(tokens, k, stack)
      invariant forall m :: 0 <= m <= k ==> Depth(tokens, m) >= 0
      invariant Emitted(tokens, k, pairs)
    {
      if tokens[k] == Open {
        PushOpen(tokens, k, stack);
        stack := stack + [k];
      } else if tokens[k] == Close {
        if stack == [] {
          assert Depth(tokens, k + 1) < 0;
          return None, [];
        }
        PopClose(tokens, k, stack);
        var open := stack[|stack| - 1];
        stack := stack[..|stack| - 1];
        pairs := pairs + [(open, k)];
      } else {
        SkipOther(tokens, k, stack);
      }
      k := k + 1;
    }
    result, unclosed := Some(pairs), stack;
    EveryOpenMatchedIff(tokens);
  }

  lemma {:induction false} ClosingsAreAll(tokens: seq<Token>, k: nat, j: nat)
    requires k <= |tokens|
    ensures j in Closings(tokens, k) <==> j < k && tokens[j] == Close
  {
    if k > 0 {
      ClosingsAreAll(tokens, k - 1, j);
    }
  }

  /** What the loop emits is the matching itself: each pair matches, and each matching pair is there. */
  lemma EmitsTheMatching(tokens: seq<Token>, pairs: seq<(nat, nat)>, i: nat, j: nat)
    requires Emitted(tokens, |tokens|, pairs) && i < |tokens| && j < |tokens|
    ensures (i, j) in pairs <==> Matching(tokens, i, j)
  {
    if Matching(tokens, i, j) {
      ClosingsAreAll(tokens, |tokens|, j);
      var r :| 0 <= r < |pairs| && Closings(tokens, |tokens|)[r] == j;
      MatchingIsNested(tokens, i, j, pairs[r].0, j);
      assert pairs[r] == (i, j);
    }
  }
}
