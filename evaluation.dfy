/**
 * The two strategies as the stream pipelines actually run them: one rule at a
 * time, in rule order. Each method also returns the indices of the rules
 * whose predicates it invoked, in invocation order, so that how far an
 * evaluation goes can be stated.
 */
module Evaluation {
  import opened Strategies

  /**
   * Fail-fast evaluation: invokes predicates in rule order and stops at the
   * first one that rejects the target.
   */
  method RunFailFast<T>(rules: seq<Rule<T>>, target: T) returns (r: seq<string>, invoked: seq<nat>)
    ensures r == FailFastMessages(rules, target)
    ensures |invoked| <= |rules| && forall k :: 0 <= k < |invoked| ==> invoked[k] == k
    ensures forall k :: 0 <= k < |invoked| - 1 ==> rules[k].pred(target)
    ensures r == [] ==> |invoked| == |rules|
    ensures r != [] ==> 0 < |invoked| && !rules[|invoked| - 1].pred(target) &&
                        r == [rules[|invoked| - 1].message]
  {
    r, invoked := [], [];
    var i := 0;
    while i < |rules|
      invariant i <= |rules|
      invariant |invoked| == i && forall k :: 0 <= k < i ==> invoked[k] == k
      invariant forall k :: 0 <= k < i ==> rules[k].pred(target)
      invariant FirstFailureFrom(rules, target, i) == FirstFailureFrom(rules, target, 0)
    {
      invoked := invoked + [i];
      if !rules[i].pred(target) {
        r := [rules[i].message];
        return;
      }
      i := i + 1;
    }
  }

  /**
   * Collect-all evaluation: invokes every rule's predicate exactly once, in
   * rule order, and keeps the messages of the rules that reject the target.
   */
  method RunCollectAll<T>(rules: seq<Rule<T>>, target: T) returns (r: seq<string>, invoked: seq<nat>)
    ensures r == CollectMessages(rules, target)
    ensures |invoked| == |rules| && forall k :: 0 <= k < |invoked| ==> invoked[k] == k
  {
    r, invoked := [], [];
    var i := 0;
    while i < |rules|
      invariant i <= |rules|
      invariant |invoked| == i && forall k :: 0 <= k < i ==> invoked[k] == k
      invariant r == CollectMessages(rules[..i], target)
    {
      invoked := invoked + [i];
      if !rules[i].pred(target) {
        r := r + [rules[i].message];
      }
      assert rules[..i + 1][..i] == rules[..i];
      i := i + 1;
    }
    assert rules[..i] == rules;
  }

  /** Evaluation under either strategy, as a validator bound to `s` performs it. */
  method Run<T>(s: Strategy, rules: seq<Rule<T>>, target: T) returns (r: seq<string>, invoked: seq<nat>)
    ensures r == s.Validate(rules, target)
    ensures forall k :: 0 <= k < |invoked| ==> invoked[k] == k
    ensures s == CollectErrors ==> |invoked| == |rules|
    ensures s == FailFast ==> (|invoked| ==
          (if FirstFailureFrom(rules, target, 0).Some? then FirstFailureFrom(rules, target, 0).value + 1
           else |rules|))
  {
    match s
    case FailFast =>
      r, invoked := RunFailFast(rules, target);
    case CollectErrors =>
      r, invoked := RunCollectAll(rules, target);
  }
}
