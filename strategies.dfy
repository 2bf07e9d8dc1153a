/**
 * Rules and the two evaluation strategies of the validator: what each
 * strategy returns for a sequence of rules and a target, and how the two
 * results relate.
 *
 * A rule's predicate is a pure, total function. In the Java library a
 * predicate is arbitrary code; any fault it raises simply propagates out of validation
 * uncaught, so nothing here needs to represent it.
 */
module Strategies {

  /** A failure message together with the predicate a valid target satisfies. */
  datatype Rule<!T> = Rule(message: string, pred: T -> bool)

  datatype Option<T> = None | Some(value: T)

  /**
   * The index of the first rule at or after `from` whose predicate rejects
   * `target`, or None when every one of them accepts it (a lazy
   * filter-then-findFirst over the rules).
   */
  function FirstFailureFrom<T>(rules: seq<Rule<T>>, target: T, from: nat): (k: Option<nat>)
    requires from <= |rules|
    ensures k.Some? ==> from <= k.value < |rules| && !rules[k.value].pred(target)
    ensures k.Some? ==> forall j :: from <= j < k.value ==> rules[j].pred(target)
    ensures k.None? <==> forall j :: from <= j < |rules| ==> rules[j].pred(target)
    decreases |rules| - from
  {
    if from == |rules| then None
    else if !rules[from].pred(target) then Some(from)
    else FirstFailureFrom(rules, target, from + 1)
  }

  /**
   * The fail-fast result: the message of the lowest-index rule that rejects
   * `target`, as a one-element sequence, or the empty sequence when every
   * rule accepts it.
   */
  function FailFastMessages<T>(rules: seq<Rule<T>>, target: T): (r: seq<string>)
    ensures |r| <= 1
    ensures r == [] <==> forall j :: 0 <= j < |rules| ==> rules[j].pred(target)
    ensures r != [] ==>
      exists k :: 0 <= k < |rules| && !rules[k].pred(target) && r[0] == rules[k].message &&
        forall j :: 0 <= j < k ==> rules[j].pred(target)
  {
    match FirstFailureFrom(rules, target, 0)
    case None => []
    case Some(k) => [rules[k].message]
  }

  /**
   * The collect-all result: the messages of the rules that reject `target`,
   * in rule order. Defined on the last rule so that appending a rule (what a
   * builder does) extends the definition by one step.
   */
  function CollectMessages<T>(rules: seq<Rule<T>>, target: T): (r: seq<string>)
    ensures |r| <= |rules|
    ensures r == [] <==> forall j :: 0 <= j < |rules| ==> rules[j].pred(target)
    decreases |rules|
  {
    if rules == [] then []
    else
      var last := rules[|rules| - 1];
      var earlier := rules[..|rules| - 1];
      assert forall j :: 0 <= j < |earlier| ==> earlier[j] == rules[j];
      CollectMessages(earlier, target) + (if last.pred(target) then [] else [last.message])
  }

  /**
   * The indices of the rules that reject `target`, ascending: which rules
   * fail, stated without reference to messages.
   */
  function FailingIndices<T>(rules: seq<Rule<T>>, target: T): (idx: seq<nat>)
    ensures forall k :: 0 <= k < |idx| ==> idx[k] < |rules| && !rules[idx[k]].pred(target)
    ensures forall k, l :: 0 <= k < l < |idx| ==> idx[k] < idx[l]
    ensures forall j :: 0 <= j < |rules| && !rules[j].pred(target) ==> j in idx
    decreases |rules|
  {
    if rules == [] then []
    else
      var n := |rules| - 1;
      var earlier := rules[..n];
      assert forall j :: 0 <= j < n ==> earlier[j] == rules[j];
      FailingIndices(earlier, target) + (if rules[n].pred(target) then [] else [n])
  }

  /** The two evaluation strategies; a validator is bound to one of them. */
  datatype Strategy = FailFast | CollectErrors {

    /** What a validator bound to this strategy returns for `rules` and `target`. */
    function Validate<T>(rules: seq<Rule<T>>, target: T): (r: seq<string>)
      ensures rules == [] ==> r == []
      ensures r == [] <==> forall j :: 0 <= j < |rules| ==> rules[j].pred(target)
      ensures this == FailFast ==> |r| <= 1
      ensures forall m :: m in r ==>
        exists j :: 0 <= j < |rules| && !rules[j].pred(target) && rules[j].message == m
    {
      CollectMessagesMembership(rules, target);
      FailFastIsFirstCollected(rules, target);
      match this
      case FailFast => FailFastMessages(rules, target)
      case CollectErrors => CollectMessages(rules, target)
    }
  }

  /**
   * Collect-all returns exactly the messages of the failing rules, in rule
   * order: its k-th message is the message of the k-th failing rule.
   */
  lemma {:induction false} CollectMessagesAt<T>(rules: seq<Rule<T>>, target: T)
    ensures |CollectMessages(rules, target)| == |FailingIndices(rules, target)|
    ensures forall k :: 0 <= k < |FailingIndices(rules, target)| ==>
      CollectMessages(rules, target)[k] == rules[FailingIndices(rules, target)[k]].message
    decreases |rules|
  {
    if rules != [] {
      var n := |rules| - 1;
      var earlier := rules[..n];
      CollectMessagesAt(earlier, target);
      var idx := FailingIndices(earlier, target);
      forall k | 0 <= k < |idx|
        ensures CollectMessages(earlier, target)[k] == rules[idx[k]].message
      {
        assert earlier[idx[k]] == rules[idx[k]];
      }
    }
  }

  /** A message is collected exactly when some failing rule carries it. */
  lemma {:induction false} CollectMessagesMembership<T>(rules: seq<Rule<T>>, target: T)
    ensures forall m :: m in CollectMessages(rules, target) <==>
      exists j :: 0 <= j < |rules| && !rules[j].pred(target) && rules[j].message == m
  {
    var r, idx := CollectMessages(rules, target), FailingIndices(rules, target);
    CollectMessagesAt(rules, target);
    forall m | m in r
      ensures exists j :: 0 <= j < |rules| && !rules[j].pred(target) && rules[j].message == m
    {
      var k :| 0 <= k < |r| && r[k] == m;
      assert rules[idx[k]].message == m;
    }
    forall j | 0 <= j < |rules| && !rules[j].pred(target)
      ensures rules[j].message in r
    {
      var k :| 0 <= k < |idx| && idx[k] == j;
      assert r[k] == rules[j].message;
    }
  }

  /** Collecting over a concatenation collects over each part, in order. */
  lemma {:induction false} CollectMessagesAppend<T>(a: seq<Rule<T>>, b: seq<Rule<T>>, target: T)
    ensures CollectMessages(a + b, target) == CollectMessages(a, target) + CollectMessages(b, target)
    decreases |b|
  {
    if b == [] {
      assert a + b == a;
    } else {
      var n := |b| - 1;
      assert (a + b)[..|a + b| - 1] == a + b[..n];
      CollectMessagesAppend(a, b[..n], target);
    }
  }

  /**
   * Fail-fast returns the first message collect-all would return, or nothing
   * when collect-all returns nothing.
   */
  lemma {:induction false} FailFastIsFirstCollected<T>(rules: seq<Rule<T>>, target: T)
    ensures FailFastMessages(rules, target) ==
      if CollectMessages(rules, target) == [] then [] else [CollectMessages(rules, target)[0]]
  {
    var first := FirstFailureFrom(rules, target, 0);
    if first.Some? {
      var k := first.value;
      var idx := FailingIndices(rules, target);
      CollectMessagesAt(rules, target);
      assert k in idx;
      var p :| 0 <= p < |idx| && idx[p] == k;
      assert !rules[idx[0]].pred(target);
      assert idx[0] == k;
    }
  }

  /**
   * Whether appending one rule changes what a strategy returns: it does
   * exactly when the new rule rejects the target and, under fail-fast, no
   * earlier rule already did.
   */
  lemma AppendedRuleChangesResult<T>(s: Strategy, rules: seq<Rule<T>>, rule: Rule<T>, target: T)
    ensures s.Validate(rules + [rule], target) != s.Validate(rules, target) <==>
      !rule.pred(target) &&
      (s == CollectErrors || forall j :: 0 <= j < |rules| ==> rules[j].pred(target))
  {
    CollectMessagesAppend(rules, [rule], target);
    assert [rule][..0] == [];
    FailFastIsFirstCollected(rules, target);
    FailFastIsFirstCollected(rules + [rule], target);
  }
}
