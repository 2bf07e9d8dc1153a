/**
 * The validator and its builder as heap objects.
 *
 * The builder allocates one growable rule list and appends to it in place.
 * `Build` hands that same list object to the validator it creates, without
 * copying it, while the strategy is passed by value. A validator therefore
 * sees every rule its builder receives later, but not later strategy
 * changes.
 */
module Validators {
  import opened Strategies
  import Evaluation

  /** The growable list of rules a builder owns (a java.util.ArrayList). */
  class RuleList<T> {
    var items: seq<Rule<T>>

    constructor ()
      ensures items == []
    {
      items := [];
    }

    method Add(rule: Rule<T>)
      modifies this
      ensures items == old(items) + [rule]
    {
      items := items + [rule];
    }
  }

  /** A rule list and a strategy, both fixed when the validator is created. */
  class Validator<T> {
    const rules: RuleList<T>
    const strategy: Strategy

    constructor (rules: RuleList<T>, strategy: Strategy)
      ensures this.rules == rules && this.strategy == strategy
    {
      this.rules := rules;
      this.strategy := strategy;
    }

    /**
     * The messages of the failing rules under the bound strategy, for the
     * rules the shared list holds at the moment of the call.
     */
    function Validate(target: T): (r: seq<string>)
      reads rules
      ensures r == strategy.Validate(rules.items, target)
      ensures r == [] <==> forall j :: 0 <= j < |rules.items| ==> rules.items[j].pred(target)
      ensures strategy == FailFast ==> |r| <= 1
    {
      strategy.Validate(rules.items, target)
    }

    /**
     * Validation as it runs, also reporting which predicates were invoked:
     * every one under collect-all, those up to the first failing one under
     * fail-fast.
     */
    method ValidateCounting(target: T) returns (r: seq<string>, invoked: seq<nat>)
      ensures r == Validate(target)
      ensures forall k :: 0 <= k < |invoked| ==> invoked[k] == k
      ensures strategy == CollectErrors ==> |invoked| == |rules.items|
      ensures strategy == FailFast ==> (|invoked| ==
            (if FirstFailureFrom(rules.items, target, 0).Some? then FirstFailureFrom(rules.items, target, 0).value + 1
             else |rules.items|))
    {
      r, invoked := Evaluation.Run(strategy, rules.items, target);
    }
  }

  /** Accumulates rules and a strategy choice; collect-all unless told otherwise. */
  class Builder<T> {
    const rules: RuleList<T>
    var strategy: Strategy

    constructor ()
      ensures fresh(rules) && rules.items == [] && strategy == CollectErrors
    {
      rules := new RuleList();
      strategy := CollectErrors;
    }

    /** Appends one rule to the shared list and returns this builder. */
    method AddRule(message: string, pred: T -> bool) returns (self: Builder<T>)
      modifies rules
      ensures self == this
      ensures rules.items == old(rules.items) + [Rule(message, pred)]
      ensures strategy == old(strategy)
    {
      rules.Add(Rule(message, pred));
      self := this;
    }

    /** Selects fail-fast for the validators built from now on. */
    method FailFast() returns (self: Builder<T>)
      modifies this
      ensures self == this
      ensures strategy == Strategy.FailFast
      ensures unchanged(rules)
    {
      strategy := Strategy.FailFast;
      self := this;
    }

    /** Selects collect-all for the validators built from now on. */
    method CollectAll() returns (self: Builder<T>)
      modifies this
      ensures self == this
      ensures strategy == CollectErrors
      ensures unchanged(rules)
    {
      strategy := CollectErrors;
      self := this;
    }

    /** A validator sharing this builder's rule list, with the current strategy. */
    method Build() returns (v: Validator<T>)
      ensures fresh(v)
      ensures v.rules == rules && v.strategy == strategy
    {
      v := new Validator(rules, strategy);
    }
  }

  /**
   * Building a validator and then adding a rule and changing the strategy on
   * the same builder: the validator reports the new rule, but keeps the
   * strategy it was built with.
   */
  method BuildThenExtend<T>(b: Builder<T>, message: string, pred: T -> bool, target: T)
    returns (v: Validator<T>)
    modifies b, b.rules
    ensures v.rules == b.rules && v.strategy == old(b.strategy) && b.strategy == FailFast
    ensures v.Validate(target) == old(b.strategy).Validate(old(b.rules.items) + [Rule(message, pred)], target)
    ensures old(b.strategy) == CollectErrors && !pred(target) ==>
      v.Validate(target) == CollectMessages(old(b.rules.items), target) + [message]
  {
    v := b.Build();
    var _ := b.AddRule(message, pred);
    var _ := b.FailFast();
    CollectMessagesAppend(old(b.rules.items), [Rule(message, pred)], target);
  }

  predicate IsPositive(n: int) { n > 0 }
  predicate IsEven(n: int) { n % 2 == 0 }

  /** A builder holding the rules "must be positive" then "must be even". */
  method PositiveEvenBuilder() returns (b: Builder<int>)
    ensures fresh(b) && fresh(b.rules) && b.strategy == CollectErrors
    ensures b.rules.items == [Rule("must be positive", IsPositive), Rule("must be even", IsEven)]
  {
    b := new Builder<int>();
    var _ := b.AddRule("must be positive", IsPositive);
    var _ := b.AddRule("must be even", IsEven);
  }

  /** Collect-all reports both failures of -3 and none of 4. */
  method CollectAllScenario()
  {
    var b := PositiveEvenBuilder();
    var v := b.Build();
    var rules := b.rules.items;
    assert rules[..1] == [rules[0]] && [rules[0]][..0] == [];
    assert CollectMessages(rules[..1], -3) == ["must be positive"];
    assert v.Validate(-3) == ["must be positive", "must be even"];
    assert v.Validate(4) == [];
  }

  /** Fail-fast reports only the first failure, and stops at it. */
  method FailFastScenario()
  {
    var b := PositiveEvenBuilder();
    var _ := b.FailFast();
    var v := b.Build();
    assert v.Validate(-3) == ["must be positive"];
    var r, invoked := v.ValidateCounting(-4);
    assert r == ["must be positive"] && |invoked| == 1;
  }

  /** A validator built with no rules accepts everything. */
  method NoRulesScenario(target: int)
  {
    var b := new Builder<int>();
    var v := b.Build();
    assert v.Validate(target) == [];
  }
}
