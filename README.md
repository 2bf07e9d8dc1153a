# Rule-based validator, modelled in Dafny

This project models a small generic validation library. A *rule* pairs a failure
message with a predicate over the target type. A *validator* holds an ordered
list of rules and one of two *evaluation strategies*:

- **fail-fast** returns the message of the first rule whose predicate rejects the
  target, or nothing when every rule accepts it, and stops invoking predicates at
  that rule;
- **collect-all** (called collect-errors in the source) invokes every predicate
  in rule order and returns the messages of all failing rules, in rule order.

A *builder* accumulates rules in a growable list and a strategy choice (collect-all
by default), and `build` produces a validator.

Layout:

- `strategies.dfy` (module `Strategies`): the `Rule` and `Strategy` datatypes,
  each strategy's result as a function, and the lemmas that characterise them:
  collect-all is exactly the failing rules' messages in order, and fail-fast is the
  first element of collect-all.
- `evaluation.dfy` (module `Evaluation`): the strategies as loops that visit one
  rule at a time. They also return the indices of the predicates they invoked, so
  the short-circuit of fail-fast and the "every predicate exactly once" of
  collect-all can be stated. Each loop is proved equal to its function.
- `validators.dfy` (module `Validators`): `RuleList`, the heap-allocated list the
  builder appends to; the `Validator` and `Builder` classes; and client methods
  showing how the builder and the validator share state (`BuildThenExtend`). The
  worked examples `PositiveEvenBuilder`, `CollectAllScenario`, `FailFastScenario`
  and `NoRulesScenario` run a two-rule integer validator ("must be positive", then
  "must be even") under both strategies, and a validator with no rules.

**Sharing between builder and validator.** `build` passes the builder's own list
object to the validator without copying it (Validator.java:45-46 with
Validator.java:27). The model does the same. `Validator.rules` and `Builder.rules`
are the same `RuleList`, and `BuildThenExtend` proves that a rule added after
`Build` shows up in the earlier validator's result. A caller might expect `build`
to copy the rule list; the code does not (Validator.java:27, 46), and this model
follows the code. The strategy, by contrast, is captured by value: `FailFast`
and `CollectAll` assign a new value to the builder's field and do not affect
validators already built. `AppendedRuleChangesResult` states exactly when a rule
appended through the shared list changes an existing validator's result. That
happens when the new rule rejects the target and, under fail-fast, no earlier rule
already does.

Predicates are modelled as pure total functions `T -> bool`. In the source they
are arbitrary code. Any fault a predicate raises propagates out of `validate`
uncaught, and the library does not handle it.

## Model

| member | source | states |
|---|---|---|
| `Strategies.FirstFailureFrom` | src/main/java/dev/felipepedrosa/validator/Validator.java:60-62 | the index it returns rejects the target and every rule before it (from the start point) accepts it; it returns None exactly when every rule accepts the target |
| `Strategies.FailFastMessages` | src/main/java/dev/felipepedrosa/validator/Validator.java:59-64 | fail-fast returns at most one message; it is empty exactly when every predicate holds; otherwise it holds the message of a failing rule all of whose predecessors pass (the lowest-index failure) |
| `Strategies.CollectMessages` | src/main/java/dev/felipepedrosa/validator/Validator.java:70-74 | collect-all returns no more messages than there are rules, and returns none exactly when every predicate holds |
| `Strategies.FailingIndices` | src/main/java/dev/felipepedrosa/validator/Validator.java:71-72 | the filtered rules as indices: ascending, each one failing, and every failing rule included |
| `Strategies.CollectMessagesAt` | src/main/java/dev/felipepedrosa/validator/Validator.java:70-74 | the k-th collected message is the message of the k-th failing rule, and there are as many messages as failing rules: exactly the failing rules, in rule order |
| `Strategies.CollectMessagesMembership` | src/main/java/dev/felipepedrosa/validator/Validator.java:71-73 | a message is collected if and only if some failing rule carries it; passing rules contribute nothing |
| `Strategies.CollectMessagesAppend` | src/main/java/dev/felipepedrosa/validator/Validator.java:71-74 | collecting over a concatenation of rule lists is the concatenation of the collections, so order is preserved |
| `Strategies.FailFastIsFirstCollected` | src/main/java/dev/felipepedrosa/validator/Validator.java:59-75 | the fail-fast result is the first collect-all message, or empty when collect-all returns nothing |
| `Strategies.Strategy.Validate` | src/main/java/dev/felipepedrosa/validator/Validator.java:53-55 | under either strategy the result is empty for an empty rule list and empty exactly when every predicate holds; fail-fast returns at most one message; every returned message belongs to a failing rule |
| `Strategies.AppendedRuleChangesResult` | src/main/java/dev/felipepedrosa/validator/Validator.java:30-33 | appending a rule changes a strategy's result if and only if the new rule fails and, under fail-fast, every earlier rule passes |
| `Evaluation.RunFailFast` | src/main/java/dev/felipepedrosa/validator/Validator.java:60-64 | returns the fail-fast result; invokes the predicates of a prefix of the rules, in order, each once; every invoked predicate except the last passes; it invokes all of them when nothing fails, and otherwise stops at the failing rule whose message it returns |
| `Evaluation.RunCollectAll` | src/main/java/dev/felipepedrosa/validator/Validator.java:71-74 | returns the collect-all result and invokes every rule's predicate exactly once, in rule order |
| `Evaluation.Run` | src/main/java/dev/felipepedrosa/validator/Validator.java:22-24 | runs the bound strategy on the rules and returns what that strategy specifies; it invokes every predicate under collect-all, and under fail-fast exactly those up to and including the first failing rule |
| `Validators.RuleList.constructor` | src/main/java/dev/felipepedrosa/validator/Validator.java:27 | a new rule list is empty |
| `Validators.RuleList.Add` | src/main/java/dev/felipepedrosa/validator/Validator.java:31 | appends exactly one rule at the end, in place |
| `Validators.Validator.constructor` | src/main/java/dev/felipepedrosa/validator/Validator.java:13-16 | the validator keeps the given list object itself (no copy) and the given strategy |
| `Validators.Validator.Validate` | src/main/java/dev/felipepedrosa/validator/Validator.java:22-24 | validate is the bound strategy applied to the rules the shared list currently holds; empty exactly when every predicate holds; at most one message under fail-fast |
| `Validators.Validator.ValidateCounting` | src/main/java/dev/felipepedrosa/validator/Validator.java:22-24 | returns what Validate returns; predicates are invoked in rule order, all of them under collect-all, and under fail-fast up to and including the first failing one |
| `Validators.Builder.constructor` | src/main/java/dev/felipepedrosa/validator/Validator.java:18-28 | a fresh builder has a freshly allocated, empty rule list and the collect-all strategy |
| `Validators.Builder.AddRule` | src/main/java/dev/felipepedrosa/validator/Validator.java:30-33 | appends exactly one Rule(message, predicate) at the end of the builder's list, keeps the earlier rules and the strategy, and returns the same builder |
| `Validators.Builder.FailFast` | src/main/java/dev/felipepedrosa/validator/Validator.java:35-38 | sets only the strategy, to fail-fast, leaving the rule list untouched, and returns the same builder |
| `Validators.Builder.CollectAll` | src/main/java/dev/felipepedrosa/validator/Validator.java:40-43 | sets only the strategy, to collect-all, leaving the rule list untouched, and returns the same builder; so the last strategy call wins |
| `Validators.Builder.Build` | src/main/java/dev/felipepedrosa/validator/Validator.java:45-47 | a new validator whose rule list is the builder's own list object and whose strategy is the builder's current strategy |
| `Validators.BuildThenExtend` | src/main/java/dev/felipepedrosa/validator/Validator.java:45-47 | after build, a rule added to the builder is seen by the earlier validator, while a later strategy change is not |

## Left out

- Predicate faults, side effects and non-termination: predicates are pure total functions. A fault in the source propagates out of `validate` unchanged, and the model has no counterpart for it.
- Null messages, null targets and null predicates: Dafny values are never null. In the source, `List.of(message)` in fail-fast would throw on a null message. A rule added with a null predicate throws a NullPointerException when an evaluation reaches it (Validator.java:61, 72). Under collect-all that is every validation; under fail-fast it happens only when every earlier rule passes.
- Thread safety of sharing a validator: concurrency is not modelled.
- Stream mechanics and result-list mutability: results are immutable `seq<string>`; the lazy stream is modelled as a loop that stops at the first failure.
- Generics, type erasure and the private/static nesting of the classes: these carry no behaviour. The strategy interface and its two implementing classes are one datatype with two constructors.
- The static factory `builder()` is modelled by the `Builder` constructor.
