# Residual evaluator, modelled in Dafny

The system is a registry of residual terms with an evaluator that sums them. A
residual term is a scalar function. Evaluated at a point `x`, it writes a value
through an output pointer and returns a success flag. A `ResidualEvaluator` holds
references to terms it does not own, in registration order.
`AddResidualTerm` appends a term and returns the number of registered terms.
`Eval(x)` calls every term at `x` in order and adds each one's value to a running
total.

Files:

- `residual_term.dfy`, module `ResidualTerms`. A term is a total function value
  `real -> Evaluation`. An `Evaluation` holds the returned flag and what was stored
  into `*y`: `Some(v)`, or `None` when `*y` was left alone. A total function has no
  reads clause, so it cannot be changed by the evaluator or by registration, and it
  returns the same evaluation every time at the same point. That is the meaning of
  the `const` on the call operator. `KeepsContractAt` states the documented promise:
  a term that reports success has written its value. A term that reports failure
  may leave `*y` alone or store any value there.
- `residual_evaluator.dfy`, module `ResidualEvaluators`. The class
  `ResidualEvaluator` has a `seq` field `residuals`, which `AddResidualTerm`
  reassigns. `Eval` is a `while` loop proved against the specification function
  `Total`. `Total` is `SumPrefix`, an ordered left fold `((0 + y0) + y1) + …`.
  Rounding makes floating-point addition non-associative, so the order is part of
  the definition and no lemma reorders a sum. The same module holds the lemmas that
  relate registration to evaluation.
- `evaluator_scenarios.dfy`, module `EvaluatorScenarios`. Client methods that build
  an evaluator and derive the documented behaviours from the class contracts alone.

How the code behaves, and so how the model behaves:

- `Eval` throws away the boolean that each term returns. It adds `y` whether or not
  the term succeeded.
- `y` is one local declared before the loop. If a term writes nothing, `y` still
  holds the value the previous writing term left there, and that value is added
  again. `LastWriter` names that term, and `Contribution` is its value.
- The loop counter is a 32-bit `int`. With more than 2^31 − 1 registered terms it
  would overflow, which is undefined behaviour, so `Eval` requires at most that
  many terms. Registration itself has no such limit.
- Descriptions of the system call the result "the sum of all terms' values". The
  code adds the stale `y` instead. The model follows the code.
  `TotalOfWrittenValues` and `TotalWhenAllSucceed` show that the two agree when
  every term writes.
- The first term has no earlier value to fall back on. If it writes nothing, the
  value added is uninitialised memory. `Eval` therefore requires `FirstWrites`.
  Inside `Eval`, `y` starts as an arbitrary value (`:= *`), so the proof shows that
  the starting value never reaches the result.
- `AddResidualTerm` returns `residuals.size()` converted to a 32-bit `int`.
  `Int32Of` models that conversion as reduction modulo 2^32. This is the C++20 rule,
  and earlier compilers commonly behave the same way. It is the identity up to
  2^31 − 1 registrations.

## Model

| member | source | states |
|---|---|---|
| `ResidualEvaluators.Int32Of` | sandbox/residual_callbacks/residuals.cc:11 | the returned `int` lies in the 32-bit range, is congruent to the size modulo 2^32, and equals the size when the size fits |
| `ResidualEvaluators.LastWriter` | sandbox/residual_callbacks/residuals.cc:16-20 | the term whose value sits in the shared `y` after term i was called: it is at or before i, it writes, and no term after it up to i writes |
| `ResidualEvaluators.Contribution` | sandbox/residual_callbacks/residuals.cc:16-20 | the value of `y` added at iteration i is what term i writes, or, when term i writes nothing, the value added at iteration i − 1; the returned flag plays no part |
| `ResidualEvaluators.SumPrefix` | sandbox/residual_callbacks/residuals.cc:15-22 | the running total after n iterations is the ordered left fold of the first n values of `y` added |
| `ResidualEvaluators.Total` | sandbox/residual_callbacks/residuals.cc:15-23 | the value `Eval` returns is the ordered left fold of the values of `y` added for all registered terms |
| `ResidualEvaluators.ResidualEvaluator.constructor` | sandbox/residual_callbacks/residuals.h:18 | a new evaluator has an empty registry |
| `ResidualEvaluators.ResidualEvaluator.AddResidualTerm` | sandbox/residual_callbacks/residuals.cc:9-11 | the new registry is the old one with `c` appended at the end, every earlier entry is unchanged, and nothing else changes; the result is the new size as an `int`, which is old size + 1 below 2^31 − 1 |
| `ResidualEvaluators.ResidualEvaluator.Eval` | sandbox/residual_callbacks/residuals.cc:14-24 | for at most 2^31 − 1 terms, the limit of the `int` counter, changes nothing (no modifies clause) and returns the ordered left fold, over the registry in registration order, of the value in `y` after each term is called; the loop invariant is that `total` is that fold over the first i terms |
| `ResidualEvaluators.SumPrefixOfExtension` | sandbox/residual_callbacks/residuals.cc:10 | appending terms leaves the running total over the earlier terms unchanged |
| `ResidualEvaluators.RegisterThenTotal` | sandbox/residual_callbacks/residuals.cc:9-20 | after registering `c`, the total is the old total plus the value `c` writes, or, if `c` writes nothing, plus the value the last term left in `y` |
| `ResidualEvaluators.RegisterTwiceCountsTwice` | sandbox/residual_callbacks/residuals.cc:9-11 | there is no duplicate check: registering a writing term twice adds its value twice |
| `ResidualEvaluators.SumPrefixOfWrittenValues` | sandbox/residual_callbacks/residuals.cc:15-22 | when every term writes, the running total after i iterations is the left fold of the first i written values |
| `ResidualEvaluators.TotalOfWrittenValues` | sandbox/residual_callbacks/residuals.h:23-24 | when every term writes, the result is the ordered sum of all registered terms' values at `x` |
| `ResidualEvaluators.ContributionIgnoresSuccess` | sandbox/residual_callbacks/residuals.cc:19-20 | terms that write the same values get the same value of `y` added at every iteration, whatever flags they return |
| `ResidualEvaluators.TotalIgnoresSuccess` | sandbox/residual_callbacks/residuals.cc:19-20 | the result depends only on what the terms write, never on the flags they return |
| `ResidualEvaluators.FailedTermStillAdded` | sandbox/residual_callbacks/residuals.cc:19-20 | a term that reports failure but writes v has v added |
| `ResidualEvaluators.FailedTermRepeatsPrevious` | sandbox/residual_callbacks/residuals.cc:16-20 | a later term that reports failure and writes nothing has the previous iteration's value added again |
| `ResidualEvaluators.TotalWhenAllSucceed` | sandbox/residual_callbacks/residuals.h:11-13 | when every term keeps its contract (success implies a written value) and succeeds at `x`, evaluation is defined and returns the ordered sum of their values |
| `EvaluatorScenarios.SuccessiveRegistrations` | sandbox/residual_callbacks/residuals.cc:9-11 | three registrations on a new evaluator return 1, 2, 3 |
| `EvaluatorScenarios.EvalEmpty` | sandbox/residual_callbacks/residuals.cc:15-23 | a new evaluator returns 0 at every point |
| `EvaluatorScenarios.EvalSingleConstant` | sandbox/residual_callbacks/residuals.cc:15-20 | a single term that always returns c gives c at every point |
| `EvaluatorScenarios.EvalThreeTerms` | sandbox/residual_callbacks/residuals.cc:14-24 | terms returning 2.0, 3.5 and -1.0 give 4.5 |
| `EvaluatorScenarios.EvalSecondFailsSilently` | sandbox/residual_callbacks/residuals.cc:16-20 | when the second of three terms fails without writing, the first term's 2.0 is added again, so the result is 3.0 |
| `EvaluatorScenarios.EvalSecondFailsWriting` | sandbox/residual_callbacks/residuals.cc:19-20 | when the second of three terms reports failure but writes 3.5, the value is still added, so the result is 4.5 |
| `EvaluatorScenarios.EvalTwice` | sandbox/residual_callbacks/residuals.h:24 | two evaluations with no registration between them return the same value |
| `EvaluatorScenarios.RegisterSameTermTwice` | sandbox/residual_callbacks/residuals.cc:9-11 | the same term registered twice yields counts 1 and 2 and is summed twice |

## Left out

- The `fprintf` diagnostic line in `Eval` (residuals.cc:21) is output I/O and does not affect the result.
- `double` is modelled as `real`. The model has no rounding, NaN or infinity. Sums are stated only as the ordered left fold, and no lemma reorders them.
- ResidualEvaluators.ResidualEvaluator.Eval: requires at most 2^31 − 1 registered terms. Past that, the `int` loop counter of residuals.cc:17 overflows, which is undefined behaviour, and the model does not describe it.
- `Eval` requires its first term to write `y`. In the code, a first term that writes nothing leaves `y` uninitialised, which is undefined behaviour. The model excludes that case.
- Pointer validity and term lifetime are not modelled. A dangling term pointer is undefined behaviour in the code, but a Dafny function value is always valid.
- Virtual dispatch and the constructor and destructor of `ResidualTerm` (residuals.h:9-10, residuals.cc:6-7) are not modelled. They carry no logic. Dispatch becomes a call of the stored function value.
- A term cannot read the incoming value of `*y`. The code hands each term a pointer to the shared `y`, which still holds the previous term's value, but a modelled term depends only on `x`.
- The model does not capture a term whose result depends on mutable state. A total function value always gives the same result at the same point, which is what `const` promises, but a C++ implementation could break that promise through `mutable` members.
- Summation order cannot be observed in `real` arithmetic, because `real` addition is associative. Order is fixed by the definition of `SumPrefix`, not by any lemma.
