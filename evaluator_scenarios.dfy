/** Callers of the evaluator: the behaviours a client can rely on, derived
    from the contracts of ResidualEvaluator alone. */
module EvaluatorScenarios {
  import opened ResidualTerms
  import opened ResidualEvaluators

  /** A term that succeeds everywhere with the value c. */
  function Constant(c: real): ResidualTerm
  {
    x => Evaluation(true, Some(c))
  }

  /** A term that reports failure everywhere and writes nothing, as its
      contract allows. */
  function SilentFailure(): ResidualTerm
  {
    x => Evaluation(false, None)
  }

  /** A term that reports failure everywhere but still writes c. */
  function FailureWriting(c: real): ResidualTerm
  {
    x => Evaluation(false, Some(c))
  }

  /** Successive registrations on a new evaluator return 1, 2, 3. */
  method SuccessiveRegistrations(a: ResidualTerm, b: ResidualTerm, c: ResidualTerm)
    returns (first: int, second: int, third: int)
    ensures first == 1 && second == 2 && third == 3
  {
    var e := new ResidualEvaluator();
    first := e.AddResidualTerm(a);
    second := e.AddResidualTerm(b);
    third := e.AddResidualTerm(c);
  }

  /** A new evaluator sums to 0 at every point. */
  method EvalEmpty(x: real) returns (total: real)
    ensures total == 0.0
  {
    var e := new ResidualEvaluator();
    total := e.Eval(x);
  }

  /** One term that always returns c sums to c at every point. */
  method EvalSingleConstant(c: real, x: real) returns (total: real)
    ensures total == c
  {
    var e := new ResidualEvaluator();
    var _ := e.AddResidualTerm(Constant(c));
    total := e.Eval(x);
    assert [] + [e.residuals[0]] == e.residuals;
    RegisterThenTotal([], e.residuals[0], x);
  }

  /** Terms returning 2.0, 3.5 and -1.0 sum to 4.5. */
  method EvalThreeTerms(x: real) returns (total: real)
    ensures total == 4.5
  {
    var e := new ResidualEvaluator();
    var _ := e.AddResidualTerm(Constant(2.0));
    var _ := e.AddResidualTerm(Constant(3.5));
    var _ := e.AddResidualTerm(Constant(-1.0));
    total := e.Eval(x);
    var s := e.residuals;
    assert s[..2] + [s[2]] == s && s[..1] + [s[1]] == s[..2] && [] + [s[0]] == s[..1];
    RegisterThenTotal([], s[0], x);
    RegisterThenTotal(s[..1], s[1], x);
    RegisterThenTotal(s[..2], s[2], x);
  }

  /** The second of three terms fails without writing: the first term's
      2.0 is added in its place, so the sum is 3.0 rather than 1.0. */
  method EvalSecondFailsSilently(x: real) returns (total: real)
    ensures total == 3.0
  {
    var e := new ResidualEvaluator();
    var _ := e.AddResidualTerm(Constant(2.0));
    var _ := e.AddResidualTerm(SilentFailure());
    var _ := e.AddResidualTerm(Constant(-1.0));
    total := e.Eval(x);
    var s := e.residuals;
    assert s[..2] + [s[2]] == s && s[..1] + [s[1]] == s[..2] && [] + [s[0]] == s[..1];
    RegisterThenTotal([], s[0], x);
    RegisterThenTotal(s[..1], s[1], x);
    RegisterThenTotal(s[..2], s[2], x);
  }

  /** The second of three terms reports failure but writes 3.5: its value is
      added regardless, so the sum is 4.5. */
  method EvalSecondFailsWriting(x: real) returns (total: real)
    ensures total == 4.5
  {
    var e := new ResidualEvaluator();
    var _ := e.AddResidualTerm(Constant(2.0));
    var _ := e.AddResidualTerm(FailureWriting(3.5));
    var _ := e.AddResidualTerm(Constant(-1.0));
    total := e.Eval(x);
    var s := e.residuals;
    assert s[..2] + [s[2]] == s && s[..1] + [s[1]] == s[..2] && [] + [s[0]] == s[..1];
    RegisterThenTotal([], s[0], x);
    RegisterThenTotal(s[..1], s[1], x);
    RegisterThenTotal(s[..2], s[2], x);
  }

  /** Evaluating twice with no registration in between gives the same value. */
  method EvalTwice(e: ResidualEvaluator, x: real) returns (first: real, second: real)
    requires FirstWrites(e.residuals, x) && |e.residuals| <= INT_MAX
    ensures first == second == Total(e.residuals, x)
  {
    first := e.Eval(x);
    second := e.Eval(x);
  }

  /** Registering the same term twice counts it twice. */
  method RegisterSameTermTwice(c: ResidualTerm, x: real) returns (first: int, second: int, total: real)
    requires Writes(c, x)
    ensures first == 1 && second == 2
    ensures total == c(x).written.value + c(x).written.value
  {
    var e := new ResidualEvaluator();
    first := e.AddResidualTerm(c);
    second := e.AddResidualTerm(c);
    RegisterTwiceCountsTwice([], c, x);
    assert e.residuals == [] + [c] + [c];
    total := e.Eval(x);
  }
}
