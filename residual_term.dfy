/** The residual-term capability: evaluate a scalar function at a point,
    write the value through an output parameter, report success.

    A term is modelled as a total function value. Being total and without a
    reads clause, it always returns the same evaluation for the same point and
    nothing the evaluator does can change it: this is what the `const` on the
    source's call operator promises. */
module ResidualTerms {

  datatype Option<+T> = None | Some(value: T)

  /** What one call `term(x, &y)` does: the boolean it returns, and the value
      it stores into `*y`, or None when it leaves `*y` untouched. */
  datatype Evaluation = Evaluation(success: bool, written: Option<real>)

  /** A residual term, evaluated at a point. */
  type ResidualTerm = real -> Evaluation

  /** The term stores a value into `*y` when evaluated at `x`. */
  predicate Writes(t: ResidualTerm, x: real)
  {
    t(x).written.Some?
  }

  /** The term keeps the documented contract at `x`: when it reports
      success it has written its value into `*y`. A term that reports failure
      may leave `*y` alone or store any value there. */
  predicate KeepsContractAt(t: ResidualTerm, x: real)
  {
    t(x).success ==> Writes(t, x)
  }
}
