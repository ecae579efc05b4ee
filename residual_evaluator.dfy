/** The residual evaluator: an append-only registry of residual terms that it
    does not own, and the evaluation of their sum at a point. */
module ResidualEvaluators {
  import opened ResidualTerms

  const INT_MIN: int := -0x8000_0000
  const INT_MAX: int := 0x7fff_ffff

  /** The `int` that a registry size becomes when returned from a function
      declared to return a 32-bit `int`: the size reduced modulo 2^32 into
      the two's-complement range. */
  function Int32Of(n: nat): (r: int)
    ensures INT_MIN <= r <= INT_MAX
    ensures (n - r) % 0x1_0000_0000 == 0
    ensures n <= INT_MAX ==> r == n
  {
    var m := n % 0x1_0000_0000;
    if m <= INT_MAX then m else m - 0x1_0000_0000
  }

  /** Evaluation may start: the value added for the first term is defined
      only if that term writes `y`, since `y` has no initial value. */
  predicate FirstWrites(terms: seq<ResidualTerm>, x: real)
  {
    |terms| > 0 ==> Writes(terms[0], x)
  }

  /** The most recent term, among terms 0..i, that wrote `y`. Because `y` is
      shared by all iterations, this is the term whose value sits in `y` after
      term i was called. */
  function LastWriter(terms: seq<ResidualTerm>, x: real, i: nat): (j: nat)
    requires i < |terms| && FirstWrites(terms, x)
    ensures j <= i && Writes(terms[j], x)
    ensures forall k :: j < k <= i ==> !Writes(terms[k], x)
    decreases i
  {
    if Writes(terms[i], x) then i else LastWriter(terms, x, i - 1)
  }

  /** The value of `y` that iteration i adds to the total: what term i
      writes, or, when it writes nothing, what iteration i - 1 added. The
      flag term i returns plays no part. */
  function Contribution(terms: seq<ResidualTerm>, x: real, i: nat): (y: real)
    requires i < |terms| && FirstWrites(terms, x)
    ensures Writes(terms[i], x) ==> y == terms[i](x).written.value
    ensures !Writes(terms[i], x) ==> i > 0 && y == Contribution(terms, x, i - 1)
  {
    terms[LastWriter(terms, x, i)](x).written.value
  }

  /** Reference definition: the ordered left fold of a sequence of values,
      ((0 + v0) + v1) + ... */
  function LeftSum(values: seq<real>): real
    decreases |values|
  {
    if values == [] then 0.0 else LeftSum(values[..|values| - 1]) + values[|values| - 1]
  }

  /** The values of `y` the loop adds, one per registered term, in order. */
  function AddedValues(terms: seq<ResidualTerm>, x: real): (ys: seq<real>)
    requires FirstWrites(terms, x)
    ensures |ys| == |terms|
    ensures forall i :: 0 <= i < |terms| ==> ys[i] == Contribution(terms, x, i)
  {
    seq(|terms|, i requires 0 <= i < |terms| && FirstWrites(terms, x) => Contribution(terms, x, i))
  }

  /** The running total after the first n iterations: the ordered left fold
      of the first n values of `y` added. */
  function SumPrefix(terms: seq<ResidualTerm>, x: real, n: nat): (total: real)
    requires n <= |terms| && FirstWrites(terms, x)
    ensures total == LeftSum(AddedValues(terms, x)[..n])
    decreases n
  {
    if n == 0 then 0.0
    else
      var ys := AddedValues(terms, x);
      assert ys[..n][..n - 1] == ys[..n - 1];
      SumPrefix(terms, x, n - 1) + Contribution(terms, x, n - 1)
  }

  /** What evaluating the whole registry at x returns: the ordered left fold
      of all values of `y` added. */
  function Total(terms: seq<ResidualTerm>, x: real): (total: real)
    requires FirstWrites(terms, x)
    ensures total == LeftSum(AddedValues(terms, x))
  {
    assert AddedValues(terms, x)[..|terms|] == AddedValues(terms, x);
    SumPrefix(terms, x, |terms|)
  }

  /** The values the terms write at x, in registration order. */
  function WrittenValues(terms: seq<ResidualTerm>, x: real): (vs: seq<real>)
    requires forall i :: 0 <= i < |terms| ==> Writes(terms[i], x)
    ensures |vs| == |terms|
    ensures forall i :: 0 <= i < |terms| ==> terms[i](x).written == Some(vs[i])
  {
    seq(|terms|, i requires 0 <= i < |terms| && Writes(terms[i], x) => terms[i](x).written.value)
  }

  class ResidualEvaluator {
    /** The registered terms, in registration order. */
    var residuals: seq<ResidualTerm>

    /** A new evaluator has no registered term. */
    constructor ()
      ensures residuals == []
    {
      residuals := [];
    }

    /** Registers `c` at the end of the registry, without any duplicate check,
        and returns the number of registered terms as an `int`. */
    method AddResidualTerm(c: ResidualTerm) returns (count: int)
      modifies this
      ensures residuals == old(residuals) + [c]
      ensures count == Int32Of(|residuals|)
      ensures |old(residuals)| < INT_MAX ==> count == |old(residuals)| + 1
    {
      residuals := residuals + [c];
      count := Int32Of(|residuals|);
    }

    /** Sums the values the registered terms write at x, in registration
        order. Each term's success flag is discarded, and a term that writes
        nothing leaves the previous term's value in `y`, which is added again.
        The loop counter is a 32-bit `int`, so the registry may hold at most
        INT_MAX terms: one more and the counter would overflow. */
    method Eval(x: real) returns (total: real)
      requires FirstWrites(residuals, x)
      requires |residuals| <= INT_MAX
      ensures total == Total(residuals, x)
    {
      total := 0.0;
      var y: real := *;
      var i := 0;
      while i < |residuals|
        invariant 0 <= i <= |residuals| <= INT_MAX
        invariant total == SumPrefix(residuals, x, i)
        invariant i > 0 ==> y == Contribution(residuals, x, i - 1)
      {
        var cost := residuals[i];
        var e := cost(x);
        if e.written.Some? {
          y := e.written.value;
        }
        total := total + y;
        i := i + 1;
      }
    }
  }

  /** Extending the registry does not change which term last wrote `y`
      among the earlier ones. */
  lemma {:induction false} LastWriterOfExtension(terms: seq<ResidualTerm>, more: seq<ResidualTerm>, x: real, i: nat)
    requires i < |terms| && FirstWrites(terms, x)
    ensures FirstWrites(terms + more, x)
    ensures LastWriter(terms + more, x, i) == LastWriter(terms, x, i)
    decreases i
  {
    assert (terms + more)[i] == terms[i];
    assert (terms + more)[0] == terms[0];
    if !Writes(terms[i], x) {
      LastWriterOfExtension(terms, more, x, i - 1);
    }
  }

  /** Extending the registry does not change the running total over the
      earlier terms. */
  lemma SumPrefixOfExtension(terms: seq<ResidualTerm>, more: seq<ResidualTerm>, x: real, n: nat)
    requires n <= |terms| && FirstWrites(terms, x) && FirstWrites(terms + more, x)
    ensures SumPrefix(terms + more, x, n) == SumPrefix(terms, x, n)
  {
    forall i | 0 <= i < n
      ensures Contribution(terms + more, x, i) == Contribution(terms, x, i)
    {
      LastWriterOfExtension(terms, more, x, i);
      assert (terms + more)[LastWriter(terms, x, i)] == terms[LastWriter(terms, x, i)];
    }
    assert AddedValues(terms + more, x)[..n] == AddedValues(terms, x)[..n];
  }

  /** Registering a term adds exactly the value iteration |terms| adds to the
      previous total: the total over the old registry, plus what the new term
      writes, or, if it writes nothing, the value the last term left in `y`. */
  lemma RegisterThenTotal(terms: seq<ResidualTerm>, c: ResidualTerm, x: real)
    requires FirstWrites(terms + [c], x)
    ensures FirstWrites(terms, x)
    ensures Writes(c, x) ==> Total(terms + [c], x) == Total(terms, x) + c(x).written.value
    ensures !Writes(c, x) ==>
      |terms| > 0 && Total(terms + [c], x) == Total(terms, x) + Contribution(terms, x, |terms| - 1)
  {
    var s := terms + [c];
    assert |terms| > 0 ==> s[0] == terms[0];
    SumPrefixOfExtension(terms, [c], x, |terms|);
    assert s[|terms|] == c;
    if !Writes(c, x) {
      assert |terms| > 0;
      LastWriterOfExtension(terms, [c], x, |terms| - 1);
      assert s[LastWriter(terms, x, |terms| - 1)] == terms[LastWriter(terms, x, |terms| - 1)];
    }
  }

  /** No duplicate check: a term registered twice is added twice. */
  lemma RegisterTwiceCountsTwice(terms: seq<ResidualTerm>, c: ResidualTerm, x: real)
    requires FirstWrites(terms, x) && Writes(c, x)
    ensures FirstWrites(terms + [c] + [c], x)
    ensures Total(terms + [c] + [c], x) == Total(terms, x) + c(x).written.value + c(x).written.value
  {
    assert |terms| > 0 ==> (terms + [c])[0] == terms[0];
    assert (terms + [c] + [c])[0] == (terms + [c])[0];
    RegisterThenTotal(terms + [c], c, x);
    RegisterThenTotal(terms, c, x);
  }

  /** When every term writes, the total is the ordered left fold of the
      values they write: the sum of all registered terms at x. */
  lemma {:induction false} SumPrefixOfWrittenValues(terms: seq<ResidualTerm>, x: real, n: nat)
    requires n <= |terms|
    requires forall i :: 0 <= i < |terms| ==> Writes(terms[i], x)
    ensures FirstWrites(terms, x)
    ensures SumPrefix(terms, x, n) == LeftSum(WrittenValues(terms, x)[..n])
    decreases n
  {
    var vs := WrittenValues(terms, x);
    if n > 0 {
      SumPrefixOfWrittenValues(terms, x, n - 1);
      assert vs[..n][..n - 1] == vs[..n - 1];
    }
  }

  lemma TotalOfWrittenValues(terms: seq<ResidualTerm>, x: real)
    requires forall i :: 0 <= i < |terms| ==> Writes(terms[i], x)
    ensures FirstWrites(terms, x)
    ensures Total(terms, x) == LeftSum(WrittenValues(terms, x))
  {
    SumPrefixOfWrittenValues(terms, x, |terms|);
    assert WrittenValues(terms, x)[..|terms|] == WrittenValues(terms, x);
  }

  /** Terms writing the same values at x get the same value of `y` added,
      whatever flags they return. */
  lemma {:induction false} ContributionIgnoresSuccess(terms: seq<ResidualTerm>, others: seq<ResidualTerm>, x: real, i: nat)
    requires |terms| == |others|
    requires forall k :: 0 <= k < |terms| ==> terms[k](x).written == others[k](x).written
    requires i < |terms| && FirstWrites(terms, x)
    ensures FirstWrites(others, x)
    ensures Contribution(others, x, i) == Contribution(terms, x, i)
    decreases i
  {
    assert terms[0](x).written == others[0](x).written;
    assert terms[i](x).written == others[i](x).written;
    if !Writes(terms[i], x) {
      ContributionIgnoresSuccess(terms, others, x, i - 1);
    }
  }

  lemma SumPrefixIgnoresSuccess(terms: seq<ResidualTerm>, others: seq<ResidualTerm>, x: real, n: nat)
    requires |terms| == |others|
    requires forall k :: 0 <= k < |terms| ==> terms[k](x).written == others[k](x).written
    requires n <= |terms| && FirstWrites(terms, x)
    ensures FirstWrites(others, x)
    ensures SumPrefix(others, x, n) == SumPrefix(terms, x, n)
  {
    if |terms| > 0 {
      assert terms[0](x).written == others[0](x).written;
    }
    forall i | 0 <= i < |terms|
      ensures Contribution(others, x, i) == Contribution(terms, x, i)
    {
      ContributionIgnoresSuccess(terms, others, x, i);
    }
    assert AddedValues(others, x) == AddedValues(terms, x);
  }

  /** The success flags are never consulted: two registries whose terms write
      the same values at x have the same total, whatever they report. */
  lemma TotalIgnoresSuccess(terms: seq<ResidualTerm>, others: seq<ResidualTerm>, x: real)
    requires |terms| == |others|
    requires forall k :: 0 <= k < |terms| ==> terms[k](x).written == others[k](x).written
    requires FirstWrites(terms, x)
    ensures FirstWrites(others, x)
    ensures Total(others, x) == Total(terms, x)
  {
    SumPrefixIgnoresSuccess(terms, others, x, |terms|);
  }

  /** A term that reports failure but writes a value has that value added. */
  lemma FailedTermStillAdded(terms: seq<ResidualTerm>, x: real, i: nat)
    requires i < |terms| && FirstWrites(terms, x)
    requires !terms[i](x).success && Writes(terms[i], x)
    ensures Contribution(terms, x, i) == terms[i](x).written.value
  {
  }

  /** A term that reports failure and writes nothing has the previous
      iteration's value added once more. */
  lemma FailedTermRepeatsPrevious(terms: seq<ResidualTerm>, x: real, i: nat)
    requires 0 < i < |terms| && FirstWrites(terms, x)
    requires !terms[i](x).success && !Writes(terms[i], x)
    ensures Contribution(terms, x, i) == Contribution(terms, x, i - 1)
  {
  }

  /** When every term keeps its contract and succeeds at x, evaluation is
      defined and returns the left fold of their values. */
  lemma TotalWhenAllSucceed(terms: seq<ResidualTerm>, x: real)
    requires forall i :: 0 <= i < |terms| ==> KeepsContractAt(terms[i], x) && terms[i](x).success
    ensures forall i :: 0 <= i < |terms| ==> Writes(terms[i], x)
    ensures FirstWrites(terms, x)
    ensures Total(terms, x) == LeftSum(WrittenValues(terms, x))
  {
    TotalOfWrittenValues(terms, x);
  }
}
