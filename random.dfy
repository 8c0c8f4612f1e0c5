/**
 * The random sources the engine draws from (`ThreadLocalRandom` and the
 * `Aleatorios` helpers), as nondeterministic choices: each method promises
 * only the range of its draw.
 */
module Random {
  import opened Errors
  import Seqs

  /** `nextInt(lo, hi)`: a value in [lo, hi); an empty range throws. */
  method NextInt(lo: int, hi: int) returns (r: Result<int>)
    ensures r.Ok? <==> lo < hi
    ensures r.Fail? ==> r.error == IllegalArgument
    ensures r.Ok? ==> lo <= r.value < hi
  {
    if lo >= hi {
      return Fail(IllegalArgument);
    }
    var k :| lo <= k < hi;
    return Ok(k);
  }

  /** `nextDouble()`: a value in [0, 1). */
  method NextDouble() returns (u: real)
    ensures 0.0 <= u < 1.0
  {
    assert 0.0 <= 0.0 < 1.0;
    u :| 0.0 <= u < 1.0;
  }

  predicate Within(x: real, a: real, b: real) {
    a <= x < b
  }

  /** `nextDouble(a, b)`: a value in [a, b); an empty range throws. */
  method NextDoubleIn(a: real, b: real) returns (r: Result<real>)
    ensures r.Ok? <==> a < b
    ensures r.Fail? ==> r.error == IllegalArgument
    ensures r.Ok? ==> a <= r.value < b
  {
    if a >= b {
      return Fail(IllegalArgument);
    }
    assert Within(a, a, b);
    var x :| Within(x, a, b);
    assert Within(x, a, b);
    return Ok(x);
  }

  /**
   * `sorteioUniforme(p)`: a uniform draw in [0, 1) compared with `<=` p, so
   * p >= 1 always succeeds and p < 0 never does.
   */
  method SorteioUniforme(p: real) returns (b: bool)
    ensures p >= 1.0 ==> b
    ensures p < 0.0 ==> !b
  {
    var u := NextDouble();
    b := u <= p;
  }

  /** Draws of `sorteioUniforme(p)`, at the two ends where the outcome is certain. */
  predicate DrawsFollow(p: real, draws: seq<bool>) {
    (p >= 1.0 ==> forall k :: 0 <= k < |draws| ==> draws[k]) &&
    (p < 0.0 ==> forall k :: 0 <= k < |draws| ==> !draws[k])
  }

  lemma DrawsFollowAppend(p: real, draws: seq<bool>, d: bool)
    requires DrawsFollow(p, draws) && (p >= 1.0 ==> d) && (p < 0.0 ==> !d)
    ensures DrawsFollow(p, draws + [d])
  {
  }

  /** `nextBoolean()`. */
  method NextBoolean() returns (b: bool)
  {
    b :| true;
  }

  /**
   * The accepted draw of a rejection loop over [lo, hi]: the first value it
   * draws that is not yet in `drawn`.
   */
  method Undrawn(lo: int, hi: int, drawn: seq<int>) returns (k: int)
    requires Seqs.Distinct(drawn) && Seqs.AllIn(drawn, lo, hi) && |drawn| < hi - lo + 1
    ensures lo <= k <= hi && k !in drawn
  {
    ghost var w := Seqs.UndrawnExists(drawn, lo, hi);
    k :| lo <= k <= hi && k !in drawn;
  }

  /**
   * `Math.nextDown(hi)`: the largest double below `hi`. Only a value
   * strictly below `hi` and not below any double `lo` under `hi` is promised.
   */
  method NextDown(hi: real, lo: real) returns (d: real)
    ensures d < hi
    ensures lo < hi ==> lo <= d
  {
    var a := if lo < hi then lo else hi - 1.0;
    assert Within(a, a, hi);
    d :| Within(d, a, hi);
    assert Within(d, a, hi);
  }
}
