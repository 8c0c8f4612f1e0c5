/**
 * Random positions (`IndiceAleatorio`): a single index, an index in a
 * closed range, and lists of pairwise-distinct indices, over a gene list, an
 * individual or a population.
 *
 * The distinct-index overloads are rejection loops; each iteration here is
 * an accepted draw (`Random.Undrawn`), which is what makes the loop's
 * progress measurable.
 */
module Sampling {
  import opened Errors
  import opened Genes
  import opened Beings
  import opened Population
  import opened Seqs
  import Random

  /** `n` pairwise-distinct indices from [lo, hi]. */
  predicate DistinctSample(s: seq<int>, n: int, lo: int, hi: int) {
    |s| == n && Distinct(s) && AllIn(s, lo, hi)
  }

  /** `getUniforme(origem)`: an index of the list; an empty list throws. */
  method GetUniforme(origem: seq<Locus?>) returns (r: Result<int>)
    ensures r.Ok? <==> |origem| > 0
    ensures r.Fail? ==> r.error == IllegalArgument
    ensures r.Ok? ==> 0 <= r.value < |origem|
  {
    r := Random.NextInt(0, |origem|);
  }

  /** `getUniforme(ser)`: the same over the individual's genes. */
  method GetUniformeSer(origem: Ser) returns (r: Result<int>)
    ensures r.Ok? <==> |origem.genes| > 0
    ensures r.Fail? ==> r.error == IllegalArgument
    ensures r.Ok? ==> 0 <= r.value < |origem.genes|
  {
    r := GetUniforme(origem.genes);
  }

  /** `getUniforme(origem, lo, hi)`: an index in [lo, hi], which must lie inside the list. */
  method GetUniformeRange(origem: seq<Locus?>, lo: int, hi: int) returns (r: Result<int>)
    ensures r.Ok? <==> 0 <= lo <= hi < |origem|
    ensures r.Fail? ==> r.error == IllegalArgument
    ensures r.Ok? ==> lo <= r.value <= hi
  {
    if lo < 0 || lo > hi || hi >= |origem| {
      return Fail(IllegalArgument);
    }
    r := Random.NextInt(lo, hi + 1);
  }

  method GetUniformeSerRange(origem: Ser, lo: int, hi: int) returns (r: Result<int>)
    ensures r.Ok? <==> 0 <= lo <= hi < |origem.genes|
    ensures r.Fail? ==> r.error == IllegalArgument
    ensures r.Ok? ==> lo <= r.value <= hi
  {
    r := GetUniformeRange(origem.genes, lo, hi);
  }

  /** The rejection loop shared by the distinct-index overloads: n accepted draws from [lo, hi]. */
  method Draw(n: nat, lo: int, hi: int) returns (numeros: seq<int>)
    requires n <= hi - lo + 1
    ensures DistinctSample(numeros, n, lo, hi)
  {
    numeros := [];
    while |numeros| < n
      invariant |numeros| <= n && DistinctSample(numeros, |numeros|, lo, hi)
      decreases n - |numeros|
    {
      var k := Random.Undrawn(lo, hi, numeros);
      numeros := numeros + [k];
    }
  }

  /**
   * `getUniforme(origem, n)`: n distinct indices of the list. More indices
   * than positions throw, and so does a negative n (the list's capacity).
   */
  method GetUniformeN(origem: seq<Locus?>, n: int) returns (r: Result<seq<int>>)
    ensures r.Ok? <==> 0 <= n <= |origem|
    ensures r.Fail? ==> r.error == IllegalArgument
    ensures r.Ok? ==> DistinctSample(r.value, n, 0, |origem| - 1)
  {
    if n > |origem| || n < 0 {
      return Fail(IllegalArgument);
    }
    var s := Draw(n, 0, |origem| - 1);
    return Ok(s);
  }

  method GetUniformeSerN(origem: Ser, n: int) returns (r: Result<seq<int>>)
    ensures r.Ok? <==> 0 <= n <= |origem.genes|
    ensures r.Fail? ==> r.error == IllegalArgument
    ensures r.Ok? ==> DistinctSample(r.value, n, 0, |origem.genes| - 1)
  {
    r := GetUniformeN(origem.genes, n);
  }

  /** `getUniforme(origem, n, lo, hi)`: n distinct indices from [lo, hi] inside the list. */
  method GetUniformeNRange(origem: seq<Locus?>, n: int, lo: int, hi: int) returns (r: Result<seq<int>>)
    ensures r.Ok? <==> 0 <= n <= |origem| && 0 <= lo <= hi < |origem| && n <= hi - lo + 1
    ensures r.Fail? ==> r.error == IllegalArgument
    ensures r.Ok? ==> DistinctSample(r.value, n, lo, hi)
  {
    if n > |origem| || lo < 0 || lo > hi || hi >= |origem| || n > hi - lo + 1 || n < 0 {
      return Fail(IllegalArgument);
    }
    var s := Draw(n, lo, hi);
    return Ok(s);
  }

  method GetUniformeSerNRange(origem: Ser, n: int, lo: int, hi: int) returns (r: Result<seq<int>>)
    ensures r.Ok? <==> 0 <= n <= |origem.genes| && 0 <= lo <= hi < |origem.genes| && n <= hi - lo + 1
    ensures r.Fail? ==> r.error == IllegalArgument
    ensures r.Ok? ==> DistinctSample(r.value, n, lo, hi)
  {
    r := GetUniformeNRange(origem.genes, n, lo, hi);
  }

  /** `getUniforme(populacao)`: a position of the population; an empty one throws. */
  method GetUniformePopulacao(origem: Populacao) returns (r: Result<int>)
    ensures r.Ok? <==> |origem.members| > 0
    ensures r.Fail? ==> r.error == IllegalArgument
    ensures r.Ok? ==> 0 <= r.value < |origem.members|
  {
    r := Random.NextInt(0, |origem.members|);
  }

  /**
   * `getUniforme(populacao, n)` as written has no bound check: with
   * 0 < size < n its loop keeps rejecting forever, because no list of n
   * distinct positions exists to stop it.
   */
  lemma PopulationSampleUnreachable(numeros: seq<int>, n: int, size: int)
    requires 0 < size < n
    requires Distinct(numeros) && AllIn(numeros, 0, size - 1)
    ensures |numeros| < n
  {
    DistinctInRangeBound(numeros, 0, size - 1);
  }

  /**
   * `getUniforme(populacao, n)` as written: the list's capacity refuses a
   * negative n; no draw is made for n = 0; the first draw from an empty
   * population throws; for 0 < size < n the rejection loop never ends (every
   * list it can accept is shorter than n, `PopulationSampleUnreachable`);
   * otherwise n distinct positions.
   */
  method GetUniformePopulacaoN(origem: Populacao, n: int) returns (r: Result<seq<int>>)
    ensures r.Ok? <==> 0 <= n <= |origem.members|
    ensures n < 0 || (n > 0 && |origem.members| == 0) ==> r == Fail(IllegalArgument)
    ensures 0 < |origem.members| < n ==> r == Fail(NeverReturns)
    ensures r.Ok? ==> DistinctSample(r.value, n, 0, |origem.members| - 1)
  {
    if n < 0 || (n > 0 && |origem.members| == 0) {
      return Fail(IllegalArgument);
    }
    if |origem.members| < n {
      return Fail(NeverReturns);
    }
    var s := Draw(n, 0, |origem.members| - 1);
    return Ok(s);
  }

  /**
   * `getUniforme(populacao, n)` with the bound check of the list overload:
   * n distinct positions, or IllegalArgument when n is negative or exceeds
   * the size, so the call always returns.
   */
  method GetUniformePopulacaoNChecked(origem: Populacao, n: int) returns (r: Result<seq<int>>)
    ensures r.Ok? <==> 0 <= n <= |origem.members|
    ensures r.Fail? ==> r.error == IllegalArgument
    ensures r.Ok? ==> DistinctSample(r.value, n, 0, |origem.members| - 1)
  {
    if n < 0 || n > |origem.members| {
      return Fail(IllegalArgument);
    }
    var s := Draw(n, 0, |origem.members| - 1);
    return Ok(s);
  }
}
