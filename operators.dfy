/**
 * The evolutionary operators of `ic.ce.populacional.algoritmo.operadores`:
 * the recombiner's configuration and its canonical crossovers.
 */
module Operators {
  import opened Errors
  import opened Genes
  import opened Beings
  import Random

  /** A probability as the setters accept it: a value in [0, 1]. */
  predicate IsProbability(p: real) {
    0.0 <= p <= 1.0
  }

  /** `Recombinador`: a recombination probability and the number of partners per recombination. */
  class Recombinador {
    var probabilidade: real
    var nParceiros: int
    /** `Operador.algoritmo`: the algorithm this operator is bound to. */
    var algoritmo: object?

    ghost predicate Valid()
      reads this
    {
      IsProbability(probabilidade) && nParceiros > 0
    }

    constructor Checked(p: real, n: int)
      requires IsProbability(p) && n > 0
      ensures probabilidade == p && nParceiros == n && Valid() && algoritmo == null
    {
      probabilidade := p;
      nParceiros := n;
      algoritmo := null;
    }

    /** `setAlgoritmo`. */
    method SetAlgoritmo(a: object?)
      modifies this`algoritmo
      ensures algoritmo == a
    {
      algoritmo := a;
    }

    /** `setProbabilidadeDeRecombinacao`: values outside [0, 1] are refused and change nothing. */
    method SetProbabilidadeDeRecombinacao(p: real) returns (r: Outcome)
      modifies this`probabilidade
      ensures r.Pass? <==> IsProbability(p)
      ensures r.Throw? ==> r.error == IllegalArgument
      ensures probabilidade == if IsProbability(p) then p else old(probabilidade)
    {
      if p > 1.0 || p < 0.0 {
        return Throw(IllegalArgument);
      }
      probabilidade := p;
      return Pass;
    }

    /** `setNParceiros`: counts below 1 are refused and change nothing. */
    method SetNParceiros(n: int) returns (r: Outcome)
      modifies this`nParceiros
      ensures r.Pass? <==> n > 0
      ensures r.Throw? ==> r.error == IllegalArgument
      ensures nParceiros == if n > 0 then n else old(nParceiros)
    {
      if n <= 0 {
        return Throw(IllegalArgument);
      }
      nParceiros := n;
      return Pass;
    }

    /** `sorteiaSeRecombina`: a uniform draw against the recombination probability. */
    method SorteiaSeRecombina() returns (b: bool)
      ensures probabilidade >= 1.0 ==> b
      ensures probabilidade < 0.0 ==> !b
    {
      b := Random.SorteioUniforme(probabilidade);
    }

    /**
     * `recombinaTodos(pares)`: a pool whose size is not a multiple of the
     * partner count throws IllegalState. Otherwise the pool is cut into
     * consecutive groups of `nParceiros` and each group whose draw succeeds
     * contributes what `recombina` makes of it, in pool order. `recombina`
     * is the subclass's recombination, given as a function of the group.
     */
    method RecombinaTodos<T>(pares: seq<T>, recombina: seq<T> -> seq<T>) returns (r: Result<seq<T>>, ghost draws: seq<bool>)
      requires Valid()
      ensures r.Ok? <==> |pares| % nParceiros == 0
      ensures r.Fail? ==> r.error == IllegalState
      ensures nParceiros == 1 ==> r.Ok?
      ensures r.Ok? ==> |draws| * nParceiros == |pares| && Random.DrawsFollow(probabilidade, draws)
      ensures r.Ok? ==> r.value == Offspring(pares, nParceiros, draws, recombina)
    {
      var nPais := nParceiros;
      if |pares| % nPais != 0 {
        return Fail(IllegalState), [];
      }
      var filhos: seq<T> := [];
      draws := [];
      var i := 0;
      while i < |pares|
        invariant 0 <= i <= |pares| && i == |draws| * nPais
        invariant Random.DrawsFollow(probabilidade, draws)
        invariant filhos == Offspring(pares, nPais, draws, recombina)
      {
        GroupFits(i, |draws|, nPais, |pares|);
        var b := SorteiaSeRecombina();
        if b {
          filhos := filhos + recombina(pares[i..i + nPais]);
        }
        assert pares[i..i + nPais] == Group(pares, nPais, |draws|);
        Random.DrawsFollowAppend(probabilidade, draws, b);
        assert (draws + [b])[..|draws|] == draws;
        draws := draws + [b];
        i := i + nPais;
      }
      return Ok(filhos), draws;
    }
  }

  /**
   * `Recombinador(p, n)`: `setNParceiros(n)` then `setProbabilidadeDeRecombinacao(p)`;
   * either refusal makes the constructor throw.
   */
  method NewRecombinador(p: real, n: int) returns (r: Result<Recombinador>)
    ensures r.Ok? <==> IsProbability(p) && n > 0
    ensures r.Fail? ==> r.error == IllegalArgument
    ensures r.Ok? ==> fresh(r.value) && r.value.probabilidade == p && r.value.nParceiros == n
  {
    if n <= 0 || p > 1.0 || p < 0.0 {
      return Fail(IllegalArgument);
    }
    var rec := new Recombinador.Checked(p, n);
    return Ok(rec);
  }

  /** The g-th group of k consecutive individuals of the pool. */
  function Group<T>(pares: seq<T>, k: nat, g: nat): (r: seq<T>)
    requires (g + 1) * k <= |pares|
    ensures |r| == k
    ensures forall t :: 0 <= t < k ==> r[t] == pares[g * k + t]
  {
    MulSucc(g, k);
    pares[g * k..g * k + k]
  }

  /**
   * What `recombinaTodos` returns for the draws of its groups: the
   * recombinations of the drawn groups, concatenated in pool order.
   */
  function Offspring<T>(pares: seq<T>, k: nat, draws: seq<bool>, recombina: seq<T> -> seq<T>): seq<T>
    requires |draws| * k <= |pares|
    decreases |draws|
  {
    if draws == [] then []
    else
      var g := |draws| - 1;
      MulSucc(g, k);
      Offspring(pares, k, draws[..g], recombina) + (if draws[g] then recombina(Group(pares, k, g)) else [])
  }

  lemma MulSucc(d: nat, k: nat)
    ensures (d + 1) * k == d * k + k
  {
  }

  lemma {:induction false} MulMonotone(a: nat, b: nat, k: nat)
    requires a <= b
    ensures a * k <= b * k
    decreases b - a
  {
    if a < b {
      MulMonotone(a, b - 1, k);
      MulSucc(b - 1, k);
    }
  }

  lemma DivExact(n: nat, k: nat)
    requires k > 0 && n % k == 0
    ensures n == (n / k) * k
  {
  }

  /** A group that starts before the end of a pool of whole groups lies inside the pool. */
  lemma GroupFits(i: int, d: nat, k: nat, n: nat)
    requires k > 0 && n % k == 0 && i == d * k && i < n
    ensures i + k <= n && (d + 1) * k == i + k
  {
    MulSucc(d, k);
    var q := n / k;
    DivExact(n, k);
    if q <= d {
      MulMonotone(q, d, k);
    } else {
      MulMonotone(d + 1, q, k);
    }
  }

  /**
   * When every group is drawn and each recombination yields `m`
   * individuals the output has m per group: with `nParceiros` 1, probability
   * 1 and one survivor per group, the pool size is kept.
   */
  lemma {:induction false} OffspringSize<T>(pares: seq<T>, k: nat, draws: seq<bool>, recombina: seq<T> -> seq<T>, m: nat)
    requires |draws| * k <= |pares|
    requires forall g :: 0 <= g < |draws| ==> draws[g]
    requires forall g: nat :: (g + 1) * k <= |pares| ==> |recombina(Group(pares, k, g))| == m
    ensures |Offspring(pares, k, draws, recombina)| == |draws| * m
    decreases |draws|
  {
    if draws != [] {
      var g := |draws| - 1;
      MulSucc(g, k);
      MulSucc(g, m);
      OffspringSize(pares, k, draws[..g], recombina, m);
    }
  }

  /** Every individual `recombinaTodos` returns comes from a drawn group. */
  lemma {:induction false} OffspringFromDrawnGroups<T>(pares: seq<T>, k: nat, draws: seq<bool>, recombina: seq<T> -> seq<T>, x: T)
    requires |draws| * k <= |pares|
    requires x in Offspring(pares, k, draws, recombina)
    ensures exists g: nat :: g < |draws| && (g + 1) * k <= |pares| && draws[g] && x in recombina(Group(pares, k, g))
    decreases |draws|
  {
    var g := |draws| - 1;
    MulSucc(g, k);
    if x !in Offspring(pares, k, draws[..g], recombina) {
      assert draws[g] && x in recombina(Group(pares, k, g));
    } else {
      OffspringFromDrawnGroups(pares, k, draws[..g], recombina, x);
      var h: nat :| h < g && (h + 1) * k <= |pares| && draws[..g][h] && x in recombina(Group(pares, k, h));
      assert draws[h];
    }
  }
}
