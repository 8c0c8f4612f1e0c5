/**
 * Selection (`Seletor`): "best among random" draws a sample of distinct
 * population positions, queues the sampled individuals in a priority
 * queue ordered by the environment's inverse comparator, and polls the
 * requested number of them, best first.
 */
module Selection {
  import opened Errors
  import opened Beings
  import opened Environment
  import opened Population
  import Sampling
  import Seqs

  /** Distinct individuals of `xs` have distinct ids. */
  ghost predicate IdsApart(xs: seq<Ser>) {
    forall a, b :: a in xs && b in xs ==> UniqueIds(a, b)
  }

  /** Best first: every individual is better under `compare` than every later one. */
  ghost predicate Descending(env: Ambiente, xs: seq<Ser>)
    reads Footprint(xs)
  {
    forall i, j :: 0 <= i < j < |xs| ==> env.Compare(xs[i], xs[j]) > 0
  }

  /** The inverse comparator is transitive on individuals with distinct ids. */
  lemma InverseTransitive(env: Ambiente, a: Ser, b: Ser, c: Ser)
    requires UniqueIds(a, b) && UniqueIds(b, c) && UniqueIds(a, c)
    requires env.ComparadorInverso(a, b) <= 0 && env.ComparadorInverso(b, c) <= 0
    ensures env.ComparadorInverso(a, c) <= 0
  {
    env.CompareAntisymmetric(a, b);
    env.CompareAntisymmetric(b, c);
    env.CompareAntisymmetric(a, c);
    env.CompareIsBetter(b, a);
    env.CompareIsBetter(c, b);
    if a != b && b != c {
      env.CompareTransitive(c, b, a);
    }
  }

  /**
   * The head of a `PriorityQueue` built on `comparadorInverso()`: an
   * element no other element precedes under the inverse comparator.
   */
  function Head(env: Ambiente, xs: seq<Ser>): (i: nat)
    requires xs != [] && IdsApart(xs)
    reads Footprint(xs)
    decreases |xs|
    ensures i < |xs| && forall k :: 0 <= k < |xs| ==> env.ComparadorInverso(xs[i], xs[k]) <= 0
  {
    if |xs| == 1 then 0
    else
      assert IdsApart(xs[1..]) by {
        assert forall x :: x in xs[1..] ==> x in xs;
      }
      var j := Head(env, xs[1..]) + 1;
      assert forall k :: 1 <= k < |xs| ==> env.ComparadorInverso(xs[j], xs[k]) <= 0 by {
        forall k | 1 <= k < |xs| ensures env.ComparadorInverso(xs[j], xs[k]) <= 0 {
          assert xs[1..][j - 1] == xs[j] && xs[1..][k - 1] == xs[k];
        }
      }
      if env.ComparadorInverso(xs[0], xs[j]) <= 0 then
        assert forall k :: 0 <= k < |xs| ==> env.ComparadorInverso(xs[0], xs[k]) <= 0 by {
          forall k | 0 <= k < |xs| ensures env.ComparadorInverso(xs[0], xs[k]) <= 0 {
            if k > 0 {
              InverseTransitive(env, xs[0], xs[j], xs[k]);
            }
          }
        }
        0
      else
        env.CompareAntisymmetric(xs[0], xs[j]);
        env.CompareAntisymmetric(xs[j], xs[0]);
        j
  }

  /** `xs` without its element at h. */
  function Without(xs: seq<Ser>, h: nat): (r: seq<Ser>)
    requires h < |xs|
    ensures |r| == |xs| - 1 && multiset(r) + multiset{xs[h]} == multiset(xs)
  {
    assert xs == xs[..h] + [xs[h]] + xs[h + 1..];
    xs[..h] + xs[h + 1..]
  }

  /**
   * One `poll`: the head joins the selection. Best-first order and "no
   * queued individual is better than a selected one" are kept.
   */
  lemma PollStep(env: Ambiente, sel: seq<Ser>, rest: seq<Ser>, h: nat)
    requires h < |rest| && Seqs.Distinct(rest) && IdsApart(rest)
    requires forall k :: 0 <= k < |rest| ==> env.ComparadorInverso(rest[h], rest[k]) <= 0
    requires Descending(env, sel)
    requires forall y, x :: y in sel && x in rest ==> env.Compare(y, x) > 0
    ensures Descending(env, sel + [rest[h]])
    ensures forall y, x :: y in sel + [rest[h]] && x in Without(rest, h) ==> env.Compare(y, x) > 0
    ensures Seqs.Distinct(Without(rest, h)) && IdsApart(Without(rest, h))
  {
    var s, r := rest[h], Without(rest, h);
    WithoutIsSubset(rest, h);
    DescendingAppend(env, sel, s);
    HeadBeatsRest(env, rest, h);
    forall y, x | y in sel + [s] && x in r ensures env.Compare(y, x) > 0 {
      if y != s {
        assert y in sel;
      }
    }
  }

  lemma WithoutIsSubset(rest: seq<Ser>, h: nat)
    requires h < |rest| && Seqs.Distinct(rest) && IdsApart(rest)
    ensures forall x :: x in Without(rest, h) ==> x in rest
    ensures Seqs.Distinct(Without(rest, h)) && IdsApart(Without(rest, h))
  {
    var r := Without(rest, h);
    forall x | x in r ensures x in rest {
      assert x in multiset(r);
    }
    forall p, q | 0 <= p < q < |r| ensures r[p] != r[q] {
      var p', q' := if p < h then p else p + 1, if q < h then q else q + 1;
      assert r[p] == rest[p'] && r[q] == rest[q'];
    }
  }

  lemma DescendingAppend(env: Ambiente, sel: seq<Ser>, s: Ser)
    requires Descending(env, sel)
    requires forall y :: y in sel ==> env.Compare(y, s) > 0
    ensures Descending(env, sel + [s])
  {
    var t := sel + [s];
    forall i, j | 0 <= i < j < |t| ensures env.Compare(t[i], t[j]) > 0 {
      if j == |sel| {
        assert t[i] in sel;
      } else {
        assert t[i] == sel[i] && t[j] == sel[j];
      }
    }
  }

  /** The head is better than everything left in the queue. */
  lemma HeadBeatsRest(env: Ambiente, rest: seq<Ser>, h: nat)
    requires h < |rest| && Seqs.Distinct(rest) && IdsApart(rest)
    requires forall k :: 0 <= k < |rest| ==> env.ComparadorInverso(rest[h], rest[k]) <= 0
    ensures forall x :: x in Without(rest, h) ==> env.Compare(rest[h], x) > 0
  {
    var s, r := rest[h], Without(rest, h);
    forall k | 0 <= k < |r| ensures env.Compare(s, r[k]) > 0 {
      var k' := if k < h then k else k + 1;
      assert r[k] == rest[k'];
      env.CompareAntisymmetric(s, r[k]);
      env.CompareIsBetter(r[k], s);
    }
  }

  class Seletor {
    const ambiente: Ambiente
    const populacao: Populacao
    /** `Operador.algoritmo`: the algorithm this operator is bound to. */
    var algoritmo: object?

    constructor (ambiente: Ambiente, populacao: Populacao)
      ensures this.ambiente == ambiente && this.populacao == populacao && algoritmo == null
    {
      this.ambiente := ambiente;
      this.populacao := populacao;
      algoritmo := null;
    }

    /** `setAlgoritmo`. */
    method SetAlgoritmo(a: object?)
      modifies this`algoritmo
      ensures algoritmo == a
    {
      algoritmo := a;
    }

    /**
     * `melhoresEntreAleatorios(nMelhores, nAleatorios)`: asking for more
     * than the sample holds throws IllegalArgument; the sample is
     * `nAleatorios` distinct positions, drawn by the unchecked sampler, which
     * refuses a negative count, throws on an empty population and never
     * returns when the count exceeds a non-empty population's size; a
     * negative `nMelhores` is refused by the result list's capacity.
     * `amostra` is the sampled individuals.
     */
    method MelhoresEntreAleatorios(nMelhores: int, nAleatorios: int) returns (r: Result<seq<Ser>>, ghost amostra: seq<Ser>)
      requires populacao.Ascending() && IdsUnique(populacao.members)
      ensures nMelhores > nAleatorios ==> r == Fail(IllegalArgument)
      ensures r.Ok? <==> 0 <= nMelhores <= nAleatorios <= |populacao.members|
      ensures r.Fail? ==>
                r.error == if nMelhores <= nAleatorios && 0 < |populacao.members| < nAleatorios then NeverReturns else IllegalArgument
      ensures r.Ok? ==> |amostra| == nAleatorios && Seqs.Distinct(amostra)
                        && forall x :: x in amostra ==> x in populacao.members
      ensures r.Ok? ==> |r.value| == nMelhores && forall x :: x in r.value ==> x in amostra
      ensures r.Ok? ==> Descending(ambiente, r.value)
      ensures r.Ok? ==> forall x, y :: x in amostra && x !in r.value && y in r.value ==> ambiente.Compare(y, x) > 0
    {
      amostra := [];
      if nMelhores > nAleatorios {
        return Fail(IllegalArgument), amostra;
      }
      var indices := Sampling.GetUniformePopulacaoN(populacao, nAleatorios);
      if indices.Fail? {
        return Fail(indices.error), amostra;
      }
      if nMelhores < 0 {
        return Fail(IllegalArgument), amostra;
      }
      assert Footprint(populacao.members) == old(Footprint(populacao.members));
      var melhores := Sample(indices.value);
      amostra := melhores;
      var selecionados := Polls(melhores, nMelhores);
      return Ok(selecionados), amostra;
    }

    /** The second loop: n polls of the queue holding `fila`. */
    method Polls(fila: seq<Ser>, n: nat) returns (selecionados: seq<Ser>)
      requires n <= |fila| && Seqs.Distinct(fila) && IdsApart(fila)
      ensures |selecionados| == n && forall x :: x in selecionados ==> x in fila
      ensures Descending(ambiente, selecionados)
      ensures forall x, y :: x in fila && x !in selecionados && y in selecionados ==> ambiente.Compare(y, x) > 0
    {
      var melhores := fila;
      selecionados := [];
      while |selecionados| < n
        invariant |selecionados| <= n && |melhores| == |fila| - |selecionados|
        invariant multiset(selecionados) + multiset(melhores) == multiset(fila)
        invariant Seqs.Distinct(melhores) && IdsApart(melhores)
        invariant Descending(ambiente, selecionados)
        invariant forall y, x :: y in selecionados && x in melhores ==> ambiente.Compare(y, x) > 0
      {
        var h := Head(ambiente, melhores);
        PollStep(ambiente, selecionados, melhores, h);
        selecionados := selecionados + [melhores[h]];
        melhores := Without(melhores, h);
      }
      Selected(selecionados, melhores, fila);
    }

    /** The first loop: the individual at each sampled position, in sample order. */
    method Sample(indices: seq<int>) returns (fila: seq<Ser>)
      requires populacao.Ascending() && IdsUnique(populacao.members)
      requires Sampling.DistinctSample(indices, |indices|, 0, |populacao.members| - 1)
      ensures |fila| == |indices| && forall k :: 0 <= k < |fila| ==> fila[k] == populacao.members[indices[k]]
      ensures Seqs.Distinct(fila) && IdsApart(fila)
    {
      fila := [];
      var k := 0;
      while k < |indices|
        invariant 0 <= k <= |indices| && |fila| == k
        invariant forall m :: 0 <= m < k ==> fila[m] == populacao.members[indices[m]]
      {
        var s := populacao.Get(indices[k]);
        fila := fila + [s.value];
        k := k + 1;
      }
      assert Footprint(populacao.members) == old(Footprint(populacao.members));
      populacao.AscendingDistinct();
      Picked(populacao.members, indices, fila);
    }
  }

  /** The individuals at distinct positions of a population are distinct, with distinct ids. */
  lemma Picked(members: seq<Ser>, indices: seq<int>, fila: seq<Ser>)
    requires Seqs.Distinct(members) && IdsUnique(members)
    requires Sampling.DistinctSample(indices, |indices|, 0, |members| - 1)
    requires |fila| == |indices| && forall k :: 0 <= k < |fila| ==> fila[k] == members[indices[k]]
    ensures Seqs.Distinct(fila) && IdsApart(fila)
  {
    forall p, q | 0 <= p < q < |fila| ensures fila[p] != fila[q] {
      assert indices[p] != indices[q];
    }
    forall a, b | a in fila && b in fila ensures UniqueIds(a, b) {
      var p :| 0 <= p < |fila| && fila[p] == a;
      var q :| 0 <= q < |fila| && fila[q] == b;
      assert a == members[indices[p]] && b == members[indices[q]];
    }
  }

  /** At the end of the polls: what was selected and what is still queued make up the sample. */
  lemma Selected(sel: seq<Ser>, rest: seq<Ser>, amostra: seq<Ser>)
    requires multiset(sel) + multiset(rest) == multiset(amostra)
    requires Seqs.Distinct(amostra)
    ensures forall x :: x in sel ==> x in amostra
    ensures forall x :: x in amostra && x !in sel ==> x in rest
  {
    forall x | x in sel ensures x in amostra {
      assert x in multiset(sel);
      assert x in multiset(amostra);
    }
    forall x | x in amostra && x !in sel ensures x in rest {
      assert x in multiset(amostra);
    }
  }
}
