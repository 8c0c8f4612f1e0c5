/**
 * The simple genetic algorithm (`AGSimples`): a population algorithm named
 * "AGS" whose step takes the parents the selection operator picks,
 * recombines them group by group, mutates the children and makes the
 * children the whole new population.
 *
 * `getPais` belongs to the subclass of the selection operator, so the step
 * takes the parents it returns, `pais`. The recombination of one group, the
 * subclass's `recombina`, is the function `recombina`. The step's frame is
 * written over a set `cs` of individuals that holds whatever such a
 * recombination can hand back, because the draws that pick the groups are
 * only known once they are made.
 */
module Ags {
  import opened Errors
  import opened Genes
  import opened Beings
  import opened Population
  import opened Operators
  import opened Mutators
  import opened Algorithm
  import opened Populational
  import Random
  import DifferentialEvolution

  /** The name every simple genetic algorithm gives itself. */
  const NomeAGS: string := "AGS"

  /** Every locus a candidate holds. */
  ghost function CandidateLoci(cs: set<Ser>): set<Locus>
    reads cs
  {
    set x, g | x in cs && g in LociOf(x.genes) :: g
  }

  /**
   * What any draws leave for mutation and replacement: children drawn from
   * the candidates `cs`, holding no locus in common, typed for the mutation
   * operator, with distinct ids, and well formed.
   */
  ghost predicate Prontos(kind: Kind, filhos: seq<Ser>, cs: set<Ser>)
    reads cs
  {
    (forall x :: x in filhos ==> x in cs) &&
    Separate(filhos) && (forall k :: 0 <= k < |filhos| ==> Accepts(kind, filhos[k])) &&
    IdsUnique(filhos) && forall x :: x in filhos ==> x.Valid()
  }

  /** Whatever the draws of the groups, the children are ready for mutation and replacement. */
  ghost predicate SempreProntos(kind: Kind, pais: seq<Ser>, k: nat, recombina: seq<Ser> -> seq<Ser>, cs: set<Ser>)
    reads cs
  {
    forall ds: seq<bool> {:trigger Prontos(kind, Offspring(pais, k, ds, recombina), cs)} :: |ds| * k == |pais| ==>
      Prontos(kind, Offspring(pais, k, ds, recombina), cs)
  }

  /**
   * `recombinaTodos` of `rec` cut the parents into whole groups, made one
   * draw per group as its probability demands, and returned the
   * recombinations of the drawn groups in order.
   */
  ghost predicate Recombinou(rec: Recombinador, pais: seq<Ser>, recombina: seq<Ser> -> seq<Ser>,
                             rdraws: seq<bool>, filhos: seq<Ser>)
    reads rec
  {
    rec.nParceiros > 0 && |rdraws| * rec.nParceiros == |pais| && Random.DrawsFollow(rec.probabilidade, rdraws) &&
    filhos == Offspring(pais, rec.nParceiros, rdraws, recombina)
  }

  /** The loci of children drawn from the candidates are candidate loci. */
  lemma LociWithin(filhos: seq<Ser>, cs: set<Ser>)
    requires forall x :: x in filhos ==> x in cs
    ensures AllLoci(filhos) <= CandidateLoci(cs)
  {
    forall g | g in AllLoci(filhos) ensures g in CandidateLoci(cs) {
      var k :| 0 <= k < |filhos| && g in LociOf(filhos[k].genes);
      assert filhos[k] in cs;
    }
  }

  class AGSimples {
    /** The population algorithm this one extends. */
    const alg: AlgoritmoPopulacional

    /** The default constructors up the chain, then the initialiser that names the algorithm "AGS". */
    constructor ()
      ensures fresh(alg) && fresh(alg.base) && alg.base.Valid()
      ensures alg.base.nome == Some(NomeAGS) && alg.base.maxIteracoes == Some(MaxInt)
      ensures alg.base.contadorDeIteracoes == 0 && alg.base.contadorSemMelhoras == 0
      ensures alg.base.ambiente == null && alg.base.melhorSer == null && alg.base.mutador == null
      ensures alg.recombinador == null && alg.seletor == null && alg.populacao == null
    {
      alg := new AlgoritmoPopulacional();
      new;
      alg.base.nome := Some(NomeAGS);
    }

    /**
     * `iteracao`: a missing selection operator, recombiner, mutation
     * operator or population throws NullPointer when it is reached; a
     * parent list a recombiner cannot cut into groups throws IllegalState;
     * an exception of `muta` ends the step. Otherwise the population becomes
     * exactly the children, each evaluated by its environment, and the
     * children's genomes are the mutation batch's.
     */
    method Iteracao(pais: seq<Ser>, recombina: seq<Ser> -> seq<Ser>, ghost cs: set<Ser>)
      returns (r: Outcome, ghost rdraws: seq<bool>, ghost mdraws: seq<bool>, filhos: seq<Ser>)
      requires alg.recombinador != null ==> alg.recombinador.Valid()
      requires alg.recombinador != null && alg.base.mutador != null ==>
                 SempreProntos(alg.base.mutador.kind, pais, alg.recombinador.nParceiros, recombina, cs)
      modifies if alg.populacao == null then {} else {alg.populacao}
      modifies cs`fitness, cs`evaluatedBy, CandidateLoci(cs)`value
      ensures alg.seletor == null || alg.recombinador == null ==> r == Throw(NullPointer)
      ensures alg.seletor != null && alg.recombinador != null && |pais| % alg.recombinador.nParceiros != 0 ==>
                r == Throw(IllegalState)
      ensures r.Pass? ==> alg.seletor != null && alg.recombinador != null && alg.base.mutador != null
      ensures r.Pass? ==> alg.populacao != null
      ensures r.Pass? ==> Recombinou(alg.recombinador, pais, recombina, rdraws, filhos)
      ensures r.Pass? ==> |mdraws| == |filhos| && Random.DrawsFollow(alg.base.mutador.probabilidade, mdraws)
      ensures r.Pass? ==> BatchState(alg.base.mutador.kind, filhos, old(Genomes(filhos)), Genomes(filhos), mdraws)
      ensures r.Pass? ==> alg.populacao.Ascending() && forall x :: x in alg.populacao.members <==> x in filhos
      ensures r.Pass? ==> forall x :: x in alg.populacao.members ==> x.IsAvaliadoPor(alg.populacao.env)
    {
      rdraws, mdraws, filhos := [], [], [];
      if alg.seletor == null || alg.recombinador == null {
        return Throw(NullPointer), rdraws, mdraws, filhos;
      }
      var f;
      f, rdraws := Recombina(pais, recombina, cs);
      if f.Fail? {
        return Throw(f.error), rdraws, mdraws, filhos;
      }
      filhos := f.value;
      if alg.base.mutador == null {
        return Throw(NullPointer), rdraws, mdraws, filhos;
      }
      r, mdraws := Substitui(filhos, cs);
    }

    /**
     * `recombinador.recombinaTodos(pais)`, which changes nothing: the
     * children are drawn from `cs` as they were on entry.
     */
    method Recombina(pais: seq<Ser>, recombina: seq<Ser> -> seq<Ser>, ghost cs: set<Ser>)
      returns (f: Result<seq<Ser>>, ghost rdraws: seq<bool>)
      requires alg.recombinador != null && alg.recombinador.Valid()
      requires alg.base.mutador != null ==>
                 SempreProntos(alg.base.mutador.kind, pais, alg.recombinador.nParceiros, recombina, cs)
      ensures f.Ok? <==> |pais| % alg.recombinador.nParceiros == 0
      ensures f.Fail? ==> f.error == IllegalState
      ensures f.Ok? ==> Recombinou(alg.recombinador, pais, recombina, rdraws, f.value)
      ensures f.Ok? && alg.base.mutador != null ==> Prontos(alg.base.mutador.kind, f.value, cs)
      ensures f.Ok? && alg.base.mutador != null ==> Genomes(f.value) == old(Genomes(f.value))
    {
      f, rdraws := alg.recombinador.RecombinaTodos(pais, recombina);
      if f.Fail? || alg.base.mutador == null {
        return;
      }
      var filhos := f.value;
      assert Prontos(alg.base.mutador.kind, filhos, cs);
      assert forall j :: 0 <= j < |filhos| ==> filhos[j] in cs;
      assert forall j :: 0 <= j < |filhos| ==> old(allocated(filhos[j]));
      forall j | 0 <= j < |filhos| ensures filhos[j].Genome() == old(filhos[j].Genome()) {
        assert filhos[j].genes == old(filhos[j].genes);
        assert forall g :: g in LociOf(filhos[j].genes) ==> old(allocated(g)) && g.value == old(g.value);
      }
      assert Genomes(filhos) == old(Genomes(filhos));
    }

    /** The mutation of the children and their installation as the population. */
    method Substitui(filhos: seq<Ser>, ghost cs: set<Ser>) returns (r: Outcome, ghost mdraws: seq<bool>)
      requires alg.base.mutador != null && Prontos(alg.base.mutador.kind, filhos, cs)
      modifies if alg.populacao == null then {} else {alg.populacao}
      modifies cs`fitness, cs`evaluatedBy, CandidateLoci(cs)`value
      ensures r.Pass? ==> alg.populacao != null
      ensures r.Pass? ==> |mdraws| == |filhos| && Random.DrawsFollow(alg.base.mutador.probabilidade, mdraws)
      ensures r.Pass? ==> BatchState(alg.base.mutador.kind, filhos, old(Genomes(filhos)), Genomes(filhos), mdraws)
      ensures r.Pass? ==> alg.populacao.Ascending() && forall x :: x in alg.populacao.members <==> x in filhos
      ensures r.Pass? ==> forall x :: x in alg.populacao.members ==> x.IsAvaliadoPor(alg.populacao.env)
    {
      ghost var antes := Genomes(filhos);
      LociWithin(filhos, cs);
      r, mdraws := alg.base.mutador.Muta(filhos);
      if r.Throw? {
        return;
      }
      if alg.populacao == null {
        return Throw(NullPointer), mdraws;
      }
      ghost var depois := Genomes(filhos);
      assert BatchState(alg.base.mutador.kind, filhos, antes, depois, mdraws);
      Instala(filhos, depois);
    }

    /** `getPopulacao().setIndividuos(filhos)`, which leaves the children's genomes `depois` as they are. */
    method Instala(filhos: seq<Ser>, ghost depois: seq<seq<Option<Value>>>)
      requires alg.populacao != null && IdsUnique(filhos) && (forall x :: x in filhos ==> x.Valid())
      requires depois == Genomes(filhos)
      modifies alg.populacao`members, (set x | x in filhos)`fitness, (set x | x in filhos)`evaluatedBy
      ensures Genomes(filhos) == depois
      ensures alg.populacao.Ascending() && forall x :: x in alg.populacao.members <==> x in filhos
      ensures forall x :: x in alg.populacao.members ==> x.IsAvaliadoPor(alg.populacao.env)
    {
      var changed := alg.populacao.SetIndividuos(filhos);
      assert forall k :: 0 <= k < |filhos| ==> filhos[k].Genome() == depois[k];
      DifferentialEvolution.SnapshotIsGenomes(depois, filhos);
    }
  }
}
