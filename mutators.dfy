/**
 * The mutation operator (`Mutador` of `ic.ce.populacional.algoritmo.operadores`):
 * a mutation probability in [0, 1], the Bernoulli draw that decides each
 * mutation, and the batch that mutates the members whose draw succeeded.
 * The per-individual `muta` belongs to the subclass; the two concrete
 * gene-wise subclasses are bit flipping (`MutadorBinario`) and random
 * resetting (`MutadorInteiro`), told apart here by `Kind`.
 */
module Mutators {
  import opened Errors
  import opened Genes
  import opened Beings
  import Random
  import Binaries
  import Integers
  import opened Operators

  /** The subclass whose `muta` the operator runs. */
  datatype Kind = BitFlip | RandomReset

  /** What one `muta` call of the given kind may make of a genome. */
  ghost predicate Mutated(kind: Kind, sp: Species, before: seq<Option<Value>>, after: seq<Option<Value>>) {
    match kind
    case BitFlip => Binaries.Drifted(before, after)
    case RandomReset => sp.Bounded? && Integers.KeptOrReset(before, after, sp.lower, sp.upper)
  }

  /** The individuals a subclass is typed for: `MutadorInteiro` takes bounded integer individuals. */
  ghost predicate Accepts(kind: Kind, s: Ser)
    reads s
  {
    kind.RandomReset? ==> s.species.Bounded? && IsInt32(s.species.lower) && IsInt32(s.species.upper)
  }

  /** Every locus any member of a batch holds. */
  ghost function AllLoci(seres: seq<Ser>): set<Locus>
    reads seres
  {
    set k, g | 0 <= k < |seres| && g in LociOf(seres[k].genes) :: g
  }

  /** No locus is held by two members of a batch. */
  ghost predicate Separate(seres: seq<Ser>)
    reads seres
  {
    forall a, b :: 0 <= a < |seres| && 0 <= b < |seres| && a != b ==>
      LociOf(seres[a].genes) !! LociOf(seres[b].genes)
  }

  class Mutador {
    var probabilidade: real
    const kind: Kind
    /** `Operador.algoritmo`: the algorithm this operator is bound to. */
    var algoritmo: object?

    constructor Checked(kind: Kind, p: real)
      requires IsProbability(p)
      ensures this.kind == kind && probabilidade == p && algoritmo == null
    {
      this.kind := kind;
      probabilidade := p;
      algoritmo := null;
    }

    /** `setAlgoritmo`. */
    method SetAlgoritmo(a: object?)
      modifies this`algoritmo
      ensures algoritmo == a
    {
      algoritmo := a;
    }

    /** `setProbabilidadeMutacao`: values outside [0, 1] are refused and change nothing. */
    method SetProbabilidadeMutacao(p: real) returns (r: Outcome)
      modifies this`probabilidade
      ensures r.Pass? <==> IsProbability(p)
      ensures r.Throw? ==> r.error == IllegalArgument
      ensures probabilidade == if IsProbability(p) then p else old(probabilidade)
    {
      if p > 1.0 || p < 0.0 {
        return Throw(IllegalArgument);
      }
      probabilidade := p;
      return Pass;
    }

    /**
     * `sorteiaSeMuta(ser)`: a uniform draw against the mutation
     * probability; the individual is not looked at.
     */
    method SorteiaSeMuta(ser: Ser?) returns (b: bool)
      ensures probabilidade >= 1.0 ==> b
      ensures probabilidade < 0.0 ==> !b
    {
      b := Random.SorteioUniforme(probabilidade);
    }

    /** `muta(S)`: the subclass's mutation of one individual. */
    method MutaSer(origem: Ser) returns (r: Outcome)
      requires Accepts(kind, origem)
      modifies LociOf(origem.genes)`value
      ensures Mutated(kind, origem.species, old(origem.Genome()), origem.Genome())
      ensures r.Throw? ==> r.error in {NullPointer, ClassCast, IllegalArgument}
      ensures kind.BitFlip? && r.Throw? ==> r.error != IllegalArgument
    {
      ghost var flipped;
      match kind
      case BitFlip =>
        r, flipped := Binaries.Muta(origem);
      case RandomReset =>
        r, flipped := Integers.Muta(origem);
    }

    /** `accept(ser)`: the `Consumer` entry point, which is `muta(ser)`. */
    method Accept(ser: Ser) returns (r: Outcome)
      requires Accepts(kind, ser)
      modifies LociOf(ser.genes)`value
      ensures Mutated(kind, ser.species, old(ser.Genome()), ser.Genome())
      ensures r.Throw? ==> r.error in {NullPointer, ClassCast, IllegalArgument}
    {
      r := MutaSer(ser);
    }

    /** `muta` on member i of a batch, which leaves every other member's genome alone. */
    method MutaAt(seres: seq<Ser>, i: int) returns (r: Outcome)
      requires 0 <= i < |seres| && Separate(seres) && Accepts(kind, seres[i])
      modifies LociOf(seres[i].genes)`value
      ensures Mutated(kind, seres[i].species, old(seres[i].Genome()), seres[i].Genome())
      ensures Genomes(seres) == old(Genomes(seres))[i := seres[i].Genome()]
      ensures r.Throw? ==> r.error in {NullPointer, ClassCast, IllegalArgument}
    {
      ghost var before := Genomes(seres);
      r := MutaSer(seres[i]);
      ghost var after := Genomes(seres);
      forall k | 0 <= k < |seres| && k != i ensures after[k] == before[k] {
        assert LociOf(seres[k].genes) !! LociOf(seres[i].genes);
      }
      assert after == before[i := seres[i].Genome()];
    }

    /**
     * `muta(Collection)`: one draw per member, in order, and `muta` on each
     * member whose draw succeeded. `draws` records the draws made; an
     * exception from `muta` ends the batch at the member that raised it.
     */
    method Muta(seres: seq<Ser>) returns (r: Outcome, ghost draws: seq<bool>)
      requires Separate(seres) && forall k :: 0 <= k < |seres| ==> Accepts(kind, seres[k])
      modifies AllLoci(seres)`value
      ensures |draws| <= |seres| && Random.DrawsFollow(probabilidade, draws)
      ensures r.Pass? ==> |draws| == |seres|
      ensures r.Throw? ==> |draws| > 0 && draws[|draws| - 1] && r.error in {NullPointer, ClassCast, IllegalArgument}
      ensures BatchState(kind, seres, old(Genomes(seres)), Genomes(seres), draws)
    {
      ghost var before := Genomes(seres);
      draws := [];
      r := Pass;
      var i := 0;
      while i < |seres| && r.Pass?
        invariant 0 <= i <= |seres| && i == |draws|
        invariant r.Throw? ==> i > 0 && draws[i - 1] && r.error in {NullPointer, ClassCast, IllegalArgument}
        invariant Random.DrawsFollow(probabilidade, draws)
        invariant BatchState(kind, seres, before, Genomes(seres), draws)
      {
        var b;
        r, b := Round(seres, i, before, draws);
        draws := draws + [b];
        i := i + 1;
      }
    }

    /** Round |draws| of the batch: the draw for the next member and, when it succeeds, its mutation. */
    method Round(seres: seq<Ser>, i: int, ghost before: seq<seq<Option<Value>>>, ghost draws: seq<bool>) returns (r: Outcome, b: bool)
      requires Separate(seres) && forall k :: 0 <= k < |seres| ==> Accepts(kind, seres[k])
      requires BatchState(kind, seres, before, Genomes(seres), draws) && i == |draws| < |seres|
      requires Random.DrawsFollow(probabilidade, draws)
      modifies AllLoci(seres)`value
      ensures BatchState(kind, seres, before, Genomes(seres), draws + [b])
      ensures Random.DrawsFollow(probabilidade, draws + [b])
      ensures r.Throw? ==> b && r.error in {NullPointer, ClassCast, IllegalArgument}
    {
      b := SorteiaSeMuta(seres[i]);
      Random.DrawsFollowAppend(probabilidade, draws, b);
      ghost var now := Genomes(seres);
      if b {
        assert LociOf(seres[i].genes) <= AllLoci(seres);
        r := MutaAt(seres, i);
        ghost var next := Genomes(seres);
        BatchStep(kind, seres, before, now, next, draws, b);
      } else {
        r := Pass;
        BatchStep(kind, seres, before, now, now, draws, b);
      }
    }
  }

  /** The genome of every member of a batch. */
  ghost function Genomes(seres: seq<Ser>): (gs: seq<seq<Option<Value>>>)
    reads seres, AllLoci(seres)`value
    ensures |gs| == |seres| && forall k :: 0 <= k < |seres| ==> gs[k] == seres[k].Genome()
  {
    if seres == [] then []
    else
      assert LociOf(seres[0].genes) <= AllLoci(seres);
      assert AllLoci(seres[1..]) <= AllLoci(seres) by {
        forall g | g in AllLoci(seres[1..]) ensures g in AllLoci(seres) {
          var k :| 0 <= k < |seres[1..]| && g in LociOf(seres[1..][k].genes);
          assert seres[1..][k] == seres[k + 1];
        }
      }
      [seres[0].Genome()] + Genomes(seres[1..])
  }

  /**
   * After the first |draws| rounds of a batch: the members whose draw
   * succeeded went through `muta`, every other genome is as it was.
   */
  ghost predicate BatchState(kind: Kind, seres: seq<Ser>, before: seq<seq<Option<Value>>>,
                             now: seq<seq<Option<Value>>>, draws: seq<bool>) {
    |before| == |seres| && |now| == |seres| && |draws| <= |seres| &&
    forall k :: 0 <= k < |seres| ==>
      if k < |draws| && draws[k] then Mutated(kind, seres[k].species, before[k], now[k]) else now[k] == before[k]
  }

  /** One round of a batch: the next member is mutated exactly when its draw succeeded. */
  lemma BatchStep(kind: Kind, seres: seq<Ser>, before: seq<seq<Option<Value>>>, now: seq<seq<Option<Value>>>,
                  next: seq<seq<Option<Value>>>, draws: seq<bool>, b: bool)
    requires BatchState(kind, seres, before, now, draws) && |draws| < |seres|
    requires |next| == |seres|
    requires b ==> next == now[|draws| := next[|draws|]] && Mutated(kind, seres[|draws|].species, now[|draws|], next[|draws|])
    requires !b ==> next == now
    ensures BatchState(kind, seres, before, next, draws + [b])
  {
    var i := |draws|;
    assert now[i] == before[i];
    forall k | 0 <= k < |seres|
      ensures if k < |draws + [b]| && (draws + [b])[k] then Mutated(kind, seres[k].species, before[k], next[k])
              else next[k] == before[k]
    {
      if k < i {
        assert (draws + [b])[k] == draws[k];
      }
    }
  }

  /** `Mutador(p)`: the constructor goes through `setProbabilidadeMutacao`. */
  method NewMutador(kind: Kind, p: real) returns (r: Result<Mutador>)
    ensures r.Ok? <==> IsProbability(p)
    ensures r.Fail? ==> r.error == IllegalArgument
    ensures r.Ok? ==> fresh(r.value) && r.value.kind == kind && r.value.probabilidade == p
  {
    if p > 1.0 || p < 0.0 {
      return Fail(IllegalArgument);
    }
    var m := new Mutador.Checked(kind, p);
    return Ok(m);
  }
}
