/**
 * The individual generator (`Gerador`). `get` and `getAleatorio` are the
 * abstract factory methods every concrete generator supplies; here a
 * generator is configured by the gene count, the species tag and the kind
 * of locus its individuals carry, and `getAleatorio` fills every slot with
 * a fresh locus of that kind holding an arbitrary value.
 */
module Generators {
  import opened Errors
  import opened Genes
  import opened Beings
  import Seqs

  /** A value of the same kind as `kind` that `copia` can rebuild. */
  function Sample(kind: Value): (v: Value)
    ensures SameKind(v, kind) && Copyable(v)
  {
    match kind
    case Bit(_) => Bit(Some(false))
    case BoxedBit(_) => BoxedBit(None)
    case Integer(_) => Integer(0)
    case Permutation(_) => Permutation(0)
    case Real(_, lo, hi) => Real(None, lo, hi)
  }

  /** An arbitrary value of the generator's locus kind. */
  method RandomValue(kind: Value) returns (v: Value)
    ensures SameKind(v, kind) && Copyable(v)
  {
    var w := Sample(kind);
    v :| SameKind(v, kind) && Copyable(v);
  }

  /** A randomly built individual: every slot holds its own gene of the generator's kind. */
  ghost predicate Complete(s: Ser, length: nat, kind: Value)
    reads s, LociOf(s.genes)
  {
    s.age == 0 && s.fitness == None && s.evaluatedBy == null && |s.genes| == length &&
    DistinctSlots(s.genes) &&
    forall k :: 0 <= k < |s.genes| ==>
      s.genes[k] != null && s.genes[k].owner == s && SameKind(s.genes[k].value, kind) && Copyable(s.genes[k].value)
  }

  class Gerador {
    /** The individuals' id source (`Ser`'s static counter). */
    const counter: IdCounter
    const length: nat
    const species: Species
    const kind: Value
    /** `Operador.algoritmo`: the algorithm this operator is bound to. */
    var algoritmo: object?

    constructor (counter: IdCounter, length: nat, species: Species, kind: Value)
      ensures this.counter == counter && this.length == length && this.species == species && this.kind == kind
      ensures algoritmo == null
    {
      this.counter := counter;
      this.length := length;
      this.species := species;
      this.kind := kind;
      algoritmo := null;
    }

    /** `setAlgoritmo`. */
    method SetAlgoritmo(a: object?)
      modifies this`algoritmo
      ensures algoritmo == a
    {
      algoritmo := a;
    }

    /** `get()`: a new individual of the configured length with every slot empty. */
    method Get() returns (s: Ser)
      modifies counter
      ensures fresh(s) && s.Unborn(length) && s.Valid() && s.species == species
      ensures s.id == old(counter.next) && counter.next == old(counter.next) + 1
    {
      s := new Ser.Slots(counter, length, species);
    }

    /** `getAleatorio()`: a new individual whose every slot holds a fresh gene of the configured kind. */
    method GetAleatorio() returns (s: Ser)
      modifies counter
      ensures fresh(s) && s.Valid() && s.species == species && Complete(s, length, kind)
      ensures forall k :: 0 <= k < |s.genes| ==> fresh(s.genes[k])
      ensures s.id == old(counter.next) && counter.next == old(counter.next) + 1
    {
      var loci: seq<Locus?> := [];
      while |loci| < length
        invariant |loci| <= length && counter.next == old(counter.next)
        invariant forall k :: 0 <= k < |loci| ==>
                    loci[k] != null && fresh(loci[k]) && loci[k].owner == null
                    && SameKind(loci[k].value, kind) && Copyable(loci[k].value)
        invariant DistinctSlots(loci)
      {
        var v := RandomValue(kind);
        var g := new Locus(v);
        loci := loci + [g];
      }
      s := new Ser.Slots(counter, length, species);
      ghost var w;
      var r;
      r, w := s.SetCaracteristicas(loci);
      assert r.Pass?;
      assert loci[..w] == loci;
      assert s.genes == loci;
    }

    /** `getN(n)`: n calls of `get()`, in call order; a negative n is refused by the list's capacity. */
    method GetN(n: int) returns (r: Result<seq<Ser>>)
      modifies counter
      ensures r.Ok? <==> n >= 0
      ensures r.Fail? ==> r.error == IllegalArgument && counter.next == old(counter.next)
      ensures r.Ok? ==> |r.value| == n && counter.next == old(counter.next) + n
      ensures r.Ok? ==> forall k :: 0 <= k < |r.value| ==>
                          fresh(r.value[k]) && r.value[k].Unborn(length) && r.value[k].Valid()
                          && r.value[k].species == species && r.value[k].id == old(counter.next) + k
    {
      if n < 0 {
        return Fail(IllegalArgument);
      }
      var novos: seq<Ser> := [];
      while |novos| < n
        invariant |novos| <= n && counter.next == old(counter.next) + |novos|
        invariant forall k :: 0 <= k < |novos| ==>
                    fresh(novos[k]) && novos[k].Unborn(length) && novos[k].Valid()
                    && novos[k].species == species && novos[k].id == old(counter.next) + k
      {
        var s := Get();
        novos := novos + [s];
      }
      return Ok(novos);
    }

    /** `getNAleatorios(n)`: n calls of `getAleatorio()`, in call order. */
    method GetNAleatorios(n: int) returns (r: Result<seq<Ser>>)
      modifies counter
      ensures r.Ok? <==> n >= 0
      ensures r.Fail? ==> r.error == IllegalArgument && counter.next == old(counter.next)
      ensures r.Ok? ==> |r.value| == n && counter.next == old(counter.next) + n
      ensures r.Ok? ==> forall k :: 0 <= k < |r.value| ==>
                          fresh(r.value[k]) && r.value[k].Valid() && r.value[k].species == species
                          && r.value[k].id == old(counter.next) + k
      ensures r.Ok? ==> forall k :: 0 <= k < |r.value| ==> Complete(r.value[k], length, kind)
      ensures r.Ok? ==> forall k, j :: 0 <= k < |r.value| && 0 <= j < |r.value[k].genes| ==> fresh(r.value[k].genes[j])
      ensures r.Ok? ==> forall a, b :: 0 <= a < b < |r.value| ==> LociOf(r.value[a].genes) !! LociOf(r.value[b].genes)
    {
      if n < 0 {
        return Fail(IllegalArgument);
      }
      var novos: seq<Ser> := [];
      while |novos| < n
        invariant |novos| <= n && counter.next == old(counter.next) + |novos|
        invariant forall k :: 0 <= k < |novos| ==>
                    fresh(novos[k]) && novos[k].Valid() && novos[k].species == species
                    && novos[k].id == old(counter.next) + k
        invariant forall k :: 0 <= k < |novos| ==> Complete(novos[k], length, kind)
        invariant forall k, j :: 0 <= k < |novos| && 0 <= j < |novos[k].genes| ==> fresh(novos[k].genes[j])
        invariant forall a, b :: 0 <= a < b < |novos| ==> LociOf(novos[a].genes) !! LociOf(novos[b].genes)
      {
        var s := GetAleatorio();
        novos := novos + [s];
      }
      return Ok(novos);
    }
  }

  /** Individuals made by consecutive generator calls carry consecutive, hence distinct, ids. */
  lemma ConsecutiveIdsDistinct(xs: seq<Ser>, first: nat)
    requires forall k :: 0 <= k < |xs| ==> xs[k].id == first + k
    ensures Seqs.Distinct(xs)
  {
    forall i, j | 0 <= i < j < |xs| ensures xs[i] != xs[j] {
      assert xs[i].id != xs[j].id;
    }
  }
}
