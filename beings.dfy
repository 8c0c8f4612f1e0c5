/**
 * Individuals (`Ser` and the fixed-length `SerFixo` of both packages): an id
 * drawn from a global counter, an age, a fitness with the environment that
 * computed it, and a fixed-size list of gene slots.
 */
module Beings {
  import opened Errors
  import opened Genes
  import Seqs

  /** The static `contadorDeSeres`; `getContadorDeSeres` is a read of `next`. */
  class IdCounter {
    var next: nat

    constructor ()
      ensures next == 0
    {
      next := 0;
    }
  }

  /** The final fields a concrete individual class adds: `SerInteiro`'s inclusive bounds. */
  datatype Species = Plain | Bounded(lower: int, upper: int)

  /** The singleton frame of a possibly null gene. */
  function Just(g: Locus?): set<Locus> {
    if g == null then {} else {g}
  }

  /** The loci a list of gene slots refers to. */
  function LociOf(gs: seq<Locus?>): set<Locus> {
    set g: Locus | g in gs
  }

  /** The value in each slot of a gene list, None for an empty slot. */
  function GenomeOf(gs: seq<Locus?>): (vs: seq<Option<Value>>)
    reads LociOf(gs)`value
    ensures |vs| == |gs|
    ensures forall i :: 0 <= i < |gs| ==> vs[i] == if gs[i] == null then None else Some(gs[i].value)
  {
    if gs == [] then []
    else
      assert LociOf(gs[1..]) <= LociOf(gs);
      [if gs[0] == null then None else Some(gs[0].value)] + GenomeOf(gs[1..])
  }

  /** No locus sits in two slots (a gene may be stored twice, `setCaracteristica` allows it). */
  predicate DistinctSlots(gs: seq<Locus?>) {
    forall k, j :: 0 <= k < j < |gs| && gs[k] != null ==> gs[k] != gs[j]
  }

  /** The value in a gene slot, None for an empty one. */
  function Slot(g: Locus?): Option<Value>
    reads Just(g)`value
  {
    if g == null then None else Some(g.value)
  }

  lemma SlotsAreGenome(gs: seq<Locus?>)
    ensures forall k :: 0 <= k < |gs| ==> GenomeOf(gs)[k] == Slot(gs[k])
  {
  }

  /** `gs` with `xs` written over it from position `at` on. */
  function Overwrite<T>(gs: seq<T>, at: int, xs: seq<T>): (r: seq<T>)
    requires xs == [] || (0 <= at && at + |xs| <= |gs|)
    ensures |r| == |gs|
    ensures forall k :: 0 <= k < |gs| ==> r[k] == if xs != [] && at <= k < at + |xs| then xs[k - at] else gs[k]
  {
    if xs == [] then gs else gs[..at] + xs + gs[at + |xs|..]
  }

  lemma OverwriteStep<T>(gs: seq<T>, at: int, xs: seq<T>, x: T)
    requires 0 <= at && at + |xs| < |gs|
    ensures Overwrite(gs, at, xs + [x]) == Overwrite(gs, at, xs)[at + |xs| := x]
  {
  }

  /** The genes written by a successful copying setter: copies of `origem`, in order. */
  ghost predicate CopiesOf(copies: seq<Locus>, origem: seq<Locus?>)
    reads LociOf(origem), set c | c in copies
  {
    |copies| == |origem| &&
    forall k :: 0 <= k < |copies| ==> origem[k] != null && copies[k].value == origem[k].value
  }

  class Ser {
    const id: nat
    const species: Species
    var age: int
    var fitness: Option<real>
    /** `avaliadoPor`: the environment that stored the fitness. */
    var evaluatedBy: object?
    var genes: seq<Locus?>

    ghost predicate Valid()
      reads this
    {
      IsInt32(age) && (evaluatedBy != null ==> fitness.Some?)
    }

    /** Just built: age 0, no fitness, no evaluator, `n` empty slots. */
    ghost predicate Unborn(n: nat)
      reads this
    {
      age == 0 && fitness == None && evaluatedBy == null && genes == seq(n, _ => null)
    }

    /**
     * `Ser()` followed by `SerFixo` allocating `n` empty slots. The id is the
     * counter's value before its post-increment.
     */
    constructor Slots(counter: IdCounter, n: nat, sp: Species)
      modifies counter
      ensures id == old(counter.next) && counter.next == old(counter.next) + 1
      ensures species == sp && Unborn(n) && Valid()
    {
      id := counter.next;
      species := sp;
      age := 0;
      fitness := None;
      evaluatedBy := null;
      genes := seq(n, _ => null);
      new;
      counter.next := counter.next + 1;
    }

    function Genome(): (vs: seq<Option<Value>>)
      reads this`genes, LociOf(genes)`value
      ensures |vs| == |genes|
    {
      GenomeOf(genes)
    }

    /** `setIdade`: negative ages are refused and leave the age as it was. */
    method SetIdade(idade: int) returns (r: Outcome)
      requires IsInt32(idade)
      modifies this`age
      ensures r.Pass? <==> idade >= 0
      ensures r.Throw? ==> r.error == IllegalArgument
      ensures age == if idade >= 0 then idade else old(age)
    {
      if idade < 0 {
        return Throw(IllegalArgument);
      }
      age := idade;
      return Pass;
    }

    /**
     * `envelhece`: `++idade` on an `int`, so one year older, except that
     * `Integer.MAX_VALUE` wraps round to `Integer.MIN_VALUE`; the new age is
     * returned.
     */
    method Envelhece() returns (a: int)
      requires IsInt32(age)
      modifies this`age
      ensures age == Succ32(old(age)) && a == age
      ensures old(age) < MaxInt ==> age == old(age) + 1
      ensures old(age) == MaxInt ==> age == MinInt
    {
      age := Succ32(age);
      a := age;
    }

    /**
     * `setCaracteristica`: refused on an evaluated individual; otherwise the gene
     * is bound to this individual (which may itself fail) and then stored at
     * `indice`. A bad index is only noticed after the binding.
     */
    method SetCaracteristica(indice: int, g: Locus?) returns (r: Outcome)
      modifies this`genes, Just(g)`owner
      ensures r.Pass? <==> fitness.None? && g != null && (old(g.owner) == null || old(g.owner) == this)
                            && 0 <= indice < |old(genes)|
      ensures genes == if r.Pass? then old(genes)[indice := g] else old(genes)
      ensures g != null ==>
                g.owner == (if fitness.None? && (old(g.owner) == null || old(g.owner) == this) then this else old(g.owner))
      ensures r.Throw? ==>
                r.error == (if fitness.Some? then IllegalState
                            else if g == null then NullPointer
                            else if old(g.owner) != null && old(g.owner) != this then IllegalState
                            else IndexOutOfBounds)
    {
      if fitness.Some? {
        return Throw(IllegalState);
      }
      if g == null {
        return Throw(NullPointer);
      }
      var bound := g.SetSer(this);
      if bound.Throw? {
        return bound;
      }
      if !(0 <= indice < |genes|) {
        return Throw(IndexOutOfBounds);
      }
      genes := genes[indice := g];
      return Pass;
    }

    /**
     * `setCaracteristicas(indice, origem)`: origem[k] is stored at indice + k, in
     * order, until the first refused write. `written` counts the stored genes.
     */
    method SetCaracteristicasAt(indice: int, origem: seq<Locus?>) returns (r: Outcome, ghost written: nat)
      modifies this`genes, LociOf(origem)`owner
      ensures written <= |origem| && (r.Pass? <==> written == |origem|)
      ensures r.Pass? <==>
                (origem == [] || (fitness.None? && 0 <= indice && indice + |origem| <= |old(genes)|)) &&
                (forall k :: 0 <= k < |origem| ==> old(Bindable(origem[k])))
      ensures written > 0 ==> 0 <= indice && indice + written <= |old(genes)|
      ensures genes == Overwrite(old(genes), indice, origem[..written])
      ensures forall k :: 0 <= k < written ==> origem[k] != null && origem[k].owner == this
      ensures r.Throw? && fitness.Some? ==> r.error == IllegalState
      ensures r.Throw? ==> r.error == NullPointer || r.error == IllegalState || r.error == IndexOutOfBounds
      ensures r.Throw? && r.error == IndexOutOfBounds ==>
                fitness.None? && !(0 <= indice && indice + |origem| <= |old(genes)|)
    {
      var i := 0;
      written := 0;
      while i < |origem|
        invariant 0 <= i <= |origem| && written == i
        invariant i > 0 ==> fitness.None? && 0 <= indice && indice + i <= |old(genes)|
        invariant genes == Overwrite(old(genes), indice, origem[..i])
        invariant forall k :: 0 <= k < i ==> origem[k] != null && origem[k].owner == this
        invariant forall k :: 0 <= k < i ==> old(Bindable(origem[k]))
        invariant forall k :: i <= k < |origem| && origem[k] !in origem[..i] ==>
                    origem[k] != null ==> origem[k].owner == old(origem[k].owner)
      {
        r := SetCaracteristica(indice + i, origem[i]);
        if r.Throw? {
          return;
        }
        assert origem[..i + 1] == origem[..i] + [origem[i]];
        OverwriteStep(old(genes), indice, origem[..i], origem[i]);
        i := i + 1;
        written := i;
      }
      r := Pass;
      assert origem[..i] == origem;
    }

    /** `setCaracteristicas(list)`: the list's genes at positions 0, 1, ... in order. */
    method SetCaracteristicas(list: seq<Locus?>) returns (r: Outcome, ghost written: nat)
      modifies this`genes, LociOf(list)`owner
      ensures written <= |list| && (r.Pass? <==> written == |list|)
      ensures r.Pass? <==>
                (list == [] || (fitness.None? && |list| <= |old(genes)|)) &&
                (forall k :: 0 <= k < |list| ==> old(Bindable(list[k])))
      ensures written > 0 ==> written <= |old(genes)|
      ensures genes == Overwrite(old(genes), 0, list[..written])
      ensures forall k :: 0 <= k < written ==> list[k] != null && list[k].owner == this
      ensures r.Throw? ==> r.error == NullPointer || r.error == IllegalState || r.error == IndexOutOfBounds
      ensures r.Throw? && r.error == IndexOutOfBounds ==> fitness.None? && |list| > |old(genes)|
    {
      r, written := SetCaracteristicasAt(0, list);
    }

    /** A gene slot `setSer(this)` accepts: a gene with no owner or owned by this individual. */
    ghost predicate Bindable(g: Locus?)
      reads Just(g)
    {
      g != null && (g.owner == null || g.owner == this)
    }

    /** `setCaracteristicaCopia`: stores a copy (fresh and unowned) of `origem` at `indice`. */
    method SetCaracteristicaCopia(indice: int, origem: Locus?) returns (r: Outcome, ghost copy: Locus?)
      modifies this`genes
      ensures r.Pass? <==> origem != null && Copyable(origem.value) && fitness.None? && 0 <= indice < |old(genes)|
      ensures r.Pass? ==> copy != null && fresh(copy) && copy.value == origem.value && copy.owner == this
                          && genes == old(genes)[indice := copy]
      ensures r.Throw? ==> genes == old(genes)
      ensures r.Throw? ==>
                r.error == (if origem == null then NullPointer
                            else if !Copyable(origem.value) then (if origem.value.Real? then IllegalArgument else NullPointer)
                            else if fitness.Some? then IllegalState
                            else IndexOutOfBounds)
    {
      copy := null;
      if origem == null {
        return Throw(NullPointer), null;
      }
      var c := origem.Copia();
      if c.Fail? {
        return Throw(c.error), null;
      }
      var cp := c.value;
      copy := cp;
      r := SetCaracteristica(indice, cp);
    }

    /** `setCaracteristicasCopia(indice, origem)`: copies of origem[k] at indice + k, in order. */
    method SetCaracteristicasCopia(indice: int, origem: seq<Locus?>) returns (r: Outcome, ghost copies: seq<Locus>)
      modifies this`genes
      ensures r.Pass? <==>
                (origem == [] || (fitness.None? && 0 <= indice && indice + |origem| <= |old(genes)|)) &&
                (forall k :: 0 <= k < |origem| ==> origem[k] != null && Copyable(origem[k].value))
      ensures r.Pass? ==> CopiesOf(copies, origem) && genes == Overwrite(old(genes), indice, copies)
      ensures r.Pass? ==> forall c :: c in copies ==> fresh(c) && c.owner == this
      ensures r.Throw? ==> |copies| < |origem|
      ensures |copies| <= |origem| && (copies == [] || (0 <= indice && indice + |copies| <= |old(genes)|))
              && genes == Overwrite(old(genes), indice, copies)
      ensures forall k :: 0 <= k < |copies| ==>
                origem[k] != null && copies[k].value == origem[k].value && fresh(copies[k]) && copies[k].owner == this
    {
      var i := 0;
      copies := [];
      while i < |origem|
        invariant 0 <= i <= |origem| && |copies| == i
        invariant i > 0 ==> fitness.None? && 0 <= indice && indice + i <= |old(genes)|
        invariant forall k :: 0 <= k < i ==> origem[k] != null && Copyable(origem[k].value)
        invariant forall k :: 0 <= k < i ==> fresh(copies[k]) && copies[k].owner == this
                                              && copies[k].value == origem[k].value
        invariant genes == Overwrite(old(genes), indice, copies)
      {
        ghost var c;
        r, c := SetCaracteristicaCopia(indice + i, origem[i]);
        if r.Throw? {
          return;
        }
        OverwriteStep(old(genes), indice, copies, c);
        copies := copies + [c];
        i := i + 1;
      }
      r := Pass;
      assert CopiesOf(copies, origem);
    }

    /**
     * The sub-list variant: `origem.subList(inicio, fim)` is checked first
     * (a bad bound throws IndexOutOfBounds, inverted bounds IllegalArgument).
     */
    method SetCaracteristicasCopiaRange(indice: int, origem: seq<Locus?>, inicio: int, fim: int)
      returns (r: Outcome, ghost copies: seq<Locus>)
      modifies this`genes
      ensures (inicio < 0 || fim > |origem|) ==> r == Throw(IndexOutOfBounds) && genes == old(genes)
      ensures 0 <= inicio && fim <= |origem| && inicio > fim ==> r == Throw(IllegalArgument) && genes == old(genes)
      ensures r.Pass? ==> 0 <= inicio <= fim <= |origem| && CopiesOf(copies, origem[inicio..fim])
                          && (copies == [] || (0 <= indice && indice + |copies| <= |old(genes)|))
                          && genes == Overwrite(old(genes), indice, copies)
      ensures (copies == [] || (0 <= indice && indice + |copies| <= |old(genes)|))
              && genes == Overwrite(old(genes), indice, copies)
      ensures copies != [] ==> 0 <= inicio <= fim <= |origem| && |copies| <= fim - inicio
      ensures forall k :: 0 <= k < |copies| ==> 0 <= inicio && inicio + k < |origem| && origem[inicio + k] != null
                                                && copies[k].value == origem[inicio + k].value
    {
      copies := [];
      if inicio < 0 || fim > |origem| {
        return Throw(IndexOutOfBounds), [];
      }
      if inicio > fim {
        return Throw(IllegalArgument), [];
      }
      r, copies := SetCaracteristicasCopia(indice, origem[inicio..fim]);
    }

    /** `getCaracteristicasCopia`: a fresh list of unowned copies of the genes, in order. */
    method GetCaracteristicasCopia() returns (r: Result<seq<Locus>>)
      ensures r.Ok? <==> forall k :: 0 <= k < |genes| ==> genes[k] != null && Copyable(genes[k].value)
      ensures r.Ok? ==> CopiesOf(r.value, genes)
      ensures r.Ok? ==> forall k :: 0 <= k < |r.value| ==> fresh(r.value[k]) && r.value[k].owner == null
      ensures r.Ok? ==> Seqs.Distinct(r.value)
    {
      var cromossomo: seq<Locus> := [];
      var i := 0;
      while i < |genes|
        invariant 0 <= i <= |genes| && |cromossomo| == i
        invariant forall k :: 0 <= k < i ==> genes[k] != null && Copyable(genes[k].value)
        invariant forall k :: 0 <= k < i ==> fresh(cromossomo[k]) && cromossomo[k].owner == null
                                              && cromossomo[k].value == genes[k].value
        invariant Seqs.Distinct(cromossomo)
      {
        if genes[i] == null {
          return Fail(NullPointer);
        }
        var c := genes[i].Copia();
        if c.Fail? {
          return Fail(c.error);
        }
        cromossomo := cromossomo + [c.value];
        i := i + 1;
      }
      return Ok(cromossomo);
    }

    /** `getCaracteristica`: the gene in slot `indice`; out-of-range indices throw. */
    function GetCaracteristica(indice: int): (r: Result<Locus?>)
      reads this`genes
      ensures r.Ok? <==> 0 <= indice < |genes|
      ensures r.Ok? ==> r.value == genes[indice]
      ensures r.Fail? ==> r.error == IndexOutOfBounds
    {
      if 0 <= indice < |genes| then Ok(genes[indice]) else Fail(IndexOutOfBounds)
    }

    /**
     * `setGrauDeAdaptacao(grau, avaliadoPor)`: the fitness is stored before the
     * evaluator is checked, so a null evaluator leaves the fitness set.
     */
    method SetGrauDeAdaptacao(grau: real, avaliadoPor: object?) returns (r: Outcome)
      requires Valid()
      modifies this`fitness, this`evaluatedBy
      ensures Valid() && fitness == Some(grau)
      ensures r.Pass? <==> avaliadoPor != null
      ensures r.Throw? ==> r.error == NullPointer
      ensures evaluatedBy == if avaliadoPor != null then avaliadoPor else old(evaluatedBy)
    {
      fitness := Some(grau);
      if avaliadoPor == null {
        return Throw(NullPointer);
      }
      evaluatedBy := avaliadoPor;
      return Pass;
    }

    /** `isAvaliadoPor`: false while no evaluator is stored, else whether it is `e`. */
    predicate IsAvaliadoPor(e: object?)
      reads this`evaluatedBy
      ensures IsAvaliadoPor(e) ==> e != null && e == evaluatedBy
      ensures evaluatedBy == null ==> !IsAvaliadoPor(e)
    {
      evaluatedBy != null && evaluatedBy == e
    }
  }

  /** `SerFixo(n)`: n <= 0 throws after the counter has already advanced. */
  method NewSerFixo(counter: IdCounter, n: int, sp: Species) returns (r: Result<Ser>)
    modifies counter
    ensures counter.next == old(counter.next) + 1
    ensures r.Ok? <==> n > 0
    ensures r.Fail? ==> r.error == IllegalArgument
    ensures r.Ok? ==> fresh(r.value) && r.value.id == old(counter.next) && r.value.species == sp
                      && r.value.Unborn(n) && r.value.Valid()
  {
    if n <= 0 {
      counter.next := counter.next + 1;
      return Fail(IllegalArgument);
    }
    var s := new Ser.Slots(counter, n, sp);
    return Ok(s);
  }

  /**
   * `SerFixo(list)` (and its `ic.populacional` twin, whose int argument is
   * ignored): as many empty slots as the list has genes, then
   * `setCaracteristicas(list)`. Any list length is accepted, also zero.
   */
  method NewSerFixoFrom(counter: IdCounter, list: seq<Locus?>, sp: Species) returns (r: Result<Ser>)
    modifies counter, LociOf(list)`owner
    ensures counter.next == old(counter.next) + 1
    ensures r.Ok? <==> forall k :: 0 <= k < |list| ==> list[k] != null && old(list[k].owner) == null
    ensures r.Fail? ==> r.error == NullPointer || r.error == IllegalState
    ensures r.Ok? ==> fresh(r.value) && r.value.id == old(counter.next) && r.value.species == sp
                      && r.value.genes == list && r.value.age == 0 && r.value.fitness == None
                      && r.value.evaluatedBy == null && r.value.Valid()
    ensures r.Ok? ==> forall k :: 0 <= k < |list| ==> list[k].owner == r.value
  {
    var s := new Ser.Slots(counter, |list|, sp);
    var o, written := s.SetCaracteristicas(list);
    assert o.Pass? ==> list[..written] == list;
    if o.Throw? {
      return Fail(o.error);
    }
    return Ok(s);
  }
}
