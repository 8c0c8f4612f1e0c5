/**
 * The environment (`Ambiente`): the objective function, the optimisation
 * mode, and the total order on individuals it induces (fitness first, then
 * id), with fitness memoised per environment.
 */
module Environment {
  import opened Errors
  import opened Genes
  import opened Beings

  datatype Mode = Maximizacao | Minimizacao

  /** The ids of distinct individuals differ, as the post-incremented counter guarantees. */
  ghost predicate UniqueIds(a: Ser, b: Ser) {
    a != b ==> a.id != b.id
  }

  class Ambiente {
    const mode: Mode
    /** The abstract `avalia(S)`: a fitness computed from the genes alone. */
    const objective: seq<Option<Value>> -> real

    /** `Ambiente()`: maximisation. */
    constructor Default(f: seq<Option<Value>> -> real)
      ensures mode == Maximizacao && objective == f
    {
      mode := Maximizacao;
      objective := f;
    }

    /** `Ambiente(modo)`; `getModo` is a read of `mode`. */
    constructor (m: Mode, f: seq<Option<Value>> -> real)
      ensures mode == m && objective == f
    {
      mode := m;
      objective := f;
    }

    /** `avalia(individuo)`: computes the fitness and stores nothing. */
    function Avalia(s: Ser): real
      reads s`genes, LociOf(s.genes)
    {
      objective(s.Genome())
    }

    /**
     * The fitness `compara` uses: the stored one when `s` was evaluated by this
     * environment, a fresh `avalia(s)` otherwise. (An evaluated individual
     * always holds a fitness, `Ser.Valid`.)
     */
    function Grau(s: Ser): real
      reads s`fitness, s`evaluatedBy, s`genes, LociOf(s.genes)
    {
      if s.IsAvaliadoPor(this) && s.fitness.Some? then s.fitness.value else Avalia(s)
    }

    /** `compara`: by fitness; equal fitness is broken by id, and only an individual with itself gives 0. */
    function Compara(a: Ser, b: Ser): (r: int)
      reads a`fitness, a`evaluatedBy, a`genes, LociOf(a.genes)
      reads b`fitness, b`evaluatedBy, b`genes, LociOf(b.genes)
      ensures -1 <= r <= 1
      ensures r == 0 <==> a == b || (Grau(a) == Grau(b) && a.id == b.id)
      ensures r > 0 <==> Grau(a) > Grau(b) || (Grau(a) == Grau(b) && a != b && a.id > b.id)
    {
      var c := Sign(Grau(a) - Grau(b));
      if c == 0 then
        if a == b then 0 else Sign((a.id - b.id) as real)
      else c
    }

    /** `compare`: `compara(a, b)` when maximising, `compara(b, a)` when minimising. */
    function Compare(a: Ser, b: Ser): int
      reads a`fitness, a`evaluatedBy, a`genes, LociOf(a.genes)
      reads b`fitness, b`evaluatedBy, b`genes, LociOf(b.genes)
    {
      if mode == Maximizacao then Compara(a, b) else Compara(b, a)
    }

    /** `comparadorInverso()`, applied. */
    function ComparadorInverso(a: Ser, b: Ser): int
      reads a`fitness, a`evaluatedBy, a`genes, LociOf(a.genes)
      reads b`fitness, b`evaluatedBy, b`genes, LociOf(b.genes)
    {
      if mode == Maximizacao then Compara(b, a) else Compara(a, b)
    }

    /**
     * `a` is better than `b`: the reference order of the engine, stated on
     * (fitness, id) keys without `compara`. Maximising, the larger key wins;
     * minimising, the smaller.
     */
    ghost predicate Better(a: Ser, b: Ser)
      reads a`fitness, a`evaluatedBy, a`genes, LociOf(a.genes)
      reads b`fitness, b`evaluatedBy, b`genes, LociOf(b.genes)
    {
      a != b &&
      if mode == Maximizacao then Grau(a) > Grau(b) || (Grau(a) == Grau(b) && a.id > b.id)
      else Grau(a) < Grau(b) || (Grau(a) == Grau(b) && a.id < b.id)
    }

    /** `compare` is exactly the lexicographic (fitness, id) order in the chosen direction. */
    lemma CompareIsBetter(a: Ser, b: Ser)
      requires UniqueIds(a, b)
      ensures Compare(a, b) > 0 <==> Better(a, b)
      ensures Compare(a, b) < 0 <==> Better(b, a)
      ensures Compare(a, b) == 0 <==> a == b
    {
    }

    /** Antisymmetry, and the inverse comparator is `compare` with its operands swapped. */
    lemma CompareAntisymmetric(a: Ser, b: Ser)
      ensures Compare(a, b) == -Compare(b, a)
      ensures ComparadorInverso(a, b) == Compare(b, a)
    {
    }

    lemma CompareTransitive(a: Ser, b: Ser, c: Ser)
      requires UniqueIds(a, c)
      requires Compare(a, b) < 0 && Compare(b, c) < 0
      ensures Compare(a, c) < 0
    {
    }

    lemma CompareTotal(a: Ser, b: Ser)
      requires UniqueIds(a, b) && a != b
      ensures Compare(a, b) < 0 || Compare(b, a) < 0
    {
    }

    /**
     * `setGrauDeAdaptacao(ambiente)`: stores `avalia(s)` and this environment
     * as evaluator. Storing does not change what `compara` sees.
     */
    method Evaluate(s: Ser)
      requires s.Valid()
      modifies s`fitness, s`evaluatedBy
      ensures s.Valid() && s.fitness == Some(old(Avalia(s))) && s.evaluatedBy == this
      ensures s.IsAvaliadoPor(this)
      ensures !old(s.IsAvaliadoPor(this)) ==> Grau(s) == old(Grau(s))
    {
      var o := s.SetGrauDeAdaptacao(Avalia(s), this);
    }

    /**
     * `avalia(Collection)`: evaluates and stores for the members not yet
     * evaluated by this environment; the others keep their stored fitness,
     * so a second call changes nothing.
     */
    method AvaliaTodos(seres: seq<Ser>)
      requires forall s :: s in seres ==> s.Valid()
      modifies (set s | s in seres)`fitness, (set s | s in seres)`evaluatedBy
      ensures forall s :: s in seres ==> s.Valid() && s.IsAvaliadoPor(this)
      ensures forall s :: s in seres ==>
                s.fitness == if old(s.IsAvaliadoPor(this)) then old(s.fitness) else Some(old(Avalia(s)))
      ensures forall s :: s in seres && old(s.IsAvaliadoPor(this)) ==> s.evaluatedBy == old(s.evaluatedBy)
      ensures forall s :: s in seres ==> Grau(s) == old(Grau(s))
    {
      var i := 0;
      while i < |seres|
        invariant 0 <= i <= |seres|
        invariant forall s :: s in seres ==> s.Valid()
        invariant forall s :: s in seres[..i] ==> s.IsAvaliadoPor(this)
        invariant forall s :: s in seres ==>
                    s.fitness == if old(s.IsAvaliadoPor(this)) || s !in seres[..i] then old(s.fitness)
                                 else Some(old(Avalia(s)))
        invariant forall s :: s in seres ==>
                    s.evaluatedBy == if old(s.IsAvaliadoPor(this)) || s !in seres[..i] then old(s.evaluatedBy)
                                     else this
        invariant forall s :: s in seres ==> s.genes == old(s.genes) && unchanged(LociOf(s.genes))
      {
        var s := seres[i];
        assert seres[..i + 1] == seres[..i] + [s];
        if !s.IsAvaliadoPor(this) {
          Evaluate(s);
        }
        i := i + 1;
      }
      assert seres[..i] == seres;
    }
  }

  /**
   * The mode-aware comparison of two raw fitness values that the driver
   * needs where it passes fitness values to `compare`: positive when the
   * first is the better one.
   */
  function CompareFitness(mode: Mode, g1: real, g2: real): (r: int)
    ensures -1 <= r <= 1
    ensures r > 0 <==> (if mode == Maximizacao then g1 > g2 else g1 < g2)
  {
    if mode == Maximizacao then Sign(g1 - g2) else Sign(g2 - g1)
  }

  lemma CompareFitnessAntisymmetric(mode: Mode, g1: real, g2: real)
    ensures CompareFitness(mode, g1, g2) == -CompareFitness(mode, g2, g1)
    ensures CompareFitness(mode, g1, g1) == 0
  {
  }
}
