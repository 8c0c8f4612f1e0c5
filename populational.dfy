/**
 * The population-based driver (`AlgoritmoPopulacional` of
 * `ic.populacional.algoritmo`): the `AlgoritmoEvolucionario` state it
 * extends (here the object `base`), the recombination and selection
 * operators, the population, set once, and `run`, the generational loop.
 *
 * `iteracao` is the subclass's: every concrete step ends by handing a list
 * of individuals to `setIndividuos`, so `run` takes the lists its successive
 * calls hand over, `geracoes`, and each pass replaces the population with the
 * next one of them. The loop also stops when they are used up.
 */
module Populational {
  import opened Errors
  import opened Beings
  import opened Environment
  import opened Population
  import opened Operators
  import opened Selection
  import opened Algorithm
  import Seqs

  /** How many passes stagnated. */
  function Stalled(stalls: seq<bool>): (n: nat)
    ensures n <= |stalls|
  {
    if stalls == [] then 0 else Stalled(stalls[..|stalls| - 1]) + (if stalls[|stalls| - 1] then 1 else 0)
  }

  /**
   * The counters after the passes `stalls`, from `c0` and `s0`: every pass
   * counts once and a stalled pass twice, with 32-bit wrap-around, and the
   * stagnation counter drops to 0 at the first pass that did not stall.
   */
  ghost predicate Counted(c0: int, s0: int, stalls: seq<bool>, c: int, s: int) {
    c == Wrap32(c0 + |stalls| + Stalled(stalls)) && s == (if false in stalls then 0 else s0)
  }

  /** One more pass keeps the counters as `Counted` describes them. */
  lemma CountedStep(c0: int, s0: int, st: seq<bool>, stalled: bool, c: int, s: int, c': int, s': int)
    requires Counted(c0, s0, st, c, s)
    requires c' == Wrap32(c + if stalled then 2 else 1)
    requires s' == if stalled then s else 0
    ensures Counted(c0, s0, st + [stalled], c', s')
  {
    var ss := st + [stalled];
    assert ss[..|st|] == st;
    WrapShift(c0 + |st| + Stalled(st), if stalled then 2 else 1);
    assert false in ss <==> false in st || !stalled;
  }

  /** How many passes at the end of `stalls` stalled, back to the last one that did not. */
  function TrailingStalls(stalls: seq<bool>): (n: nat)
    ensures n <= |stalls|
  {
    if stalls == [] || !stalls[|stalls| - 1] then 0 else TrailingStalls(stalls[..|stalls| - 1]) + 1
  }

  /**
   * The stagnation counter as `run` evidently means it, with
   * `incrementaContadorSemMelhoras` on a stall: one more, with 32-bit
   * wrap-around, per stalled pass, and 0 after a pass that did not stall.
   */
  function SemMelhorasIntended(s0: int, stalls: seq<bool>): (s: int)
    requires IsInt32(s0)
    ensures IsInt32(s)
  {
    if stalls == [] then s0
    else if stalls[|stalls| - 1] then Succ32(SemMelhorasIntended(s0, stalls[..|stalls| - 1]))
    else 0
  }

  /** The intended stagnation counter counts the stalled passes since the last pass that did not stall, from `s0` if every pass stalled. */
  lemma {:induction false} SemMelhorasCountsStalls(s0: int, stalls: seq<bool>)
    requires IsInt32(s0)
    ensures SemMelhorasIntended(s0, stalls) == Wrap32((if false in stalls then 0 else s0) + TrailingStalls(stalls))
  {
    if stalls != [] {
      var init := stalls[..|stalls| - 1];
      SemMelhorasCountsStalls(s0, init);
      assert stalls == init + [stalls[|stalls| - 1]];
      if stalls[|stalls| - 1] {
        assert false in stalls <==> false in init;
        WrapSucc((if false in init then 0 else s0) + TrailingStalls(init));
      } else {
        assert false in stalls;
      }
    }
  }

  /** The counters after the passes `stalls` with the intended stall branch: one iteration per pass, and the intended stagnation count. */
  ghost predicate CountedIntended(c0: int, s0: int, stalls: seq<bool>, c: int, s: int)
    requires IsInt32(s0)
  {
    c == Wrap32(c0 + |stalls|) && s == SemMelhorasIntended(s0, stalls)
  }

  /** One more pass with the intended stall branch keeps the counters as `CountedIntended` describes them. */
  lemma CountedIntendedStep(c0: int, s0: int, st: seq<bool>, stalled: bool, c: int, s: int, c': int, s': int)
    requires IsInt32(s0) && CountedIntended(c0, s0, st, c, s)
    requires c' == Wrap32(c + 1)
    requires s' == if stalled then Succ32(s) else 0
    ensures CountedIntended(c0, s0, st + [stalled], c', s')
  {
    var ss := st + [stalled];
    assert ss[..|st|] == st;
    WrapShift(c0 + |st|, 1);
  }

  /**
   * One stalled pass from zeroed counters: as written it counts two
   * iterations and no stall, where the intended branch counts one of each.
   */
  lemma StallCountedTwice()
    ensures Counted(0, 0, [true], 2, 0)
    ensures CountedIntended(0, 0, [true], 1, 1)
  {
    assert [true][..0] == [];
    assert Stalled([true]) == 1;
  }

  /**
   * What `run` has recorded after the passes `stalls`: the counters as
   * `Counted` says; the best-ever individuals `melhores`, from `m0` to the
   * current best `melhor`; one replacement pair in `trocas` per change of
   * best-ever, each strictly better in the environment's direction; and no
   * change of best-ever before a pass that did not stall.
   */
  ghost predicate Progress(c0: int, s0: int, m0: Ser, mode: Mode, stalls: seq<bool>, melhores: seq<Ser>,
                           trocas: seq<(real, real)>, c: int, s: int, melhor: Ser?) {
    Counted(c0, s0, stalls, c, s) &&
    |melhores| == |trocas| + 1 && melhores[0] == m0 && melhor == melhores[|melhores| - 1] &&
    (forall k :: 0 <= k < |trocas| ==> CompareFitness(mode, trocas[k].1, trocas[k].0) > 0) &&
    (false !in stalls ==> |melhores| == 1)
  }

  /** A pass that stalled or not, and replaced the best-ever `melhor` by `atual` of fitness `grau` or not, keeps `Progress`. */
  lemma ProgressStep(c0: int, s0: int, m0: Ser, mode: Mode, st: seq<bool>, ms: seq<Ser>, ts: seq<(real, real)>,
                     c: int, s: int, melhor: Ser?, stalled: bool, improved: bool, atual: Ser, grau: real, recorde: real,
                     c': int, s': int, melhor': Ser?)
    requires Progress(c0, s0, m0, mode, st, ms, ts, c, s, melhor)
    requires c' == Wrap32(c + if stalled then 2 else 1)
    requires s' == if stalled then s else 0
    requires improved ==> !stalled && CompareFitness(mode, grau, recorde) > 0
    requires melhor' == if improved then atual else melhor
    ensures Progress(c0, s0, m0, mode, st + [stalled], if improved then ms + [atual] else ms,
                     if improved then ts + [(recorde, grau)] else ts, c', s', melhor')
  {
    CountedStep(c0, s0, st, stalled, c, s, c', s');
  }

  /** An individual that holds the fitness an environment stored in it. */
  ghost predicate Evaluated(s: Ser?)
    reads s
  {
    s != null && s.Valid() && s.evaluatedBy != null
  }

  /** Every individual of `U` is well formed. */
  ghost predicate AllValid(U: set<Ser>)
    reads U
  {
    forall x :: x in U ==> x.Valid()
  }

  /**
   * `getPopulacao().stream().forEach(ser -> ser.envelhece())`: every member
   * one year older, with the `int` wrap of `envelhece`.
   */
  method Envelhece(ms: seq<Ser>)
    requires Seqs.Distinct(ms) && forall x :: x in ms ==> x.Valid()
    modifies (set x | x in ms)`age
    ensures forall x :: x in ms ==> old(x.Valid()) && x.age == Succ32(old(x.age)) && x.Valid()
  {
    var i := 0;
    while i < |ms|
      invariant 0 <= i <= |ms|
      invariant forall k :: 0 <= k < |ms| ==> old(ms[k].Valid()) && ms[k].Valid()
      invariant forall k :: 0 <= k < |ms| ==> ms[k].age == if k < i then Succ32(old(ms[k].age)) else old(ms[k].age)
    {
      var a := ms[i].Envelhece();
      i := i + 1;
    }
  }

  class AlgoritmoPopulacional {
    const base: AlgoritmoEvolucionario
    var recombinador: Recombinador?
    var seletor: Seletor?
    var populacao: Populacao?

    /** `AlgoritmoPopulacional()`: `super()`, the default base. */
    constructor ()
      ensures fresh(base) && base.Valid() && base.maxIteracoes == Some(MaxInt) && base.nome == Some(NaoAtribuido)
      ensures base.contadorDeIteracoes == 0 && base.contadorSemMelhoras == 0
      ensures base.ambiente == null && base.melhorSer == null
      ensures base.gerador == null && base.mutador == null
      ensures recombinador == null && seletor == null && populacao == null
    {
      base := new AlgoritmoEvolucionario();
      recombinador, seletor, populacao := null, null, null;
    }

    /**
     * `AlgoritmoPopulacional(ambiente, populacao)`: `super(ambiente)`, which
     * leaves the limit and the name unset, then `setPopulacao`, which finds
     * no population and stores the given one.
     */
    constructor WithAmbiente(a: Ambiente?, p: Populacao?)
      ensures fresh(base) && base.Valid() && base.maxIteracoes == None && base.nome == None
      ensures base.contadorDeIteracoes == 0 && base.contadorSemMelhoras == 0
      ensures base.ambiente == a && base.melhorSer == null
      ensures recombinador == null && seletor == null && populacao == p
    {
      base := new AlgoritmoEvolucionario.WithAmbiente(a);
      recombinador, seletor, populacao := null, null, null;
      new;
      var o := SetPopulacao(p);
    }

    /** `verificacaoInicial`: the base check (an environment is set), then a population must be set. */
    method VerificacaoInicial() returns (r: Outcome)
      ensures r.Pass? <==> base.ambiente != null && populacao != null
      ensures r.Throw? ==> r.error == IllegalState
    {
      r := base.VerificacaoInicial();
      if r.Throw? {
        return;
      }
      if populacao == null {
        return Throw(IllegalState);
      }
    }

    /** `setPopulacao`: only an algorithm without a population takes one; otherwise IllegalState and no change. */
    method SetPopulacao(p: Populacao?) returns (r: Outcome)
      modifies this`populacao
      ensures r.Pass? <==> old(populacao) == null
      ensures r.Throw? ==> r.error == IllegalState
      ensures populacao == if old(populacao) == null then p else old(populacao)
    {
      if populacao != null {
        return Throw(IllegalState);
      }
      populacao := p;
      return Pass;
    }

    /** `setRecombinador`: stores the operator, then binds it to this algorithm; a null one is stored and then throws. */
    method SetRecombinador(x: Recombinador?) returns (r: Outcome)
      modifies this`recombinador, (if x == null then {} else {x})`algoritmo
      ensures recombinador == x
      ensures r.Pass? <==> x != null
      ensures r.Throw? ==> r.error == NullPointer
      ensures x != null ==> x.algoritmo == this
    {
      recombinador := x;
      if x == null {
        return Throw(NullPointer);
      }
      x.SetAlgoritmo(this);
      return Pass;
    }

    /** `setSeletor`, likewise for the selection operator. */
    method SetSeletor(x: Seletor?) returns (r: Outcome)
      modifies this`seletor, (if x == null then {} else {x})`algoritmo
      ensures seletor == x
      ensures r.Pass? <==> x != null
      ensures r.Throw? ==> r.error == NullPointer
      ensures x != null ==> x.algoritmo == this
    {
      seletor := x;
      if x == null {
        return Throw(NullPointer);
      }
      x.SetAlgoritmo(this);
      return Pass;
    }

    /** The members of the population, none when it is unset. */
    ghost function Members(): set<Ser>
      reads this, populacao
    {
      if populacao == null then {} else set x | x in populacao.members
    }

    /**
     * `switchAmbiente`: replaces the environment, then has the new one
     * evaluate the whole population (a null environment or population
     * throws there). Members the new environment had evaluated keep their
     * fitness; the others get its evaluation.
     */
    method SwitchAmbiente(a: Ambiente?) returns (r: Outcome)
      requires AllValid(Members())
      modifies base`ambiente, Members()`fitness, Members()`evaluatedBy
      ensures base.ambiente == a
      ensures r.Pass? <==> a != null && populacao != null
      ensures r.Throw? ==> r.error == NullPointer && unchanged(Members())
      ensures r.Pass? ==> forall x :: x in populacao.members ==> x.Valid() && x.IsAvaliadoPor(a)
      ensures r.Pass? ==> forall x :: x in populacao.members ==>
                            x.fitness == if old(x.IsAvaliadoPor(a)) then old(x.fitness) else Some(old(a.Avalia(x)))
    {
      base.SwitchAmbiente(a);
      if a == null || populacao == null {
        return Throw(NullPointer);
      }
      assert forall x :: x in populacao.members ==> unchanged(LociOf(x.genes));
      a.AvaliaTodos(populacao.members);
      return Pass;
    }

    /** The loop state of `run` that lives in the heap: the counters fit 32 bits, every individual of `U` is well formed, and the last pass's best and the best-ever are evaluated members of `U`. */
    ghost predicate Ready(passada: Ser, U: set<Ser>)
      reads this, base, U, passada, base.melhorSer
    {
      base.Valid() && AllValid(U) && Evaluated(passada) && Evaluated(base.melhorSer) && passada in U && base.melhorSer in U
    }

    /** Every individual `run` may touch: the population's members and every generation's. */
    ghost function Pool(geracoes: seq<seq<Ser>>): set<Ser>
      reads this, populacao
    {
      Members() + set k, x | 0 <= k < |geracoes| && x in geracoes[k] :: x
    }

    /**
     * `run`. Without an environment or a population it throws
     * IllegalState. Otherwise the environment evaluates the population, the
     * best member becomes the best-ever, and passes run while the iteration
     * counter is below the limit (an unset limit throws on the first test).
     * `stalls[k]` says whether pass k failed to beat the previous pass's
     * best; such a pass adds 1 to the iteration counter a second time, while
     * the stagnation counter is only ever reset. `melhores` lists the
     * best-ever individuals in turn, and `trocas` holds, for each
     * replacement, the fitness the best-ever had and the fitness of the
     * individual that took its place.
     */
    method Run(geracoes: seq<seq<Ser>>)
      returns (r: Outcome, ghost stalls: seq<bool>, ghost melhores: seq<Ser>, ghost trocas: seq<(real, real)>)
      requires base.Valid() && AllValid(Pool(geracoes))
      requires forall k :: 0 <= k < |geracoes| ==> IdsUnique(geracoes[k])
      modifies base, populacao, Pool(geracoes)`fitness, Pool(geracoes)`evaluatedBy, Pool(geracoes)`age
      ensures old(base.ambiente) == null || old(populacao) == null ==> r == Throw(IllegalState)
      ensures old(populacao) != null && old(populacao.members) == [] && old(base.ambiente) != null ==> r == Throw(NoSuchElement)
      ensures old(base.maxIteracoes) == None && old(base.ambiente) != null && old(populacao) != null ==> r.Throw?
      ensures r.Pass? ==> old(base.maxIteracoes).Some? && |stalls| <= |geracoes|
      ensures r.Pass? ==> (|stalls| < |geracoes| ==> base.contadorDeIteracoes >= old(base.maxIteracoes).value)
      ensures r.Pass? && old(base.contadorDeIteracoes) >= old(base.maxIteracoes).value ==> stalls == []
      ensures r.Pass? ==> base.contadorDeIteracoes == Wrap32(old(base.contadorDeIteracoes) + |stalls| + Stalled(stalls))
      ensures r.Pass? ==> base.contadorSemMelhoras == if false in stalls then 0 else old(base.contadorSemMelhoras)
      ensures r.Pass? ==> |melhores| == |trocas| + 1 && melhores[0] == old(populacao.members)[|old(populacao.members)| - 1]
      ensures r.Pass? ==> base.melhorSer == melhores[|melhores| - 1]
      ensures r.Pass? ==> base.ambiente == old(base.ambiente) && base.ambiente != null
      ensures r.Pass? ==> forall k :: 0 <= k < |trocas| ==> CompareFitness(base.ambiente.mode, trocas[k].1, trocas[k].0) > 0
      ensures r.Pass? && false !in stalls ==> |melhores| == 1
    {
      stalls, melhores, trocas := [], [], [];
      ghost var U := Pool(geracoes);
      r := VerificacaoInicial();
      if r.Throw? {
        return;
      }
      var pop, amb := populacao, base.ambiente;
      amb.AvaliaTodos(pop.members);
      var b0 := pop.GetMelhor();
      if b0.Fail? {
        return Throw(b0.error), stalls, melhores, trocas;
      }
      var passada := b0.value;
      base.SetMelhorSer(passada);
      melhores := [passada];
      if base.maxIteracoes.None? {
        return Throw(NullPointer), stalls, melhores, trocas;
      }
      var max := base.maxIteracoes.value;
      assert passada == old(populacao.members)[|old(populacao.members)| - 1];
      assert forall k :: 0 <= k < |geracoes| ==> forall x :: x in geracoes[k] ==> x in U;
      r, stalls, melhores, trocas := Laco(geracoes, passada, max, U);
    }

    /**
     * The loop of `run`, from the best individual `passada` of the first
     * evaluation, which is also the best-ever: passes run while generations
     * remain and the iteration counter is below `max`.
     */
    method Laco(geracoes: seq<seq<Ser>>, passada: Ser, max: int, ghost U: set<Ser>)
      returns (r: Outcome, ghost stalls: seq<bool>, ghost melhores: seq<Ser>, ghost trocas: seq<(real, real)>)
      requires populacao != null && base.ambiente != null && Ready(passada, U) && base.melhorSer == passada
      requires forall k :: 0 <= k < |geracoes| ==> IdsUnique(geracoes[k]) && forall x :: x in geracoes[k] ==> x in U
      modifies base`contadorDeIteracoes, base`contadorSemMelhoras, base`melhorSer, populacao`members
      modifies U`fitness, U`evaluatedBy, U`age
      ensures r.Throw? ==> r.error == NoSuchElement
      ensures |stalls| <= |geracoes|
      ensures r.Pass? ==> (|stalls| < |geracoes| ==> base.contadorDeIteracoes >= max)
      ensures old(base.contadorDeIteracoes) >= max ==> stalls == []
      ensures r.Pass? ==> Progress(old(base.contadorDeIteracoes), old(base.contadorSemMelhoras), passada, base.ambiente.mode,
                                   stalls, melhores, trocas, base.contadorDeIteracoes, base.contadorSemMelhoras, base.melhorSer)
    {
      stalls, melhores, trocas := [], [passada], [];
      r := Pass;
      var pop, amb, atual := populacao, base.ambiente, passada;
      ghost var c0, s0 := base.contadorDeIteracoes, base.contadorSemMelhoras;
      assert Wrap32(c0) == c0;
      var i := 0;
      while i < |geracoes| && base.contadorDeIteracoes < max
        invariant 0 <= i <= |geracoes| && i == |stalls| && r == Pass
        invariant populacao == pop && base.ambiente == amb
        invariant Ready(atual, U)
        invariant Progress(c0, s0, passada, amb.mode, stalls, melhores, trocas,
                           base.contadorDeIteracoes, base.contadorSemMelhoras, base.melhorSer)
        invariant i == 0 ==> base.contadorDeIteracoes == c0
        invariant c0 >= max ==> i == 0
        decreases |geracoes| - i
      {
        ghost var st, c, s, ms, ts, melhor := stalls, base.contadorDeIteracoes, base.contadorSemMelhoras, melhores, trocas, base.melhorSer;
        var stalled, improved;
        ghost var anterior, recorde;
        r, atual, stalled, improved, anterior, recorde := Passo(geracoes[i], atual, U);
        if r.Throw? {
          return;
        }
        var grau := atual.fitness.value;
        stalls := stalls + [stalled];
        if improved {
          melhores, trocas := melhores + [atual], trocas + [(recorde, grau)];
        }
        ProgressStep(c0, s0, passada, amb.mode, st, ms, ts, c, s, melhor, stalled, improved, atual, grau, recorde,
                     base.contadorDeIteracoes, base.contadorSemMelhoras, base.melhorSer);
        i := i + 1;
      }
    }

    /**
     * One pass of `run`'s loop: `iteracao`, then the counter; the pass's
     * best against the previous pass's best, whose fitness is `anterior`
     * (a stall counts the iteration a second time; an improvement resets the
     * stagnation counter and, when it also beats the best-ever's fitness
     * `recorde`, takes its place); then every member ages by one. The two
     * fitness values are read after `iteracao`, which leaves them as they
     * were unless it evaluated the individual anew.
     */
    method Passo(geracao: seq<Ser>, passada: Ser, ghost U: set<Ser>)
      returns (r: Outcome, atual: Ser, stalled: bool, improved: bool, ghost anterior: real, ghost recorde: real)
      requires populacao != null && base.ambiente != null && base.Valid()
      requires IdsUnique(geracao) && (forall x :: x in geracao ==> x in U) && AllValid(U)
      requires passada in U && base.melhorSer in U && Evaluated(passada) && Evaluated(base.melhorSer)
      modifies base`contadorDeIteracoes, base`contadorSemMelhoras, base`melhorSer, populacao`members
      modifies U`fitness, U`evaluatedBy, U`age
      ensures base.Valid() && AllValid(U) && Evaluated(base.melhorSer) && base.melhorSer in U
      ensures r.Throw? ==> r.error == NoSuchElement && geracao == []
      ensures r.Pass? ==> Evaluated(atual) && atual in populacao.members && atual in U
      ensures r.Pass? ==> forall x :: x in populacao.members <==> x in geracao
      ensures r.Pass? ==> forall x :: x in populacao.members ==> x.age == Succ32(old(x.age))
      ensures passada !in geracao || old(passada.IsAvaliadoPor(populacao.env)) ==> anterior == old(passada.fitness).value
      ensures old(base.melhorSer) !in geracao || old(base.melhorSer.IsAvaliadoPor(populacao.env)) ==>
                recorde == old(base.melhorSer.fitness).value
      ensures r.Pass? ==> stalled == (CompareFitness(base.ambiente.mode, anterior, atual.fitness.value) >= 0)
      ensures r.Pass? ==> base.contadorDeIteracoes == Wrap32(old(base.contadorDeIteracoes) + if stalled then 2 else 1)
      ensures r.Pass? ==> base.contadorSemMelhoras == if stalled then old(base.contadorSemMelhoras) else 0
      ensures r.Pass? ==> improved == (!stalled && CompareFitness(base.ambiente.mode, atual.fitness.value, recorde) > 0)
      ensures r.Pass? ==> base.melhorSer == if improved then atual else old(base.melhorSer)
    {
      stalled, improved, recorde := false, false, 0.0;
      atual := passada;
      Iteracao(geracao, U);
      populacao.AscendingDistinct();
      var grauPassada := passada.fitness.value;
      anterior := grauPassada;
      r, atual, stalled, improved, recorde := Avaliacao(geracao, grauPassada, U);
    }

    /**
     * The rest of a pass, once `iteracao` has installed `geracao`: the
     * counter, the comparisons of `Compara` against the previous pass's best
     * fitness `anterior`, and the ageing of every member.
     */
    method Avaliacao(geracao: seq<Ser>, anterior: real, ghost U: set<Ser>)
      returns (r: Outcome, atual: Ser, stalled: bool, improved: bool, ghost recorde: real)
      requires populacao != null && base.ambiente != null && base.Valid() && AllValid(U)
      requires base.melhorSer in U && Evaluated(base.melhorSer) && Seqs.Distinct(populacao.members)
      requires forall x :: x in populacao.members <==> x in geracao
      requires forall x :: x in populacao.members ==> x in U && x.IsAvaliadoPor(populacao.env)
      modifies base`contadorDeIteracoes, base`contadorSemMelhoras, base`melhorSer, U`age
      ensures base.Valid() && AllValid(U) && Evaluated(base.melhorSer) && base.melhorSer in U
      ensures r.Throw? ==> r.error == NoSuchElement && geracao == []
      ensures r.Pass? ==> Evaluated(atual) && atual in populacao.members && atual in U
      ensures r.Pass? ==> forall x :: x in populacao.members ==> x.age == Succ32(old(x.age))
      ensures forall x :: x in U ==> x.fitness == old(x.fitness) && x.evaluatedBy == old(x.evaluatedBy)
      ensures recorde == old(base.melhorSer.fitness).value
      ensures r.Pass? ==> stalled == (CompareFitness(base.ambiente.mode, anterior, atual.fitness.value) >= 0)
      ensures r.Pass? ==> base.contadorDeIteracoes == Wrap32(old(base.contadorDeIteracoes) + if stalled then 2 else 1)
      ensures r.Pass? ==> base.contadorSemMelhoras == if stalled then old(base.contadorSemMelhoras) else 0
      ensures r.Pass? ==> improved == (!stalled && CompareFitness(base.ambiente.mode, atual.fitness.value, recorde) > 0)
      ensures r.Pass? ==> base.melhorSer == if improved then atual else old(base.melhorSer)
    {
      stalled, improved, recorde, atual := false, false, base.melhorSer.fitness.value, base.melhorSer;
      var n := base.IncrementaContadorDeIteracoes();
      assert geracao != [] ==> geracao[0] in populacao.members;
      var m := populacao.GetMelhor();
      if m.Fail? {
        return Throw(m.error), atual, stalled, improved, recorde;
      }
      atual := m.value;
      stalled, improved, recorde := Compara(anterior, atual);
      WrapSucc(old(base.contadorDeIteracoes) + 1);
      Envelhece(populacao.members);
      r := Pass;
    }

    /**
     * The comparisons of one pass, after the first increment: the pass's
     * best `atual` against the previous pass's best fitness `anterior`, then
     * against the best-ever's fitness, `recorde`.
     */
    method Compara(anterior: real, atual: Ser) returns (stalled: bool, improved: bool, ghost recorde: real)
      requires base.ambiente != null && base.Valid() && Evaluated(base.melhorSer) && Evaluated(atual)
      modifies base`contadorDeIteracoes, base`contadorSemMelhoras, base`melhorSer
      ensures base.Valid() && Evaluated(base.melhorSer)
      ensures recorde == old(base.melhorSer.fitness).value
      ensures stalled == (CompareFitness(base.ambiente.mode, anterior, atual.fitness.value) >= 0)
      ensures base.contadorDeIteracoes == if stalled then Succ32(old(base.contadorDeIteracoes)) else old(base.contadorDeIteracoes)
      ensures base.contadorSemMelhoras == if stalled then old(base.contadorSemMelhoras) else 0
      ensures improved == (!stalled && CompareFitness(base.ambiente.mode, atual.fitness.value, recorde) > 0)
      ensures base.melhorSer == if improved then atual else old(base.melhorSer)
    {
      var mode := base.ambiente.mode;
      recorde := base.melhorSer.fitness.value;
      stalled, improved := false, false;
      var n;
      if CompareFitness(mode, anterior, atual.fitness.value) >= 0 {
        stalled := true;
        n := base.IncrementaContadorDeIteracoes();
      } else {
        n := base.ZeraContadorSemMelhoras();
        if CompareFitness(mode, atual.fitness.value, base.melhorSer.fitness.value) > 0 {
          improved := true;
          base.SetMelhorSer(atual);
        }
      }
    }

    /**
     * `Compara` with the stall branch calling `incrementaContadorSemMelhoras`,
     * as the driver evidently means it: the iteration counter is left alone
     * and the stagnation counter grows by one.
     */
    method ComparaIntended(anterior: real, atual: Ser) returns (stalled: bool, improved: bool, ghost recorde: real)
      requires base.ambiente != null && base.Valid() && Evaluated(base.melhorSer) && Evaluated(atual)
      modifies base`contadorSemMelhoras, base`melhorSer
      ensures base.Valid() && Evaluated(base.melhorSer)
      ensures recorde == old(base.melhorSer.fitness).value
      ensures stalled == (CompareFitness(base.ambiente.mode, anterior, atual.fitness.value) >= 0)
      ensures base.contadorSemMelhoras == if stalled then Succ32(old(base.contadorSemMelhoras)) else 0
      ensures improved == (!stalled && CompareFitness(base.ambiente.mode, atual.fitness.value, recorde) > 0)
      ensures base.melhorSer == if improved then atual else old(base.melhorSer)
    {
      var mode := base.ambiente.mode;
      recorde := base.melhorSer.fitness.value;
      stalled, improved := false, false;
      var n;
      if CompareFitness(mode, anterior, atual.fitness.value) >= 0 {
        stalled := true;
        n := base.IncrementaContadorSemMelhoras();
      } else {
        n := base.ZeraContadorSemMelhoras();
        if CompareFitness(mode, atual.fitness.value, base.melhorSer.fitness.value) > 0 {
          improved := true;
          base.SetMelhorSer(atual);
        }
      }
    }

    /** `iteracao()`: the subclass's step, which ends in `setIndividuos(geracao)`. */
    method Iteracao(geracao: seq<Ser>, ghost U: set<Ser>)
      requires populacao != null && IdsUnique(geracao) && (forall x :: x in geracao ==> x in U) && AllValid(U)
      modifies populacao`members, U`fitness, U`evaluatedBy
      ensures AllValid(U) && populacao.Ascending()
      ensures forall x :: x in populacao.members <==> x in geracao
      ensures forall x :: x in populacao.members ==> x.IsAvaliadoPor(populacao.env)
      ensures forall x :: x in geracao && old(x.IsAvaliadoPor(populacao.env)) ==>
                x.fitness == old(x.fitness) && x.evaluatedBy == old(x.evaluatedBy)
      ensures forall x :: x in U && x !in geracao ==> x.fitness == old(x.fitness) && x.evaluatedBy == old(x.evaluatedBy)
    {
      var changed := populacao.SetIndividuos(geracao);
    }
  }
}
