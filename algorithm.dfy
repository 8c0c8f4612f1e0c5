/**
 * The base of the generational driver (`AlgoritmoEvolucionario` of
 * `ic.populacional.algoritmo`): an iteration counter and a stagnation
 * counter, both Java `Integer`s; an iteration limit; the environment, set
 * once; the best individual found; the name; and the generator and mutation
 * operators, each bound back to the algorithm when it is stored.
 */
module Algorithm {
  import opened Errors
  import opened Beings
  import opened Environment
  import opened Generators
  import opened Mutators

  /** The name an algorithm carries until a subclass sets its own. */
  const NaoAtribuido: string := "Não atribuido"

  class AlgoritmoEvolucionario {
    /** `nome`; None is the null that a constructor may leave behind. */
    var nome: Option<string>
    var gerador: Gerador?
    var mutador: Mutador?
    var ambiente: Ambiente?
    var melhorSer: Ser?
    var contadorDeIteracoes: int
    var contadorSemMelhoras: int
    /** `maxIteracoes`, a boxed `Integer`; None is null. */
    var maxIteracoes: Option<int>

    /** The counters are 32-bit values, and a limit, once set, is not negative. */
    ghost predicate Valid()
      reads this
    {
      IsInt32(contadorDeIteracoes) && IsInt32(contadorSemMelhoras) &&
      (maxIteracoes.Some? ==> 0 <= maxIteracoes.value <= MaxInt)
    }

    /** `AlgoritmoEvolucionario()`: the limit is `Integer.MAX_VALUE` and the name a placeholder. */
    constructor ()
      ensures Valid() && maxIteracoes == Some(MaxInt) && nome == Some(NaoAtribuido)
      ensures contadorDeIteracoes == 0 && contadorSemMelhoras == 0
      ensures ambiente == null && melhorSer == null && gerador == null && mutador == null
    {
      nome := Some(NaoAtribuido);
      gerador, mutador, ambiente, melhorSer := null, null, null, null;
      contadorDeIteracoes, contadorSemMelhoras := 0, 0;
      maxIteracoes := Some(MaxInt);
    }

    /**
     * `AlgoritmoEvolucionario(ambiente)`: its `super()` is `Object`'s
     * constructor, not this class's, so only the field initialisers run (the
     * counters are 0) and the limit and the name stay null. `setAmbiente`
     * then finds no environment and stores the given one.
     */
    constructor WithAmbiente(a: Ambiente?)
      ensures Valid() && maxIteracoes == None && nome == None && ambiente == a
      ensures contadorDeIteracoes == 0 && contadorSemMelhoras == 0
      ensures melhorSer == null && gerador == null && mutador == null
    {
      nome := None;
      gerador, mutador, ambiente, melhorSer := null, null, null, null;
      contadorDeIteracoes, contadorSemMelhoras := 0, 0;
      maxIteracoes := None;
      new;
      var o := SetAmbiente(a);
    }

    /**
     * `AlgoritmoEvolucionario(ambiente)` as evidently meant, chaining to
     * `this()`: the limit and the name are the defaults, then `setAmbiente`
     * stores the given environment.
     */
    constructor WithAmbienteIntended(a: Ambiente?)
      ensures Valid() && maxIteracoes == Some(MaxInt) && nome == Some(NaoAtribuido) && ambiente == a
      ensures contadorDeIteracoes == 0 && contadorSemMelhoras == 0
      ensures melhorSer == null && gerador == null && mutador == null
    {
      nome := Some(NaoAtribuido);
      gerador, mutador, ambiente, melhorSer := null, null, null, null;
      contadorDeIteracoes, contadorSemMelhoras := 0, 0;
      maxIteracoes := Some(MaxInt);
      new;
      var o := SetAmbiente(a);
    }

    /** `verificacaoInicial`: an algorithm without an environment cannot start. */
    method VerificacaoInicial() returns (r: Outcome)
      ensures r.Pass? <==> ambiente != null
      ensures r.Throw? ==> r.error == IllegalState
    {
      if ambiente == null {
        return Throw(IllegalState);
      }
      return Pass;
    }

    /** `setMelhorSer`; `getMelhorSer` reads the field back. */
    method SetMelhorSer(s: Ser?)
      modifies this`melhorSer
      ensures melhorSer == s
    {
      melhorSer := s;
    }

    /** `terminou`: the base algorithm never asks to stop early. */
    function Terminou(): (b: bool)
      ensures !b
    {
      false
    }

    /** `setAmbiente`: only an algorithm without an environment takes one; otherwise IllegalState and no change. */
    method SetAmbiente(a: Ambiente?) returns (r: Outcome)
      modifies this`ambiente
      ensures r.Pass? <==> old(ambiente) == null
      ensures r.Throw? ==> r.error == IllegalState
      ensures ambiente == if old(ambiente) == null then a else old(ambiente)
    {
      if ambiente != null {
        return Throw(IllegalState);
      }
      ambiente := a;
      return Pass;
    }

    /** `switchAmbiente`: replaces the environment, whatever was there. */
    method SwitchAmbiente(a: Ambiente?)
      modifies this`ambiente
      ensures ambiente == a
    {
      ambiente := a;
    }

    /** `setMaxIteracoes`: a negative limit is refused with IllegalArgument and changes nothing. */
    method SetMaxIteracoes(m: int) returns (r: Outcome)
      requires IsInt32(m) && Valid()
      modifies this`maxIteracoes
      ensures Valid()
      ensures r.Pass? <==> m >= 0
      ensures r.Throw? ==> r.error == IllegalArgument
      ensures maxIteracoes == if m >= 0 then Some(m) else old(maxIteracoes)
    {
      if m < 0 {
        return Throw(IllegalArgument);
      }
      maxIteracoes := Some(m);
      return Pass;
    }

    /** `incrementaContadorDeIteracoes`: `++` on the counter, wrapping at `Integer.MAX_VALUE`; the new value is returned. */
    method IncrementaContadorDeIteracoes() returns (n: int)
      requires Valid()
      modifies this`contadorDeIteracoes
      ensures Valid() && n == contadorDeIteracoes
      ensures contadorDeIteracoes == Succ32(old(contadorDeIteracoes))
    {
      contadorDeIteracoes := Succ32(contadorDeIteracoes);
      n := contadorDeIteracoes;
    }

    /** `incrementaContadorSemMelhoras`, the same on the stagnation counter. */
    method IncrementaContadorSemMelhoras() returns (n: int)
      requires Valid()
      modifies this`contadorSemMelhoras
      ensures Valid() && n == contadorSemMelhoras
      ensures contadorSemMelhoras == Succ32(old(contadorSemMelhoras))
    {
      contadorSemMelhoras := Succ32(contadorSemMelhoras);
      n := contadorSemMelhoras;
    }

    /** `zeraContadorSemMelhoras`: back to 0, which is also returned. */
    method ZeraContadorSemMelhoras() returns (n: int)
      requires Valid()
      modifies this`contadorSemMelhoras
      ensures Valid() && n == 0 && contadorSemMelhoras == 0
    {
      contadorSemMelhoras := 0;
      n := 0;
    }

    /** `setGerador`: stores the generator, then binds it to this algorithm; a null generator is stored and then throws. */
    method SetGerador(g: Gerador?) returns (r: Outcome)
      modifies this`gerador, (if g == null then {} else {g})`algoritmo
      ensures gerador == g
      ensures r.Pass? <==> g != null
      ensures r.Throw? ==> r.error == NullPointer
      ensures g != null ==> g.algoritmo == this
    {
      gerador := g;
      if g == null {
        return Throw(NullPointer);
      }
      g.SetAlgoritmo(this);
      return Pass;
    }

    /** `setMutador`, likewise for the mutation operator. */
    method SetMutador(m: Mutador?) returns (r: Outcome)
      modifies this`mutador, (if m == null then {} else {m})`algoritmo
      ensures mutador == m
      ensures r.Pass? <==> m != null
      ensures r.Throw? ==> r.error == NullPointer
      ensures m != null ==> m.algoritmo == this
    {
      mutador := m;
      if m == null {
        return Throw(NullPointer);
      }
      m.SetAlgoritmo(this);
      return Pass;
    }
  }

  /** Adding `d` to a wrapped value wraps like adding it to the plain one. */
  lemma {:induction false} WrapShift(x: int, d: nat)
    ensures Wrap32(Wrap32(x) + d) == Wrap32(x + d)
  {
    if d > 0 {
      WrapShift(x, d - 1);
      WrapSucc(Wrap32(x) + d - 1);
      WrapSucc(x + d - 1);
    }
  }

  /** Wrapping once more after a wrapped sum is wrapping the sum. */
  lemma WrapSucc(x: int)
    ensures Succ32(Wrap32(x)) == Wrap32(x + 1)
  {
    var a := (x - MinInt) % 0x1_0000_0000;
    assert Wrap32(x) == a + MinInt;
    var q := (x - MinInt) / 0x1_0000_0000;
    assert x - MinInt == q * 0x1_0000_0000 + a;
    if a + 1 < 0x1_0000_0000 {
      assert x + 1 - MinInt == q * 0x1_0000_0000 + (a + 1);
    } else {
      assert x + 1 - MinInt == (q + 1) * 0x1_0000_0000;
    }
  }
}
