/**
 * The base driver of the `ic.ce` tree (`AlgoritmoEvolucionario` of
 * `ic.ce.base.algoritmo`). It keeps the same state as the other tree's
 * base driver, here the object `estado`. Its constructor taking an
 * environment chains to the no-argument one, so the limit and the name are
 * set. It adds a settable name and the `MelhorSer` property: the listeners
 * registered for it, and the notifications sent to them each time the best
 * individual is replaced. Each notification carries the value before and
 * the value after, and the listeners' own reactions are theirs.
 */
module CeAlgorithm {
  import opened Errors
  import opened Beings
  import opened Environment
  import opened Algorithm

  /** One delivery of a `MelhorSer` change event to listener `ouvinte`. */
  datatype Notificacao = Notificacao(ouvinte: object, anterior: Ser?, novo: Ser?)

  /**
   * `firePropertyChange` only delivers an event when the two values are not
   * known to be equal: either of them is null, or they differ (individuals
   * are equal only to themselves).
   */
  predicate Dispara(anterior: Ser?, novo: Ser?) {
    anterior == null || novo == null || anterior != novo
  }

  /** The deliveries of one event to the listeners `os`, in registration order. */
  function Avisos(os: seq<object>, anterior: Ser?, novo: Ser?): (r: seq<Notificacao>)
    ensures |r| == |os|
    ensures forall k :: 0 <= k < |os| ==> r[k] == Notificacao(os[k], anterior, novo)
  {
    if os == [] then [] else Avisos(os[..|os| - 1], anterior, novo) + [Notificacao(os[|os| - 1], anterior, novo)]
  }

  /** The listener list after `addPropertyChangeListener`: a null listener is ignored, any other is appended, even again. */
  function Registra(os: seq<object>, l: object?): (r: seq<object>)
  {
    if l == null then os else os + [l]
  }

  /** The listener list after `removePropertyChangeListener`: the first registration of `l` goes, if there is one. */
  function Remove(os: seq<object>, l: object?): (r: seq<object>)
    ensures |r| == if l != null && l in os then |os| - 1 else |os|
  {
    if os == [] then []
    else if os[0] == l then os[1..]
    else [os[0]] + Remove(os[1..], l)
  }

  /** Registering grows the list by one registration of `l`, or leaves it as it was for null. */
  lemma RegistraCounts(os: seq<object>, l: object?)
    ensures l != null ==> multiset(Registra(os, l)) == multiset(os) + multiset{l}
    ensures l == null ==> Registra(os, l) == os
  {
  }

  /** Removing takes exactly one registration of a registered `l` away and changes nothing otherwise. */
  lemma {:induction false} RemoveCounts(os: seq<object>, l: object?)
    ensures l != null && l in os ==> multiset(Remove(os, l)) == multiset(os) - multiset{l}
    ensures l == null || l !in os ==> Remove(os, l) == os
  {
    if os != [] {
      assert os == [os[0]] + os[1..];
      assert multiset(os) == multiset{os[0]} + multiset(os[1..]);
      if os[0] != l {
        RemoveCounts(os[1..], l);
        assert Remove(os, l) == [os[0]] + Remove(os[1..], l);
      }
    }
  }

  /** Removing a listener right after registering it leaves the same registrations, possibly in a different order. */
  lemma RegistraRemove(os: seq<object>, l: object?)
    ensures multiset(Remove(Registra(os, l), l)) == multiset(os)
  {
    RegistraCounts(os, l);
    if l != null {
      assert l in Registra(os, l);
    }
    RemoveCounts(Registra(os, l), l);
  }

  /** A listener registered once and then removed gets its list back exactly once it was not there before. */
  lemma {:induction false} RegistraRemoveFresh(os: seq<object>, l: object)
    requires l !in os
    ensures Remove(Registra(os, l), l) == os
  {
    if os != [] {
      assert (os + [l])[1..] == os[1..] + [l];
      RegistraRemoveFresh(os[1..], l);
    }
  }

  class CeAlgoritmo {
    /** The counters, limit, environment, best individual, name and operators, as in the other tree. */
    const estado: AlgoritmoEvolucionario
    /** The listeners registered for `MelhorSer`, in the order they were added. */
    var ouvintes: seq<object>
    /** Every notification delivered so far, oldest first. */
    var notificacoes: seq<Notificacao>

    /** `AlgoritmoEvolucionario()`: limit `Integer.MAX_VALUE`, the placeholder name, no listeners. */
    constructor ()
      ensures fresh(estado) && estado.Valid()
      ensures estado.maxIteracoes == Some(MaxInt) && estado.nome == Some(NaoAtribuido)
      ensures estado.contadorDeIteracoes == 0 && estado.contadorSemMelhoras == 0
      ensures estado.ambiente == null && estado.melhorSer == null
      ensures ouvintes == [] && notificacoes == []
    {
      estado := new AlgoritmoEvolucionario();
      ouvintes, notificacoes := [], [];
    }

    /** `AlgoritmoEvolucionario(ambiente)`: `this()`, so the limit and name are set, then `setAmbiente`. */
    constructor WithAmbiente(a: Ambiente?)
      ensures fresh(estado) && estado.Valid()
      ensures estado.maxIteracoes == Some(MaxInt) && estado.nome == Some(NaoAtribuido)
      ensures estado.contadorDeIteracoes == 0 && estado.contadorSemMelhoras == 0
      ensures estado.ambiente == a && estado.melhorSer == null
      ensures ouvintes == [] && notificacoes == []
    {
      estado := new AlgoritmoEvolucionario();
      ouvintes, notificacoes := [], [];
      new;
      var o := estado.SetAmbiente(a);
    }

    /** `setNome`; `getNome` reads it back. */
    method SetNome(n: string)
      modifies estado`nome
      ensures estado.nome == Some(n)
    {
      estado.nome := Some(n);
    }

    /**
     * `setMelhorSer`: the field takes the new individual first; then, unless
     * old and new are the same individual, every registered listener gets
     * one notification with both, in registration order.
     */
    method SetMelhorSer(s: Ser?)
      modifies estado`melhorSer, this`notificacoes
      ensures estado.melhorSer == s
      ensures notificacoes == old(notificacoes) +
                (if Dispara(old(estado.melhorSer), s) then Avisos(ouvintes, old(estado.melhorSer), s) else [])
    {
      var anterior := estado.melhorSer;
      estado.SetMelhorSer(s);
      if Dispara(anterior, s) {
        notificacoes := notificacoes + Avisos(ouvintes, anterior, s);
      }
    }

    /** `addMelhorSerListener`. */
    method AddMelhorSerListener(l: object?)
      modifies this`ouvintes
      ensures ouvintes == Registra(old(ouvintes), l)
    {
      if l != null {
        ouvintes := ouvintes + [l];
      }
    }

    /** `removeMelhorSerListener`. */
    method RemoveMelhorSerListener(l: object?)
      modifies this`ouvintes
      ensures ouvintes == Remove(old(ouvintes), l)
    {
      if l == null {
        RemoveCounts(ouvintes, l);
        return;
      }
      ouvintes := Remove(ouvintes, l);
    }
  }
}
