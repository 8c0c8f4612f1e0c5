/**
 * Integer individuals (`SerInteiro`, `SerInteiroMax`): fixed-length
 * individuals with final bounds, the upper one stored inclusive, and the
 * random-resetting mutation (`MutadorInteiro`).
 */
module Integers {
  import opened Errors
  import opened Genes
  import opened Beings
  import Random

  /** The upper bound `SerInteiro` stores: the exclusive constructor bound minus 1, in `int` arithmetic. */
  function InclusiveUpper(hi: int): (r: int)
    requires IsInt32(hi)
    ensures IsInt32(r)
    ensures hi > MinInt ==> r == hi - 1
    ensures hi == MinInt ==> r == MaxInt
  {
    Wrap32(hi - 1)
  }

  /**
   * `SerInteiro(n, lower, upper)`: `SerFixo(n)` first (the counter advances,
   * n <= 0 throws), then upper < lower throws; the bounds kept are
   * [lower, upper - 1].
   */
  method NewSerInteiro(counter: IdCounter, n: int, lower: int, upper: int) returns (r: Result<Ser>)
    requires IsInt32(lower) && IsInt32(upper)
    modifies counter
    ensures counter.next == old(counter.next) + 1
    ensures r.Ok? <==> n > 0 && lower <= upper
    ensures r.Fail? ==> r.error == IllegalArgument
    ensures r.Ok? ==> fresh(r.value) && r.value.id == old(counter.next) && r.value.Unborn(n) && r.value.Valid()
                      && r.value.species == Bounded(lower, InclusiveUpper(upper))
  {
    var s := NewSerFixo(counter, n, Bounded(lower, InclusiveUpper(upper)));
    if s.Fail? {
      return s;
    }
    if upper < lower {
      return Fail(IllegalArgument);
    }
    return s;
  }

  /**
   * The stored bounds hold exactly upper - lower values; equal bounds give an
   * empty range, except at `Integer.MIN_VALUE`, where upper - 1 wraps to the
   * whole `int` range.
   */
  lemma StoredBounds(lower: int, upper: int)
    requires IsInt32(lower) && IsInt32(upper) && lower <= upper
    ensures upper > MinInt ==> InclusiveUpper(upper) - lower + 1 == upper - lower
    ensures lower == upper && upper > MinInt ==> InclusiveUpper(upper) == lower - 1
    ensures lower == upper == MinInt ==> InclusiveUpper(upper) == MaxInt
  {
  }

  /** `SerInteiroMax(n)`: the bounds [Integer.MIN_VALUE, Integer.MAX_VALUE - 1]. */
  method NewSerInteiroMax(counter: IdCounter, n: int) returns (r: Result<Ser>)
    modifies counter
    ensures counter.next == old(counter.next) + 1
    ensures r.Ok? <==> n > 0
    ensures r.Fail? ==> r.error == IllegalArgument
    ensures r.Ok? ==> fresh(r.value) && r.value.Unborn(n) && r.value.species == Bounded(MinInt, MaxInt - 1)
  {
    r := NewSerInteiro(counter, n, MinInt, MaxInt);
  }

  /**
   * `integerListToLocusList` of `SerInteiro` (`asPermutation` false) and of
   * `SerPermutacao` (true): one fresh, unowned locus per value, in order.
   */
  method IntegerListToLocusList(xs: seq<int>, asPermutation: bool) returns (loci: seq<Locus>)
    ensures |loci| == |xs| && forall k, j :: 0 <= k < j < |loci| ==> loci[k] != loci[j]
    ensures forall k :: 0 <= k < |loci| ==>
              fresh(loci[k]) && loci[k].owner == null &&
              loci[k].value == if asPermutation then Permutation(xs[k]) else Integer(xs[k])
  {
    loci := [];
    var i := 0;
    while i < |xs|
      invariant 0 <= i <= |xs| && |loci| == i && forall k, j :: 0 <= k < j < |loci| ==> loci[k] != loci[j]
      invariant forall k :: 0 <= k < i ==>
                  fresh(loci[k]) && loci[k].owner == null &&
                  loci[k].value == if asPermutation then Permutation(xs[k]) else Integer(xs[k])
    {
      var g := new Locus(if asPermutation then Permutation(xs[i]) else Integer(xs[i]));
      loci := loci + [g];
      i := i + 1;
    }
  }

  /** A slot after a reset: an integer locus with a value in [lower, upper]. */
  predicate ResetIn(slot: Option<Value>, lower: int, upper: int) {
    slot.Some? && slot.value.Integer? && lower <= slot.value.n <= upper
  }

  /** Every slot keeps its initial value or was reset into the bounds. */
  ghost predicate KeptOrReset(before: seq<Option<Value>>, now: seq<Option<Value>>, lower: int, upper: int) {
    |before| == |now| && forall k :: 0 <= k < |now| ==> now[k] == before[k] || ResetIn(now[k], lower, upper)
  }

  /** After |reset| rounds without repeated loci: exactly the drawn slots were reset. */
  ghost predicate ResetTracked(before: seq<Option<Value>>, now: seq<Option<Value>>, reset: seq<bool>,
                               lower: int, upper: int) {
    |before| == |now| && |reset| <= |now| &&
    forall k :: 0 <= k < |now| ==>
      if k < |reset| && reset[k] then ResetIn(now[k], lower, upper) else now[k] == before[k]
  }

  ghost predicate ResetState(gs: seq<Locus?>, before: seq<Option<Value>>, reset: seq<bool>, lower: int, upper: int)
    reads LociOf(gs)
  {
    |before| == |gs| && |reset| <= |gs| &&
    KeptOrReset(before, GenomeOf(gs), lower, upper) &&
    (DistinctSlots(gs) ==> ResetTracked(before, GenomeOf(gs), reset, lower, upper))
  }

  /**
   * `randomResetting(ser, p)`: every slot whose draw succeeds is cast to an
   * integer locus (other loci throw ClassCast) and gets a uniform value of
   * [lower, upper]; the draw `nextInt(lower, upper + 1)` throws
   * IllegalArgument on an empty range, and a null slot throws afterwards.
   * The parallel stream is taken in slot order.
   */
  method RandomResetting(ser: Ser, p: real) returns (r: Outcome, ghost reset: seq<bool>)
    requires ser.species.Bounded? && IsInt32(ser.species.lower) && IsInt32(ser.species.upper)
    modifies LociOf(ser.genes)`value
    ensures KeptOrReset(old(ser.Genome()), ser.Genome(), ser.species.lower, ser.species.upper)
    ensures r.Pass? ==> |reset| == |ser.genes| && Random.DrawsFollow(p, reset)
    ensures r.Pass? && DistinctSlots(ser.genes) ==>
              ResetTracked(old(ser.Genome()), ser.Genome(), reset, ser.species.lower, ser.species.upper)
    ensures r.Throw? ==> r.error == NullPointer || r.error == ClassCast || r.error == IllegalArgument
    ensures r == Throw(IllegalArgument) ==> Succ32(ser.species.upper) <= ser.species.lower
  {
    r, reset := ResetAll(ser.genes, p, ser.species.lower, ser.species.upper);
  }

  /** The stream of `randomResetting` over a gene list. */
  method ResetAll(gs: seq<Locus?>, p: real, lower: int, upper: int) returns (r: Outcome, ghost reset: seq<bool>)
    requires IsInt32(lower) && IsInt32(upper)
    modifies LociOf(gs)`value
    ensures KeptOrReset(old(GenomeOf(gs)), GenomeOf(gs), lower, upper)
    ensures r.Pass? ==> |reset| == |gs| && Random.DrawsFollow(p, reset)
    ensures r.Pass? && DistinctSlots(gs) ==> ResetTracked(old(GenomeOf(gs)), GenomeOf(gs), reset, lower, upper)
    ensures r.Throw? ==> r.error == NullPointer || r.error == ClassCast || r.error == IllegalArgument
    ensures r == Throw(IllegalArgument) ==> Succ32(upper) <= lower
  {
    ghost var before := GenomeOf(gs);
    r := Pass;
    reset := [];
    var i := 0;
    while i < |gs| && r.Pass?
      invariant 0 <= i <= |gs| && |reset| == i
      invariant KeptOrReset(before, GenomeOf(gs), lower, upper)
      invariant r.Pass? ==> ResetState(gs, before, reset, lower, upper) && Random.DrawsFollow(p, reset)
      invariant r.Throw? ==> r.error == NullPointer || r.error == ClassCast || r.error == IllegalArgument
      invariant r == Throw(IllegalArgument) ==> Succ32(upper) <= lower
    {
      var draw;
      r, draw := ResetSlot(gs, i, p, lower, upper, before, reset);
      Random.DrawsFollowAppend(p, reset, draw);
      reset := reset + [draw];
      i := i + 1;
    }
  }

  /** One slot of `randomResetting`: the draw, the cast, the new value. */
  method ResetSlot(gs: seq<Locus?>, i: int, p: real, lower: int, upper: int,
                   ghost before: seq<Option<Value>>, ghost reset: seq<bool>)
    returns (r: Outcome, draw: bool)
    requires 0 <= i < |gs| && i == |reset| && IsInt32(lower) && IsInt32(upper)
    requires ResetState(gs, before, reset, lower, upper)
    modifies LociOf(gs)`value
    ensures KeptOrReset(before, GenomeOf(gs), lower, upper)
    ensures r.Pass? ==> ResetState(gs, before, reset + [draw], lower, upper)
    ensures p >= 1.0 ==> draw
    ensures p < 0.0 ==> !draw
    ensures r.Throw? ==> r.error == NullPointer || r.error == ClassCast || r.error == IllegalArgument
    ensures r == Throw(IllegalArgument) ==> Succ32(upper) <= lower
  {
    var g := gs[i];
    draw := Random.SorteioUniforme(p);
    if draw {
      if g != null && !g.value.Integer? {
        return Throw(ClassCast), draw;
      }
      var v := Random.NextInt(lower, Succ32(upper));
      if v.Fail? {
        return Throw(v.error), draw;
      }
      if g == null {
        return Throw(NullPointer), draw;
      }
      ResetLocus(gs, i, g, v.value, lower, upper, before, reset);
    } else if DistinctSlots(gs) {
      ResetSkip(before, GenomeOf(gs), reset, lower, upper);
    }
    r := Pass;
  }

  /** `setRepresentacaoNumerica(x)` on the integer locus of slot i. */
  method ResetLocus(gs: seq<Locus?>, i: int, g: Locus, x: int, lower: int, upper: int,
                    ghost before: seq<Option<Value>>, ghost reset: seq<bool>)
    requires 0 <= i < |gs| && i == |reset| && gs[i] == g && g.value.Integer? && lower <= x <= upper
    requires ResetState(gs, before, reset, lower, upper)
    modifies g`value
    ensures ResetState(gs, before, reset + [true], lower, upper)
  {
    ghost var now := GenomeOf(gs);
    SlotsAreGenome(gs);
    g.SetRepresentacaoNumerica(x);
    SlotsAreGenome(gs);
    ResetStep(gs, before, now, GenomeOf(gs), reset, i, lower, upper);
  }

  /** A slot whose draw fails keeps its value. */
  lemma ResetSkip(before: seq<Option<Value>>, now: seq<Option<Value>>, reset: seq<bool>, lower: int, upper: int)
    requires ResetTracked(before, now, reset, lower, upper) && |reset| < |now|
    ensures ResetTracked(before, now, reset + [false], lower, upper)
  {
    forall k | 0 <= k < |now|
      ensures if k < |reset| + 1 && (reset + [false])[k] then ResetIn(now[k], lower, upper) else now[k] == before[k]
    {
      if k < |reset| {
        assert (reset + [false])[k] == reset[k];
      }
    }
  }

  /** One reset of the locus in slot i, seen on the genome. */
  lemma ResetStep(gs: seq<Locus?>, before: seq<Option<Value>>, now: seq<Option<Value>>, next: seq<Option<Value>>,
                  reset: seq<bool>, i: int, lower: int, upper: int)
    requires i == |reset| && 0 <= i < |gs| && |now| == |gs| && |next| == |gs| && gs[i] != null
    requires KeptOrReset(before, now, lower, upper) && ResetIn(next[i], lower, upper)
    requires forall k :: 0 <= k < |gs| && gs[k] == gs[i] ==> next[k] == next[i]
    requires forall k :: 0 <= k < |gs| && gs[k] != gs[i] ==> next[k] == now[k]
    requires DistinctSlots(gs) ==> ResetTracked(before, now, reset, lower, upper)
    ensures KeptOrReset(before, next, lower, upper)
    ensures DistinctSlots(gs) ==> ResetTracked(before, next, reset + [true], lower, upper)
  {
    if DistinctSlots(gs) {
      forall k | 0 <= k < |gs|
        ensures if k < i + 1 && (reset + [true])[k] then ResetIn(next[k], lower, upper) else next[k] == before[k]
      {
        if k != i {
          assert gs[k] != gs[i];
        }
      }
    }
  }

  /**
   * `MutadorInteiro.muta`: random resetting with probability 1/size per
   * locus, so the only locus of a one-gene individual is always redrawn.
   */
  method Muta(ser: Ser) returns (r: Outcome, ghost reset: seq<bool>)
    requires ser.species.Bounded? && IsInt32(ser.species.lower) && IsInt32(ser.species.upper)
    modifies LociOf(ser.genes)`value
    ensures KeptOrReset(old(ser.Genome()), ser.Genome(), ser.species.lower, ser.species.upper)
    ensures r.Pass? ==> |reset| == |ser.genes|
    ensures r.Pass? ==> Random.DrawsFollow(if |ser.genes| > 0 then 1.0 / (|ser.genes| as real) else 1.0, reset)
    ensures r.Pass? && |ser.genes| == 1 ==> reset == [true]
    ensures r.Pass? && DistinctSlots(ser.genes) ==>
              ResetTracked(old(ser.Genome()), ser.Genome(), reset, ser.species.lower, ser.species.upper)
    ensures r.Throw? ==> r.error == NullPointer || r.error == ClassCast || r.error == IllegalArgument
    ensures r == Throw(IllegalArgument) ==> Succ32(ser.species.upper) <= ser.species.lower
  {
    // With no genes the stream is empty, whatever the probability.
    var p := if |ser.genes| > 0 then 1.0 / (|ser.genes| as real) else 1.0;
    r, reset := RandomResetting(ser, p);
  }

  /**
   * A reset value of an individual built with exclusive bound `upper` stays
   * below it, and the draw's exclusive bound `upper + 1` is the constructor's.
   */
  lemma ResetBelowConstructorBound(lower: int, upper: int, v: int)
    requires IsInt32(lower) && IsInt32(upper) && MinInt < upper
    requires lower <= v <= InclusiveUpper(upper)
    ensures v < upper
    ensures Succ32(InclusiveUpper(upper)) == upper
  {
  }
}
