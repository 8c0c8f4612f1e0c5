/**
 * Binary individuals: the MSB-first reading of a bit list as an `int`
 * (`bits2Int`, `locusBinarios2Int`), the conversion of booleans into binary
 * loci, a list of random bits, and bit-flip mutation (`MutadorBinario`).
 */
module Binaries {
  import opened Errors
  import opened Genes
  import opened Beings
  import opened Seqs
  import Random

  function Pow2(k: nat): (r: nat)
    ensures r >= 1
  {
    if k == 0 then 1 else 2 * Pow2(k - 1)
  }

  /** The MSB-first binary value of a bit list, Horner style: the last bit is the least significant. */
  function MsbValue(bits: seq<bool>): nat {
    if bits == [] then 0
    else 2 * MsbValue(bits[..|bits| - 1]) + (if bits[|bits| - 1] then 1 else 0)
  }

  /** The weight bit k of an n-bit list contributes: 2^(n-1-k) when set. */
  function Weight(bits: seq<bool>, n: nat, k: nat): nat
    requires k < |bits| && k < n
  {
    if bits[k] then Pow2(n - 1 - k) else 0
  }

  /** The weights of bits 0 .. i-1 of an n-bit list: what the Java loop has added after i rounds. */
  function PositionalSum(bits: seq<bool>, n: nat, i: nat): nat
    requires i <= |bits| && i <= n
  {
    if i == 0 then 0 else PositionalSum(bits, n, i - 1) + Weight(bits, n, i - 1)
  }

  /** The Java cast `(int)` of a non-negative double: saturates at `Integer.MAX_VALUE`. */
  function SaturatedInt(v: nat): (r: int)
    ensures IsInt32(r) && 0 <= r
    ensures r == v <==> v <= MaxInt
  {
    if v > MaxInt then MaxInt else v
  }

  /** The sum of the first i weights reads only the first i bits. */
  lemma {:induction false} PositionalSumExtend(bits: seq<bool>, ext: seq<bool>, n: nat, i: nat)
    requires i <= |bits| && i <= n
    ensures PositionalSum(bits + ext, n, i) == PositionalSum(bits, n, i)
  {
    if i > 0 {
      PositionalSumExtend(bits, ext, n, i - 1);
      assert (bits + ext)[i - 1] == bits[i - 1];
    }
  }

  /** One more bit at the end doubles every existing weight. */
  lemma {:induction false} PositionalSumAppend(bits: seq<bool>, x: bool, n: nat, i: nat)
    requires i <= |bits| && i <= n
    ensures PositionalSum(bits + [x], n + 1, i) == 2 * PositionalSum(bits, n, i)
  {
    if i > 0 {
      PositionalSumAppend(bits, x, n, i - 1);
      assert (bits + [x])[i - 1] == bits[i - 1];
      assert Pow2(n + 1 - 1 - (i - 1)) == 2 * Pow2(n - 1 - (i - 1));
    }
  }

  /** The loop's positional sum and the Horner value agree: Σ bits[i]·2^(n-1-i). */
  lemma {:induction false} HornerIsPositional(bits: seq<bool>)
    ensures MsbValue(bits) == PositionalSum(bits, |bits|, |bits|)
  {
    if bits != [] {
      var b := bits[..|bits| - 1];
      var x := bits[|bits| - 1];
      assert bits == b + [x];
      HornerIsPositional(b);
      PositionalSumAppend(b, x, |b|, |b|);
    }
  }

  /** An n-bit list reads below 2^n. */
  lemma {:induction false} MsbValueBound(bits: seq<bool>)
    ensures MsbValue(bits) < Pow2(|bits|)
  {
    if bits != [] {
      MsbValueBound(bits[..|bits| - 1]);
    }
  }

  /**
   * `bits2Int` (both copies): the loop adds 2^(n-1-i) for every set bit
   * into a double, then casts it to `int`. The sum is exact as long as it
   * stays below 2^53, and anything larger saturates the cast, so the result
   * is the binary value, saturated.
   */
  method Bits2Int(bits: seq<bool>) returns (r: int)
    ensures r == SaturatedInt(MsbValue(bits))
  {
    var valor: nat := 0;
    var i := 0;
    while i < |bits|
      invariant 0 <= i <= |bits| && valor == PositionalSum(bits, |bits|, i)
    {
      if bits[i] {
        valor := valor + Pow2(|bits| - 1 - i);
      }
      i := i + 1;
    }
    HornerIsPositional(bits);
    r := SaturatedInt(valor);
  }

  lemma Bits2IntEmpty()
    ensures SaturatedInt(MsbValue([])) == 0
  {
  }

  /** n set bits read 2^n - 1. */
  lemma {:induction false} AllOnes(n: nat)
    ensures MsbValue(seq(n, _ => true)) == Pow2(n) - 1
  {
    if n > 0 {
      var s := seq(n, _ => true);
      assert s[..n - 1] == seq(n - 1, _ => true);
      AllOnes(n - 1);
    }
  }

  /** For n <= 31 the cast does not saturate: n set bits give 2^n - 1. */
  lemma AllOnesBits2Int(n: nat)
    requires n <= 31
    ensures SaturatedInt(MsbValue(seq(n, _ => true))) == Pow2(n) - 1
  {
    AllOnes(n);
    Pow2Monotone(n, 31);
  }

  lemma {:induction false} Pow2Monotone(a: nat, b: nat)
    requires a <= b
    ensures Pow2(a) <= Pow2(b)
    ensures b == 31 ==> Pow2(b) == MaxInt + 1
  {
    if a < b {
      Pow2Monotone(a, b - 1);
    }
    if b == 31 {
      assert Pow2(31) == 0x8000_0000 by {
        assert Pow2(8) == 0x100;
        assert Pow2(16) == 0x1_0000;
        assert Pow2(24) == 0x100_0000;
      }
    }
  }

  /** While the list has fewer than 31 bits, appending bit x gives 2·v + x. */
  lemma AppendBit(bits: seq<bool>, x: bool)
    requires |bits| < 31
    ensures SaturatedInt(MsbValue(bits + [x])) == 2 * SaturatedInt(MsbValue(bits)) + (if x then 1 else 0)
  {
    assert (bits + [x])[..|bits|] == bits;
    MsbValueBound(bits + [x]);
    Pow2Monotone(|bits| + 1, 31);
    MsbValueBound(bits);
  }

  /**
   * What `locusBinarios2Int` trips over at a slot: the cast to the `ic.ce`
   * binary locus rejects other loci, and reading a null slot or unboxing a
   * null bit throws.
   */
  function SlotError(g: Locus?): (r: Option<Exception>)
    reads Just(g)
    ensures r.None? <==> g != null && g.value.BoxedBit? && g.value.boxed.Some?
  {
    if g == null then Some(NullPointer)
    else if !g.value.BoxedBit? then Some(ClassCast)
    else if g.value.boxed.None? then Some(NullPointer)
    else None
  }

  /** Every slot holds an `ic.ce` binary locus with a non-null bit. */
  ghost predicate AllReadable(gs: seq<Locus?>)
    reads LociOf(gs)
  {
    forall k :: 0 <= k < |gs| ==> gs[k] != null && gs[k].value.BoxedBit? && gs[k].value.boxed.Some?
  }

  /** The bits of a list of readable binary loci. */
  ghost function BitsOf(gs: seq<Locus?>): (bits: seq<bool>)
    requires AllReadable(gs)
    reads LociOf(gs)
    ensures |bits| == |gs|
    ensures forall k :: 0 <= k < |gs| ==> gs[k].value == BoxedBit(Some(bits[k]))
  {
    if gs == [] then []
    else
      assert LociOf(gs[1..]) <= LociOf(gs);
      [gs[0].value.boxed.value] + BitsOf(gs[1..])
  }

  /**
   * `locusBinarios2Int`: the `bits2Int` value of the loci's bits; the first
   * slot that cannot be read decides the exception.
   */
  method LocusBinarios2Int(gs: seq<Locus?>) returns (r: Result<int>)
    ensures r.Ok? <==> AllReadable(gs)
    ensures r.Ok? ==> r.value == SaturatedInt(MsbValue(BitsOf(gs)))
    ensures r.Fail? ==> exists k :: 0 <= k < |gs| && SlotError(gs[k]) == Some(r.error) &&
                                    forall j :: 0 <= j < k ==> SlotError(gs[j]).None?
  {
    var valor: nat := 0;
    var i := 0;
    ghost var bits: seq<bool> := [];
    while i < |gs|
      invariant 0 <= i <= |gs| && |bits| == i
      invariant forall k :: 0 <= k < i ==> SlotError(gs[k]).None? && gs[k].value == BoxedBit(Some(bits[k]))
      invariant valor == PositionalSum(bits, |gs|, i)
    {
      var e := SlotError(gs[i]);
      if e.Some? {
        return Fail(e.value);
      }
      var bit := gs[i].value.boxed.value;
      if bit {
        valor := valor + Pow2(|gs| - 1 - i);
      }
      PositionalSumExtend(bits, [bit], |gs|, i);
      bits := bits + [bit];
      i := i + 1;
    }
    assert bits == BitsOf(gs);
    HornerIsPositional(bits);
    return Ok(SaturatedInt(valor));
  }

  /** `booleanListToLocusList`: one fresh, unowned `ic.ce` binary locus per boolean, in order. */
  method BooleanListToLocusList(bools: seq<bool>) returns (loci: seq<Locus>)
    ensures |loci| == |bools| && Distinct(loci)
    ensures forall k :: 0 <= k < |loci| ==>
              fresh(loci[k]) && loci[k].owner == null && loci[k].value == BoxedBit(Some(bools[k]))
  {
    loci := [];
    var i := 0;
    while i < |bools|
      invariant 0 <= i <= |bools| && |loci| == i && Distinct(loci)
      invariant forall k :: 0 <= k < i ==>
                  fresh(loci[k]) && loci[k].owner == null && loci[k].value == BoxedBit(Some(bools[k]))
    {
      var g := new Locus(BoxedBit(Some(bools[i])));
      loci := loci + [g];
      i := i + 1;
    }
  }

  /**
   * `SerBinario(List<Boolean>)`: `SerFixo(size)` (an empty list throws)
   * and then `setCaracteristicas` of the converted loci, which cannot be
   * refused: the loci are new and the individual unevaluated.
   */
  method NewSerBinario(counter: IdCounter, bools: seq<bool>) returns (r: Result<Ser>)
    modifies counter
    ensures counter.next == old(counter.next) + 1
    ensures r.Ok? <==> |bools| > 0
    ensures r.Fail? ==> r.error == IllegalArgument
    ensures r.Ok? ==> fresh(r.value) && r.value.id == old(counter.next) && r.value.Valid()
                      && r.value.age == 0 && r.value.fitness == None && r.value.evaluatedBy == null
                      && |r.value.genes| == |bools|
    ensures r.Ok? ==> forall k :: 0 <= k < |bools| ==>
                        r.value.genes[k] != null && fresh(r.value.genes[k]) &&
                        r.value.genes[k].value == BoxedBit(Some(bools[k])) && r.value.genes[k].owner == r.value
  {
    var s := NewSerFixo(counter, |bools|, Plain);
    if s.Fail? {
      return Fail(s.error);
    }
    var ser := s.value;
    var loci := BooleanListToLocusList(bools);
    assert forall k :: 0 <= k < |loci| ==> ser.Bindable(loci[k]);
    var o, written := ser.SetCaracteristicas(loci);
    assert loci[..written] == loci;
    return Ok(ser);
  }

  /**
   * `arrayAleatorioUniforme(nbits)` as written: the loop runs for
   * i = 0 .. nbits inclusive, so it returns nbits + 1 booleans, and none for
   * a negative count. For nbits = `Integer.MAX_VALUE` the test `i <= nbits`
   * holds for every `int` i, so the loop never ends.
   */
  method ArrayAleatorioUniformeAsWritten(nbits: int) returns (r: Result<seq<bool>>)
    requires IsInt32(nbits)
    ensures r.Ok? <==> nbits < MaxInt
    ensures r.Fail? ==> r.error == NeverReturns
    ensures r.Ok? ==> |r.value| == if nbits >= 0 then nbits + 1 else 0
  {
    if nbits == MaxInt {
      return Fail(NeverReturns);
    }
    var lista := [];
    var i := 0;
    while i <= nbits
      invariant |lista| == i && (nbits >= 0 ==> i <= nbits + 1) && (nbits < 0 ==> i == 0)
      decreases nbits + 1 - i
    {
      var b := Random.NextBoolean();
      lista := lista + [b];
      i := i + 1;
    }
    return Ok(lista);
  }

  /** `arrayAleatorioUniforme(nbits)` as documented: exactly nbits random booleans, none for a negative count. */
  method ArrayAleatorioUniforme(nbits: int) returns (lista: seq<bool>)
    ensures |lista| == if nbits >= 0 then nbits else 0
  {
    lista := [];
    var i := 0;
    while i < nbits
      invariant |lista| == i && (nbits >= 0 ==> i <= nbits) && (nbits < 0 ==> i == 0)
      decreases nbits - i
    {
      var b := Random.NextBoolean();
      lista := lista + [b];
      i := i + 1;
    }
  }

  /** A slot `flip` succeeds on: an `ic.populacional` binary locus with a non-null bit. */
  predicate Flippable(slot: Option<Value>) {
    slot.Some? && slot.value.Bit? && slot.value.bit.Some?
  }

  /** Slot k after a bit-flip pass: kept, or flipped when its draw succeeded. */
  predicate KeptOrFlipped(before: Option<Value>, after: Option<Value>) {
    before == after || (Flippable(before) && after == Some(Flipped(before.value)))
  }

  /**
   * `bitFlipping(ser, p)`: visits the slots in order; each is cast to the
   * `ic.populacional` binary locus (other loci throw ClassCast), then one
   * draw decides whether it flips (a null slot or a null bit throws when
   * drawn). Loci change in place, past the check on evaluated individuals.
   * `flipped` records the successful draws; when no locus sits in two
   * slots, slot k is flipped exactly when its draw succeeded.
   */
  method BitFlipping(ser: Ser, p: real) returns (r: Outcome, ghost flipped: seq<bool>)
    modifies LociOf(ser.genes)`value
    ensures Drifted(old(ser.Genome()), ser.Genome())
    ensures r.Pass? ==> |flipped| == |ser.genes| && Visited(ser.genes, old(ser.Genome()), flipped)
    ensures r.Pass? && DistinctSlots(ser.genes) ==> Tracked(old(ser.Genome()), ser.Genome(), flipped)
    ensures r.Pass? ==> Random.DrawsFollow(p, flipped)
    ensures r.Throw? ==> r.error == NullPointer || r.error == ClassCast
  {
    r, flipped := FlipAll(ser.genes, p);
  }

  /** The pass of `bitFlipping` over a gene list. */
  method FlipAll(gs: seq<Locus?>, p: real) returns (r: Outcome, ghost flipped: seq<bool>)
    modifies LociOf(gs)`value
    ensures Drifted(old(GenomeOf(gs)), GenomeOf(gs))
    ensures r.Pass? ==> |flipped| == |gs| && Visited(gs, old(GenomeOf(gs)), flipped)
    ensures r.Pass? && DistinctSlots(gs) ==> Tracked(old(GenomeOf(gs)), GenomeOf(gs), flipped)
    ensures r.Pass? ==> Random.DrawsFollow(p, flipped)
    ensures r.Throw? ==> r.error == NullPointer || r.error == ClassCast
  {
    ghost var before := GenomeOf(gs);
    SlotsAreGenome(gs);
    r := Pass;
    flipped := [];
    var i := 0;
    while i < |gs| && r.Pass?
      invariant 0 <= i <= |gs| && |flipped| == i
      invariant Drifted(before, GenomeOf(gs))
      invariant r.Pass? ==> PassState(gs, before, flipped) && Random.DrawsFollow(p, flipped)
      invariant r.Throw? ==> r.error == NullPointer || r.error == ClassCast
    {
      var draw;
      r, draw := FlipSlot(gs, i, p, before, flipped);
      if r.Pass? {
        Random.DrawsFollowAppend(p, flipped, draw);
      }
      flipped := flipped + [draw];
      i := i + 1;
    }
  }

  /** The state of a bit-flip pass after |flipped| slots. */
  ghost predicate PassState(gs: seq<Locus?>, before: seq<Option<Value>>, flipped: seq<bool>)
    reads LociOf(gs)
  {
    |before| == |gs| && SameLocusSameValue(gs, before) &&
    (forall k :: 0 <= k < |gs| ==> (gs[k] == null <==> before[k].None?)) &&
    Visited(gs, before, flipped) && Drifted(before, GenomeOf(gs)) &&
    (DistinctSlots(gs) ==> Tracked(before, GenomeOf(gs), flipped))
  }

  /** One round of `bitFlipping`: the cast, the draw, and the flip of slot i. */
  method FlipSlot(gs: seq<Locus?>, i: int, p: real, ghost before: seq<Option<Value>>, ghost flipped: seq<bool>)
    returns (r: Outcome, draw: bool)
    requires 0 <= i < |gs| && i == |flipped| && PassState(gs, before, flipped)
    modifies LociOf(gs)`value
    ensures Drifted(before, GenomeOf(gs))
    ensures r.Pass? ==> PassState(gs, before, flipped + [draw])
    ensures r.Pass? && p >= 1.0 ==> draw
    ensures r.Pass? && p < 0.0 ==> !draw
    ensures r.Throw? ==> r.error == NullPointer || r.error == ClassCast
  {
    var g := gs[i];
    if g != null && !g.value.Bit? {
      return Throw(ClassCast), false;
    }
    SlotsAreGenome(gs);
    assert KeptOrFlipped(before[i], GenomeOf(gs)[i]);
    draw := Random.SorteioUniforme(p);
    if draw {
      if g == null {
        return Throw(NullPointer), draw;
      }
      r := FlipLocus(gs, i, g, before, flipped);
      return r, draw;
    }
    SkipSlot(gs, before, flipped);
    r := Pass;
  }

  /** A slot whose draw fails: visited, and left as it was. */
  lemma SkipSlot(gs: seq<Locus?>, before: seq<Option<Value>>, flipped: seq<bool>)
    requires |flipped| < |gs| && PassState(gs, before, flipped)
    requires gs[|flipped|] != null ==> gs[|flipped|].value.Bit?
    ensures PassState(gs, before, flipped + [false])
  {
    var i := |flipped|;
    SlotsAreGenome(gs);
    assert KeptOrFlipped(before[i], GenomeOf(gs)[i]);
    VisitedStep(gs, before, flipped, false);
    var now := GenomeOf(gs);
    if DistinctSlots(gs) {
      forall k | 0 <= k < |gs|
        ensures now[k] == if k < i + 1 && (flipped + [false])[k] && Flippable(before[k])
                          then Some(Flipped(before[k].value)) else before[k]
      {
        if k < i {
          assert (flipped + [false])[k] == flipped[k];
        }
      }
    }
  }

  /** `flip()` on the binary locus of slot i. */
  method FlipLocus(gs: seq<Locus?>, i: int, g: Locus, ghost before: seq<Option<Value>>, ghost flipped: seq<bool>)
    returns (r: Outcome)
    requires 0 <= i < |gs| && i == |flipped| && gs[i] == g && g.value.Bit? && PassState(gs, before, flipped)
    modifies g`value
    ensures r.Throw? ==> r.error == NullPointer && g.value == old(g.value)
    ensures r.Pass? ==> PassState(gs, before, flipped + [true])
  {
    ghost var now := GenomeOf(gs);
    SlotsAreGenome(gs);
    assert KeptOrFlipped(before[i], now[i]);
    r := g.Flip();
    if r.Throw? {
      return;
    }
    SlotsAreGenome(gs);
    FlipStep(gs, before, now, GenomeOf(gs), flipped, i);
    VisitedStep(gs, before, flipped, true);
  }

  /** The visited slots held binary loci, and every flipped one a non-null bit. */
  ghost predicate Visited(gs: seq<Locus?>, before: seq<Option<Value>>, flipped: seq<bool>) {
    |flipped| <= |gs| && |before| == |gs| &&
    forall k :: 0 <= k < |flipped| ==>
      (gs[k] != null ==> before[k].Some? && before[k].value.Bit?) && (flipped[k] ==> Flippable(before[k]))
  }

  lemma VisitedStep(gs: seq<Locus?>, before: seq<Option<Value>>, flipped: seq<bool>, draw: bool)
    requires Visited(gs, before, flipped) && |flipped| < |gs|
    requires gs[|flipped|] != null ==> before[|flipped|].Some? && before[|flipped|].value.Bit?
    requires draw ==> Flippable(before[|flipped|])
    ensures Visited(gs, before, flipped + [draw])
  {
  }

  /** Two slots holding one locus held one value at the start. */
  ghost predicate SameLocusSameValue(gs: seq<Locus?>, before: seq<Option<Value>>) {
    |before| == |gs| && forall k, j :: 0 <= k < |gs| && 0 <= j < |gs| && gs[k] == gs[j] ==> before[k] == before[j]
  }

  /** Every slot holds its initial value, flipped or not. */
  ghost predicate Drifted(before: seq<Option<Value>>, now: seq<Option<Value>>) {
    |before| == |now| && forall k :: 0 <= k < |now| ==> KeptOrFlipped(before[k], now[k])
  }

  /** The first |flipped| slots are flipped exactly where the draw succeeded; the rest are untouched. */
  ghost predicate Tracked(before: seq<Option<Value>>, now: seq<Option<Value>>, flipped: seq<bool>) {
    |before| == |now| && |flipped| <= |now| &&
    forall k :: 0 <= k < |now| ==>
      now[k] == if k < |flipped| && flipped[k] && Flippable(before[k]) then Some(Flipped(before[k].value)) else before[k]
  }

  /**
   * One successful flip of the locus in slot i, seen on the genome: every
   * slot holding that locus flips, the others keep their value.
   */
  lemma FlipStep(gs: seq<Locus?>, before: seq<Option<Value>>, now: seq<Option<Value>>, next: seq<Option<Value>>,
                 flipped: seq<bool>, i: int)
    requires i == |flipped| && 0 <= i < |gs| && |now| == |gs| && |next| == |gs|
    requires SameLocusSameValue(gs, before) && Drifted(before, now) && Flippable(now[i])
    requires forall k :: 0 <= k < |gs| && gs[k] == gs[i] ==> now[k] == now[i] && next[k] == Some(Flipped(now[i].value))
    requires forall k :: 0 <= k < |gs| && gs[k] != gs[i] ==> next[k] == now[k]
    requires DistinctSlots(gs) ==> Tracked(before, now, flipped)
    requires gs[i] != null
    ensures Drifted(before, next)
    ensures Flippable(before[i])
    ensures DistinctSlots(gs) ==> Tracked(before, next, flipped + [true])
  {
    FlipInvolution(now[i].value);
    assert KeptOrFlipped(before[i], now[i]);
    if before[i] != now[i] {
      FlipInvolution(before[i].value);
    }
    forall k | 0 <= k < |gs|
      ensures KeptOrFlipped(before[k], next[k])
    {
      if gs[k] == gs[i] {
        assert before[k] == before[i];
      }
    }
    if DistinctSlots(gs) {
      forall k | 0 <= k < |gs|
        ensures next[k] == if k < i + 1 && (flipped + [true])[k] && Flippable(before[k])
                           then Some(Flipped(before[k].value)) else before[k]
      {
        if k != i {
          assert gs[k] != gs[i];
        }
      }
    }
  }

  /**
   * `MutadorBinario.muta`: bit flipping with probability 1/size per bit, so
   * the only bit of a one-gene individual is always flipped.
   */
  method Muta(ser: Ser) returns (r: Outcome, ghost flipped: seq<bool>)
    modifies LociOf(ser.genes)`value
    ensures Drifted(old(ser.Genome()), ser.Genome())
    ensures r.Pass? ==> |flipped| == |ser.genes| && Visited(ser.genes, old(ser.Genome()), flipped)
    ensures r.Pass? && DistinctSlots(ser.genes) ==> Tracked(old(ser.Genome()), ser.Genome(), flipped)
    ensures r.Pass? ==> Random.DrawsFollow(if |ser.genes| > 0 then 1.0 / (|ser.genes| as real) else 1.0, flipped)
    ensures r.Pass? && |ser.genes| == 1 ==> flipped == [true]
    ensures r.Throw? ==> r.error == NullPointer || r.error == ClassCast
  {
    // With no genes the pass visits nothing, whatever the probability.
    var p := if |ser.genes| > 0 then 1.0 / (|ser.genes| as real) else 1.0;
    r, flipped := BitFlipping(ser, p);
  }

  /** Flipping every bit twice restores the genome. */
  lemma FlipAllTwice(g0: seq<Option<Value>>, g1: seq<Option<Value>>, g2: seq<Option<Value>>)
    requires |g1| == |g0| && |g2| == |g0|
    requires forall k :: 0 <= k < |g0| ==> Flippable(g0[k]) && g1[k] == Some(Flipped(g0[k].value))
    requires forall k :: 0 <= k < |g0| ==> Flippable(g1[k]) && g2[k] == Some(Flipped(g1[k].value))
    ensures g2 == g0
  {
    forall k | 0 <= k < |g0|
      ensures g2[k] == g0[k]
    {
      FlipInvolution(g0[k].value);
    }
  }
}
