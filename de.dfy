/**
 * Differential evolution (`ic.ce.populacional.algoritmos.DE` with the
 * operators of `ic.populacional.algoritmos.DE`): the `Best` mutation, which
 * writes into an individual the best member of the population plus weighted
 * differences of randomly drawn members, clamped into each locus's bounds;
 * the `Binomial` recombination, in which a trial made by discrete
 * recombination of the mutant with a random target competes with that target;
 * and the `DE` iteration that chains them.
 */
module DifferentialEvolution {
  import opened Errors
  import opened Genes
  import opened Beings
  import opened Environment
  import opened Population
  import opened Generators
  import Operators
  import Random
  import Sampling
  import Crossovers
  import Mutators
  import Seqs

  // ---------------------------------------------------------------------------
  // The mutation `Best.muta`, on genomes

  /** `(Double) s.getCaracteristica(c).getValor()` on the genome of s. */
  function ReadReal(g: seq<Option<Value>>, c: nat): (r: Result<Option<real>>)
    ensures r.Ok? <==> c < |g| && g[c].Some? && g[c].value.Real?
    ensures r.Ok? ==> r.value == g[c].value.x
  {
    if c >= |g| then Fail(IndexOutOfBounds)
    else if g[c].None? then Fail(NullPointer)
    else if !g[c].value.Real? then Fail(ClassCast)
    else Ok(g[c].value.x)
  }

  /**
   * `getPopulacao().get(indices.get(i)).getCaracteristica(c).getValor()`:
   * `get` past the end of either list throws, and the population's `get`
   * yields null for a negative position.
   */
  function ReadMember(gs: seq<seq<Option<Value>>>, idx: seq<int>, i: nat, c: nat): Result<Option<real>> {
    if i >= |idx| || idx[i] >= |gs| then Fail(IndexOutOfBounds)
    else if idx[i] < 0 then Fail(NullPointer)
    else ReadReal(gs[idx[i]], c)
  }

  /**
   * The inner loop of Best.java from index i on: while i < nDiferencas it
   * reads the members at indices i and i + 1, adds F times their difference,
   * and steps i by two. A null among the operands throws on unboxing.
   */
  function Accumulate(acc: Option<real>, gs: seq<seq<Option<Value>>>, idx: seq<int>, nDif: int, f: real, c: nat, i: nat)
    : Result<Option<real>>
    decreases nDif - i
  {
    if i >= nDif then Ok(acc)
    else
      match ReadMember(gs, idx, i, c)
      case Fail(e) => Fail(e)
      case Ok(v1) =>
        match ReadMember(gs, idx, i + 1, c)
        case Fail(e) => Fail(e)
        case Ok(v2) =>
          if acc.None? || v1.None? || v2.None? then Fail(NullPointer)
          else Accumulate(Some(AddDifference(acc.value, f, v1.value, v2.value)), gs, idx, nDif, f, c, i + 2)
  }

  /** `valor + F * (valor1 - valor2)`. */
  function AddDifference(valor: real, f: real, valor1: real, valor2: real): real {
    valor + Scaled(f, valor1 - valor2)
  }

  /** `F * d`, named so that equal operands are seen to give equal products. */
  function Scaled(f: real, d: real): real {
    f * d
  }

  /** The candidate value for locus c: the base's value with the weighted differences added. */
  function Candidate(gb: seq<Option<Value>>, gs: seq<seq<Option<Value>>>, idx: seq<int>, nDif: int, f: real, c: nat)
    : Result<Option<real>>
  {
    match ReadReal(gb, c)
    case Fail(e) => Fail(e)
    case Ok(b) => Accumulate(b, gs, idx, nDif, f, c, 0)
  }

  /**
   * Locus c of the mutated individual: the candidate, then the cast of its
   * locus to `LocusReal`, then the comparison with the bounds, which throws
   * for a null locus or a null candidate.
   */
  function LocusStep(gb: seq<Option<Value>>, gs: seq<seq<Option<Value>>>, idx: seq<int>, nDif: int, f: real, c: nat,
                     slot: Option<Value>)
    : (r: Result<real>)
    ensures r.Ok? ==> slot.Some? && slot.value.Real? && Candidate(gb, gs, idx, nDif, f, c) == Ok(Some(r.value))
    ensures r.Fail? && Candidate(gb, gs, idx, nDif, f, c).Ok? ==> r.error in {ClassCast, NullPointer}
  {
    match Candidate(gb, gs, idx, nDif, f, c)
    case Fail(e) => Fail(e)
    case Ok(v) =>
      if slot.Some? && !slot.value.Real? then Fail(ClassCast)
      else if slot.None? || v.None? then Fail(NullPointer)
      else Ok(v.value)
  }

  /**
   * What Best.java's last branch makes of a real locus for candidate v: a
   * value at or above the upper bound becomes the double below it
   * (`maximixa`), one below the lower bound becomes the lower bound
   * (`minimiza`), and any other is stored as it is.
   */
  ghost predicate Clamped(v: real, before: Value, after: Value) {
    before.Real? && SameKind(after, before) && after.x.Some? &&
    if v >= before.upper then
      after.x.value < before.upper && (before.lower < before.upper ==> before.lower <= after.x.value)
    else if v < before.lower then after.x.value == before.lower
    else after.x.value == v
  }

  /** Whatever the candidate, a clamped locus lies inside bounds that are not empty. */
  lemma ClampedWithin(v: real, before: Value, after: Value)
    requires Clamped(v, before, after) && before.lower < before.upper
    ensures after.Real? && after.x.Some? && after.lower <= after.x.value < after.upper
  {
  }

  /**
   * The genome of the mutated individual after loci 0 .. n-1 were written:
   * each of them holds its clamped candidate, the others are as they were.
   */
  ghost predicate MutatedUpTo(gb: seq<Option<Value>>, gs: seq<seq<Option<Value>>>, idx: seq<int>, nDif: int, f: real,
                              before: seq<Option<Value>>, after: seq<Option<Value>>, n: nat) {
    |after| == |before| && n <= |before| &&
    (forall c :: 0 <= c < n ==>
      LocusStep(gb, gs, idx, nDif, f, c, before[c]).Ok? && after[c].Some? &&
      Clamped(LocusStep(gb, gs, idx, nDif, f, c, before[c]).value, before[c].value, after[c].value)) &&
    (forall c :: n <= c < |before| ==> after[c] == before[c])
  }

  /** A fully mutated individual has every locus inside its bounds whenever they are not empty. */
  lemma MutatedWithinBounds(gb: seq<Option<Value>>, gs: seq<seq<Option<Value>>>, idx: seq<int>, nDif: int, f: real,
                            before: seq<Option<Value>>, after: seq<Option<Value>>)
    requires MutatedUpTo(gb, gs, idx, nDif, f, before, after, |before|)
    ensures forall c :: 0 <= c < |after| ==> after[c].Some? && after[c].value.Real? && after[c].value.x.Some?
    ensures forall c :: 0 <= c < |after| && after[c].value.lower < after[c].value.upper ==>
              after[c].value.lower <= after[c].value.x.value < after[c].value.upper
  {
    forall c | 0 <= c < |after| && after[c].value.lower < after[c].value.upper
      ensures after[c].value.lower <= after[c].value.x.value < after[c].value.upper
    {
      ClampedWithin(LocusStep(gb, gs, idx, nDif, f, c, before[c]).value, before[c].value, after[c].value);
    }
  }

  // ---------------------------------------------------------------------------
  // The weighted differences, as a sum over pairs

  /** How many differences the inner loop adds: one for each even i below nDiferencas. */
  function PairsUsed(nDif: int): nat {
    if nDif <= 0 then 0 else (nDif + 1) / 2
  }

  /** The value member read i yields when it succeeds with a non-null value. */
  function MemberValue(gs: seq<seq<Option<Value>>>, idx: seq<int>, i: nat, c: nat): real {
    match ReadMember(gs, idx, i, c)
    case Ok(Some(x)) => x
    case _ => 0.0
  }

  /** Member read i succeeds with a non-null value. */
  predicate Readable(gs: seq<seq<Option<Value>>>, idx: seq<int>, i: nat, c: nat) {
    ReadMember(gs, idx, i, c).Ok? && ReadMember(gs, idx, i, c).value.Some?
  }

  /** The sum of the differences of pairs j .. m-1: value 2j minus value 2j+1. */
  function DiffSum(gs: seq<seq<Option<Value>>>, idx: seq<int>, c: nat, j: nat, m: nat): real
    decreases m - j
  {
    if j >= m then 0.0
    else (MemberValue(gs, idx, 2 * j, c) - MemberValue(gs, idx, 2 * j + 1, c)) + DiffSum(gs, idx, c, j + 1, m)
  }

  /**
   * From pair j on, the inner loop succeeds exactly when there is no pair
   * left or the running value and every remaining read are non-null, and it
   * then adds F times the sum of the remaining differences.
   */
  lemma {:induction false} AccumulateIsWeightedSum(acc: Option<real>, gs: seq<seq<Option<Value>>>, idx: seq<int>, nDif: int,
                                                   f: real, c: nat, j: nat)
    ensures Accumulate(acc, gs, idx, nDif, f, c, 2 * j).Ok? <==>
              j >= PairsUsed(nDif) ||
              (acc.Some? && forall i {:trigger Readable(gs, idx, i, c)} :: 2 * j <= i < 2 * PairsUsed(nDif) ==> Readable(gs, idx, i, c))
    ensures Accumulate(acc, gs, idx, nDif, f, c, 2 * j).Ok? && j < PairsUsed(nDif) ==>
              Accumulate(acc, gs, idx, nDif, f, c, 2 * j).value ==
              Some(acc.value + Scaled(f, DiffSum(gs, idx, c, j, PairsUsed(nDif))))
    ensures j >= PairsUsed(nDif) ==> Accumulate(acc, gs, idx, nDif, f, c, 2 * j) == Ok(acc)
    decreases nDif - 2 * j
  {
    var m := PairsUsed(nDif);
    if 2 * j < nDif {
      assert j < m;
      var r1, r2 := ReadMember(gs, idx, 2 * j, c), ReadMember(gs, idx, 2 * j + 1, c);
      if r1.Ok? && r2.Ok? && acc.Some? && r1.value.Some? && r2.value.Some? {
        var a, b := r1.value.value, r2.value.value;
        var next := Some(AddDifference(acc.value, f, a, b));
        AccumulateStep(acc.value, gs, idx, nDif, f, c, 2 * j, a, b);
        assert 2 * (j + 1) == 2 * j + 2;
        AccumulateIsWeightedSum(next, gs, idx, nDif, f, c, j + 1);
        assert Readable(gs, idx, 2 * j, c) && Readable(gs, idx, 2 * j + 1, c);
        var d := DiffSum(gs, idx, c, j + 1, m);
        assert DiffSum(gs, idx, c, j, m) == (a - b) + d;
        if j + 1 >= m {
          assert d == 0.0;
        }
        ShiftSum(acc.value, f, a - b, d);
      } else {
        assert !Readable(gs, idx, 2 * j, c) || !Readable(gs, idx, 2 * j + 1, c) || acc.None?;
      }
    } else {
      assert j >= m;
    }
  }

  lemma AccumulateStep(acc: real, gs: seq<seq<Option<Value>>>, idx: seq<int>, nDif: int, f: real, c: nat, i: nat, a: real, b: real)
    requires i < nDif && ReadMember(gs, idx, i, c) == Ok(Some(a)) && ReadMember(gs, idx, i + 1, c) == Ok(Some(b))
    ensures Accumulate(Some(acc), gs, idx, nDif, f, c, i) == Accumulate(Some(AddDifference(acc, f, a, b)), gs, idx, nDif, f, c, i + 2)
  {
  }

  lemma ShiftSum(acc: real, f: real, x: real, d: real)
    ensures acc + Scaled(f, x) + Scaled(f, d) == acc + Scaled(f, x + d)
    ensures Scaled(f, 0.0) == 0.0
  {
  }

  /** One step of `muta`'s outer loop: locus c receives its clamped candidate. */
  lemma MutatedStep(gb: seq<Option<Value>>, gs: seq<seq<Option<Value>>>, idx: seq<int>, nDif: int, f: real,
                    before: seq<Option<Value>>, now: seq<Option<Value>>, next: seq<Option<Value>>, c: nat, w: Value)
    requires MutatedUpTo(gb, gs, idx, nDif, f, before, now, c) && c < |before|
    requires LocusStep(gb, gs, idx, nDif, f, c, now[c]).Ok? && now[c].Some?
    requires Clamped(LocusStep(gb, gs, idx, nDif, f, c, now[c]).value, now[c].value, w)
    requires next == now[c := Some(w)]
    ensures MutatedUpTo(gb, gs, idx, nDif, f, before, next, c + 1)
  {
    assert now[c] == before[c];
  }

  /**
   * The candidate for locus c is the base's value plus F times the sum of
   * the first ceil(nDiferencas / 2) differences, and it exists exactly when
   * the base's locus is real and, if any pair is used, every read of them is
   * a non-null value.
   */
  lemma CandidateIsWeightedSum(gb: seq<Option<Value>>, gs: seq<seq<Option<Value>>>, idx: seq<int>, nDif: int, f: real, c: nat)
    ensures Candidate(gb, gs, idx, nDif, f, c).Ok? <==>
              ReadReal(gb, c).Ok? &&
              (PairsUsed(nDif) == 0 ||
               (ReadReal(gb, c).value.Some? &&
                forall i {:trigger Readable(gs, idx, i, c)} :: 0 <= i < 2 * PairsUsed(nDif) ==> Readable(gs, idx, i, c)))
    ensures Candidate(gb, gs, idx, nDif, f, c).Ok? && PairsUsed(nDif) > 0 ==>
              Candidate(gb, gs, idx, nDif, f, c) == Ok(Some(gb[c].value.x.value + Scaled(f, DiffSum(gs, idx, c, 0, PairsUsed(nDif)))))
    ensures Candidate(gb, gs, idx, nDif, f, c).Ok? && PairsUsed(nDif) == 0 ==>
              Candidate(gb, gs, idx, nDif, f, c) == Ok(gb[c].value.x)
  {
    var b := ReadReal(gb, c);
    if b.Ok? {
      AccumulateIsWeightedSum(b.value, gs, idx, nDif, f, c, 0);
    }
  }

  /**
   * The inner loop as `Best` evidently means it, one pass per difference:
   * pass j reads the members at indices 2j and 2j + 1, for j below
   * nDiferencas, so every drawn position is used.
   */
  function AccumulatePairs(acc: Option<real>, gs: seq<seq<Option<Value>>>, idx: seq<int>, nDif: int, f: real, c: nat, j: nat)
    : Result<Option<real>>
    decreases nDif - j
  {
    if j >= nDif then Ok(acc)
    else
      match ReadMember(gs, idx, 2 * j, c)
      case Fail(e) => Fail(e)
      case Ok(v1) =>
        match ReadMember(gs, idx, 2 * j + 1, c)
        case Fail(e) => Fail(e)
        case Ok(v2) =>
          if acc.None? || v1.None? || v2.None? then Fail(NullPointer)
          else AccumulatePairs(Some(AddDifference(acc.value, f, v1.value, v2.value)), gs, idx, nDif, f, c, j + 1)
  }

  /** The candidate value for locus c with all nDiferencas differences added. */
  function CandidateIntended(gb: seq<Option<Value>>, gs: seq<seq<Option<Value>>>, idx: seq<int>, nDif: int, f: real, c: nat)
    : Result<Option<real>>
  {
    match ReadReal(gb, c)
    case Fail(e) => Fail(e)
    case Ok(b) => AccumulatePairs(b, gs, idx, nDif, f, c, 0)
  }

  /** How many differences the intended loop adds: nDiferencas of them. */
  function PairsIntended(nDif: int): nat {
    if nDif <= 0 then 0 else nDif
  }

  /** From pair j on, the intended loop adds F times the sum of the remaining differences, as `AccumulateIsWeightedSum` says of the loop as written. */
  lemma {:induction false} AccumulatePairsIsWeightedSum(acc: Option<real>, gs: seq<seq<Option<Value>>>, idx: seq<int>, nDif: int,
                                                        f: real, c: nat, j: nat)
    ensures AccumulatePairs(acc, gs, idx, nDif, f, c, j).Ok? <==>
              j >= PairsIntended(nDif) ||
              (acc.Some? && forall i {:trigger Readable(gs, idx, i, c)} :: 2 * j <= i < 2 * PairsIntended(nDif) ==> Readable(gs, idx, i, c))
    ensures AccumulatePairs(acc, gs, idx, nDif, f, c, j).Ok? && j < PairsIntended(nDif) ==>
              AccumulatePairs(acc, gs, idx, nDif, f, c, j).value ==
              Some(acc.value + Scaled(f, DiffSum(gs, idx, c, j, PairsIntended(nDif))))
    ensures j >= PairsIntended(nDif) ==> AccumulatePairs(acc, gs, idx, nDif, f, c, j) == Ok(acc)
    decreases nDif - j
  {
    var m := PairsIntended(nDif);
    if j < nDif {
      assert j < m;
      var r1, r2 := ReadMember(gs, idx, 2 * j, c), ReadMember(gs, idx, 2 * j + 1, c);
      if r1.Ok? && r2.Ok? && acc.Some? && r1.value.Some? && r2.value.Some? {
        var a, b := r1.value.value, r2.value.value;
        var next := Some(AddDifference(acc.value, f, a, b));
        assert AccumulatePairs(acc, gs, idx, nDif, f, c, j) == AccumulatePairs(next, gs, idx, nDif, f, c, j + 1);
        AccumulatePairsIsWeightedSum(next, gs, idx, nDif, f, c, j + 1);
        assert Readable(gs, idx, 2 * j, c) && Readable(gs, idx, 2 * j + 1, c);
        var d := DiffSum(gs, idx, c, j + 1, m);
        assert DiffSum(gs, idx, c, j, m) == (a - b) + d;
        if j + 1 >= m {
          assert d == 0.0;
        }
        ShiftSum(acc.value, f, a - b, d);
      } else {
        assert !Readable(gs, idx, 2 * j, c) || !Readable(gs, idx, 2 * j + 1, c) || acc.None?;
      }
    } else {
      assert j >= m;
    }
  }

  /**
   * The intended candidate is the base's value plus F times the sum of all
   * nDiferencas differences, and it exists exactly when the base's locus is
   * real and, if there is a difference to add, every one of the 2·nDiferencas
   * reads is a non-null value.
   */
  lemma CandidateIntendedIsWeightedSum(gb: seq<Option<Value>>, gs: seq<seq<Option<Value>>>, idx: seq<int>, nDif: int, f: real, c: nat)
    ensures CandidateIntended(gb, gs, idx, nDif, f, c).Ok? <==>
              ReadReal(gb, c).Ok? &&
              (nDif <= 0 ||
               (ReadReal(gb, c).value.Some? &&
                forall i {:trigger Readable(gs, idx, i, c)} :: 0 <= i < 2 * nDif ==> Readable(gs, idx, i, c)))
    ensures CandidateIntended(gb, gs, idx, nDif, f, c).Ok? && nDif > 0 ==>
              CandidateIntended(gb, gs, idx, nDif, f, c) == Ok(Some(gb[c].value.x.value + Scaled(f, DiffSum(gs, idx, c, 0, nDif))))
    ensures CandidateIntended(gb, gs, idx, nDif, f, c).Ok? && nDif <= 0 ==>
              CandidateIntended(gb, gs, idx, nDif, f, c) == Ok(gb[c].value.x)
  {
    var b := ReadReal(gb, c);
    if b.Ok? {
      AccumulatePairsIsWeightedSum(b.value, gs, idx, nDif, f, c, 0);
    }
  }

  /**
   * With two differences, the loop as written adds only the first: members
   * 0 - 0 from the first pair and 1 - 0 from the second give 0 as written
   * and 1 as intended, from a base value of 0 and F = 1.
   */
  lemma SkippedDifference()
    ensures Candidate([Some(Real(Some(0.0), -10.0, 10.0))], SkipSample(), [0, 1, 2, 3], 2, 1.0, 0) == Ok(Some(0.0))
    ensures CandidateIntended([Some(Real(Some(0.0), -10.0, 10.0))], SkipSample(), [0, 1, 2, 3], 2, 1.0, 0) == Ok(Some(1.0))
  {
    var gs, idx := SkipSample(), [0, 1, 2, 3];
    assert ReadMember(gs, idx, 0, 0) == Ok(Some(0.0)) && ReadMember(gs, idx, 1, 0) == Ok(Some(0.0));
    assert ReadMember(gs, idx, 2, 0) == Ok(Some(1.0)) && ReadMember(gs, idx, 3, 0) == Ok(Some(0.0));
    assert Accumulate(Some(0.0), gs, idx, 2, 1.0, 0, 2) == Ok(Some(0.0));
    assert AccumulatePairs(Some(1.0), gs, idx, 2, 1.0, 0, 2) == Ok(Some(1.0));
    assert AccumulatePairs(Some(0.0), gs, idx, 2, 1.0, 0, 1) == Ok(Some(1.0));
  }

  /** Four members with one real locus each, holding 0, 0, 1 and 0. */
  function SkipSample(): (gs: seq<seq<Option<Value>>>)
    ensures |gs| == 4
  {
    [[Some(Real(Some(0.0), -10.0, 10.0))], [Some(Real(Some(0.0), -10.0, 10.0))],
     [Some(Real(Some(1.0), -10.0, 10.0))], [Some(Real(Some(0.0), -10.0, 10.0))]]
  }

  /** A sample size that is not negative is the exact product for a positive count. */
  lemma SampleSizeExact(nDif: int)
    requires 0 < nDif <= MaxInt && SampleSize(nDif) >= 0
    ensures SampleSize(nDif) == 2 * nDif
  {

  }

  /**
   * With 2·nDiferencas distinct positions drawn, the inner loop reads only
   * the first 2·ceil(nDiferencas / 2) of them, each a position inside the
   * population and no two the same.
   */
  lemma SampledReads(gs: seq<seq<Option<Value>>>, idx: seq<int>, nDif: int, c: nat)
    requires 0 < nDif <= MaxInt && Sampling.DistinctSample(idx, SampleSize(nDif), 0, |gs| - 1)
    ensures 2 * PairsUsed(nDif) <= |idx| == 2 * nDif
    ensures forall i :: 0 <= i < 2 * PairsUsed(nDif) ==> 0 <= idx[i] < |gs| && ReadMember(gs, idx, i, c) == ReadReal(gs[idx[i]], c)
    ensures forall i, j :: 0 <= i < j < 2 * PairsUsed(nDif) ==> idx[i] != idx[j]
  {
    SampleSizeExact(nDif);
    assert Seqs.AllIn(idx, 0, |gs| - 1);
    forall i | 0 <= i < 2 * PairsUsed(nDif) ensures 0 <= idx[i] < |gs| {
      assert idx[i] in idx;
    }
  }

  // ---------------------------------------------------------------------------
  // The operator `Best` (with the fields of `MutadorDE`)

  /** The base vector: the population's best member, which is the last in ascending order. */
  function BaseOf(gs: seq<seq<Option<Value>>>): (gb: seq<Option<Value>>)
    ensures gs != [] ==> gb == gs[|gs| - 1]
  {
    if gs == [] then [] else gs[|gs| - 1]
  }

  /** `gs` holds the genome of each individual of `ms`, in order. */
  ghost predicate Snapshot(gs: seq<seq<Option<Value>>>, ms: seq<Ser>)
    reads ms, MemberLoci(ms)
  {
    |gs| == |ms| && forall k :: 0 <= k < |ms| ==> gs[k] == ms[k].Genome()
  }

  lemma SnapshotIsGenomes(gs: seq<seq<Option<Value>>>, ms: seq<Ser>)
    requires Snapshot(gs, ms)
    ensures Mutators.Genomes(ms) == gs
  {
  }

  /** The loci of the individuals of `ms`. */
  ghost function MemberLoci(ms: seq<Ser>): set<Locus>
    reads ms
  {
    set s, g: Locus | s in ms && g in s.genes :: g
  }

  /** The same loci as `Mutators.AllLoci`. */
  lemma MemberLociAreAllLoci(ms: seq<Ser>)
    ensures MemberLoci(ms) == Mutators.AllLoci(ms)
  {
    forall g | g in Mutators.AllLoci(ms) ensures g in MemberLoci(ms) {
      var k :| 0 <= k < |ms| && g in LociOf(ms[k].genes);
      assert ms[k] in ms;
    }
    forall g | g in MemberLoci(ms) ensures g in Mutators.AllLoci(ms) {
      var s :| s in ms && g in s.genes;
      var k :| 0 <= k < |ms| && ms[k] == s;
      assert g in LociOf(ms[k].genes);
    }
  }

  /** `getNDiferencas() * 2` in `Integer` arithmetic. */
  function SampleSize(nDif: int): (n: int)
    ensures IsInt32(n)
    ensures IsInt32(2 * nDif) ==> n == 2 * nDif
  {
    Wrap32(nDif * 2)
  }

  /**
   * `Best`: `MutadorDE`'s constructor passes mutation probability 1 to
   * `Mutador`, and stores the number of differences and the factor F.
   */
  class Best {
    const probabilidade: real := 1.0
    var nDiferencas: int
    var fatorDePerturbacao: real

    constructor (nDiferencas: int, fator: real)
      requires IsInt32(nDiferencas)
      ensures probabilidade == 1.0 && this.nDiferencas == nDiferencas && fatorDePerturbacao == fator
    {
      this.nDiferencas := nDiferencas;
      fatorDePerturbacao := fator;
    }

    /** `setNDiferencas`: any value is stored, zero and negative ones included. */
    method SetNDiferencas(n: int)
      requires IsInt32(n)
      modifies this`nDiferencas
      ensures nDiferencas == n
    {
      nDiferencas := n;
    }

    /** `setFatorDePerturbação`: any value is stored. */
    method SetFatorDePerturbacao(f: real)
      modifies this`fatorDePerturbacao
      ensures fatorDePerturbacao == f
    {
      fatorDePerturbacao := f;
    }

    /**
     * `getPopulacao().get(indices.get(i)).getCaracteristica(c).getValor()`
     * cast to `Double`.
     */
    method MemberRead(pop: Populacao, idx: seq<int>, i: nat, c: nat, ghost gs: seq<seq<Option<Value>>>)
      returns (r: Result<Option<real>>)
      requires Snapshot(gs, pop.members)
      ensures r == ReadMember(gs, idx, i, c)
    {
      if i >= |idx| {
        return Fail(IndexOutOfBounds);
      }
      var m := pop.Get(idx[i]);
      if m.Fail? {
        return Fail(m.error);
      }
      if m.value == null {
        return Fail(NullPointer);
      }
      var g := m.value.GetCaracteristica(c);
      if g.Fail? {
        return Fail(g.error);
      }
      if g.value == null {
        return Fail(NullPointer);
      }
      if !g.value.value.Real? {
        return Fail(ClassCast);
      }
      return Ok(g.value.value.x);
    }

    /** The inner loop of `muta` for locus c, from the base's value `valor`. */
    method Differences(pop: Populacao, idx: seq<int>, c: nat, valor: Option<real>, ghost gs: seq<seq<Option<Value>>>)
      returns (r: Result<Option<real>>)
      requires Snapshot(gs, pop.members)
      ensures r == Accumulate(valor, gs, idx, nDiferencas, fatorDePerturbacao, c, 0)
    {
      var acc := valor;
      var i: nat := 0;
      while i < nDiferencas
        invariant Snapshot(gs, pop.members)
        invariant Accumulate(acc, gs, idx, nDiferencas, fatorDePerturbacao, c, i) ==
                  Accumulate(valor, gs, idx, nDiferencas, fatorDePerturbacao, c, 0)
        decreases nDiferencas - i
      {
        var v1 := MemberRead(pop, idx, i, c, gs);
        if v1.Fail? {
          return Fail(v1.error);
        }
        var v2 := MemberRead(pop, idx, i + 1, c, gs);
        if v2.Fail? {
          return Fail(v2.error);
        }
        if acc.None? || v1.value.None? || v2.value.None? {
          return Fail(NullPointer);
        }
        acc := Some(AddDifference(acc.value, fatorDePerturbacao, v1.value.value, v2.value.value));
        i := i + 2;
      }
      return Ok(acc);
    }

    /** The last branch of `muta`: `maximixa`, `minimiza` or `setValor`. */
    static method Clamp(locus: Locus, valor: real)
      requires locus.value.Real?
      modifies locus`value
      ensures Clamped(valor, old(locus.value), locus.value)
    {
      if valor >= locus.value.upper {
        locus.Maximixa();
      } else if valor < locus.value.lower {
        locus.Minimiza();
      } else {
        var o := locus.SetValor(Some(valor));
      }
    }

    /** One pass of `muta`'s outer loop: the candidate for locus c, clamped into the locus. */
    method MutaLocus(ser: Ser, c: nat, base: Ser, pop: Populacao, idx: seq<int>,
                     ghost gb: seq<Option<Value>>, ghost gs: seq<seq<Option<Value>>>)
      returns (r: Outcome, ghost w: Value)
      requires c < |ser.genes| && DistinctSlots(ser.genes)
      requires LociOf(ser.genes) !! MemberLoci(pop.members) && LociOf(ser.genes) !! LociOf(base.genes)
      requires gb == base.Genome() && Snapshot(gs, pop.members)
      modifies LociOf(ser.genes)`value
      ensures Snapshot(gs, pop.members) && base.Genome() == gb
      ensures r.Pass? <==> LocusStep(gb, gs, idx, nDiferencas, fatorDePerturbacao, c, old(ser.Genome())[c]).Ok?
      ensures r.Throw? ==>
                LocusStep(gb, gs, idx, nDiferencas, fatorDePerturbacao, c, old(ser.Genome())[c]) == Fail(r.error) &&
                ser.Genome() == old(ser.Genome())
      ensures r.Pass? ==>
                old(ser.Genome())[c].Some? && ser.Genome() == old(ser.Genome())[c := Some(w)] &&
                Clamped(LocusStep(gb, gs, idx, nDiferencas, fatorDePerturbacao, c, old(ser.Genome())[c]).value,
                        old(ser.Genome())[c].value, w)
    {
      w := Bit(None);
      var g := base.GetCaracteristica(c);
      if g.Fail? {
        r := Throw(g.error);
        return;
      }
      if g.value == null {
        r := Throw(NullPointer);
        return;
      }
      if !g.value.value.Real? {
        r := Throw(ClassCast);
        return;
      }
      var d := Differences(pop, idx, c, g.value.value.x, gs);
      if d.Fail? {
        r := Throw(d.error);
        return;
      }
      var locus := ser.genes[c];
      if locus != null && !locus.value.Real? {
        r := Throw(ClassCast);
        return;
      }
      if locus == null || d.value.None? {
        r := Throw(NullPointer);
        return;
      }
      ghost var g0 := ser.Genome();
      Clamp(locus, d.value.value);
      w := locus.value;
      forall k | 0 <= k < |ser.genes| && k != c ensures ser.genes[k] != locus {
        if k < c {
          assert ser.genes[k] != null ==> ser.genes[k] != ser.genes[c];
        }
      }
      assert ser.Genome() == g0[c := Some(w)];
      r := Pass;
    }

    /**
     * `muta(ser)`: 2·nDiferencas distinct population positions, the best
     * member as base, and then, locus by locus, the base's value plus F times
     * the differences of the drawn members, clamped into the locus. Only the
     * loci of `ser` change; `n` is the number of loci written.
     */
    method Muta(ser: Ser, pop: Populacao) returns (r: Outcome, idx: seq<int>, ghost n: nat)
      requires DistinctSlots(ser.genes) && LociOf(ser.genes) !! Mutators.AllLoci(pop.members)
      modifies LociOf(ser.genes)`value
      ensures Mutators.Genomes(pop.members) == old(Mutators.Genomes(pop.members))
      ensures MutatedUpTo(BaseOf(Mutators.Genomes(pop.members)), Mutators.Genomes(pop.members), idx, nDiferencas,
                          fatorDePerturbacao, old(ser.Genome()), ser.Genome(), n)
      ensures 0 <= SampleSize(nDiferencas) <= |pop.members| ==>
                Sampling.DistinctSample(idx, SampleSize(nDiferencas), 0, |pop.members| - 1)
      ensures r.Pass? <==> 0 <= SampleSize(nDiferencas) <= |pop.members| && pop.members != [] && n == |ser.genes|
      ensures !(0 <= SampleSize(nDiferencas) <= |pop.members|) ==>
                r == Throw(if 0 < |pop.members| < SampleSize(nDiferencas) then NeverReturns else IllegalArgument) && n == 0
      ensures 0 <= SampleSize(nDiferencas) <= |pop.members| && pop.members == [] ==> r == Throw(NoSuchElement) && n == 0
      ensures r.Throw? && pop.members != [] && 0 <= SampleSize(nDiferencas) <= |pop.members| ==>
                n < |ser.genes| &&
                LocusStep(BaseOf(Mutators.Genomes(pop.members)), Mutators.Genomes(pop.members), idx, nDiferencas,
                          fatorDePerturbacao, n, old(ser.Genome())[n]) == Fail(r.error)
    {
      ghost var gs := Mutators.Genomes(pop.members);
      assert Snapshot(gs, pop.members);
      MemberLociAreAllLoci(pop.members);
      r, idx, n := MutaFrom(ser, pop, gs);
      SnapshotIsGenomes(gs, pop.members);
    }

    /** `muta(ser)` for a population whose genomes are `gs`. */
    method MutaFrom(ser: Ser, pop: Populacao, ghost gs: seq<seq<Option<Value>>>) returns (r: Outcome, idx: seq<int>, ghost n: nat)
      requires DistinctSlots(ser.genes) && LociOf(ser.genes) !! MemberLoci(pop.members) && Snapshot(gs, pop.members)
      modifies LociOf(ser.genes)`value
      ensures Snapshot(gs, pop.members)
      ensures MutatedUpTo(BaseOf(gs), gs, idx, nDiferencas, fatorDePerturbacao, old(ser.Genome()), ser.Genome(), n)
      ensures 0 <= SampleSize(nDiferencas) <= |gs| ==> Sampling.DistinctSample(idx, SampleSize(nDiferencas), 0, |gs| - 1)
      ensures r.Pass? <==> 0 <= SampleSize(nDiferencas) <= |gs| && gs != [] && n == |ser.genes|
      ensures !(0 <= SampleSize(nDiferencas) <= |gs|) ==>
                r == Throw(if 0 < |gs| < SampleSize(nDiferencas) then NeverReturns else IllegalArgument) && n == 0
      ensures 0 <= SampleSize(nDiferencas) <= |gs| && gs == [] ==> r == Throw(NoSuchElement) && n == 0
      ensures r.Throw? && gs != [] && 0 <= SampleSize(nDiferencas) <= |gs| ==>
                n < |ser.genes| &&
                LocusStep(BaseOf(gs), gs, idx, nDiferencas, fatorDePerturbacao, n, old(ser.Genome())[n]) == Fail(r.error)
    {
      idx, n := [], 0;
      var s := Sampling.GetUniformePopulacaoN(pop, SampleSize(nDiferencas));
      if s.Fail? {
        r := Throw(s.error);
        return;
      }
      idx := s.value;
      r, n := MutaSample(ser, pop, idx, gs);
    }

    /** `muta(ser)` once the sample `idx` is drawn: the best individual is the base. */
    method MutaSample(ser: Ser, pop: Populacao, idx: seq<int>, ghost gs: seq<seq<Option<Value>>>) returns (r: Outcome, ghost n: nat)
      requires DistinctSlots(ser.genes) && LociOf(ser.genes) !! MemberLoci(pop.members) && Snapshot(gs, pop.members)
      modifies LociOf(ser.genes)`value
      ensures Snapshot(gs, pop.members)
      ensures MutatedUpTo(BaseOf(gs), gs, idx, nDiferencas, fatorDePerturbacao, old(ser.Genome()), ser.Genome(), n)
      ensures r.Pass? <==> gs != [] && n == |ser.genes|
      ensures gs == [] ==> r == Throw(NoSuchElement) && n == 0
      ensures r.Throw? && gs != [] ==>
                n < |ser.genes| &&
                LocusStep(BaseOf(gs), gs, idx, nDiferencas, fatorDePerturbacao, n, old(ser.Genome())[n]) == Fail(r.error)
    {
      n := 0;
      var b := pop.GetMelhor();
      if b.Fail? {
        r := Throw(b.error);
        return;
      }
      assert b.value.Genome() == BaseOf(gs);
      assert LociOf(b.value.genes) <= MemberLoci(pop.members);
      r, n := MutaLoci(ser, b.value, pop, idx, BaseOf(gs), gs);
    }

    /** The outer loop of `muta`, over the loci of `ser`, for a drawn sample and base. */
    method MutaLoci(ser: Ser, base: Ser, pop: Populacao, idx: seq<int>,
                    ghost gb: seq<Option<Value>>, ghost gs: seq<seq<Option<Value>>>)
      returns (r: Outcome, ghost n: nat)
      requires DistinctSlots(ser.genes) && LociOf(ser.genes) !! MemberLoci(pop.members)
      requires LociOf(ser.genes) !! LociOf(base.genes)
      requires gb == base.Genome() && Snapshot(gs, pop.members)
      modifies LociOf(ser.genes)`value
      ensures Snapshot(gs, pop.members)
      ensures MutatedUpTo(gb, gs, idx, nDiferencas, fatorDePerturbacao, old(ser.Genome()), ser.Genome(), n)
      ensures r.Pass? <==> n == |ser.genes|
      ensures r.Throw? ==>
                n < |ser.genes| && LocusStep(gb, gs, idx, nDiferencas, fatorDePerturbacao, n, old(ser.Genome())[n]) == Fail(r.error)
    {
      ghost var before := ser.Genome();
      r := Pass;
      var c := 0;
      while c < |ser.genes| && r.Pass?
        invariant c <= |ser.genes|
        decreases |ser.genes| - c, r.Pass?
        invariant Snapshot(gs, pop.members) && base.Genome() == gb
        invariant MutatedUpTo(gb, gs, idx, nDiferencas, fatorDePerturbacao, before, ser.Genome(), c)
        invariant r.Throw? ==>
                    c < |ser.genes| && LocusStep(gb, gs, idx, nDiferencas, fatorDePerturbacao, c, before[c]) == Fail(r.error)
      {
        ghost var now := ser.Genome();
        ghost var w: Value;
        r, w := MutaLocus(ser, c, base, pop, idx, gb, gs);
        if r.Pass? {
          MutatedStep(gb, gs, idx, nDiferencas, fatorDePerturbacao, before, now, ser.Genome(), c, w);
          c := c + 1;
        }
      }
      n := c;
    }

    /**
     * `muta(Collection)` as `Best` inherits it: one draw per member against
     * probability 1, which always succeeds, so `muta` runs on every member
     * in order; an exception ends the batch at the member that raised it.
     * `idxs` and `ns` record each call's sample and the loci it wrote.
     */
    method MutaTodos(seres: seq<Ser>, pop: Populacao) returns (r: Outcome, ghost idxs: seq<seq<int>>, ghost ns: seq<nat>)
      requires Mutators.Separate(seres) && forall k :: 0 <= k < |seres| ==> DistinctSlots(seres[k].genes)
      requires Mutators.AllLoci(seres) !! Mutators.AllLoci(pop.members)
      modifies Mutators.AllLoci(seres)`value
      ensures Mutators.Genomes(pop.members) == old(Mutators.Genomes(pop.members))
      ensures BatchLoop(Mutators.Genomes(pop.members), nDiferencas, fatorDePerturbacao, old(Mutators.Genomes(seres)),
                        Mutators.Genomes(seres), idxs, ns, r.Pass?)
      ensures r.Pass? ==> |idxs| == |seres|
    {
      ghost var before := Mutators.Genomes(seres);
      ghost var gs := Mutators.Genomes(pop.members);
      assert Snapshot(before, seres) && Snapshot(gs, pop.members);
      MemberLociAreAllLoci(pop.members);
      ghost var now;
      r, idxs, ns, now := MutaTodosFrom(seres, pop, gs, before);
      SnapshotIsGenomes(gs, pop.members);
      SnapshotIsGenomes(now, seres);
    }

    /** The batch for a population whose genomes are `gs` and members whose genomes are `before`. */
    method MutaTodosFrom(seres: seq<Ser>, pop: Populacao, ghost gs: seq<seq<Option<Value>>>,
                         ghost before: seq<seq<Option<Value>>>)
      returns (r: Outcome, ghost idxs: seq<seq<int>>, ghost ns: seq<nat>, ghost now: seq<seq<Option<Value>>>)
      requires Mutators.Separate(seres) && forall k :: 0 <= k < |seres| ==> DistinctSlots(seres[k].genes)
      requires Mutators.AllLoci(seres) !! MemberLoci(pop.members) && Snapshot(gs, pop.members) && Snapshot(before, seres)
      modifies Mutators.AllLoci(seres)`value
      ensures Snapshot(gs, pop.members) && Snapshot(now, seres)
      ensures BatchLoop(gs, nDiferencas, fatorDePerturbacao, before, now, idxs, ns, r.Pass?)
      ensures r.Pass? ==> |idxs| == |seres|
    {
      now := before;
      r, idxs, ns := Pass, [], [];
      var i := 0;
      while i < |seres| && r.Pass?
        invariant i <= |seres| && i == |idxs|
        invariant Snapshot(gs, pop.members) && Snapshot(now, seres)
        invariant BatchLoop(gs, nDiferencas, fatorDePerturbacao, before, now, idxs, ns, r.Pass?)
      {
        r, idxs, ns, now := BatchRound(seres, i, pop, gs, before, now, idxs, ns);
        i := i + 1;
      }
    }

    /** Round i of the batch: the draw for member i, which succeeds, and `muta` on it. */
    method BatchRound(seres: seq<Ser>, i: nat, pop: Populacao, ghost gs: seq<seq<Option<Value>>>,
                      ghost before: seq<seq<Option<Value>>>, ghost now: seq<seq<Option<Value>>>,
                      ghost idxs: seq<seq<int>>, ghost ns: seq<nat>)
      returns (r: Outcome, ghost idxs': seq<seq<int>>, ghost ns': seq<nat>, ghost next: seq<seq<Option<Value>>>)
      requires Mutators.Separate(seres) && forall k :: 0 <= k < |seres| ==> DistinctSlots(seres[k].genes)
      requires Mutators.AllLoci(seres) !! MemberLoci(pop.members) && Snapshot(gs, pop.members)
      requires Snapshot(now, seres) && BatchLoop(gs, nDiferencas, fatorDePerturbacao, before, now, idxs, ns, true)
      requires i == |idxs| < |seres|
      modifies Mutators.AllLoci(seres)`value
      ensures Snapshot(gs, pop.members) && Snapshot(next, seres)
      ensures BatchLoop(gs, nDiferencas, fatorDePerturbacao, before, next, idxs', ns', r.Pass?)
      ensures |idxs'| == |idxs| + 1
    {
      var b := Random.SorteioUniforme(probabilidade);
      assert b;
      assert LociOf(seres[i].genes) <= Mutators.AllLoci(seres);
      var idx;
      ghost var n;
      r, idx, n := MutaMember(seres, i, pop, gs, now);
      next := now[i := seres[i].Genome()];
      BatchRoundStep(gs, nDiferencas, fatorDePerturbacao, before, now, next, idxs, ns, idx, n, r.Pass?);
      idxs', ns' := idxs + [idx], ns + [n];
    }

    /** `muta` on member i of a batch, which leaves every other member's genome alone. */
    method MutaMember(seres: seq<Ser>, i: nat, pop: Populacao, ghost gs: seq<seq<Option<Value>>>,
                      ghost now: seq<seq<Option<Value>>>)
      returns (r: Outcome, idx: seq<int>, ghost n: nat)
      requires i < |seres| && Mutators.Separate(seres) && DistinctSlots(seres[i].genes)
      requires LociOf(seres[i].genes) !! MemberLoci(pop.members) && Snapshot(gs, pop.members) && Snapshot(now, seres)
      modifies LociOf(seres[i].genes)`value
      ensures Snapshot(gs, pop.members) && Snapshot(now[i := seres[i].Genome()], seres)
      ensures MutatedUpTo(BaseOf(gs), gs, idx, nDiferencas, fatorDePerturbacao, now[i], seres[i].Genome(), n)
      ensures 0 <= SampleSize(nDiferencas) <= |gs| ==> Sampling.DistinctSample(idx, SampleSize(nDiferencas), 0, |gs| - 1)
      ensures r.Pass? ==> n == |seres[i].genes| && 0 <= SampleSize(nDiferencas) <= |gs| && gs != []
    {
      r, idx, n := MutaFrom(seres[i], pop, gs);
      forall k | 0 <= k < |seres| && k != i ensures seres[k].Genome() == now[k] {
        assert LociOf(seres[k].genes) !! LociOf(seres[i].genes);
      }
    }
  }

  /**
   * After `muta` ran on the first |idxs| members of a batch: member k
   * received its first ns[k] loci from the sample idxs[k], and the members
   * not reached yet are as they were.
   */
  ghost predicate BestBatch(gs: seq<seq<Option<Value>>>, nDif: int, f: real, before: seq<seq<Option<Value>>>,
                            now: seq<seq<Option<Value>>>, idxs: seq<seq<int>>, ns: seq<nat>) {
    |now| == |before| && |ns| == |idxs| <= |before| &&
    (forall k :: 0 <= k < |before| ==>
      if k < |idxs| then MutatedUpTo(BaseOf(gs), gs, idxs[k], nDif, f, before[k], now[k], ns[k])
      else now[k] == before[k]) &&
    (forall k :: 0 <= k < |idxs| && 0 <= SampleSize(nDif) <= |gs| ==>
      Sampling.DistinctSample(idxs[k], SampleSize(nDif), 0, |gs| - 1))
  }

  /** The first m members of a batch had all their loci written. */
  ghost predicate AllWritten(before: seq<seq<Option<Value>>>, ns: seq<nat>, m: nat) {
    m <= |ns| && m <= |before| && forall k :: 0 <= k < m ==> ns[k] == |before[k]|
  }

  /**
   * The batch after |idxs| calls of `muta`: while every call passed, each
   * reached member was fully written and the sample could be drawn; after
   * a call threw, every earlier member was fully written.
   */
  ghost predicate BatchLoop(gs: seq<seq<Option<Value>>>, nDif: int, f: real, before: seq<seq<Option<Value>>>,
                            now: seq<seq<Option<Value>>>, idxs: seq<seq<int>>, ns: seq<nat>, pass: bool) {
    BestBatch(gs, nDif, f, before, now, idxs, ns) &&
    (pass ==> AllWritten(before, ns, |idxs|) && (idxs != [] ==> 0 <= SampleSize(nDif) <= |gs| && gs != [])) &&
    (!pass ==> idxs != [] && AllWritten(before, ns, |idxs| - 1))
  }

  /** One round of the batch: the next member is mutated, the others keep their genomes. */
  lemma BatchRoundStep(gs: seq<seq<Option<Value>>>, nDif: int, f: real, before: seq<seq<Option<Value>>>,
                       now: seq<seq<Option<Value>>>, next: seq<seq<Option<Value>>>, idxs: seq<seq<int>>, ns: seq<nat>,
                       idx: seq<int>, n: nat, pass: bool)
    requires BatchLoop(gs, nDif, f, before, now, idxs, ns, true) && |idxs| < |before|
    requires |next| == |now| && next == now[|idxs| := next[|idxs|]]
    requires MutatedUpTo(BaseOf(gs), gs, idx, nDif, f, now[|idxs|], next[|idxs|], n)
    requires 0 <= SampleSize(nDif) <= |gs| ==> Sampling.DistinctSample(idx, SampleSize(nDif), 0, |gs| - 1)
    requires pass ==> n == |now[|idxs|]| && 0 <= SampleSize(nDif) <= |gs| && gs != []
    ensures BatchLoop(gs, nDif, f, before, next, idxs + [idx], ns + [n], pass)
  {
    var i := |idxs|;
    assert now[i] == before[i];
    forall k | 0 <= k < i + 1 ensures (idxs + [idx])[k] == if k < i then idxs[k] else idx {
    }
    forall k | 0 <= k < i + 1 ensures (ns + [n])[k] == if k < i then ns[k] else n {
    }
  }

  /** A batch whose every call passed leaves every locus real and, where its bounds are not empty, inside them. */
  lemma BatchWithinBounds(gs: seq<seq<Option<Value>>>, nDif: int, f: real, before: seq<seq<Option<Value>>>,
                          now: seq<seq<Option<Value>>>, idxs: seq<seq<int>>, ns: seq<nat>)
    requires BatchLoop(gs, nDif, f, before, now, idxs, ns, true) && |idxs| == |before|
    ensures forall k, c :: 0 <= k < |now| && 0 <= c < |now[k]| ==>
              now[k][c].Some? && now[k][c].value.Real? && now[k][c].value.x.Some?
    ensures forall k, c :: 0 <= k < |now| && 0 <= c < |now[k]| && now[k][c].value.lower < now[k][c].value.upper ==>
              now[k][c].value.lower <= now[k][c].value.x.value < now[k][c].value.upper
  {
    forall k | 0 <= k < |now|
      ensures forall c :: 0 <= c < |now[k]| ==> now[k][c].Some? && now[k][c].value.Real? && now[k][c].value.x.Some?
      ensures forall c :: 0 <= c < |now[k]| && now[k][c].value.lower < now[k][c].value.upper ==>
                now[k][c].value.lower <= now[k][c].value.x.value < now[k][c].value.upper
    {
      MutatedWithinBounds(BaseOf(gs), gs, idxs[k], nDif, f, before[k], now[k]);
    }
  }

  // ---------------------------------------------------------------------------
  // The operator `Binomial` (with the fields of `RecombinadorDE`)

  /** Every individual of `ms` carries an id below `next`, the counter's next value. */
  ghost predicate IdsBelow(ms: seq<Ser>, next: int) {
    forall k :: 0 <= k < |ms| ==> ms[k].id < next
  }

  /** Every individual of `ms` is well formed. */
  ghost predicate AllValid(ms: seq<Ser>)
    reads ms
  {
    forall k :: 0 <= k < |ms| ==> ms[k].Valid()
  }

  /** A member of a list with unique ids can be added to it again without breaking the ids' uniqueness. */
  lemma MemberIdsUnique(ms: seq<Ser>, x: Ser)
    requires IdsUnique(ms) && x in ms
    ensures IdsUnique(ms + [x])
  {
    var i :| 0 <= i < |ms| && ms[i] == x;
    forall a, b | 0 <= a < |ms + [x]| && 0 <= b < |ms + [x]| ensures UniqueIds((ms + [x])[a], (ms + [x])[b]) {
      var a' := if a < |ms| then a else i;
      var b' := if b < |ms| then b else i;
      assert (ms + [x])[a] == ms[a'] && (ms + [x])[b] == ms[b'];
    }
  }

  /**
   * One replacement keeps the ids unique and below the counter: the target
   * leaves the population, and the survivor is the target or the trial,
   * which took the counter's value.
   */
  lemma IdsAfterRound(ms: seq<Ser>, fs: seq<Ser>, ms': seq<Ser>, alvo: Ser, trial: Ser, s: Ser, next: int)
    requires IdsUnique(ms + fs) && IdsBelow(ms + fs, next)
    requires multiset(ms') + multiset{alvo} == multiset(ms) && alvo in ms
    requires trial.id == next && (s == alvo || s == trial)
    ensures IdsUnique(ms' + fs + [s]) && IdsBelow(ms' + fs + [s], next + 1)
  {
    var u := ms' + fs + [s];
    forall k | 0 <= k < |u| ensures u[k] in ms + fs || u[k] == trial {
      if k < |ms'| {
        assert u[k] == ms'[k] && ms'[k] in multiset(ms');
        assert u[k] in multiset(ms);
      } else if k < |ms'| + |fs| {
        assert u[k] == fs[k - |ms'|];
      } else {
        assert u[k] == s;
      }
    }
    forall a, b | 0 <= a < |u| && 0 <= b < |u| ensures UniqueIds(u[a], u[b]) {
      if u[a] != trial && u[b] != trial {
        var a' :| 0 <= a' < |ms + fs| && (ms + fs)[a'] == u[a];
        var b' :| 0 <= b' < |ms + fs| && (ms + fs)[b'] == u[b];
        assert UniqueIds((ms + fs)[a'], (ms + fs)[b']);
      } else if u[a] != trial {
        var a' :| 0 <= a' < |ms + fs| && (ms + fs)[a'] == u[a];
      } else if u[b] != trial {
        var b' :| 0 <= b' < |ms + fs| && (ms + fs)[b'] == u[b];
      }
    }
    forall k | 0 <= k < |u| ensures u[k].id < next + 1 {
      if u[k] != trial {
        var k' :| 0 <= k' < |ms + fs| && (ms + fs)[k'] == u[k];
      }
    }
  }

  /** The ids of a prefix of a list keep the list's properties. */
  lemma PoolPrefix(ms: seq<Ser>, fs: seq<Ser>, next: int)
    requires IdsUnique(ms + fs) && IdsBelow(ms + fs, next)
    ensures IdsUnique(ms) && IdsBelow(ms, next)
  {
    forall a, b | 0 <= a < |ms| && 0 <= b < |ms| ensures UniqueIds(ms[a], ms[b]) {
      assert (ms + fs)[a] == ms[a] && (ms + fs)[b] == ms[b];
    }
    forall k | 0 <= k < |ms| ensures ms[k].id < next {
      assert (ms + fs)[k] == ms[k];
    }
  }

  /** The bookkeeping after one more duel. */
  lemma TallyStep(m0: seq<Ser>, ms: seq<Ser>, ms': seq<Ser>, filhos: seq<Ser>, alvos: seq<Ser>, trials: seq<Ser>,
                  alvo: Ser, trial: Ser, s: Ser, next: int)
    requires Tally(m0, ms, filhos, alvos, trials, next)
    requires multiset(ms') + multiset{alvo} == multiset(ms) && trial !in m0 && trial !in trials
    requires IdsUnique(ms' + filhos + [s]) && IdsBelow(ms' + filhos + [s], next + 1)
    ensures Tally(m0, ms', filhos + [s], alvos + [alvo], trials + [trial], next + 1)
  {
    assert ms' + (filhos + [s]) == ms' + filhos + [s];
    assert multiset(alvos + [alvo]) == multiset(alvos) + multiset{alvo};
    forall j | 0 <= j < |trials| ensures trials[j] !in m0 {
    }
    forall j | 0 <= j < |trials + [trial]| ensures (trials + [trial])[j] !in m0 {
      if j < |trials| {
        assert (trials + [trial])[j] == trials[j];
      }
    }
    forall i, j | 0 <= i < j < |trials + [trial]| ensures (trials + [trial])[i] != (trials + [trial])[j] {
      assert (trials + [trial])[i] == trials[i];
      if j < |trials| {
        assert (trials + [trial])[j] == trials[j];
      }
    }
  }

  /** The duels after one more duel. */
  lemma DuelsStep(env: Ambiente, filhos: seq<Ser>, alvos: seq<Ser>, trials: seq<Ser>, alvo: Ser, trial: Ser, s: Ser)
    requires Duels(env, filhos, alvos, trials)
    requires trial.IsAvaliadoPor(env) && s.Valid()
    requires s == (if env.Compare(trial, alvo) > 0 then trial else alvo) && env.Compare(s, alvo) >= 0
    ensures Duels(env, filhos + [s], alvos + [alvo], trials + [trial])
  {
    forall j | 0 <= j < |filhos| + 1
      ensures (filhos + [s])[j] == (if j < |filhos| then filhos[j] else s)
      ensures (alvos + [alvo])[j] == (if j < |filhos| then alvos[j] else alvo)
      ensures (trials + [trial])[j] == (if j < |filhos| then trials[j] else trial)
    {
    }
  }

  /** Taking out a member keeps the rest well formed. */
  lemma ValidRemoved(ms: seq<Ser>, k: int)
    requires 0 <= k < |ms| && AllValid(ms)
    ensures AllValid(ms[..k] + ms[k + 1..]) && ms[k].Valid()
  {
    var rest := ms[..k] + ms[k + 1..];
    forall j | 0 <= j < |rest|
      ensures rest[j].Valid()
    {
      if j < k {
        assert rest[j] == ms[j];
      } else {
        assert rest[j] == ms[j + 1];
      }
    }
  }

  /** Taking out the element at k leaves the multiset without it. */
  lemma RemovedOne<T>(ms: seq<T>, k: int)
    requires 0 <= k < |ms|
    ensures multiset(ms[..k] + ms[k + 1..]) + multiset{ms[k]} == multiset(ms)
  {
    assert ms == ms[..k] + [ms[k]] + ms[k + 1..];
  }

  /** How many of the draws succeeded. */
  function Successes(draws: seq<bool>): (n: nat)
    ensures n <= |draws|
  {
    if draws == [] then 0
    else Successes(draws[..|draws| - 1]) + if draws[|draws| - 1] then 1 else 0
  }

  /** When every draw succeeds, every group is recombined. */
  lemma {:induction false} AllSucceed(draws: seq<bool>)
    requires forall k :: 0 <= k < |draws| ==> draws[k]
    ensures Successes(draws) == |draws|
  {
    if draws != [] {
      AllSucceed(draws[..|draws| - 1]);
    }
  }

  /** With certain draws and groups of one, every member of the pool yields a child. */
  lemma EveryGroup(p: real, draws: seq<bool>, n: int)
    requires p >= 1.0 && Random.DrawsFollow(p, draws) && |draws| * 1 == n
    ensures Successes(draws) == n
  {
    AllSucceed(draws);
  }

  /**
   * `Binomial`: `RecombinadorDE`'s constructor fixes the recombination
   * probability at 1 and the partner count at 1 (`base`, the inherited
   * `Recombinador` state) and stores a crossover probability in [0, 1].
   */
  class Binomial {
    const base: Operators.Recombinador
    var probabilidadeDeCrossover: real

    constructor Checked(p: real)
      requires Operators.IsProbability(p)
      ensures fresh(base) && base.probabilidade == 1.0 && base.nParceiros == 1 && base.Valid()
      ensures probabilidadeDeCrossover == p
    {
      base := new Operators.Recombinador.Checked(1.0, 1);
      probabilidadeDeCrossover := p;
    }

    /** `setProbabilidadeDeCrossover`: values outside [0, 1] are refused and change nothing. */
    method SetProbabilidadeDeCrossover(p: real) returns (r: Outcome)
      modifies this`probabilidadeDeCrossover
      ensures r.Pass? <==> Operators.IsProbability(p)
      ensures r.Throw? ==> r.error == IllegalArgument
      ensures probabilidadeDeCrossover == if Operators.IsProbability(p) then p else old(probabilidadeDeCrossover)
    {
      if p > 1.0 || p < 0.0 {
        return Throw(IllegalArgument);
      }
      probabilidadeDeCrossover := p;
      return Pass;
    }

    /** `getPopulacao().get(IndiceAleatorio.getUniforme(getPopulacao()))`: a uniformly drawn member. */
    static method Target(pop: Populacao) returns (r: Result<Ser>)
      ensures r.Ok? <==> pop.members != []
      ensures r.Fail? ==> r.error == IllegalArgument
      ensures r.Ok? ==> r.value in pop.members
    {
      var i := Sampling.GetUniformePopulacao(pop);
      if i.Fail? {
        return Fail(i.error);
      }
      var m := pop.Get(i.value);
      assert m.value == pop.members[i.value];
      return Ok(m.value);
    }

    /**
     * The trial: the single child of `discriteRecombination(doador, alvo,
     * 1, probabilidadeDeCrossover)`, evaluated by the environment.
     */
    method Trial(gerador: Gerador, doador: Ser, alvo: Ser, ambiente: Ambiente, pop: Populacao)
      returns (r: Result<Ser>, ghost rows: seq<seq<bool>>)
      requires pop.Ascending()
      modifies gerador.counter
      ensures pop.Ascending()
      ensures gerador.counter.next == old(gerador.counter.next) + 1
      ensures r.Fail? ==> r.error in {IndexOutOfBounds, NullPointer, IllegalArgument}
      ensures r.Fail? ==> Crossovers.StoppedAt(old(doador.Genome()), old(alvo.Genome()), rows, 1, probabilidadeDeCrossover,
                                               gerador.length)
      ensures r.Ok? ==> fresh(r.value) && r.value.id == old(gerador.counter.next) && r.value.species == gerador.species
      ensures r.Ok? ==> r.value.Valid() && r.value.IsAvaliadoPor(ambiente) && r.value.fitness == Some(ambiente.Avalia(r.value))
      ensures r.Ok? ==> |rows| == |doador.genes| <= gerador.length && Crossovers.Drawn(rows, 1, probabilidadeDeCrossover) &&
                        r.value.Genome() == Crossovers.Padded(Crossovers.Chosen(old(doador.Genome()), old(alvo.Genome()), rows, 0),
                                                              gerador.length)
    {
      var f;
      f, rows := Crossovers.DiscriteRecombination(gerador, doador, alvo, 1, probabilidadeDeCrossover);
      KeptOrder(pop);
      if f.Fail? {
        return Fail(f.error), rows;
      }
      var experimental := f.value[0];
      EvaluateTrial(ambiente, experimental, pop);
      return Ok(experimental), rows;
    }

    /** `experimental.setGrauDeAdaptacao(getAmbiente())`, for an individual outside the population. */
    static method EvaluateTrial(ambiente: Ambiente, s: Ser, pop: Populacao)
      requires pop.Ascending() && s.Valid() && s !in pop.members
      modifies s`fitness, s`evaluatedBy
      ensures pop.Ascending() && s.Genome() == old(s.Genome())
      ensures s.Valid() && s.IsAvaliadoPor(ambiente) && s.fitness == Some(ambiente.Avalia(s))
    {
      ghost var g := s.Genome();
      ambiente.Evaluate(s);
      assert s.Genome() == g;
      KeptOrder(pop);
    }

    /** Well-formedness survives a step that changes none of the individuals. */
    static twostate lemma KeptValid(ms: seq<Ser>)
      requires old(AllValid(ms))
      requires forall s :: s in ms ==> unchanged(s)
      ensures AllValid(ms)
    {
      assert forall k :: 0 <= k < |ms| ==> ms[k] in ms;
    }

    /** The population's order survives a step that changes none of its members. */
    static twostate lemma KeptOrder(pop: Populacao)
      requires old(pop.Ascending())
      requires forall s :: s in old(pop.members) ==> unchanged(s) && unchanged(LociOf(s.genes))
      requires unchanged(pop)
      ensures pop.Ascending()
    {
      assert forall s :: s in pop.members ==> s.Genome() == old(s.Genome());
      assert forall s :: s in pop.members ==> pop.env.Grau(s) == old(pop.env.Grau(s));
      assert forall i, j :: 0 <= i < j < |pop.members| ==>
               pop.env.Compare(pop.members[i], pop.members[j]) == old(pop.env.Compare(pop.members[i], pop.members[j]));
    }

    /**
     * `recombina(pares)`: the donor is `pares.get(0)`, the target a uniformly
     * drawn member of the population; the trial is evaluated, the target
     * leaves the population, and the one survivor is the trial when
     * `compare(trial, target) > 0` and the target otherwise.
     */
    method Recombina(pares: seq<Ser>, pop: Populacao, ambiente: Ambiente, gerador: Gerador, ghost kept: seq<Ser>)
      returns (r: Result<seq<Ser>>, ghost alvo: Ser?, ghost trial: Ser?)
      requires pop.Ascending() && AllValid(pop.members) && IdsUnique(pop.members) && IdsBelow(pop.members, gerador.counter.next)
      modifies gerador.counter, pop`members
      ensures unchanged(kept) && unchanged(MemberLoci(kept))
      ensures pop.Ascending() && AllValid(pop.members)
      ensures pares == [] ==> r == Fail(IndexOutOfBounds)
      ensures pares != [] && old(pop.members) == [] ==> r == Fail(IllegalArgument)
      ensures r.Fail? ==> pop.members == old(pop.members) && r.error in {IndexOutOfBounds, NullPointer, IllegalArgument}
      ensures gerador.counter.next == old(gerador.counter.next) + if pares == [] || old(pop.members) == [] then 0 else 1
      ensures r.Ok? ==> alvo != null && trial != null
      ensures r.Ok? ==> alvo in old(pop.members) && multiset(pop.members) + multiset{alvo} == multiset(old(pop.members))
      ensures r.Ok? ==> fresh(trial) && trial.id == old(gerador.counter.next) && trial.IsAvaliadoPor(ambiente)
      ensures r.Ok? ==> trial.Valid() && alvo.Valid()
      ensures r.Ok? ==> r.value == [if ambiente.Compare(trial, alvo) > 0 then trial else alvo]
      ensures r.Ok? ==> ambiente.Compare(r.value[0], alvo) >= 0 && (r.value[0] == trial <==> ambiente.Better(trial, alvo))
    {
      alvo, trial := null, null;
      if pares == [] {
        return Fail(IndexOutOfBounds), alvo, trial;
      }
      var c := Challenge(pares[0], pop, ambiente, gerador, kept);
      if c.Fail? {
        return Fail(c.error), alvo, trial;
      }
      var (target, experimental) := c.value;
      alvo, trial := target, experimental;
      var survivor := Settle(pop, ambiente, target, experimental, kept);
      r := Ok([survivor]);
    }

    /** The target drawn from the population and the evaluated trial built from it and the donor. */
    method Challenge(doador: Ser, pop: Populacao, ambiente: Ambiente, gerador: Gerador, ghost kept: seq<Ser>)
      returns (r: Result<(Ser, Ser)>)
      requires pop.Ascending() && AllValid(pop.members) && IdsBelow(pop.members, gerador.counter.next)
      modifies gerador.counter
      ensures unchanged(kept) && unchanged(MemberLoci(kept))
      ensures pop.Ascending() && AllValid(pop.members)
      ensures pop.members == [] ==> r == Fail(IllegalArgument)
      ensures r.Fail? ==> r.error in {IndexOutOfBounds, NullPointer, IllegalArgument}
      ensures gerador.counter.next == old(gerador.counter.next) + if pop.members == [] then 0 else 1
      ensures r.Ok? ==> r.value.0 in pop.members && r.value.0.Valid() && UniqueIds(r.value.1, r.value.0) && r.value.0 != r.value.1
      ensures r.Ok? ==> fresh(r.value.1) && r.value.1.id == old(gerador.counter.next)
      ensures r.Ok? ==> r.value.1.IsAvaliadoPor(ambiente) && r.value.1.Valid()
    {
      var t := Target(pop);
      KeptOrder(pop);
      if t.Fail? {
        return Fail(t.error);
      }
      var target := t.value;
      var e;
      ghost var rows;
      e, rows := Trial(gerador, doador, target, ambiente, pop);
      if e.Fail? {
        return Fail(e.error);
      }
      KeptValid(pop.members);
      assert unchanged(kept) && unchanged(MemberLoci(kept));
      return Ok((target, e.value));
    }

    /**
     * The duel: the target leaves the population, and the survivor is the
     * trial when `compare(trial, target) > 0` and the target otherwise.
     */
    static method Settle(pop: Populacao, ambiente: Ambiente, target: Ser, experimental: Ser, ghost kept: seq<Ser>)
      returns (survivor: Ser)
      requires pop.Ascending() && AllValid(pop.members) && IdsUnique(pop.members) && target in pop.members
      requires UniqueIds(experimental, target) && experimental != target && experimental.Valid()
      modifies pop`members
      ensures unchanged(kept) && unchanged(MemberLoci(kept))
      ensures pop.Ascending() && AllValid(pop.members) && experimental.Valid() && target.Valid()
      ensures multiset(pop.members) + multiset{target} == multiset(old(pop.members))
      ensures survivor == if ambiente.Compare(experimental, target) > 0 then experimental else target
      ensures ambiente.Compare(survivor, target) >= 0 && (survivor == experimental <==> ambiente.Better(experimental, target))
    {
      MemberIdsUnique(pop.members, target);
      ghost var ms := pop.members;
      var removed := pop.Remove(target);
      ghost var k :| 0 <= k < |ms| && ms[k] == target && pop.members == ms[..k] + ms[k + 1..];
      RemovedOne(ms, k);
      KeptValid(ms);
      ValidRemoved(ms, k);
      ambiente.CompareIsBetter(experimental, target);
      if ambiente.Compare(experimental, target) > 0 {
        survivor := experimental;
      } else {
        survivor := target;
      }
    }

    /**
     * `recombinaTodos(pares)` as `Binomial` inherits it: a pool whose size is
     * not a multiple of the partner count throws IllegalState; otherwise each
     * group whose draw succeeds goes through `recombina`, in pool order.
     * `alvos` and `trials` record each call's target and trial.
     */
    method RecombinaTodos(pares: seq<Ser>, pop: Populacao, ambiente: Ambiente, gerador: Gerador)
      returns (r: Result<seq<Ser>>, ghost draws: seq<bool>, ghost alvos: seq<Ser>, ghost trials: seq<Ser>)
      requires base.Valid() && pop.Ascending() && AllValid(pop.members)
      requires IdsUnique(pop.members) && IdsBelow(pop.members, gerador.counter.next)
      modifies gerador.counter, pop`members
      ensures pop.Ascending() && AllValid(pop.members)
      ensures |pares| % base.nParceiros != 0 ==> r == Fail(IllegalState) && pop.members == old(pop.members)
      ensures r.Fail? && |pares| % base.nParceiros == 0 ==> r.error in {IndexOutOfBounds, NullPointer, IllegalArgument}
      ensures r.Ok? ==> |pares| % base.nParceiros == 0 && |draws| * base.nParceiros == |pares| &&
                        Random.DrawsFollow(base.probabilidade, draws) && |r.value| == Successes(draws)
      ensures r.Ok? ==> Tally(old(pop.members), pop.members, r.value, alvos, trials, gerador.counter.next)
      ensures r.Ok? ==> Duels(ambiente, r.value, alvos, trials)
      ensures r.Ok? ==> forall j :: 0 <= j < |trials| ==> fresh(trials[j])
    {
      draws, alvos, trials := [], [], [];
      var nPais := base.nParceiros;
      if |pares| % nPais != 0 {
        return Fail(IllegalState), draws, alvos, trials;
      }
      ghost var m0 := pop.members;
      var filhos: seq<Ser> := [];
      assert pop.members + filhos == m0;
      var i := 0;
      while i < |pares|
        invariant 0 <= i <= |pares| && i == |draws| * nPais
        invariant Random.DrawsFollow(base.probabilidade, draws) && |filhos| == Successes(draws)
        invariant pop.Ascending() && AllValid(pop.members)
        invariant Tally(m0, pop.members, filhos, alvos, trials, gerador.counter.next)
        invariant Duels(ambiente, filhos, alvos, trials)
        invariant forall j :: 0 <= j < |trials| ==> fresh(trials[j])
      {
        var o, b;
        ghost var t0 := trials;
        o, b, alvos, trials := Rodada(pares, i, pop, ambiente, gerador, filhos, draws, alvos, trials, m0);
        if o.Fail? {
          return Fail(o.error), draws + [b], alvos, trials;
        }
        filhos := o.value;
        forall j | 0 <= j < |trials| ensures fresh(trials[j]) {
          if j < |t0| {
            assert trials[j] == t0[j];
          }
        }
        draws := draws + [b];
        i := i + nPais;
      }
      return Ok(filhos), draws, alvos, trials;
    }

    /** The group of `recombinaTodos` that starts at position `i` of the pool. */
    method Rodada(pares: seq<Ser>, i: int, pop: Populacao, ambiente: Ambiente, gerador: Gerador, filhos: seq<Ser>,
                  ghost draws: seq<bool>, ghost alvos: seq<Ser>, ghost trials: seq<Ser>, ghost m0: seq<Ser>)
      returns (o: Result<seq<Ser>>, b: bool, ghost alvos': seq<Ser>, ghost trials': seq<Ser>)
      requires base.Valid() && |pares| % base.nParceiros == 0 && 0 <= i < |pares| && i == |draws| * base.nParceiros
      requires pop.Ascending() && AllValid(pop.members)
      requires Random.DrawsFollow(base.probabilidade, draws) && |filhos| == Successes(draws)
      requires Tally(m0, pop.members, filhos, alvos, trials, gerador.counter.next) && Duels(ambiente, filhos, alvos, trials)
      modifies gerador.counter, pop`members
      ensures i + base.nParceiros <= |pares| && i + base.nParceiros == (|draws| + 1) * base.nParceiros
      ensures pop.Ascending() && AllValid(pop.members)
      ensures Random.DrawsFollow(base.probabilidade, draws + [b])
      ensures o.Fail? ==> b && o.error in {IndexOutOfBounds, NullPointer, IllegalArgument}
      ensures o.Ok? ==> |o.value| == Successes(draws + [b])
      ensures o.Ok? ==> Tally(m0, pop.members, o.value, alvos', trials', gerador.counter.next)
      ensures o.Ok? ==> Duels(ambiente, o.value, alvos', trials')
      ensures o.Ok? ==> trials'[..|trials|] == trials && forall j :: |trials| <= j < |trials'| ==> fresh(trials'[j])
    {
      Operators.GroupFits(i, |draws|, base.nParceiros, |pares|);
      o, b, alvos', trials' := Round(pares[i..i + base.nParceiros], pop, ambiente, gerador, filhos, draws, alvos, trials, m0);
    }

    /**
     * One group of `recombinaTodos`: the draw, and when it succeeds
     * `recombina` on the group with its survivor appended to the output.
     */
    method Round(group: seq<Ser>, pop: Populacao, ambiente: Ambiente, gerador: Gerador, filhos: seq<Ser>,
                 ghost draws: seq<bool>, ghost alvos: seq<Ser>, ghost trials: seq<Ser>, ghost m0: seq<Ser>)
      returns (o: Result<seq<Ser>>, b: bool, ghost alvos': seq<Ser>, ghost trials': seq<Ser>)
      requires group != [] && pop.Ascending() && AllValid(pop.members)
      requires Random.DrawsFollow(base.probabilidade, draws) && |filhos| == Successes(draws)
      requires Tally(m0, pop.members, filhos, alvos, trials, gerador.counter.next) && Duels(ambiente, filhos, alvos, trials)
      modifies gerador.counter, pop`members
      ensures pop.Ascending() && AllValid(pop.members)
      ensures Random.DrawsFollow(base.probabilidade, draws + [b])
      ensures o.Fail? ==> b && o.error in {IndexOutOfBounds, NullPointer, IllegalArgument}
      ensures o.Ok? ==> |o.value| == Successes(draws + [b]) && o.value[..|filhos|] == filhos
      ensures o.Ok? ==> Tally(m0, pop.members, o.value, alvos', trials', gerador.counter.next)
      ensures o.Ok? ==> Duels(ambiente, o.value, alvos', trials')
      ensures o.Ok? ==> trials'[..|trials|] == trials && forall j :: |trials| <= j < |trials'| ==> fresh(trials'[j])
    {
      alvos', trials' := alvos, trials;
      b := base.SorteiaSeRecombina();
      Random.DrawsFollowAppend(base.probabilidade, draws, b);
      assert (draws + [b])[..|draws|] == draws;
      KeptOrder(pop);
      KeptValid(pop.members);
      assert unchanged(alvos + trials) && unchanged(MemberLoci(alvos + trials));
      assert Duels(ambiente, filhos, alvos, trials);
      if !b {
        return Ok(filhos), b, alvos', trials';
      }
      o, alvos', trials' := Fight(group, pop, ambiente, gerador, filhos, alvos, trials, m0);
    }

    /** `recombina` on one group, and its survivor appended to the output. */
    method Fight(group: seq<Ser>, pop: Populacao, ambiente: Ambiente, gerador: Gerador, filhos: seq<Ser>,
                 ghost alvos: seq<Ser>, ghost trials: seq<Ser>, ghost m0: seq<Ser>)
      returns (o: Result<seq<Ser>>, ghost alvos': seq<Ser>, ghost trials': seq<Ser>)
      requires group != [] && pop.Ascending() && AllValid(pop.members)
      requires Tally(m0, pop.members, filhos, alvos, trials, gerador.counter.next) && Duels(ambiente, filhos, alvos, trials)
      modifies gerador.counter, pop`members
      ensures pop.Ascending() && AllValid(pop.members)
      ensures o.Fail? ==> o.error in {IndexOutOfBounds, NullPointer, IllegalArgument}
      ensures o.Ok? ==> |o.value| == |filhos| + 1 && o.value[..|filhos|] == filhos
      ensures o.Ok? ==> Tally(m0, pop.members, o.value, alvos', trials', gerador.counter.next)
      ensures o.Ok? ==> Duels(ambiente, o.value, alvos', trials')
      ensures o.Ok? ==> trials'[..|trials|] == trials && forall j :: |trials| <= j < |trials'| ==> fresh(trials'[j])
    {
      alvos', trials' := alvos, trials;
      ghost var ms, next := pop.members, gerador.counter.next;
      PoolPrefix(ms, filhos, next);
      var r;
      ghost var alvo, trial;
      r, alvo, trial := Recombina(group, pop, ambiente, gerador, alvos + trials);
      assert Duels(ambiente, filhos, alvos, trials);
      if r.Fail? {
        return Fail(r.error), alvos', trials';
      }
      IdsAfterRound(ms, filhos, pop.members, alvo, trial, r.value[0], next);
      o := Ok(filhos + r.value);
      alvos', trials' := alvos + [alvo], trials + [trial];
      assert trial !in trials;
      TallyStep(m0, ms, pop.members, filhos, alvos, trials, alvo, trial, r.value[0], next);
      DuelsStep(ambiente, filhos, alvos, trials, alvo, trial, r.value[0]);
    }
  }

  /**
   * The bookkeeping of `recombinaTodos` as it goes: the targets left the
   * population `m0` one each, every output is a target or a trial, the trials
   * are new, and the ids of the population and the output stay unique and
   * below the counter.
   */
  ghost predicate Tally(m0: seq<Ser>, ms: seq<Ser>, filhos: seq<Ser>, alvos: seq<Ser>, trials: seq<Ser>, next: int) {
    |filhos| == |alvos| == |trials| &&
    multiset(ms) + multiset(alvos) == multiset(m0) &&
    IdsUnique(ms + filhos) && IdsBelow(ms + filhos, next) &&
    Seqs.Distinct(trials) && forall j :: 0 <= j < |trials| ==> trials[j] !in m0
  }

  /**
   * Each output is the survivor of its duel: the trial when `compare(trial,
   * target) > 0`, else the target, so it never compares below the target.
   * The trials were evaluated by the environment, and every output is well formed.
   */
  ghost predicate Duels(env: Ambiente, filhos: seq<Ser>, alvos: seq<Ser>, trials: seq<Ser>)
    reads alvos + trials, MemberLoci(alvos + trials)
  {
    |filhos| == |alvos| == |trials| &&
    forall j :: 0 <= j < |filhos| ==>
      (DuelFrame(alvos, trials, j);
       trials[j].IsAvaliadoPor(env) &&
       filhos[j] == (if env.Compare(trials[j], alvos[j]) > 0 then trials[j] else alvos[j]) &&
       env.Compare(filhos[j], alvos[j]) >= 0 && filhos[j].Valid())
  }

  /** The target and the trial of duel `j`, and their loci, lie in the duels' frame. */
  lemma DuelFrame(alvos: seq<Ser>, trials: seq<Ser>, j: int)
    requires 0 <= j < |alvos| && j < |trials|
    ensures alvos[j] in alvos + trials && trials[j] in alvos + trials
    ensures LociOf(alvos[j].genes) + LociOf(trials[j].genes) <= MemberLoci(alvos + trials)
  {
    assert (alvos + trials)[j] == alvos[j] && (alvos + trials)[|alvos| + j] == trials[j];
  }

  /** `Binomial(p)`: the constructor goes through `setProbabilidadeDeCrossover`. */
  method NewBinomial(p: real) returns (r: Result<Binomial>)
    ensures r.Ok? <==> Operators.IsProbability(p)
    ensures r.Fail? ==> r.error == IllegalArgument
    ensures r.Ok? ==> fresh(r.value) && fresh(r.value.base) && r.value.probabilidadeDeCrossover == p &&
                      r.value.base.probabilidade == 1.0 && r.value.base.nParceiros == 1
  {
    if p > 1.0 || p < 0.0 {
      return Fail(IllegalArgument);
    }
    var b := new Binomial.Checked(p);
    return Ok(b);
  }

  // ---------------------------------------------------------------------------
  // The algorithm `DE`

  /** `setNome("DE")` in the instance initializer. */
  const Nome: string := "DE"

  /** A tail of a list keeps the list's unique ids. */
  lemma IdsSuffix(ms: seq<Ser>, fs: seq<Ser>)
    requires IdsUnique(ms + fs)
    ensures IdsUnique(fs)
  {
    forall a, b | 0 <= a < |fs| && 0 <= b < |fs| ensures UniqueIds(fs[a], fs[b]) {
      assert (ms + fs)[|ms| + a] == fs[a] && (ms + fs)[|ms| + b] == fs[b];
    }
  }

  /** Each survivor is its duel's target, a member of the population, or its trial. */
  lemma SurvivorsOrigin(m0: seq<Ser>, ms: seq<Ser>, filhos: seq<Ser>, alvos: seq<Ser>, trials: seq<Ser>, next: int)
    requires Tally(m0, ms, filhos, alvos, trials, next)
    requires forall j :: 0 <= j < |filhos| ==> filhos[j] == alvos[j] || filhos[j] == trials[j]
    ensures forall j :: 0 <= j < |alvos| ==> alvos[j] in m0
    ensures forall x :: x in filhos ==> x in m0 || exists j :: 0 <= j < |trials| && x == trials[j]
  {
    forall j | 0 <= j < |alvos| ensures alvos[j] in m0 {
      assert alvos[j] in multiset(alvos);
      assert multiset(m0)[alvos[j]] >= multiset(alvos)[alvos[j]] > 0;
    }
  }

  /** Two lists of distinct values with the same members are equally long. */
  lemma SameMembersSameSize(a: seq<Ser>, b: seq<Ser>)
    requires Seqs.Distinct(a) && Seqs.Distinct(b) && forall x :: x in a <==> x in b
    ensures |a| == |b|
  {
    assert Seqs.Elements(a) == Seqs.Elements(b);
    Seqs.ElementsSize(a);
    Seqs.ElementsSize(b);
  }

  /**
   * With every member of the population `m0` the target of one duel, the
   * survivors are distinct: the targets are the members, each once, and
   * the trials are new and distinct.
   */
  lemma SurvivorsDistinct(m0: seq<Ser>, survivors: seq<Ser>, alvos: seq<Ser>, trials: seq<Ser>)
    requires Seqs.Distinct(m0) && multiset(alvos) == multiset(m0) && Seqs.Distinct(trials)
    requires |survivors| == |alvos| == |trials|
    requires forall j :: 0 <= j < |survivors| ==> (survivors[j] == alvos[j] || survivors[j] == trials[j]) && trials[j] !in m0
    ensures Seqs.Distinct(survivors)
  {
    assert forall x :: x in m0 ==> x in multiset(alvos);
    Seqs.PermutationByCover(alvos, m0);
    forall i, j | 0 <= i < j < |survivors| ensures survivors[i] != survivors[j] {
      assert alvos[i] in multiset(m0) && alvos[j] in multiset(m0);
    }
  }

  /**
   * `muta` cannot get through a batch whose first member has an empty first
   * slot: the slot is the `LocusReal` the clamp writes, and a null there throws.
   */
  lemma EmptySlotThrows(gs: seq<seq<Option<Value>>>, nDif: int, f: real, before: seq<seq<Option<Value>>>,
                        now: seq<seq<Option<Value>>>, idxs: seq<seq<int>>, ns: seq<nat>, pass: bool)
    requires BatchLoop(gs, nDif, f, before, now, idxs, ns, pass) && (pass ==> |idxs| == |before|)
    requires |before| > 0 && |before[0]| > 0 && before[0][0] == None
    ensures !pass
  {
  }

  /**
   * The body of `DE.iteracao` after the new generation `nova` has been
   * built: `muta` on every member against the current population, then
   * `recombinaTodos`, whose survivors become the population
   * (`setIndividuos`). `mutated` is the generation's genomes after `muta`;
   * `leftover` is what the duels left of the population before it was
   * replaced.
   */
  method Evolve(nova: seq<Ser>, pop: Populacao, gerador: Gerador, mutador: Best, recombinador: Binomial)
    returns (r: Outcome, ghost pass: bool, ghost mutated: seq<seq<Option<Value>>>, ghost idxs: seq<seq<int>>,
             ghost ns: seq<nat>, ghost survivors: seq<Ser>, ghost leftover: seq<Ser>, ghost alvos: seq<Ser>,
             ghost trials: seq<Ser>)
    requires Mutators.Separate(nova) && forall k :: 0 <= k < |nova| ==> DistinctSlots(nova[k].genes)
    requires Mutators.AllLoci(nova) !! Mutators.AllLoci(pop.members)
    requires recombinador.base.Valid() && pop.Ascending() && AllValid(pop.members)
    requires IdsUnique(pop.members) && IdsBelow(pop.members, gerador.counter.next)
    modifies Mutators.AllLoci(nova)`value, gerador.counter, pop`members
    modifies (set x | x in pop.members)`fitness, (set x | x in pop.members)`evaluatedBy
    ensures BatchLoop(old(Mutators.Genomes(pop.members)), mutador.nDiferencas, mutador.fatorDePerturbacao,
                      old(Mutators.Genomes(nova)), mutated, idxs, ns, pass)
    ensures pass ==> |idxs| == |nova|
    ensures !pass ==> r.Throw? && pop.members == old(pop.members)
    ensures pass && |nova| % recombinador.base.nParceiros != 0 ==> r == Throw(IllegalState) && pop.members == old(pop.members)
    ensures r.Pass? ==> pass && pop.Ascending() && forall x :: x in pop.members <==> x in survivors
    ensures r.Pass? ==> forall x :: x in pop.members ==> x.Valid() && x.IsAvaliadoPor(pop.env)
    ensures r.Pass? ==> |survivors| == |alvos| == |trials| && multiset(leftover) + multiset(alvos) == multiset(old(pop.members))
    ensures r.Pass? ==> forall j :: 0 <= j < |survivors| ==>
                          (survivors[j] == alvos[j] || survivors[j] == trials[j]) && fresh(trials[j]) && trials[j] !in old(pop.members)
    ensures r.Pass? ==> IdsUnique(survivors) && Seqs.Distinct(trials)
    ensures r.Pass? && recombinador.base.probabilidade >= 1.0 && recombinador.base.nParceiros == 1 ==> |survivors| == |nova|
  {
    survivors, leftover, alvos, trials := [], [], [], [];
    var m;
    m, idxs, ns, mutated := MutaGeracao(nova, pop, mutador);
    pass := m.Pass?;
    if m.Throw? {
      return m, pass, mutated, idxs, ns, survivors, leftover, alvos, trials;
    }
    r, survivors, leftover, alvos, trials := Substitui(nova, pop, gerador, recombinador);
  }

  /** `getMutador().muta(novaGeracao)`, which leaves the population as it was. */
  method MutaGeracao(nova: seq<Ser>, pop: Populacao, mutador: Best)
    returns (m: Outcome, ghost idxs: seq<seq<int>>, ghost ns: seq<nat>, ghost mutated: seq<seq<Option<Value>>>)
    requires Mutators.Separate(nova) && forall k :: 0 <= k < |nova| ==> DistinctSlots(nova[k].genes)
    requires Mutators.AllLoci(nova) !! Mutators.AllLoci(pop.members)
    requires pop.Ascending() && AllValid(pop.members)
    modifies Mutators.AllLoci(nova)`value
    ensures pop.Ascending() && AllValid(pop.members)
    ensures BatchLoop(old(Mutators.Genomes(pop.members)), mutador.nDiferencas, mutador.fatorDePerturbacao,
                      old(Mutators.Genomes(nova)), mutated, idxs, ns, m.Pass?)
    ensures m.Pass? ==> |idxs| == |nova|
  {
    m, idxs, ns := mutador.MutaTodos(nova, pop);
    mutated := Mutators.Genomes(nova);
    Binomial.KeptOrder(pop);
    Binomial.KeptValid(pop.members);
  }

  /**
   * `getRecombinador().recombinaTodos(novaGeracao)` and
   * `getPopulacao().setIndividuos(filhos)`: the survivors of the duels
   * become the population.
   */
  method Substitui(nova: seq<Ser>, pop: Populacao, gerador: Gerador, recombinador: Binomial)
    returns (r: Outcome, ghost survivors: seq<Ser>, ghost leftover: seq<Ser>, ghost alvos: seq<Ser>, ghost trials: seq<Ser>)
    requires recombinador.base.Valid() && pop.Ascending() && AllValid(pop.members)
    requires IdsUnique(pop.members) && IdsBelow(pop.members, gerador.counter.next)
    modifies gerador.counter, pop`members
    modifies (set x | x in pop.members)`fitness, (set x | x in pop.members)`evaluatedBy
    ensures |nova| % recombinador.base.nParceiros != 0 ==> r == Throw(IllegalState) && pop.members == old(pop.members)
    ensures r.Pass? ==> pop.Ascending() && forall x :: x in pop.members <==> x in survivors
    ensures r.Pass? ==> forall x :: x in pop.members ==> x.Valid() && x.IsAvaliadoPor(pop.env)
    ensures r.Pass? ==> |survivors| == |alvos| == |trials| && multiset(leftover) + multiset(alvos) == multiset(old(pop.members))
    ensures r.Pass? ==> forall j :: 0 <= j < |survivors| ==>
                          (survivors[j] == alvos[j] || survivors[j] == trials[j]) && fresh(trials[j]) && trials[j] !in old(pop.members)
    ensures r.Pass? ==> IdsUnique(survivors) && Seqs.Distinct(trials)
    ensures r.Pass? && recombinador.base.probabilidade >= 1.0 && recombinador.base.nParceiros == 1 ==> |survivors| == |nova|
  {
    survivors, leftover, alvos, trials := [], [], [], [];
    var f;
    ghost var draws;
    f, draws, alvos, trials := recombinador.RecombinaTodos(nova, pop, pop.env, gerador);
    if f.Fail? {
      return Throw(f.error), survivors, leftover, alvos, trials;
    }
    var filhos := f.value;
    leftover, survivors := pop.members, filhos;
    assert forall j :: 0 <= j < |filhos| ==> (filhos[j] == alvos[j] || filhos[j] == trials[j]) && filhos[j].Valid();
    SurvivorsOrigin(old(pop.members), leftover, survivors, alvos, trials, gerador.counter.next);
    assert forall x :: x in survivors ==> x in old(pop.members) || fresh(x);
    if recombinador.base.probabilidade >= 1.0 && recombinador.base.nParceiros == 1 {
      EveryGroup(recombinador.base.probabilidade, draws, |nova|);
    }
    Adota(filhos, pop, old(pop.members), alvos, trials, gerador.counter.next);
    r := Pass;
  }

  /** `getPopulacao().setIndividuos(filhos)` after the duels: the survivors, with distinct ids, become the population. */
  method Adota(filhos: seq<Ser>, pop: Populacao, ghost m0: seq<Ser>, ghost alvos: seq<Ser>, ghost trials: seq<Ser>,
               ghost next: int)
    requires Tally(m0, pop.members, filhos, alvos, trials, next)
    requires forall j :: 0 <= j < |filhos| ==> filhos[j].Valid()
    modifies pop`members, (set x | x in filhos)`fitness, (set x | x in filhos)`evaluatedBy
    ensures pop.Ascending() && forall x :: x in pop.members <==> x in filhos
    ensures forall x :: x in pop.members ==> x.Valid() && x.IsAvaliadoPor(pop.env)
    ensures IdsUnique(filhos)
  {
    IdsSuffix(pop.members, filhos);
    var changed := pop.SetIndividuos(filhos);
  }

  /**
   * `iteracao` as written: `getN(getPopulacao().size())` yields individuals
   * whose every slot is empty, so `muta` throws on the first of them as
   * soon as the population is not empty and the individuals have a locus.
   */
  method IteracaoAsWritten(pop: Populacao, gerador: Gerador, mutador: Best, recombinador: Binomial) returns (r: Outcome)
    requires recombinador.base.Valid() && pop.Ascending() && AllValid(pop.members)
    requires IdsUnique(pop.members) && IdsBelow(pop.members, gerador.counter.next)
    modifies gerador.counter, pop`members
    modifies (set x | x in pop.members)`fitness, (set x | x in pop.members)`evaluatedBy
    ensures old(pop.members) != [] && gerador.length > 0 ==> r.Throw? && pop.members == old(pop.members)
  {
    var n := pop.Size();
    var g := gerador.GetN(n);
    var nova := g.value;
    Binomial.KeptOrder(pop);
    Binomial.KeptValid(pop.members);
    assert forall k :: 0 <= k < |nova| ==> LociOf(nova[k].genes) == {};
    assert Mutators.AllLoci(nova) == {};
    ghost var before, gs := Mutators.Genomes(nova), Mutators.Genomes(pop.members);
    ghost var pass, mutated, idxs, ns, survivors, leftover, alvos, trials;
    r, pass, mutated, idxs, ns, survivors, leftover, alvos, trials := Evolve(nova, pop, gerador, mutador, recombinador);
    if n > 0 && gerador.length > 0 {
      assert before[0][0] == None;
      EmptySlotThrows(gs, mutador.nDiferencas, mutador.fatorDePerturbacao, before,
                      mutated, idxs, ns, pass);
    }
  }

  /**
   * `getNAleatorios(getPopulacao().size())`: as many new individuals as
   * the population has members, every gene fresh, so that mutating them
   * touches neither each other nor the population.
   */
  method NovaGeracao(pop: Populacao, gerador: Gerador) returns (nova: seq<Ser>)
    requires pop.Ascending() && AllValid(pop.members) && IdsBelow(pop.members, gerador.counter.next)
    modifies gerador.counter
    ensures |nova| == |pop.members| && pop.Ascending() && AllValid(pop.members)
    ensures IdsBelow(pop.members, gerador.counter.next)
    ensures Mutators.Separate(nova) && forall k :: 0 <= k < |nova| ==> DistinctSlots(nova[k].genes)
    ensures Mutators.AllLoci(nova) !! Mutators.AllLoci(pop.members)
    ensures forall x :: x in Mutators.AllLoci(nova) ==> fresh(x)
  {
    var n := pop.Size();
    var g := gerador.GetNAleatorios(n);
    nova := g.value;
    Binomial.KeptOrder(pop);
    Binomial.KeptValid(pop.members);
    forall a, b | 0 <= a < |nova| && 0 <= b < |nova| && a != b
      ensures LociOf(nova[a].genes) !! LociOf(nova[b].genes)
    {
      if b < a {
        assert LociOf(nova[b].genes) !! LociOf(nova[a].genes);
      }
    }
    forall x | x in Mutators.AllLoci(nova) ensures fresh(x) {
      var k :| 0 <= k < |nova| && x in LociOf(nova[k].genes);
      var j :| 0 <= j < |nova[k].genes| && nova[k].genes[j] == x;
    }
    forall x | x in Mutators.AllLoci(pop.members) ensures !fresh(x) {
      var i :| 0 <= i < |pop.members| && x in LociOf(pop.members[i].genes);
      assert pop.members[i] == old(pop.members)[i];
      assert x in old(pop.members[i].genes);
    }
  }

  /**
   * `iteracao` with the new generation drawn by `getNAleatorios`, so that
   * every slot holds a fresh gene: the survivors of the duels become the
   * population, each one the trial or the target of its duel. With the
   * operator's own settings (recombination probability 1, one partner)
   * every member is the target of exactly one duel and the population
   * keeps its size.
   */
  method Iteracao(pop: Populacao, gerador: Gerador, mutador: Best, recombinador: Binomial)
    returns (r: Outcome, ghost survivors: seq<Ser>, ghost alvos: seq<Ser>, ghost trials: seq<Ser>)
    requires recombinador.base.Valid() && pop.Ascending() && AllValid(pop.members)
    requires IdsUnique(pop.members) && IdsBelow(pop.members, gerador.counter.next)
    modifies gerador.counter, pop`members
    modifies (set x | x in pop.members)`fitness, (set x | x in pop.members)`evaluatedBy
    ensures r.Pass? ==> pop.Ascending() && forall x :: x in pop.members <==> x in survivors
    ensures r.Pass? ==> forall x :: x in pop.members ==> x.Valid() && x.IsAvaliadoPor(pop.env)
    ensures r.Pass? ==> |survivors| == |alvos| == |trials| && multiset(alvos) <= multiset(old(pop.members))
    ensures r.Pass? ==> forall j :: 0 <= j < |survivors| ==>
                          (survivors[j] == alvos[j] || survivors[j] == trials[j]) && fresh(trials[j]) && trials[j] !in old(pop.members)
    ensures r.Pass? && recombinador.base.probabilidade >= 1.0 && recombinador.base.nParceiros == 1 ==>
              multiset(alvos) == multiset(old(pop.members)) && |pop.members| == |old(pop.members)|
  {
    pop.AscendingDistinct();
    ghost var m0 := pop.members;
    var nova := NovaGeracao(pop, gerador);
    ghost var pass, mutated, idxs, ns, leftover;
    r, pass, mutated, idxs, ns, survivors, leftover, alvos, trials := Evolve(nova, pop, gerador, mutador, recombinador);
    if r.Pass? && recombinador.base.probabilidade >= 1.0 && recombinador.base.nParceiros == 1 {
      assert |multiset(leftover)| + |multiset(alvos)| == |old(pop.members)|;
      assert multiset(leftover) == multiset{};
      SurvivorsDistinct(m0, survivors, alvos, trials);
      pop.AscendingDistinct();
      SameMembersSameSize(pop.members, survivors);
    }
  }
}
