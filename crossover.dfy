/**
 * The canonical crossovers of `Recombinador`: one-point crossover (on gene
 * lists and on individuals), its no-repeat variant for permutations, and
 * discrete (uniform) recombination. Children come from the algorithm's
 * generator, given here as a parameter.
 */
module Crossovers {
  import opened Errors
  import opened Genes
  import opened Beings
  import opened Generators
  import Sampling
  import Random
  import Seqs

  /** The two children of one-point crossover at cut c, as lists of whatever the parents hold. */
  function OnePoint<T>(p1: seq<T>, p2: seq<T>, c: int): (r: (seq<T>, seq<T>))
    requires 0 <= c <= |p1| && c <= |p2|
    ensures |r.0| == |p2| && |r.1| == |p1|
    ensures forall k :: 0 <= k < c ==> r.0[k] == p1[k] && r.1[k] == p2[k]
    ensures forall k :: c <= k < |p2| ==> r.0[k] == p2[k]
    ensures forall k :: c <= k < |p1| ==> r.1[k] == p1[k]
  {
    (p1[..c] + p2[c..], p2[..c] + p1[c..])
  }

  /** Crossing the two children again at the same cut gives back the parents. */
  lemma OnePointRecross<T>(p1: seq<T>, p2: seq<T>, c: int)
    requires 0 <= c <= |p1| && c <= |p2|
    ensures OnePoint(OnePoint(p1, p2, c).0, OnePoint(p1, p2, c).1, c) == (p1, p2)
  {
    var (f1, f2) := OnePoint(p1, p2, c);
    var (g1, g2) := OnePoint(f1, f2, c);
    assert g1 == p1 by {
      forall k | 0 <= k < |p1| ensures g1[k] == p1[k] {
      }
    }
    assert g2 == p2 by {
      forall k | 0 <= k < |p2| ensures g2[k] == p2[k] {
      }
    }
  }

  /** Crossover neither creates nor loses genes: the children hold the parents' genes between them. */
  lemma OnePointConserves<T>(p1: seq<T>, p2: seq<T>, c: int)
    requires 0 <= c <= |p1| && c <= |p2|
    ensures multiset(OnePoint(p1, p2, c).0) + multiset(OnePoint(p1, p2, c).1) == multiset(p1) + multiset(p2)
  {
    assert p1 == p1[..c] + p1[c..];
    assert p2 == p2[..c] + p2[c..];
    var (f1, f2) := OnePoint(p1, p2, c);
    assert f1 == p1[..c] + p2[c..];
    assert f2 == p2[..c] + p1[c..];
  }

  /**
   * The first exception `copia` raises over a gene list, in list order: a null
   * slot throws NullPointer; a locus `copia` cannot rebuild throws as `copia`
   * does. None when every gene copies.
   */
  function CopyFailure(vs: seq<Option<Value>>): (e: Option<Exception>)
    ensures e.None? <==> forall k :: 0 <= k < |vs| ==> vs[k].Some? && Copyable(vs[k].value)
    ensures e.Some? ==> e.value == NullPointer || e.value == IllegalArgument
  {
    if vs == [] then None
    else if vs[0].None? then Some(NullPointer)
    else if !Copyable(vs[0].value) then Some(if vs[0].value.Real? then IllegalArgument else NullPointer)
    else
      var e := CopyFailure(vs[1..]);
      assert forall k :: 1 <= k < |vs| ==> vs[k] == vs[1..][k - 1];
      e
  }

  /** The values of a list of filled slots. */
  function Values(vs: seq<Option<Value>>): (r: seq<Value>)
    requires forall k :: 0 <= k < |vs| ==> vs[k].Some?
    ensures |r| == |vs| && forall k :: 0 <= k < |vs| ==> vs[k] == Some(r[k])
  {
    seq(|vs|, k requires 0 <= k < |vs| => vs[k].value)
  }

  /**
   * The static `onePointCrossover(par1, par2, c)` on gene lists: both parents
   * are copied first (par1, then par2), then the sub-lists are cut: a negative
   * cut is an inverted range (IllegalArgument), a cut past either parent an
   * IndexOutOfBounds. The children are the copies' values spliced at c.
   */
  function OnePointCrossoverListas(par1: seq<Option<Value>>, par2: seq<Option<Value>>, c: int): (r: Result<(seq<Value>, seq<Value>)>)
    ensures r.Ok? <==> CopyFailure(par1).None? && CopyFailure(par2).None? && 0 <= c <= |par1| && c <= |par2|
    ensures CopyFailure(par1).Some? ==> r == Fail(CopyFailure(par1).value)
    ensures CopyFailure(par1).None? && CopyFailure(par2).None? ==>
              (c < 0 ==> r == Fail(IllegalArgument)) && (0 <= c && (c > |par1| || c > |par2|) ==> r == Fail(IndexOutOfBounds))
    ensures r.Ok? ==> |r.value.0| == |par2| && |r.value.1| == |par1|
    ensures r.Ok? ==> forall k :: 0 <= k < |par2| ==> Some(r.value.0[k]) == if k < c then par1[k] else par2[k]
    ensures r.Ok? ==> forall k :: 0 <= k < |par1| ==> Some(r.value.1[k]) == if k < c then par2[k] else par1[k]
  {
    if CopyFailure(par1).Some? then Fail(CopyFailure(par1).value)
    else if CopyFailure(par2).Some? then Fail(CopyFailure(par2).value)
    else if c < 0 then Fail(IllegalArgument)
    else if c > |par1| || c > |par2| then Fail(IndexOutOfBounds)
    else Ok(OnePoint(Values(par1), Values(par2), c))
  }

  /**
   * The random overload on gene lists: the cut is drawn uniformly from
   * [0, |par1|), so the cut never falls at the end of par1; an empty par1 throws.
   */
  method OnePointCrossoverListasAleatorio(par1: seq<Locus?>, par2: seq<Locus?>) returns (r: Result<(seq<Value>, seq<Value>)>, c: int)
    ensures |par1| == 0 ==> r == Fail(IllegalArgument)
    ensures |par1| > 0 ==> 0 <= c < |par1| && r == OnePointCrossoverListas(GenomeOf(par1), GenomeOf(par2), c)
  {
    var cut := Sampling.GetUniforme(par1);
    if cut.Fail? {
      return Fail(cut.error), 0;
    }
    c := cut.value;
    r := OnePointCrossoverListas(GenomeOf(par1), GenomeOf(par2), c);
  }

  /** A child's genome: the values written from position 0, then the untouched empty slots. */
  function Padded(front: seq<Option<Value>>, length: nat): (r: seq<Option<Value>>)
    requires |front| <= length
    ensures |r| == length && r[..|front|] == front
    ensures forall k :: |front| <= k < length ==> r[k] == None
  {
    front + seq(length - |front|, _ => None)
  }

  /** A gene list copies exactly when both pieces of a cut copy. */
  lemma CopySplit(vs: seq<Option<Value>>, c: int)
    requires 0 <= c <= |vs|
    ensures CopyFailure(vs).None? <==> CopyFailure(vs[..c]).None? && CopyFailure(vs[c..]).None?
  {
    if CopyFailure(vs[..c]).None? && CopyFailure(vs[c..]).None? {
      forall k | 0 <= k < |vs| ensures vs[k].Some? && Copyable(vs[k].value) {
        if k < c {
          assert vs[..c][k] == vs[k];
        } else {
          assert vs[c..][k - c] == vs[k];
        }
      }
    }
  }

  /** A child still unevaluated whose slots hold the values `front`, followed by empty slots. */
  ghost predicate Holds(f: Ser, front: seq<Option<Value>>, length: nat)
    reads f, LociOf(f.genes)
  {
    f.fitness.None? && f.evaluatedBy == null && f.age == 0 && |f.genes| == length && |front| <= length &&
    (forall k :: 0 <= k < |front| ==> f.genes[k] != null && front[k] == Some(f.genes[k].value)) &&
    (forall k :: |front| <= k < length ==> f.genes[k] == null)
  }

  /** A child holding `front` has the padded genome of it. */
  lemma HoldsGenome(f: Ser, front: seq<Option<Value>>, length: nat)
    requires Holds(f, front, length)
    ensures f.Genome() == Padded(front, length)
  {
    var l, r := f.Genome(), Padded(front, length);
    forall k | 0 <= k < length ensures l[k] == r[k] {
      if k < |front| {
        assert r[k] == r[..|front|][k];
      }
    }
  }

  lemma GenomeSlice(s: seq<Locus?>, a: int, b: int)
    requires 0 <= a <= b <= |s|
    ensures GenomeOf(s[a..b]) == GenomeOf(s)[a..b]
  {
    var t := s[a..b];
    var l, vs := GenomeOf(t), GenomeOf(s);
    var r := vs[a..b];
    assert |l| == |r|;
    forall k | 0 <= k < |t| ensures l[k] == r[k] {
      assert t[k] == s[a + k];
      assert r[k] == vs[a + k];
    }
    assert l == r;
  }

  /** `vals` is what the gene slots `src` hold, read slot by slot. */
  ghost predicate Reads(vals: seq<Option<Value>>, src: seq<Locus?>)
    reads LociOf(src)
  {
    |vals| == |src| && forall k :: 0 <= k < |src| ==> vals[k] == if src[k] == null then None else Some(src[k].value)
  }

  /** `setCaracteristicasCopia(|front|, src)` on a child holding `front`; `vals` is the genome of `src`. */
  method WriteRun(f: Ser, at: int, src: seq<Locus?>, ghost vals: seq<Option<Value>>, ghost front: seq<Option<Value>>, ghost length: nat)
    returns (w: Outcome)
    requires Holds(f, front, length) && at == |front| && Reads(vals, src)
    modifies f`genes
    ensures w.Pass? <==> (|src| == 0 || at + |src| <= length) && CopyFailure(vals).None?
    ensures w.Pass? ==> Holds(f, front + vals, length)
  {
    ghost var copies;
    w, copies := f.SetCaracteristicasCopia(at, src);
    if w.Pass? {
      forall k | 0 <= k < |front| + |src| ensures f.genes[k] != null && (front + vals)[k] == Some(f.genes[k].value) {
        if k >= |front| {
          assert f.genes[k] == copies[k - |front|];
        }
      }
    }
  }

  /** A pair of writes, one per child, each at the end of what the child holds. */
  method WritePair(f1: Ser, at1: int, src1: seq<Locus?>, ghost vals1: seq<Option<Value>>, ghost front1: seq<Option<Value>>,
                   f2: Ser, at2: int, src2: seq<Locus?>, ghost vals2: seq<Option<Value>>, ghost front2: seq<Option<Value>>,
                   ghost length: nat)
    returns (w: Outcome)
    requires f1 != f2 && Holds(f1, front1, length) && Holds(f2, front2, length)
    requires at1 == |front1| && at2 == |front2| && Reads(vals1, src1) && Reads(vals2, src2)
    modifies f1`genes, f2`genes
    ensures w.Pass? <==> (|src1| == 0 || at1 + |src1| <= length) && CopyFailure(vals1).None? &&
                         (|src2| == 0 || at2 + |src2| <= length) && CopyFailure(vals2).None?
    ensures w.Pass? ==> Holds(f1, front1 + vals1, length) && Holds(f2, front2 + vals2, length)
  {
    w := WriteRun(f1, at1, src1, vals1, front1, length);
    if w.Throw? {
      return;
    }
    w := WriteRun(f2, at2, src2, vals2, front2, length);
  }

  /** The first two writes of the instance one-point crossover: both heads, at position 0 of an empty child. */
  method WriteHeads(f1: Ser, f2: Ser, h1: seq<Locus?>, h2: seq<Locus?>, length: nat,
                    ghost v1: seq<Option<Value>>, ghost v2: seq<Option<Value>>)
    returns (w: Outcome)
    requires f1 != f2 && f1.Unborn(length) && f2.Unborn(length) && |h1| == |h2|
    requires Reads(v1, h1) && Reads(v2, h2)
    modifies f1`genes, f2`genes
    ensures w.Pass? <==> |h1| <= length && CopyFailure(v1).None? && CopyFailure(v2).None?
    ensures w.Pass? ==> Holds(f1, v1, length) && Holds(f2, v2, length)
  {
    assert Holds(f1, [], length) && Holds(f2, [], length);
    w := WritePair(f1, 0, h1, v1, [], f2, 0, h2, v2, [], length);
    assert [] + v1 == v1 && [] + v2 == v2;
  }

  /**
   * The four writes of the instance one-point crossover into two empty
   * children: the heads at 0, then the swapped tails at c. `g1` and `g2`
   * are the parents' genomes.
   */
  method WriteOnePoint(f1: Ser, f2: Ser, cr1: seq<Locus?>, cr2: seq<Locus?>, c: int, length: nat,
                       ghost g1: seq<Option<Value>>, ghost g2: seq<Option<Value>>)
    returns (w: Outcome)
    requires f1 != f2 && f1.Unborn(length) && f2.Unborn(length) && 0 <= c <= |cr1| && c <= |cr2|
    requires g1 == GenomeOf(cr1) && g2 == GenomeOf(cr2)
    modifies f1`genes, f2`genes
    ensures w.Pass? <==> c <= length && (|cr2| == c || |cr2| <= length) && (|cr1| == c || |cr1| <= length) &&
                         CopyFailure(g1[..c]).None? && CopyFailure(g2[..c]).None? &&
                         CopyFailure(g2[c..]).None? && CopyFailure(g1[c..]).None?
    ensures w.Pass? ==> Holds(f1, g1[..c] + g2[c..], length) && Holds(f2, g2[..c] + g1[c..], length)
  {
    ghost var t1, t2 := g1[c..], g2[c..];
    assert Reads(t1, cr1[c..]) && Reads(t2, cr2[c..]);
    w := WriteHeads(f1, f2, cr1[..c], cr2[..c], length, g1[..c], g2[..c]);
    if w.Throw? {
      return;
    }
    w := WritePair(f1, c, cr2[c..], t2, g1[..c], f2, c, cr1[c..], t1, g2[..c], length);
  }

  /**
   * The instance `onePointCrossover(par1, par2, c)`: two fresh children from
   * the generator, then copies of par1[0, c) and par2[0, c) at position 0 of
   * child 1 and child 2, and copies of par2[c, n) and par1[c, n) at position
   * c. A child writes only into its own slots, so every parent gene must copy
   * and both parents must fit the generator's length.
   */
  method OnePointCrossover(gerador: Gerador, par1: Ser, par2: Ser, c: int) returns (r: Result<seq<Ser>>)
    modifies gerador.counter
    ensures gerador.counter.next == old(gerador.counter.next) + 2
    ensures c < 0 ==> r == Fail(IllegalArgument)
    ensures 0 <= c && (c > |par1.genes| || c > |par2.genes|) ==> r == Fail(IndexOutOfBounds)
    ensures r.Ok? <==> 0 <= c <= |par1.genes| && c <= |par2.genes| &&
                       |par1.genes| <= gerador.length && |par2.genes| <= gerador.length &&
                       CopyFailure(old(par1.Genome())).None? && CopyFailure(old(par2.Genome())).None?
    ensures r.Ok? ==> |r.value| == 2 && fresh(r.value[0]) && fresh(r.value[1]) && r.value[0] != r.value[1]
    ensures r.Ok? ==> r.value[0].Genome() == Padded(OnePoint(old(par1.Genome()), old(par2.Genome()), c).0, gerador.length)
    ensures r.Ok? ==> r.value[1].Genome() == Padded(OnePoint(old(par1.Genome()), old(par2.Genome()), c).1, gerador.length)
    ensures r.Ok? ==> r.value[0].species == gerador.species && r.value[1].species == gerador.species
                      && r.value[0].fitness.None? && r.value[1].fitness.None?
  {
    ghost var g1, g2 := par1.Genome(), par2.Genome();
    var f1 := gerador.Get();
    var f2 := gerador.Get();
    var cr1, cr2 := par1.genes, par2.genes;
    if c < 0 {
      return Fail(IllegalArgument);
    }
    if c > |cr1| || c > |cr2| {
      return Fail(IndexOutOfBounds);
    }
    var w := WriteOnePoint(f1, f2, cr1, cr2, c, gerador.length, g1, g2);
    CopySplit(g1, c);
    CopySplit(g2, c);
    if w.Throw? {
      return Fail(w.error);
    }
    HoldsGenome(f1, g1[..c] + g2[c..], gerador.length);
    HoldsGenome(f2, g2[..c] + g1[c..], gerador.length);
    return Ok([f1, f2]);
  }

  /**
   * The random overload of the instance one-point crossover: the cut is
   * drawn from [0, |par1|) before any child is made, so an individual
   * without genes throws and leaves the counter alone.
   */
  method OnePointCrossoverAleatorio(gerador: Gerador, par1: Ser, par2: Ser) returns (r: Result<seq<Ser>>, c: int)
    modifies gerador.counter
    ensures |par1.genes| == 0 ==> r == Fail(IllegalArgument) && gerador.counter.next == old(gerador.counter.next)
    ensures |par1.genes| > 0 ==> 0 <= c < |par1.genes| && gerador.counter.next == old(gerador.counter.next) + 2
    ensures r.Ok? <==> 0 < |par1.genes| && c <= |par2.genes| &&
                       |par1.genes| <= gerador.length && |par2.genes| <= gerador.length &&
                       CopyFailure(old(par1.Genome())).None? && CopyFailure(old(par2.Genome())).None?
    ensures r.Ok? ==> |r.value| == 2 && fresh(r.value[0]) && fresh(r.value[1]) && r.value[0] != r.value[1]
    ensures r.Ok? ==> r.value[0].Genome() == Padded(OnePoint(old(par1.Genome()), old(par2.Genome()), c).0, gerador.length)
    ensures r.Ok? ==> r.value[1].Genome() == Padded(OnePoint(old(par1.Genome()), old(par2.Genome()), c).1, gerador.length)
  {
    ghost var g1, g2 := par1.Genome(), par2.Genome();
    var cut := Sampling.GetUniforme(par1.genes);
    if cut.Fail? {
      return Fail(cut.error), 0;
    }
    c := cut.value;
    assert par1.Genome() == g1 && par2.Genome() == g2;
    r := OnePointCrossover(gerador, par1, par2, c);
  }

  /**
   * `e` is in the list by `List.contains`: `e.equals(h[j])` for j = 0, 1, ...
   * until one holds; a real gene with no value throws there.
   */
  function Contains(e: Locus, h: seq<Locus>): (r: Result<bool>)
    reads e`value, (set x | x in h)`value
    ensures r.Fail? ==> r.error == NullPointer
    ensures r.Fail? <==> exists j :: 0 <= j < |h| && LocusEquals(e, h[j]).Fail?
    ensures r == Ok(false) <==> forall j :: 0 <= j < |h| ==> LocusEquals(e, h[j]) == Ok(false)
    ensures r == Ok(true) ==> exists j :: 0 <= j < |h| && LocusEquals(e, h[j]) == Ok(true)
  {
    if h == [] then Ok(false)
    else
      match LocusEquals(e, h[0])
      case Fail(err) => Fail(err)
      case Ok(true) => Ok(true)
      case Ok(false) =>
        var r := Contains(e, h[1..]);
        assert forall j :: 1 <= j < |h| ==> h[j] == h[1..][j - 1];
        r
  }

  /**
   * `rest.removeAll(h)`: the genes of `rest`, in order, that `h` does not
   * contain. Every gene of `rest` is tested, so the call throws exactly when
   * one of the tests does.
   */
  function RemoveAll(rest: seq<Locus>, h: seq<Locus>): (r: Result<seq<Locus>>)
    reads (set x | x in rest)`value, (set x | x in h)`value
    ensures r.Fail? ==> r.error == NullPointer
    ensures r.Fail? <==> exists k :: 0 <= k < |rest| && Contains(rest[k], h).Fail?
    ensures r.Ok? ==> forall x :: x in r.value ==> x in rest && Contains(x, h) == Ok(false)
    ensures r.Ok? ==> forall k :: 0 <= k < |rest| && Contains(rest[k], h) == Ok(false) ==> rest[k] in r.value
  {
    if rest == [] then Ok([])
    else
      var head := Contains(rest[0], h);
      var tail := RemoveAll(rest[1..], h);
      assert forall k :: 1 <= k < |rest| ==> rest[k] == rest[1..][k - 1];
      if head.Fail? then Fail(head.error)
      else if tail.Fail? then tail
      else if head.value then tail
      else Ok([rest[0]] + tail.value)
  }

  /** Two genes `equals` calls equal when they sit in distinct locus objects. */
  predicate EqualCopies(a: Option<Value>, b: Option<Value>) {
    a.Some? && b.Some? && !a.value.Bit? && !a.value.BoxedBit? && SameValueKind(a.value, b.value)
  }

  /** None of the genes of the head `h` is left in the filtered list `s`. */
  ghost predicate HeadsDropped(h: seq<Locus>, s: seq<Locus>) {
    forall j :: 0 <= j < |h| ==> h[j] !in s
  }

  /** Some gene of `other` is equal to `x`. */
  ghost predicate HasCopy(x: Option<Value>, other: seq<Option<Value>>) {
    exists j :: 0 <= j < |other| && EqualCopies(x, other[j])
  }

  /** Every gene of `h` has an equal one in `other`. */
  ghost predicate Covered(h: seq<Option<Value>>, other: seq<Option<Value>>) {
    forall k :: 0 <= k < |h| ==> HasCopy(h[k], other)
  }

  /**
   * After `rest.removeAll(by)` on `rest == t + h`, a gene of `h` missing from
   * the result had an equal gene in `other`; `vh` and `vo` are the genes' values.
   */
  lemma Uncovered(h: seq<Locus>, other: seq<Locus>, t: seq<Locus>, s: seq<Locus>,
                  vh: seq<Option<Value>>, vo: seq<Option<Value>>)
    requires RemoveAll(t + h, other) == Ok(s)
    requires forall j, k :: 0 <= j < |other| && 0 <= k < |h| ==> other[j] != h[k]
    requires |vh| == |h| && forall k :: 0 <= k < |h| ==> vh[k] == Some(h[k].value)
    requires |vo| == |other| && forall j :: 0 <= j < |other| ==> vo[j] == Some(other[j].value)
    ensures (forall k :: 0 <= k < |h| ==> h[k] !in s) ==> Covered(vh, vo)
  {
    DroppedMatched(h, other, t, s);
    CoveredByMatches(h, other, s, vh, vo);
  }

  /** When every gene of `h` was dropped and each dropped gene has an equal one in `other`, `vh` is covered by `vo`. */
  lemma CoveredByMatches(h: seq<Locus>, other: seq<Locus>, s: seq<Locus>, vh: seq<Option<Value>>, vo: seq<Option<Value>>)
    requires forall k :: 0 <= k < |h| && h[k] !in s ==>
               exists j :: 0 <= j < |other| && EqualCopies(Some(h[k].value), Some(other[j].value))
    requires |vh| == |h| && forall k :: 0 <= k < |h| ==> vh[k] == Some(h[k].value)
    requires |vo| == |other| && forall j :: 0 <= j < |other| ==> vo[j] == Some(other[j].value)
    ensures (forall k :: 0 <= k < |h| ==> h[k] !in s) ==> Covered(vh, vo)
  {
    if forall k :: 0 <= k < |h| ==> h[k] !in s {
      forall k | 0 <= k < |vh| ensures HasCopy(vh[k], vo) {
        var j :| 0 <= j < |other| && EqualCopies(Some(h[k].value), Some(other[j].value));
        assert EqualCopies(vh[k], vo[j]);
      }
    }
  }

  /** Every gene of `h` that `removeAll` dropped has an equal gene in `other`. */
  lemma DroppedMatched(h: seq<Locus>, other: seq<Locus>, t: seq<Locus>, s: seq<Locus>)
    requires RemoveAll(t + h, other) == Ok(s)
    requires forall j, k :: 0 <= j < |other| && 0 <= k < |h| ==> other[j] != h[k]
    ensures forall k :: 0 <= k < |h| && h[k] !in s ==>
              exists j :: 0 <= j < |other| && EqualCopies(Some(h[k].value), Some(other[j].value))
  {
    forall k | 0 <= k < |h| && h[k] !in s
      ensures exists j :: 0 <= j < |other| && EqualCopies(Some(h[k].value), Some(other[j].value))
    {
      var j := UncoveredAt(h, other, t, s, k);
    }
  }

  lemma UncoveredAt(h: seq<Locus>, other: seq<Locus>, t: seq<Locus>, s: seq<Locus>, k: int) returns (j: int)
    requires RemoveAll(t + h, other) == Ok(s) && 0 <= k < |h| && h[k] !in s
    requires forall j :: 0 <= j < |other| ==> other[j] != h[k]
    ensures 0 <= j < |other| && EqualCopies(Some(h[k].value), Some(other[j].value))
  {
    var rest := t + h;
    assert rest[|t| + k] == h[k];
    Removed(rest, other, s, |t| + k);
    j := Matched(h[k], other);
  }

  /** A gene that `removeAll` dropped was contained in the other list. */
  lemma Removed(rest: seq<Locus>, other: seq<Locus>, s: seq<Locus>, i: int)
    requires RemoveAll(rest, other) == Ok(s) && 0 <= i < |rest| && rest[i] !in s
    ensures Contains(rest[i], other) == Ok(true)
  {
    var e := Contains(rest[i], other);
    assert e.Ok? && e != Ok(false);
    assert e.value;
  }

  /** The position of the gene `contains` found equal. */
  lemma Matched(e: Locus, other: seq<Locus>) returns (j: int)
    requires Contains(e, other) == Ok(true)
    ensures 0 <= j < |other| && LocusEquals(e, other[j]) == Ok(true)
  {
    j :| 0 <= j < |other| && LocusEquals(e, other[j]) == Ok(true);
  }

  /**
   * The values `removeAll` keeps, in order: those of `rest` without an equal
   * value in `h` (the genes' `equals`, between distinct loci).
   */
  ghost function RemoveEquals(rest: seq<Option<Value>>, h: seq<Option<Value>>): (r: seq<Option<Value>>)
    ensures |r| <= |rest|
    ensures forall x :: x in r <==> x in rest && !HasCopy(x, h)
  {
    if rest == [] then []
    else
      var tail := RemoveEquals(rest[1..], h);
      assert forall i :: 1 <= i < |rest| ==> rest[i] == rest[1..][i - 1];
      if HasCopy(rest[0], h) then tail else [rest[0]] + tail
  }

  /** Between distinct loci, `contains` answers whether some gene of `h` has an equal value. */
  lemma ContainsHasCopy(e: Locus, h: seq<Locus>)
    requires Contains(e, h).Ok? && forall j :: 0 <= j < |h| ==> h[j] != e
    ensures Contains(e, h).value <==> HasCopy(Some(e.value), GenomeOf(h))
  {
    var vh := GenomeOf(h);
    if Contains(e, h).value {
      var j := Matched(e, h);
      assert EqualCopies(Some(e.value), vh[j]);
    } else {
      forall j | 0 <= j < |h| ensures !EqualCopies(Some(e.value), vh[j]) {
        assert LocusEquals(e, h[j]) == Ok(false);
      }
    }
  }

  /** A successful `rest.removeAll(h)` over loci disjoint from `h` keeps the values `RemoveEquals` keeps. */
  lemma {:induction false} RemoveAllGenome(rest: seq<Locus>, h: seq<Locus>, s: seq<Locus>)
    requires RemoveAll(rest, h) == Ok(s)
    requires forall i, j :: 0 <= i < |rest| && 0 <= j < |h| ==> rest[i] != h[j]
    ensures GenomeOf(s) == RemoveEquals(GenomeOf(rest), GenomeOf(h))
  {
    if rest != [] {
      var vr := GenomeOf(rest);
      var tail := RemoveAll(rest[1..], h);
      assert forall k :: 1 <= k < |rest| ==> rest[k] == rest[1..][k - 1];
      RemoveAllGenome(rest[1..], h, tail.value);
      assert GenomeOf(rest[1..]) == vr[1..];
      ContainsHasCopy(rest[0], h);
      if !Contains(rest[0], h).value {
        assert s == [rest[0]] + tail.value;
        assert s[1..] == tail.value;
      }
    }
  }

  /**
   * The writes of `onePointCrossoverSemRepeticao`, without copying: heads h1
   * and h2 at 0 into child 1 and child 2, then s2 and s1 at c. The genes are
   * unowned, h1's distinct from h2's. A gene bound to the other child is
   * refused, so all four writes succeed only when neither head reappears in
   * the other child's tail.
   */
  method WriteNoRepeat(f1: Ser, f2: Ser, h1: seq<Locus>, h2: seq<Locus>, s1: seq<Locus>, s2: seq<Locus>, c: int, ghost length: nat)
    returns (w: Outcome)
    requires f1 != f2 && f1.Unborn(length) && f2.Unborn(length) && |h1| == c == |h2|
    requires forall j, k :: 0 <= j < |h1| && 0 <= k < |h2| ==> h1[j] != h2[k]
    requires forall j :: 0 <= j < |h1| ==> h1[j].owner == null
    requires forall k :: 0 <= k < |h2| ==> h2[k].owner == null
    modifies f1`genes, f2`genes, LociOf(h1)`owner, LociOf(h2)`owner, LociOf(s1)`owner, LociOf(s2)`owner
    ensures w.Pass? ==> forall k :: 0 <= k < |h2| ==> h2[k] !in s2
    ensures w.Pass? ==> forall j :: 0 <= j < |h1| ==> h1[j] !in s1
    ensures w.Pass? ==> c + |s2| <= length && f1.genes == h1 + s2 + seq(length - c - |s2|, _ => null)
    ensures w.Pass? ==> c + |s1| <= length && f2.genes == h2 + s1 + seq(length - c - |s1|, _ => null)
  {
    assert f1.genes == [] + seq(length, _ => null) && f2.genes == [] + seq(length, _ => null);
    w := LayOut(f1, 0, h1, [], length);
    if w.Throw? {
      return;
    }
    w := LayOut(f2, 0, h2, [], length);
    if w.Throw? {
      return;
    }
    assert [] + h1 == h1 && [] + h2 == h2;
    assert forall j :: 0 <= j < |h1| ==> h1[j] !in LociOf(h2);
    assert forall k :: 0 <= k < |h2| ==> !f1.Bindable(h2[k]);
    w := LayOut(f1, c, s2, h1, length);
    if w.Throw? {
      return;
    }
    forall j | 0 <= j < |h1| ensures h1[j].owner == f1 {
      if h1[j] in s2 {
        var i :| 0 <= i < |s2| && s2[i] == h1[j];
      }
    }
    assert forall j :: 0 <= j < |h1| ==> !f2.Bindable(h1[j]);
    w := LayOut(f2, c, s1, h2, length);
  }

  /**
   * `setCaracteristicas(at, xs)` on a child whose slots hold `front` and are
   * empty from `at` = |front| on: on success the child holds `front`, then `xs`.
   */
  method LayOut(f: Ser, at: int, xs: seq<Locus>, ghost front: seq<Locus?>, ghost length: nat) returns (w: Outcome)
    requires at == |front| <= length && f.fitness.None? && f.genes == front + seq(length - at, _ => null)
    modifies f`genes, LociOf(xs)`owner
    ensures w.Pass? <==> (xs == [] || at + |xs| <= length) && forall k :: 0 <= k < |xs| ==> old(f.Bindable(xs[k]))
    ensures w.Pass? ==> (forall k :: 0 <= k < |xs| ==> xs[k].owner == f) && at + |xs| <= length
    ensures w.Pass? ==> f.genes == front + xs + seq(length - at - |xs|, _ => null)
  {
    ghost var n;
    w, n := f.SetCaracteristicasAt(at, xs);
    if w.Pass? {
      var r: seq<Locus?> := front + xs + seq(length - at - |xs|, _ => null);
      forall k | 0 <= k < length ensures f.genes[k] == r[k] {
      }
    }
  }

  /**
   * The two filtered lists of `onePointCrossoverSemRepeticao` on the copies
   * `cr1` and `cr2` (values `g1` and `g2`): par1's tail then head without
   * the genes of par2's head, then the same for par2.
   */
  method Filter(cr1: seq<Locus>, cr2: seq<Locus>, c: int, ghost g1: seq<Option<Value>>, ghost g2: seq<Option<Value>>)
    returns (r: Result<(seq<Locus>, seq<Locus>)>)
    requires 0 <= c <= |cr1| && c <= |cr2| && |g1| == |cr1| && |g2| == |cr2|
    requires forall j :: 0 <= j < |cr1| ==> g1[j] == Some(cr1[j].value)
    requires forall k :: 0 <= k < |cr2| ==> g2[k] == Some(cr2[k].value)
    requires forall j, k :: 0 <= j < |cr1| && 0 <= k < |cr2| ==> cr1[j] != cr2[k]
    ensures r.Fail? ==> r.error == NullPointer
    ensures r.Ok? ==> (forall x :: x in r.value.0 ==> x in cr1) && (forall x :: x in r.value.1 ==> x in cr2)
    ensures r.Ok? && HeadsDropped(cr1[..c], r.value.0) ==> Covered(g1[..c], g2[..c])
    ensures r.Ok? && HeadsDropped(cr2[..c], r.value.1) ==> Covered(g2[..c], g1[..c])
    ensures r.Ok? ==> GenomeOf(r.value.0) == RemoveEquals(g1[c..] + g1[..c], g2[..c])
    ensures r.Ok? ==> GenomeOf(r.value.1) == RemoveEquals(g2[c..] + g2[..c], g1[..c])
  {
    var h1, t1, h2, t2 := cr1[..c], cr1[c..], cr2[..c], cr2[c..];
    var s1 := RemoveAll(t1 + h1, h2);
    if s1.Fail? {
      return Fail(s1.error);
    }
    var s2 := RemoveAll(t2 + h2, h1);
    if s2.Fail? {
      return Fail(s2.error);
    }
    FilteredSide(cr1, cr2, c, g1, g2, s1.value);
    FilteredSide(cr2, cr1, c, g2, g1, s2.value);
    return Ok((s1.value, s2.value));
  }

  /**
   * What the first `removeAll` of `Filter` leaves: genes of par1's copy, the
   * values `RemoveEquals` keeps and, when every head gene was dropped, a head
   * covered by the other head.
   */
  lemma FilteredSide(cr1: seq<Locus>, cr2: seq<Locus>, c: int, g1: seq<Option<Value>>, g2: seq<Option<Value>>, s1: seq<Locus>)
    requires 0 <= c <= |cr1| && c <= |cr2| && |g1| == |cr1| && |g2| == |cr2|
    requires forall j :: 0 <= j < |cr1| ==> g1[j] == Some(cr1[j].value)
    requires forall k :: 0 <= k < |cr2| ==> g2[k] == Some(cr2[k].value)
    requires forall j, k :: 0 <= j < |cr1| && 0 <= k < |cr2| ==> cr1[j] != cr2[k]
    requires RemoveAll(cr1[c..] + cr1[..c], cr2[..c]) == Ok(s1)
    ensures forall x :: x in s1 ==> x in cr1
    ensures HeadsDropped(cr1[..c], s1) ==> Covered(g1[..c], g2[..c])
    ensures GenomeOf(s1) == RemoveEquals(g1[c..] + g1[..c], g2[..c])
  {
    var h1, t1, h2 := cr1[..c], cr1[c..], cr2[..c];
    Uncovered(h1, h2, t1, s1, g1[..c], g2[..c]);
    assert cr1 == h1 + t1;
    FilteredGenome(cr1, cr2, c, g1, g2, s1);
  }

  /** The values the first `removeAll` of `Filter` keeps. */
  lemma FilteredGenome(cr1: seq<Locus>, cr2: seq<Locus>, c: int, g1: seq<Option<Value>>, g2: seq<Option<Value>>, s1: seq<Locus>)
    requires 0 <= c <= |cr1| && c <= |cr2| && |g1| == |cr1| && |g2| == |cr2|
    requires forall j :: 0 <= j < |cr1| ==> g1[j] == Some(cr1[j].value)
    requires forall k :: 0 <= k < |cr2| ==> g2[k] == Some(cr2[k].value)
    requires forall j, k :: 0 <= j < |cr1| && 0 <= k < |cr2| ==> cr1[j] != cr2[k]
    requires RemoveAll(cr1[c..] + cr1[..c], cr2[..c]) == Ok(s1)
    ensures GenomeOf(s1) == RemoveEquals(g1[c..] + g1[..c], g2[..c])
  {
    var rest, h := cr1[c..] + cr1[..c], cr2[..c];
    forall i, j | 0 <= i < |rest| && 0 <= j < |h| ensures rest[i] != h[j] {
      assert rest[i] in cr1 && h[j] in cr2;
    }
    RemoveAllGenome(rest, h, s1);
    var vr, vh := GenomeOf(rest), GenomeOf(h);
    assert vr == g1[c..] + g1[..c] by {
      forall i | 0 <= i < |rest| ensures vr[i] == (g1[c..] + g1[..c])[i] {
        if i < |cr1| - c {
          assert rest[i] == cr1[c + i];
        } else {
          assert rest[i] == cr1[i - (|cr1| - c)];
        }
      }
    }
    assert vh == g2[..c];
  }

  /** The genes of a list all copy exactly when its genome has no copy failure. */
  lemma CopyFailureGenome(gs: seq<Locus?>)
    ensures CopyFailure(GenomeOf(gs)).None? <==> forall k :: 0 <= k < |gs| ==> gs[k] != null && Copyable(gs[k].value)
  {
    var vs := GenomeOf(gs);
    assert forall k :: 0 <= k < |gs| ==> (vs[k].Some? <==> gs[k] != null);
  }

  /** `getCaracteristicasCopia` of par1, then of par2: two lists of fresh unowned copies, in order. */
  method CopyBoth(par1: Ser, par2: Ser, ghost g1: seq<Option<Value>>, ghost g2: seq<Option<Value>>)
    returns (r: Result<(seq<Locus>, seq<Locus>)>)
    requires g1 == par1.Genome() && g2 == par2.Genome()
    ensures r.Ok? <==> CopyFailure(g1).None? && CopyFailure(g2).None?
    ensures r.Ok? ==> |r.value.0| == |g1| && forall j :: 0 <= j < |g1| ==> g1[j] == Some(r.value.0[j].value)
    ensures r.Ok? ==> |r.value.1| == |g2| && forall k :: 0 <= k < |g2| ==> g2[k] == Some(r.value.1[k].value)
    ensures r.Ok? ==> forall j :: 0 <= j < |g1| ==> fresh(r.value.0[j]) && r.value.0[j].owner == null
    ensures r.Ok? ==> forall k :: 0 <= k < |g2| ==> fresh(r.value.1[k]) && r.value.1[k].owner == null
    ensures r.Ok? ==> forall j, k :: 0 <= j < |g1| && 0 <= k < |g2| ==> r.value.0[j] != r.value.1[k]
  {
    CopyFailureGenome(par1.genes);
    CopyFailureGenome(par2.genes);
    var x1 := par1.GetCaracteristicasCopia();
    if x1.Fail? {
      return Fail(x1.error);
    }
    var x2 := par2.GetCaracteristicasCopia();
    if x2.Fail? {
      return Fail(x2.error);
    }
    assert forall j, k :: 0 <= j < |x1.value| && 0 <= k < |x2.value| ==> x1.value[j] != x2.value[k];
    return Ok((x1.value, x2.value));
  }

  /** The filtering and the four writes of `onePointCrossoverSemRepeticao`, on the copies of both parents. */
  method FilterAndWrite(f1: Ser, f2: Ser, cr1: seq<Locus>, cr2: seq<Locus>, c: int,
                        ghost g1: seq<Option<Value>>, ghost g2: seq<Option<Value>>, ghost length: nat)
    returns (w: Outcome)
    requires f1 != f2 && f1.Unborn(length) && f2.Unborn(length)
    requires 0 <= c <= |cr1| && c <= |cr2| && |g1| == |cr1| && |g2| == |cr2|
    requires forall j :: 0 <= j < |cr1| ==> g1[j] == Some(cr1[j].value) && cr1[j].owner == null
    requires forall k :: 0 <= k < |cr2| ==> g2[k] == Some(cr2[k].value) && cr2[k].owner == null
    requires forall j, k :: 0 <= j < |cr1| && 0 <= k < |cr2| ==> cr1[j] != cr2[k]
    modifies f1`genes, f2`genes, LociOf(cr1)`owner, LociOf(cr2)`owner
    ensures w.Pass? ==> Covered(g1[..c], g2[..c]) && Covered(g2[..c], g1[..c])
    ensures w.Pass? ==> Holds(f1, NoRepeatAsWritten(g1, g2, c).0, length) && Holds(f2, NoRepeatAsWritten(g1, g2, c).1, length)
  {
    var s := Filter(cr1, cr2, c, g1, g2);
    if s.Fail? {
      return Throw(s.error);
    }
    var s1, s2 := s.value.0, s.value.1;
    w := WriteFiltered(f1, f2, cr1, cr2, c, g1, g2, s1, s2, GenomeOf(s1), GenomeOf(s2),
                       NoRepeatAsWritten(g1, g2, c).0, NoRepeatAsWritten(g1, g2, c).1, length);
  }

  /**
   * The four writes of `onePointCrossoverSemRepeticao` once the filtered
   * lists `s1` and `s2` (values `vs1` and `vs2`) are known.
   */
  method WriteFiltered(f1: Ser, f2: Ser, cr1: seq<Locus>, cr2: seq<Locus>, c: int,
                       ghost g1: seq<Option<Value>>, ghost g2: seq<Option<Value>>, s1: seq<Locus>, s2: seq<Locus>,
                       ghost vs1: seq<Option<Value>>, ghost vs2: seq<Option<Value>>,
                       ghost front1: seq<Option<Value>>, ghost front2: seq<Option<Value>>, ghost length: nat)
    returns (w: Outcome)
    requires f1 != f2 && f1.Unborn(length) && f2.Unborn(length)
    requires 0 <= c <= |cr1| && c <= |cr2| && |g1| == |cr1| && |g2| == |cr2|
    requires forall j :: 0 <= j < |cr1| ==> g1[j] == Some(cr1[j].value) && cr1[j].owner == null
    requires forall k :: 0 <= k < |cr2| ==> g2[k] == Some(cr2[k].value) && cr2[k].owner == null
    requires forall j, k :: 0 <= j < |cr1| && 0 <= k < |cr2| ==> cr1[j] != cr2[k]
    requires (forall x :: x in s1 ==> x in cr1) && (forall x :: x in s2 ==> x in cr2)
    requires vs1 == GenomeOf(s1) && vs2 == GenomeOf(s2)
    requires front1 == g1[..c] + vs2 && front2 == g2[..c] + vs1
    modifies f1`genes, f2`genes, LociOf(cr1)`owner, LociOf(cr2)`owner
    ensures w.Pass? ==> HeadsDropped(cr1[..c], s1) && HeadsDropped(cr2[..c], s2)
    ensures w.Pass? ==> Holds(f1, front1, length) && Holds(f2, front2, length)
  {
    var h1, h2 := cr1[..c], cr2[..c];
    ghost var vh1, vh2 := g1[..c], g2[..c];
    w := WriteNoRepeat(f1, f2, h1, h2, s1, s2, c, length);
    if w.Pass? {
      LaidOutHolds(f1, h1, s2, vh1, vs2, length);
      LaidOutHolds(f2, h2, s1, vh2, vs1, length);
    }
  }

  /** A child whose slots hold the genes `h`, then `s`, then empty slots holds their values `vh` then `vs`. */
  lemma LaidOutHolds(f: Ser, h: seq<Locus>, s: seq<Locus>, vh: seq<Option<Value>>, vs: seq<Option<Value>>, length: nat)
    requires f.fitness.None? && f.evaluatedBy == null && f.age == 0
    requires |h| + |s| <= length && f.genes == h + s + seq(length - |h| - |s|, _ => null)
    requires |vh| == |h| && forall k :: 0 <= k < |h| ==> vh[k] == Some(h[k].value)
    requires |vs| == |s| && forall k :: 0 <= k < |s| ==> vs[k] == Some(s[k].value)
    ensures Holds(f, vh + vs, length)
  {
    forall k | 0 <= k < |h| + |s| ensures f.genes[k] != null && (vh + vs)[k] == Some(f.genes[k].value) {
      if k >= |h| {
        assert f.genes[k] == s[k - |h|];
      }
    }
  }

  /**
   * The instance `onePointCrossoverSemRepeticao(par1, par2, c)`: two fresh
   * children; copies of both parents (par1's, then par2's); heads [0, c) and
   * tails [c, n) of the copies; each tail followed by its own head, with the
   * genes equal to one of the other head removed (par1's list first); then
   * head 1 and head 2 at 0 and the filtered lists of par2 and par1 at c.
   * The filtered list of par2 still holds the copies of par2's head that
   * child 2 has just taken, so the writes only succeed when every head gene
   * has an equal gene in the other head.
   */
  method OnePointCrossoverSemRepeticao(gerador: Gerador, par1: Ser, par2: Ser, c: int) returns (r: Result<seq<Ser>>)
    modifies gerador.counter
    ensures gerador.counter.next == old(gerador.counter.next) + 2
    ensures CopyFailure(old(par1.Genome())).None? && CopyFailure(old(par2.Genome())).None? ==>
              (c < 0 ==> r == Fail(IllegalArgument)) &&
              (0 <= c && (c > |par1.genes| || c > |par2.genes|) ==> r == Fail(IndexOutOfBounds))
    ensures r.Ok? ==> 0 <= c <= |par1.genes| && c <= |par2.genes|
    ensures r.Ok? ==> CopyFailure(old(par1.Genome())).None? && CopyFailure(old(par2.Genome())).None?
    ensures r.Ok? ==> Covered(old(par2.Genome())[..c], old(par1.Genome())[..c])
    ensures r.Ok? ==> Covered(old(par1.Genome())[..c], old(par2.Genome())[..c])
    ensures r.Ok? ==> |r.value| == 2 && fresh(r.value[0]) && fresh(r.value[1]) && r.value[0] != r.value[1]
    ensures r.Ok? ==> |NoRepeatAsWritten(old(par1.Genome()), old(par2.Genome()), c).0| <= gerador.length &&
                      r.value[0].Genome() == Padded(NoRepeatAsWritten(old(par1.Genome()), old(par2.Genome()), c).0, gerador.length)
    ensures r.Ok? ==> |NoRepeatAsWritten(old(par1.Genome()), old(par2.Genome()), c).1| <= gerador.length &&
                      r.value[1].Genome() == Padded(NoRepeatAsWritten(old(par1.Genome()), old(par2.Genome()), c).1, gerador.length)
  {
    ghost var g1, g2 := par1.Genome(), par2.Genome();
    var f1 := gerador.Get();
    var f2 := gerador.Get();
    assert par1.Genome() == g1 && par2.Genome() == g2;
    var x := CopyBoth(par1, par2, g1, g2);
    if x.Fail? {
      return Fail(x.error);
    }
    var cr1, cr2 := x.value.0, x.value.1;
    assert |cr1| == |par1.genes| && |cr2| == |par2.genes|;
    if c < 0 {
      return Fail(IllegalArgument);
    }
    if c > |cr1| || c > |cr2| {
      return Fail(IndexOutOfBounds);
    }
    var w := FilterAndWrite(f1, f2, cr1, cr2, c, g1, g2, gerador.length);
    if w.Throw? {
      return Fail(w.error);
    }
    HoldsGenome(f1, NoRepeatAsWritten(g1, g2, c).0, gerador.length);
    HoldsGenome(f2, NoRepeatAsWritten(g1, g2, c).1, gerador.length);
    return Ok([f1, f2]);
  }

  /**
   * The random overload of `onePointCrossoverSemRepeticao`: the cut is drawn
   * from [0, |par1|) before any child is made.
   */
  method OnePointCrossoverSemRepeticaoAleatorio(gerador: Gerador, par1: Ser, par2: Ser) returns (r: Result<seq<Ser>>, c: int)
    modifies gerador.counter
    ensures |par1.genes| == 0 ==> r == Fail(IllegalArgument) && gerador.counter.next == old(gerador.counter.next)
    ensures |par1.genes| > 0 ==> 0 <= c < |par1.genes| && gerador.counter.next == old(gerador.counter.next) + 2
    ensures r.Ok? ==> 0 <= c < |par1.genes| && c <= |par2.genes|
    ensures r.Ok? ==> CopyFailure(old(par1.Genome())).None? && CopyFailure(old(par2.Genome())).None?
    ensures r.Ok? ==> Covered(old(par2.Genome())[..c], old(par1.Genome())[..c])
    ensures r.Ok? ==> Covered(old(par1.Genome())[..c], old(par2.Genome())[..c])
    ensures r.Ok? ==> |r.value| == 2 && fresh(r.value[0]) && fresh(r.value[1]) && r.value[0] != r.value[1]
    ensures r.Ok? ==> |NoRepeatAsWritten(old(par1.Genome()), old(par2.Genome()), c).0| <= gerador.length &&
                      r.value[0].Genome() == Padded(NoRepeatAsWritten(old(par1.Genome()), old(par2.Genome()), c).0, gerador.length)
    ensures r.Ok? ==> |NoRepeatAsWritten(old(par1.Genome()), old(par2.Genome()), c).1| <= gerador.length &&
                      r.value[1].Genome() == Padded(NoRepeatAsWritten(old(par1.Genome()), old(par2.Genome()), c).1, gerador.length)
  {
    ghost var g1, g2 := par1.Genome(), par2.Genome();
    var cut := Sampling.GetUniforme(par1.genes);
    if cut.Fail? {
      return Fail(cut.error), 0;
    }
    c := cut.value;
    assert par1.Genome() == g1 && par2.Genome() == g2;
    r := OnePointCrossoverSemRepeticao(gerador, par1, par2, c);
  }

  /** The elements of `rest`, in order, that do not occur in `h`. */
  function Drop<T(==,!new)>(rest: seq<T>, h: seq<T>): (r: seq<T>)
    ensures forall x :: x in r <==> x in rest && x !in h
    ensures Seqs.Distinct(rest) ==> Seqs.Distinct(r)
  {
    if rest == [] then []
    else
      var tail := Drop(rest[1..], h);
      assert forall i :: 1 <= i < |rest| ==> rest[i] == rest[1..][i - 1];
      if rest[0] in h then tail else [rest[0]] + tail
  }

  /**
   * The no-repeat one-point crossover as its documentation describes it:
   * each child keeps its own parent's head [0, c) and then takes the other
   * parent's genes from c on, wrapping round to its start, skipping the
   * values the head already holds.
   */
  function NoRepeat<T(==,!new)>(p1: seq<T>, p2: seq<T>, c: int): (r: (seq<T>, seq<T>))
    requires 0 <= c <= |p1| && c <= |p2|
    ensures c <= |r.0| && c <= |r.1| && r.0[..c] == p1[..c] && r.1[..c] == p2[..c]
    ensures forall x :: x in r.0 <==> x in p1[..c] || x in p2
    ensures forall x :: x in r.1 <==> x in p2[..c] || x in p1
  {
    var r0, r1 := p1[..c] + Drop(p2[c..] + p2[..c], p1[..c]), p2[..c] + Drop(p1[c..] + p1[..c], p2[..c]);
    assert r0[..c] == p1[..c] && r1[..c] == p2[..c];
    assert p2 == p2[..c] + p2[c..] && p1 == p1[..c] + p1[c..];
    (r0, r1)
  }

  /**
   * The children `onePointCrossoverSemRepeticao` lays out when it succeeds:
   * each parent's head [0, c), then the other parent's genes from c on,
   * wrapping round to its start, without those equal to a gene of the head.
   */
  ghost function NoRepeatAsWritten(g1: seq<Option<Value>>, g2: seq<Option<Value>>, c: int): (r: (seq<Option<Value>>, seq<Option<Value>>))
    requires 0 <= c <= |g1| && c <= |g2|
    ensures c <= |r.0| <= c + |g2| && c <= |r.1| <= c + |g1|
    ensures r.0[..c] == g1[..c] && r.1[..c] == g2[..c]
  {
    var r0, r1 := g1[..c] + RemoveEquals(g2[c..] + g2[..c], g1[..c]), g2[..c] + RemoveEquals(g1[c..] + g1[..c], g2[..c]);
    assert r0[..c] == g1[..c] && r1[..c] == g2[..c];
    (r0, r1)
  }

  /** Integer and permutation genes: the genome kinds whose `equals` is equality of values. */
  predicate ValuedGenome(g: seq<Option<Value>>) {
    forall k :: 0 <= k < |g| ==> g[k].Some? && (g[k].value.Integer? || g[k].value.Permutation?)
  }

  /** On integer and permutation values, dropping the genes with an equal in `h` is dropping the genes in `h`. */
  lemma {:induction false} RemoveEqualsIsDrop(rest: seq<Option<Value>>, h: seq<Option<Value>>)
    requires ValuedGenome(rest)
    ensures RemoveEquals(rest, h) == Drop(rest, h)
  {
    if rest != [] {
      assert ValuedGenome(rest[1..]) by {
        forall k | 0 <= k < |rest[1..]| ensures rest[1..][k] == rest[k + 1] {
        }
      }
      RemoveEqualsIsDrop(rest[1..], h);
      assert HasCopy(rest[0], h) <==> rest[0] in h by {
        if rest[0] in h {
          var j :| 0 <= j < |h| && h[j] == rest[0];
          assert EqualCopies(rest[0], h[j]);
        }
      }
    }
  }

  /** On integer and permutation genomes the crossover as written lays out the documented no-repeat children. */
  lemma NoRepeatAsWrittenIsNoRepeat(g1: seq<Option<Value>>, g2: seq<Option<Value>>, c: int)
    requires ValuedGenome(g1) && ValuedGenome(g2) && 0 <= c <= |g1| && c <= |g2|
    ensures NoRepeatAsWritten(g1, g2, c) == NoRepeat(g1, g2, c)
  {
    ValuedRotation(g1, c);
    ValuedRotation(g2, c);
    RemoveEqualsIsDrop(g2[c..] + g2[..c], g1[..c]);
    RemoveEqualsIsDrop(g1[c..] + g1[..c], g2[..c]);
  }

  lemma ValuedRotation(g: seq<Option<Value>>, c: int)
    requires ValuedGenome(g) && 0 <= c <= |g|
    ensures ValuedGenome(g[c..] + g[..c])
  {
    var r := g[c..] + g[..c];
    forall k | 0 <= k < |r| ensures r[k] == g[if k < |g| - c then c + k else k - (|g| - c)] {
    }
  }

  /**
   * Parents that are permutations of the same integer or permutation values
   * give children, when the crossover succeeds, that are permutations of them too.
   */
  lemma NoRepeatAsWrittenPermutes(g1: seq<Option<Value>>, g2: seq<Option<Value>>, c: int)
    requires ValuedGenome(g1) && ValuedGenome(g2) && 0 <= c <= |g1| && c <= |g2|
    requires Seqs.Distinct(g1) && Seqs.Distinct(g2) && multiset(g1) == multiset(g2)
    ensures Seqs.Distinct(NoRepeatAsWritten(g1, g2, c).0) && multiset(NoRepeatAsWritten(g1, g2, c).0) == multiset(g1)
    ensures Seqs.Distinct(NoRepeatAsWritten(g1, g2, c).1) && multiset(NoRepeatAsWritten(g1, g2, c).1) == multiset(g2)
  {
    NoRepeatAsWrittenIsNoRepeat(g1, g2, c);
    NoRepeatPermutes(g1, g2, c);
  }

  /** For two permutations of the same values, both no-repeat children are permutations of those values. */
  lemma NoRepeatPermutes<T(!new)>(p1: seq<T>, p2: seq<T>, c: int)
    requires Seqs.Distinct(p1) && Seqs.Distinct(p2) && multiset(p1) == multiset(p2) && 0 <= c <= |p1|
    ensures |p1| == |p2|
    ensures Seqs.Distinct(NoRepeat(p1, p2, c).0) && multiset(NoRepeat(p1, p2, c).0) == multiset(p1)
    ensures Seqs.Distinct(NoRepeat(p1, p2, c).1) && multiset(NoRepeat(p1, p2, c).1) == multiset(p2)
  {
    assert |p1| == |multiset(p1)| == |multiset(p2)| == |p2|;
    HeadFill(p1, p2, c);
    HeadFill(p2, p1, c);
  }

  /** The head of `p` followed by the genes of `q` it lacks is a permutation of `p`. */
  lemma HeadFill<T(!new)>(p: seq<T>, q: seq<T>, c: int)
    requires Seqs.Distinct(p) && Seqs.Distinct(q) && multiset(p) == multiset(q) && 0 <= c <= |p| && c <= |q|
    ensures Seqs.Distinct(p[..c] + Drop(q[c..] + q[..c], p[..c]))
    ensures multiset(p[..c] + Drop(q[c..] + q[..c], p[..c])) == multiset(p)
  {
    var h, s := p[..c], q[c..] + q[..c];
    var d := Drop(s, h);
    var child := h + d;
    assert q == q[..c] + q[c..];
    Seqs.PermutationByCover(s, q);
    assert Seqs.Distinct(h) by {
      forall i, j | 0 <= i < j < |h| ensures h[i] != h[j] {
        assert h[i] == p[i] && h[j] == p[j];
      }
    }
    forall i, j | 0 <= i < j < |child| ensures child[i] != child[j] {
      if j < |h| {
        assert child[i] == h[i] && child[j] == h[j];
      } else if i >= |h| {
        assert child[i] == d[i - |h|] && child[j] == d[j - |h|];
      } else {
        assert child[i] == h[i] && child[j] == d[j - |h|];
        assert child[j] in d;
      }
    }
    forall x ensures x in child <==> x in p {
      assert x in p <==> x in multiset(q);
      assert x in h ==> x in p;
    }
    assert Seqs.Elements(child) == Seqs.Elements(p);
    Seqs.DistinctSameElements(child, p);
  }

  /**
   * Two permutation genomes cut after their first gene: as written par2's
   * head value 1 has no equal in par1's head value 0, so the no-repeat
   * crossover fails, while the documented operator hands back both parents.
   */
  lemma NoRepeatCounterexample()
    ensures !Covered([Some(Permutation(1)), Some(Permutation(0))][..1], [Some(Permutation(0)), Some(Permutation(1))][..1])
    ensures NoRepeat([Permutation(0), Permutation(1)], [Permutation(1), Permutation(0)], 1)
            == ([Permutation(0), Permutation(1)], [Permutation(1), Permutation(0)])
  {
    var h2, h1 := [Some(Permutation(1)), Some(Permutation(0))][..1], [Some(Permutation(0)), Some(Permutation(1))][..1];
    assert h2 == [Some(Permutation(1))] && h1 == [Some(Permutation(0))];
    assert !EqualCopies(h2[0], h1[0]);
    var p1, p2 := [Permutation(0), Permutation(1)], [Permutation(1), Permutation(0)];
    assert p2[1..] + p2[..1] == [Permutation(0), Permutation(1)];
    assert Drop([Permutation(0), Permutation(1)], [Permutation(0)]) == [Permutation(1)];
    assert p1[1..] + p1[..1] == [Permutation(1), Permutation(0)];
    assert Drop([Permutation(1), Permutation(0)], [Permutation(1)]) == [Permutation(0)];
  }

  /** The gene a discrete-recombination draw takes at position i: par1's on true, par2's on false (None past par2's end). */
  function Pick(g1: seq<Option<Value>>, g2: seq<Option<Value>>, i: int, d: bool): Option<Value>
    requires 0 <= i < |g1|
  {
    if d then g1[i] else if i < |g2| then g2[i] else None
  }

  /** The write of a picked gene at position i of a child with `length` slots succeeds. */
  predicate Fits(g1: seq<Option<Value>>, g2: seq<Option<Value>>, i: int, d: bool, length: nat)
    requires 0 <= i < |g1|
  {
    i < length && Pick(g1, g2, i, d).Some? && Copyable(Pick(g1, g2, i, d).value)
  }

  /** Child f's genes after the draws `rows`: row i holds the draws at position i, one per child. */
  function Chosen(g1: seq<Option<Value>>, g2: seq<Option<Value>>, rows: seq<seq<bool>>, f: int): (vs: seq<Option<Value>>)
    requires |rows| <= |g1| && 0 <= f && forall i :: 0 <= i < |rows| ==> f < |rows[i]|
    ensures |vs| == |rows|
    ensures forall i :: 0 <= i < |rows| ==> vs[i] == if rows[i][f] then g1[i] else if i < |g2| then g2[i] else None
  {
    seq(|rows|, i requires 0 <= i < |rows| => Pick(g1, g2, i, rows[i][f]))
  }

  /** Every row holds one draw per child, each obeying `sorteioUniforme(p)`. */
  ghost predicate Drawn(rows: seq<seq<bool>>, n: int, p: real) {
    forall i :: 0 <= i < |rows| ==> |rows[i]| == n && Random.DrawsFollow(p, rows[i])
  }

  /** A draw of 1 always picks par1's genes: the children are padded copies of par1. */
  lemma ChosenAllTrue(g1: seq<Option<Value>>, g2: seq<Option<Value>>, rows: seq<seq<bool>>, n: int, f: int)
    requires |rows| == |g1| && Drawn(rows, n, 1.0) && 0 <= f < n
    ensures Chosen(g1, g2, rows, f) == g1
  {
    assert forall i :: 0 <= i < |rows| ==> rows[i][f];
  }

  /** A negative probability always picks par2's genes. */
  lemma ChosenAllFalse(g1: seq<Option<Value>>, g2: seq<Option<Value>>, rows: seq<seq<bool>>, n: int, p: real, f: int)
    requires |rows| == |g1| <= |g2| && p < 0.0 && Drawn(rows, n, p) && 0 <= f < n
    ensures Chosen(g1, g2, rows, f) == g2[..|g1|]
  {
    assert forall i :: 0 <= i < |rows| ==> !rows[i][f];
  }

  /**
   * One step of `discriteRecombination`: a draw, the gene at position i of
   * the parent it picks (a position past par2's end throws), and a copy of
   * it at position i of the child.
   */
  method WriteGene(child: Ser, i: int, par1: Ser, par2: Ser, p: real, ghost front: seq<Option<Value>>,
                   ghost g1: seq<Option<Value>>, ghost g2: seq<Option<Value>>, ghost length: nat)
    returns (w: Outcome, d: bool)
    requires Holds(child, front, length) && i == |front| && 0 <= i < |par1.genes|
    requires g1 == par1.Genome() && g2 == par2.Genome()
    modifies child`genes
    ensures (p >= 1.0 ==> d) && (p < 0.0 ==> !d)
    ensures w.Pass? <==> Fits(g1, g2, i, d, length)
    ensures w.Throw? ==> w.error in {IndexOutOfBounds, NullPointer, IllegalArgument}
    ensures w.Pass? ==> Holds(child, front + [Pick(g1, g2, i, d)], length)
  {
    d := Random.SorteioUniforme(p);
    var o := if d then par1.GetCaracteristica(i) else par2.GetCaracteristica(i);
    if o.Fail? {
      return Throw(o.error), d;
    }
    ghost var copy;
    w, copy := child.SetCaracteristicaCopia(i, o.value);
    if w.Pass? {
      forall k | 0 <= k < |front| + 1 ensures child.genes[k] != null && (front + [Pick(g1, g2, i, d)])[k] == Some(child.genes[k].value) {
      }
    }
  }

  /** Every draw made so far picked a gene that could be written. */
  ghost predicate FitsAll(g1: seq<Option<Value>>, g2: seq<Option<Value>>, rows: seq<seq<bool>>, length: nat)
    requires |rows| <= |g1|
  {
    forall i, k :: 0 <= i < |rows| && 0 <= k < |rows[i]| ==> Fits(g1, g2, i, rows[i][k], length)
  }

  /**
   * The draws of a run that threw: complete rows, then a partial last row
   * whose last draw picked a gene that could not be written, every earlier
   * draw having fitted.
   */
  ghost predicate StoppedAt(g1: seq<Option<Value>>, g2: seq<Option<Value>>, rows: seq<seq<bool>>, n: int, p: real, length: nat) {
    0 < |rows| <= |g1| && Drawn(rows[..|rows| - 1], n, p) && FitsAll(g1, g2, rows[..|rows| - 1], length) &&
    var i, last := |rows| - 1, rows[|rows| - 1];
    0 < |last| <= n && Random.DrawsFollow(p, last) &&
    (forall k :: 0 <= k < |last| - 1 ==> Fits(g1, g2, i, last[k], length)) &&
    !Fits(g1, g2, i, last[|last| - 1], length)
  }

  /**
   * The inner loop of `discriteRecombination`: gene i of every child in
   * turn, each with its own draw, until a write throws. `row` holds the
   * draws made.
   */
  method WriteColumn(filhos: seq<Ser>, i: int, par1: Ser, par2: Ser, p: real, ghost fronts: seq<seq<Option<Value>>>,
                     ghost g1: seq<Option<Value>>, ghost g2: seq<Option<Value>>, ghost length: nat)
    returns (w: Outcome, ghost row: seq<bool>)
    requires Seqs.Distinct(filhos) && |fronts| == |filhos| && 0 <= i < |par1.genes|
    requires forall k :: 0 <= k < |filhos| ==> filhos[k] != par1 && filhos[k] != par2
    requires forall k :: 0 <= k < |filhos| ==> Holds(filhos[k], fronts[k], length) && |fronts[k]| == i
    requires g1 == par1.Genome() && g2 == par2.Genome()
    modifies (set k | 0 <= k < |filhos| :: filhos[k])`genes
    ensures g1 == par1.Genome() && g2 == par2.Genome()
    ensures |row| <= |filhos| && Random.DrawsFollow(p, row)
    ensures forall k :: 0 <= k < |row| - 1 ==> Fits(g1, g2, i, row[k], length)
    ensures w.Throw? ==> 0 < |row| && !Fits(g1, g2, i, row[|row| - 1], length)
    ensures w.Throw? ==> w.error in {IndexOutOfBounds, NullPointer, IllegalArgument}
    ensures w.Pass? ==> |row| == |filhos| && forall k :: 0 <= k < |filhos| ==>
                          Fits(g1, g2, i, row[k], length) && Holds(filhos[k], fronts[k] + [Pick(g1, g2, i, row[k])], length)
  {
    var k := 0;
    row := [];
    w := Pass;
    ghost var cur := fronts;
    while k < |filhos|
      invariant 0 <= k <= |filhos| && |row| == k && Random.DrawsFollow(p, row) && w.Pass?
      invariant g1 == par1.Genome() && g2 == par2.Genome()
      invariant |cur| == |filhos| && forall j :: 0 <= j < |filhos| ==> Holds(filhos[j], cur[j], length)
      invariant forall j :: 0 <= j < k ==> Fits(g1, g2, i, row[j], length) && cur[j] == fronts[j] + [Pick(g1, g2, i, row[j])]
      invariant forall j :: k <= j < |filhos| ==> cur[j] == fronts[j]
    {
      var d;
      w, d, cur := WriteChild(filhos, k, i, par1, par2, p, cur, g1, g2, length);
      Random.DrawsFollowAppend(p, row, d);
      row := row + [d];
      if w.Throw? {
        return;
      }
      k := k + 1;
    }
  }

  /** `WriteGene` on child k of a list of distinct children: the others keep what they hold. */
  method WriteChild(filhos: seq<Ser>, k: int, i: int, par1: Ser, par2: Ser, p: real, ghost cur: seq<seq<Option<Value>>>,
                    ghost g1: seq<Option<Value>>, ghost g2: seq<Option<Value>>, ghost length: nat)
    returns (w: Outcome, d: bool, ghost next: seq<seq<Option<Value>>>)
    requires Seqs.Distinct(filhos) && |cur| == |filhos| && 0 <= k < |filhos| && 0 <= i < |par1.genes| && |cur[k]| == i
    requires filhos[k] != par1 && filhos[k] != par2
    requires forall j :: 0 <= j < |filhos| ==> Holds(filhos[j], cur[j], length)
    requires g1 == par1.Genome() && g2 == par2.Genome()
    modifies {filhos[k]}`genes
    ensures (p >= 1.0 ==> d) && (p < 0.0 ==> !d)
    ensures w.Pass? <==> Fits(g1, g2, i, d, length)
    ensures w.Throw? ==> w.error in {IndexOutOfBounds, NullPointer, IllegalArgument}
    ensures g1 == par1.Genome() && g2 == par2.Genome()
    ensures next == cur[k := cur[k] + [Pick(g1, g2, i, d)]]
    ensures w.Pass? ==> forall j :: 0 <= j < |filhos| ==> Holds(filhos[j], next[j], length)
  {
    w, d := WriteGene(filhos[k], i, par1, par2, p, cur[k], g1, g2, length);
    next := cur[k := cur[k] + [Pick(g1, g2, i, d)]];
  }

  /** One more row of draws adds one gene to each child. */
  lemma ChosenStep(g1: seq<Option<Value>>, g2: seq<Option<Value>>, rows: seq<seq<bool>>, row: seq<bool>, f: int)
    requires |rows| < |g1| && 0 <= f < |row| && forall i :: 0 <= i < |rows| ==> f < |rows[i]|
    ensures Chosen(g1, g2, rows + [row], f) == Chosen(g1, g2, rows, f) + [Pick(g1, g2, |rows|, row[f])]
  {
    var l, r := Chosen(g1, g2, rows + [row], f), Chosen(g1, g2, rows, f) + [Pick(g1, g2, |rows|, row[f])];
    forall i | 0 <= i < |l| ensures l[i] == r[i] {
      if i < |rows| {
        assert (rows + [row])[i] == rows[i];
      }
    }
  }

  /** One pass of the outer loop of `discriteRecombination`: gene i of every child, one more row of draws. */
  method WriteRow(filhos: seq<Ser>, i: int, par1: Ser, par2: Ser, p: real, ghost rows: seq<seq<bool>>,
                  ghost g1: seq<Option<Value>>, ghost g2: seq<Option<Value>>, ghost length: nat)
    returns (w: Outcome, ghost rows': seq<seq<bool>>)
    requires Seqs.Distinct(filhos) && 0 <= i < |par1.genes| && |rows| == i
    requires forall k :: 0 <= k < |filhos| ==> filhos[k] != par1 && filhos[k] != par2
    requires g1 == par1.Genome() && g2 == par2.Genome()
    requires Drawn(rows, |filhos|, p) && FitsAll(g1, g2, rows, length)
    requires forall k :: 0 <= k < |filhos| ==> Holds(filhos[k], Chosen(g1, g2, rows, k), length)
    modifies (set k | 0 <= k < |filhos| :: filhos[k])`genes
    ensures |rows'| == i + 1 && rows'[..i] == rows
    ensures g1 == par1.Genome() && g2 == par2.Genome()
    ensures w.Pass? ==> Drawn(rows', |filhos|, p) && FitsAll(g1, g2, rows', length)
    ensures w.Pass? ==> forall k :: 0 <= k < |filhos| ==> Holds(filhos[k], Chosen(g1, g2, rows', k), length)
    ensures w.Throw? ==> StoppedAt(g1, g2, rows', |filhos|, p, length) && w.error in {IndexOutOfBounds, NullPointer, IllegalArgument}
  {
    ghost var fronts := seq(|filhos|, k requires 0 <= k < |filhos| => Chosen(g1, g2, rows, k));
    ghost var row;
    w, row := WriteColumn(filhos, i, par1, par2, p, fronts, g1, g2, length);
    rows' := rows + [row];
    assert rows'[..i] == rows;
    if w.Pass? {
      RowsExtend(g1, g2, rows, row, |filhos|, p, length);
      forall k | 0 <= k < |filhos| ensures Chosen(g1, g2, rows', k) == fronts[k] + [Pick(g1, g2, i, row[k])] {
        ChosenStep(g1, g2, rows, row, k);
      }
    } else {
      RowsStop(g1, g2, rows, row, |filhos|, p, length);
    }
  }

  /** A complete row of fitting draws extends the draws of a run. */
  lemma RowsExtend(g1: seq<Option<Value>>, g2: seq<Option<Value>>, rows: seq<seq<bool>>, row: seq<bool>, n: int, p: real, length: nat)
    requires |rows| < |g1| && Drawn(rows, n, p) && FitsAll(g1, g2, rows, length)
    requires |row| == n && Random.DrawsFollow(p, row) && forall k :: 0 <= k < n ==> Fits(g1, g2, |rows|, row[k], length)
    ensures Drawn(rows + [row], n, p) && FitsAll(g1, g2, rows + [row], length)
  {
    var rs := rows + [row];
    forall i, k | 0 <= i < |rs| && 0 <= k < |rs[i]| ensures Fits(g1, g2, i, rs[i][k], length) {
      if i < |rows| {
        assert rs[i] == rows[i];
      }
    }
  }

  /** A partial row ending in a draw that did not fit ends the draws of a run that threw. */
  lemma RowsStop(g1: seq<Option<Value>>, g2: seq<Option<Value>>, rows: seq<seq<bool>>, row: seq<bool>, n: int, p: real, length: nat)
    requires |rows| < |g1| && Drawn(rows, n, p) && FitsAll(g1, g2, rows, length)
    requires 0 < |row| <= n && Random.DrawsFollow(p, row)
    requires forall k :: 0 <= k < |row| - 1 ==> Fits(g1, g2, |rows|, row[k], length)
    requires !Fits(g1, g2, |rows|, row[|row| - 1], length)
    ensures StoppedAt(g1, g2, rows + [row], n, p, length)
  {
    assert (rows + [row])[..|rows|] == rows;
  }

  /** Children holding their chosen genes have the padded chosen genomes. */
  lemma ChildrenGenomes(filhos: seq<Ser>, g1: seq<Option<Value>>, g2: seq<Option<Value>>, rows: seq<seq<bool>>, p: real, length: nat)
    requires |rows| <= |g1| && Drawn(rows, |filhos|, p)
    requires forall k :: 0 <= k < |filhos| ==> Holds(filhos[k], Chosen(g1, g2, rows, k), length)
    requires |filhos| > 0 ==> |rows| <= length
    ensures forall k :: 0 <= k < |filhos| ==> filhos[k].Genome() == Padded(Chosen(g1, g2, rows, k), length)
  {
    forall k | 0 <= k < |filhos| ensures filhos[k].Genome() == Padded(Chosen(g1, g2, rows, k), length) {
      HoldsGenome(filhos[k], Chosen(g1, g2, rows, k), length);
    }
  }

  /** The loops of `discriteRecombination` over fresh children: row by row until a write throws. */
  method FillRows(filhos: seq<Ser>, par1: Ser, par2: Ser, p: real,
                  ghost g1: seq<Option<Value>>, ghost g2: seq<Option<Value>>, ghost length: nat)
    returns (w: Outcome, ghost rows: seq<seq<bool>>)
    requires Seqs.Distinct(filhos)
    requires forall k :: 0 <= k < |filhos| ==> filhos[k] != par1 && filhos[k] != par2
    requires g1 == par1.Genome() && g2 == par2.Genome()
    requires forall k :: 0 <= k < |filhos| ==> Holds(filhos[k], [], length)
    modifies (set k | 0 <= k < |filhos| :: filhos[k])`genes
    ensures w.Pass? ==> |rows| == |par1.genes| && Drawn(rows, |filhos|, p) && FitsAll(g1, g2, rows, length)
    ensures w.Pass? && filhos != [] ==> |par1.genes| <= length
    ensures w.Pass? ==> forall k :: 0 <= k < |filhos| ==> filhos[k].Genome() == Padded(Chosen(g1, g2, rows, k), length)
    ensures w.Pass? ==> forall k :: 0 <= k < |filhos| ==> filhos[k].Valid()
    ensures w.Throw? ==> StoppedAt(g1, g2, rows, |filhos|, p, length) && w.error in {IndexOutOfBounds, NullPointer, IllegalArgument}
  {
    rows := [];
    w := Pass;
    var i := 0;
    while i < |par1.genes|
      invariant 0 <= i <= |par1.genes| && |rows| == i && w.Pass?
      invariant g1 == par1.Genome() && g2 == par2.Genome()
      invariant Drawn(rows, |filhos|, p) && FitsAll(g1, g2, rows, length)
      invariant forall k :: 0 <= k < |filhos| ==> Holds(filhos[k], Chosen(g1, g2, rows, k), length)
    {
      w, rows := WriteRow(filhos, i, par1, par2, p, rows, g1, g2, length);
      if w.Throw? {
        return;
      }
      i := i + 1;
    }
    if filhos != [] {
      assert Holds(filhos[0], Chosen(g1, g2, rows, 0), length);
    }
    ChildrenGenomes(filhos, g1, g2, rows, p, length);
  }

  /**
   * The instance `discriteRecombination(par1, par2, nFilhos, p)`: nFilhos
   * fresh children from the generator; then, for each position i of par1 and
   * each child in turn, a draw of `sorteioUniforme(p)` picks par1's or par2's
   * gene i, whose copy goes to position i of the child. The run throws at the
   * first draw whose gene cannot be written (`StoppedAt`).
   */
  method DiscriteRecombination(gerador: Gerador, par1: Ser, par2: Ser, nFilhos: int, p: real)
    returns (r: Result<seq<Ser>>, ghost rows: seq<seq<bool>>)
    modifies gerador.counter
    ensures nFilhos < 0 ==> r == Fail(IllegalArgument) && gerador.counter.next == old(gerador.counter.next)
    ensures nFilhos >= 0 ==> gerador.counter.next == old(gerador.counter.next) + nFilhos
    ensures r.Ok? ==> |rows| == |par1.genes| && Drawn(rows, nFilhos, p) && |r.value| == nFilhos && Seqs.Distinct(r.value)
    ensures r.Ok? ==> FitsAll(old(par1.Genome()), old(par2.Genome()), rows, gerador.length)
    ensures r.Ok? && nFilhos > 0 ==> |par1.genes| <= gerador.length
    ensures r.Ok? ==> forall k :: 0 <= k < nFilhos ==> r.value[k].id == old(gerador.counter.next) + k
    ensures r.Ok? ==> forall k :: 0 <= k < nFilhos ==>
                        fresh(r.value[k]) && r.value[k].species == gerador.species && r.value[k].fitness.None? &&
                        r.value[k].Valid() &&
                        r.value[k].Genome() == Padded(Chosen(old(par1.Genome()), old(par2.Genome()), rows, k), gerador.length)
    ensures r.Fail? && nFilhos >= 0 ==>
              StoppedAt(old(par1.Genome()), old(par2.Genome()), rows, nFilhos, p, gerador.length) &&
              r.error in {IndexOutOfBounds, NullPointer, IllegalArgument}
  {
    ghost var g1, g2 := par1.Genome(), par2.Genome();
    rows := [];
    var novos := gerador.GetN(nFilhos);
    if novos.Fail? {
      return Fail(novos.error), rows;
    }
    var filhos := novos.value;
    assert par1.Genome() == g1 && par2.Genome() == g2;
    ConsecutiveIdsDistinct(filhos, old(gerador.counter.next));
    assert forall k :: 0 <= k < |filhos| ==> Holds(filhos[k], [], gerador.length);
    var w;
    w, rows := FillRows(filhos, par1, par2, p, g1, g2, gerador.length);
    if w.Throw? {
      return Fail(w.error), rows;
    }
    return Ok(filhos), rows;
  }

  /** `uniformCrossover(par1, par2)`: discrete recombination into two children with even odds. */
  method UniformCrossover(gerador: Gerador, par1: Ser, par2: Ser) returns (r: Result<seq<Ser>>, ghost rows: seq<seq<bool>>)
    modifies gerador.counter
    ensures gerador.counter.next == old(gerador.counter.next) + 2
    ensures r.Ok? ==> |rows| == |par1.genes| && Drawn(rows, 2, 0.5) && |r.value| == 2 && r.value[0] != r.value[1]
    ensures r.Ok? ==> FitsAll(old(par1.Genome()), old(par2.Genome()), rows, gerador.length)
    ensures r.Ok? ==> |par1.genes| <= gerador.length
    ensures r.Ok? ==> forall k :: 0 <= k < 2 ==>
                        fresh(r.value[k]) && r.value[k].fitness.None? &&
                        r.value[k].Genome() == Padded(Chosen(old(par1.Genome()), old(par2.Genome()), rows, k), gerador.length)
    ensures r.Fail? ==> StoppedAt(old(par1.Genome()), old(par2.Genome()), rows, 2, 0.5, gerador.length)
  {
    r, rows := DiscriteRecombination(gerador, par1, par2, 2, 0.5);
  }
}
