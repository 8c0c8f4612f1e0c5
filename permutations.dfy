/**
 * Permutation individuals (`SerPermutacao`, an integer individual whose gene
 * count is its value range) and the swap mutation (`MutadorPermutacao`).
 */
module Permutations {
  import opened Errors
  import opened Genes
  import opened Beings
  import opened Integers
  import opened Sampling
  import Seqs

  /** `s` with the elements at i and j exchanged. */
  function Swapped<T>(s: seq<T>, i: int, j: int): (r: seq<T>)
    requires 0 <= i < |s| && 0 <= j < |s|
    ensures |r| == |s| && r[i] == s[j] && r[j] == s[i]
    ensures forall k :: 0 <= k < |s| && k != i && k != j ==> r[k] == s[k]
    ensures multiset(r) == multiset(s)
  {
    s[i := s[j]][j := s[i]]
  }

  /** Swapping a position with itself changes nothing. */
  lemma SwapSelf<T>(s: seq<T>, i: int)
    requires 0 <= i < |s|
    ensures Swapped(s, i, i) == s
  {
    assert forall k :: 0 <= k < |s| ==> Swapped(s, i, i)[k] == s[k];
  }

  /** Swapping twice undoes the swap. */
  lemma SwapTwice<T>(s: seq<T>, i: int, j: int)
    requires 0 <= i < |s| && 0 <= j < |s|
    ensures Swapped(Swapped(s, i, j), i, j) == s
  {
    var t := Swapped(s, i, j);
    var u := Swapped(t, i, j);
    forall k | 0 <= k < |s| ensures u[k] == s[k] {
      if k != i && k != j {
        assert u[k] == t[k] == s[k];
      }
    }
  }

  /** The order of the two positions does not matter. */
  lemma SwapSymmetric<T>(s: seq<T>, i: int, j: int)
    requires 0 <= i < |s| && 0 <= j < |s|
    ensures Swapped(s, i, j) == Swapped(s, j, i)
  {
    var t, u := Swapped(s, i, j), Swapped(s, j, i);
    forall k | 0 <= k < |s| ensures t[k] == u[k] {
      if k != i && k != j {
        assert t[k] == s[k] == u[k];
      }
    }
  }

  /** Exchanging two slots exchanges their values in the genome. */
  lemma GenomeOfSwapped(gs: seq<Locus?>, i: int, j: int)
    requires 0 <= i < |gs| && 0 <= j < |gs|
    ensures GenomeOf(Swapped(gs, i, j)) == Swapped(GenomeOf(gs), i, j)
    ensures multiset(GenomeOf(Swapped(gs, i, j))) == multiset(GenomeOf(gs))
  {
    var hs := Swapped(gs, i, j);
    var l, r := GenomeOf(hs), Swapped(GenomeOf(gs), i, j);
    forall k | 0 <= k < |l| ensures l[k] == r[k] {
      SwappedSlot(gs, i, j, k);
    }
    assert l == r;
  }

  lemma SwappedSlot(gs: seq<Locus?>, i: int, j: int, k: int)
    requires 0 <= i < |gs| && 0 <= j < |gs| && 0 <= k < |gs|
    ensures GenomeOf(Swapped(gs, i, j))[k] == Swapped(GenomeOf(gs), i, j)[k]
  {
    var hs := Swapped(gs, i, j);
    var vs := GenomeOf(gs);
    var ws := GenomeOf(hs);
    var src := if k == j then i else if k == i then j else k;
    assert hs[k] == gs[src];
    assert Swapped(vs, i, j)[k] == vs[src];
    assert ws[k] == vs[src];
  }

  /** The integer values of a genome: each non-null slot of an integer or permutation locus. */
  ghost predicate PermutationOf(vs: seq<Option<Value>>, lower: int, count: nat) {
    |vs| == count &&
    (forall k :: 0 <= k < |vs| ==> vs[k].Some? && vs[k].value.Permutation?) &&
    forall v :: lower <= v < lower + count ==> Some(Permutation(v)) in multiset(vs)
  }

  /** A swap keeps a permutation genome a permutation of the same values. */
  lemma SwapKeepsPermutation(gs: seq<Locus?>, i: int, j: int, lower: int, count: nat)
    requires 0 <= i < |gs| && 0 <= j < |gs| && PermutationOf(GenomeOf(gs), lower, count)
    ensures PermutationOf(GenomeOf(Swapped(gs, i, j)), lower, count)
  {
    GenomeOfSwapped(gs, i, j);
    var vs, ws := GenomeOf(gs), GenomeOf(Swapped(gs, i, j));
    forall k | 0 <= k < |ws| ensures ws[k].Some? && ws[k].value.Permutation? {
      if k != i && k != j {
        assert ws[k] == vs[k];
      }
    }
  }

  /**
   * `SerPermutacao(lower, upper)`: `SerInteiro(upper - lower, lower, upper)`,
   * the gene count computed in `int` arithmetic; a count <= 0 fails in
   * `SerFixo` before the bound check of `SerInteiro`.
   */
  method NewSerPermutacao(counter: IdCounter, lower: int, upper: int) returns (r: Result<Ser>)
    requires IsInt32(lower) && IsInt32(upper)
    modifies counter
    ensures counter.next == old(counter.next) + 1
    ensures r.Ok? <==> Wrap32(upper - lower) > 0 && lower <= upper
    ensures r.Fail? ==> r.error == IllegalArgument
    ensures r.Ok? ==> fresh(r.value) && r.value.Unborn(Wrap32(upper - lower))
                      && r.value.species == Bounded(lower, InclusiveUpper(upper))
  {
    r := NewSerInteiro(counter, Wrap32(upper - lower), lower, upper);
  }

  /**
   * A permutation individual that is built has as many positions as its
   * stored inclusive bounds hold values. With upper <= lower the count check
   * fails first, unless the difference wraps to a positive count, which
   * leaves the failure to the bound check; a range wider than `int` makes the
   * count negative.
   */
  lemma PermutationCount(lower: int, upper: int)
    requires IsInt32(lower) && IsInt32(upper)
    ensures Wrap32(upper - lower) > 0 && lower <= upper ==>
              Wrap32(upper - lower) == upper - lower == InclusiveUpper(upper) - lower + 1
    ensures upper <= lower && upper - lower >= MinInt ==> Wrap32(upper - lower) <= 0
    ensures upper - lower < MinInt ==> Wrap32(upper - lower) > 0
    ensures upper - lower > MaxInt ==> Wrap32(upper - lower) < 0
  {
    if lower <= upper && upper - lower > MaxInt {
      assert Wrap32(upper - lower) == upper - lower - 0x1_0000_0000 by {
        WrapDown(upper - lower);
      }
    }
    if upper - lower < MinInt {
      assert Wrap32(upper - lower) == upper - lower + 0x1_0000_0000 by {
        WrapUp(upper - lower);
      }
    }
  }

  lemma WrapDown(x: int)
    requires MaxInt < x <= MaxInt - MinInt
    ensures Wrap32(x) == x - 0x1_0000_0000
  {
    var y := x - 0x1_0000_0000;
    assert IsInt32(y);
    assert (Wrap32(x) - y) % 0x1_0000_0000 == 0;
  }

  lemma WrapUp(x: int)
    requires MinInt - MaxInt <= x < MinInt
    ensures Wrap32(x) == x + 0x1_0000_0000
  {
    var y := x + 0x1_0000_0000;
    assert IsInt32(y);
    assert (Wrap32(x) - y) % 0x1_0000_0000 == 0;
  }

  /** The reads `swap` performs succeed, and both writes will be accepted. */
  ghost predicate Swappable(origem: Ser, i: int, j: int)
    reads origem, LociOf(origem.genes)
  {
    0 <= i < |origem.genes| && 0 <= j < |origem.genes| && origem.fitness.None? &&
    origem.Bindable(origem.genes[i]) && origem.Bindable(origem.genes[j])
  }

  /**
   * `swap(origem, i, j)`: reads genes i and j (a bad index throws), then
   * `setCaracteristica(i, gene j)` and `setCaracteristica(j, gene i)`. When
   * the second write is refused the first one stays done.
   */
  method Swap(origem: Ser, i: int, j: int) returns (r: Outcome)
    modifies origem`genes, LociOf(origem.genes)`owner
    ensures r.Pass? <==> old(Swappable(origem, i, j))
    ensures r.Pass? ==> origem.genes == Swapped(old(origem.genes), i, j)
    ensures r.Pass? ==> origem.genes[i].owner == origem && origem.genes[j].owner == origem
    ensures !(0 <= i < |old(origem.genes)| && 0 <= j < |old(origem.genes)|) ==>
              r == Throw(IndexOutOfBounds) && origem.genes == old(origem.genes)
    ensures origem.fitness.Some? && 0 <= i < |old(origem.genes)| && 0 <= j < |old(origem.genes)| ==>
              r == Throw(IllegalState) && origem.genes == old(origem.genes)
    ensures r.Throw? ==> r.error in {IndexOutOfBounds, IllegalState, NullPointer}
    ensures r == Throw(IndexOutOfBounds) <==> !(0 <= i < |old(origem.genes)| && 0 <= j < |old(origem.genes)|)
    ensures r.Throw? ==> origem.genes == old(origem.genes) || origem.genes == old(origem.genes)[i := old(origem.genes)[j]]
  {
    var cI := origem.GetCaracteristica(i);
    if cI.Fail? {
      return Throw(cI.error);
    }
    var cJ := origem.GetCaracteristica(j);
    if cJ.Fail? {
      return Throw(cJ.error);
    }
    r := origem.SetCaracteristica(i, cJ.value);
    if r.Throw? {
      return;
    }
    r := origem.SetCaracteristica(j, cI.value);
  }

  /**
   * `swapMutation(origem)`: two distinct positions drawn uniformly, then
   * swapped; fewer than two genes throw IllegalArgument.
   */
  method SwapMutation(origem: Ser) returns (r: Outcome, i: int, j: int)
    modifies origem`genes, LociOf(origem.genes)`owner
    ensures |old(origem.genes)| < 2 ==> r == Throw(IllegalArgument) && origem.genes == old(origem.genes)
    ensures r.Pass? ==> 0 <= i < |old(origem.genes)| && 0 <= j < |old(origem.genes)| && i != j
                        && origem.genes == Swapped(old(origem.genes), i, j)
    ensures r.Pass? <==> |old(origem.genes)| >= 2 && old(Swappable(origem, i, j))
    ensures r.Throw? ==> r.error in {IllegalArgument, IllegalState, NullPointer}
  {
    var indices := GetUniformeSerN(origem, 2);
    if indices.Fail? {
      return Throw(IllegalArgument), 0, 0;
    }
    i, j := indices.value[0], indices.value[1];
    assert indices.value[0] != indices.value[1] by {
      assert Seqs.Distinct(indices.value);
    }
    r := Swap(origem, i, j);
  }
}
