/**
 * Partially mapped crossover (`PMX`): the cut-point configuration of the
 * recombiner, and `pmxParcial`, which copies one parent's segment into the
 * child, relocates the other parent's displaced segment values along the
 * mapping chains, and fills the remaining positions from the other parent.
 *
 * The algorithm is stated over the parents' value lists (`Cross`); the gene
 * level copies the parents' loci and stores the copies the algorithm picks.
 */
module Pmx {
  import opened Errors
  import opened Genes
  import opened Beings
  import opened Sampling
  import Operators
  import Seqs

  /** Two lists PMX can cross: the same values, each once, in any order. */
  ghost predicate SamePermutation<T>(p1: seq<T>, p2: seq<T>) {
    |p1| == |p2| && Seqs.Distinct(p1) && Seqs.Distinct(p2) && multiset(p1) == multiset(p2)
  }

  /**
   * A crossover: parent values `p1` (whose segment is kept) and `p2`, and the
   * segment [lo, hi) — `pmxParcial`'s cut points c1 and c2 are lo = c1 and
   * hi = c2 + 1.
   */
  datatype Cross<T(==)> = Cross(p1: seq<T>, p2: seq<T>, lo: int, hi: int) {

    ghost predicate Valid() {
      SamePermutation(p1, p2) && 0 <= lo <= hi <= |p1|
    }

    predicate InSegment(k: int) {
      lo <= k < hi
    }

    /** One chain step: where `p2` holds the value `p1` holds at k (`NextIsIndexOf`). */
    ghost function Next(k: int): (r: int)
      requires Valid() && 0 <= k < |p1|
      ensures 0 <= r < |p2| && p2[r] == p1[k]
    {
      assert p1[k] in multiset(p2);
      var r :| 0 <= r < |p2| && p2[r] == p1[k]; r
    }

    /** The position reached from `s` after t chain steps. */
    ghost function Follow(s: int, t: nat): (r: int)
      requires Valid() && 0 <= s < |p1|
      ensures 0 <= r < |p1|
    {
      if t == 0 then s else Next(Follow(s, t - 1))
    }

    /** The first t positions of the chain from `s` lie in the segment. */
    ghost predicate Inside(s: int, t: nat)
      requires Valid() && 0 <= s < |p1|
    {
      forall d :: 0 <= d < t ==> InSegment(Follow(s, d))
    }

    /** The chain from `s` leaves the segment for the first time at step t. */
    ghost predicate Exits(s: int, t: nat)
      requires Valid() && 0 <= s < |p1|
    {
      Inside(s, t) && !InSegment(Follow(s, t))
    }

    /** A segment position of `p2` whose value is missing from `p1`'s segment. */
    predicate Start(s: int)
      requires Valid()
    {
      InSegment(s) && p2[s] !in p1[lo..hi]
    }

    /** A position outside the segment where some chain ends. */
    ghost predicate IsExit(q: int)
      requires Valid()
    {
      exists s, t: nat :: Start(s) && Exits(s, t) && Follow(s, t) == q
    }
  }

  /** A value of `p1` sits in `p1`'s segment exactly when its position does. */
  lemma SegmentMember<T>(c: Cross<T>, k: int)
    requires c.Valid() && 0 <= k < |c.p1|
    ensures c.p1[k] in c.p1[c.lo..c.hi] <==> c.InSegment(k)
  {
    if c.p1[k] in c.p1[c.lo..c.hi] {
      var e :| 0 <= e < c.hi - c.lo && c.p1[c.lo..c.hi][e] == c.p1[k];
      assert c.p1[c.lo + e] == c.p1[k];
    }
    if c.InSegment(k) {
      assert c.p1[c.lo..c.hi][k - c.lo] == c.p1[k];
    }
  }

  /** The chain step is the `indexOf` lookup `pmxParcial` performs. */
  lemma NextIsIndexOf<T>(c: Cross<T>, k: int)
    requires c.Valid() && 0 <= k < |c.p1|
    ensures Seqs.IndexOf(c.p2, c.p1[k]) == c.Next(k)
  {
    assert c.p1[k] in multiset(c.p2);
    var j := Seqs.IndexOf(c.p2, c.p1[k]);
    assert c.p2[j] == c.p2[c.Next(k)];
  }

  lemma NextInjective<T>(c: Cross<T>, k: int, j: int)
    requires c.Valid() && 0 <= k < |c.p1| && 0 <= j < |c.p1|
    requires c.Next(k) == c.Next(j)
    ensures k == j
  {
    assert c.p1[k] == c.p2[c.Next(k)] == c.p1[j];
  }

  /** A chain step out of the segment lands on a position holding a segment value of `p1`. */
  lemma StepFromSegment<T>(c: Cross<T>, s: int, t: nat)
    requires c.Valid() && 0 <= s < |c.p1| && t > 0 && c.Inside(s, t)
    ensures c.p2[c.Follow(s, t)] in c.p1[c.lo..c.hi]
  {
    var k := c.Follow(s, t - 1);
    assert c.InSegment(k);
    SegmentMember(c, k);
  }

  /** No chain step from inside the segment returns to a start. */
  lemma StartNotReached<T>(c: Cross<T>, s: int, s': int, t': nat)
    requires c.Valid() && c.Start(s) && 0 <= s' < |c.p1| && t' > 0 && c.Inside(s', t')
    ensures c.Follow(s', t') != s
  {
    StepFromSegment(c, s', t');
  }

  /**
   * Two chains from starts that stay in the segment and meet at a position
   * are the same chain at the same step. This is what keeps a later chain
   * from running into a slot an earlier chain filled.
   */
  lemma {:induction false} ChainsMeet<T>(c: Cross<T>, s: int, t: nat, s': int, t': nat)
    requires c.Valid() && c.Start(s) && c.Start(s')
    requires c.Inside(s, t) && c.Inside(s', t')
    requires c.Follow(s, t) == c.Follow(s', t')
    ensures s == s' && t == t'
    decreases t
  {
    if t == 0 {
      if t' > 0 {
        StartNotReached(c, s, s', t');
      }
    } else if t' == 0 {
      StartNotReached(c, s', s, t);
    } else {
      StepBack(c, s, t, s', t');
      ChainsMeet(c, s, t - 1, s', t' - 1);
    }
  }

  /** Two chains meeting after a step inside the segment met one step earlier. */
  lemma StepBack<T>(c: Cross<T>, s: int, t: nat, s': int, t': nat)
    requires c.Valid() && 0 <= s < |c.p1| && 0 <= s' < |c.p1| && t > 0 && t' > 0
    requires c.Inside(s, t) && c.Inside(s', t') && c.Follow(s, t) == c.Follow(s', t')
    ensures c.Follow(s, t - 1) == c.Follow(s', t' - 1)
    ensures c.Inside(s, t - 1) && c.Inside(s', t' - 1)
  {
    NextInjective(c, c.Follow(s, t - 1), c.Follow(s', t' - 1));
  }

  /** A chain from a start stays in the segment for at most hi - lo steps. */
  lemma ChainBound<T>(c: Cross<T>, s: int, t: nat)
    requires c.Valid() && c.Start(s) && c.Inside(s, t)
    ensures t <= c.hi - c.lo
  {
    var visited := seq(t, d requires 0 <= d < t => c.Follow(s, d));
    forall d, e | 0 <= d < e < t ensures visited[d] != visited[e] {
      if visited[d] == visited[e] {
        ChainsMeet(c, s, d, s, e);
      }
    }
    Seqs.DistinctInRangeBound(visited, c.lo, c.hi - 1);
  }

  /** The step at which a chain first leaves the segment is unique. */
  lemma ExitUnique<T>(c: Cross<T>, s: int, t: nat, t': nat)
    requires c.Valid() && 0 <= s < |c.p1| && c.Exits(s, t) && c.Exits(s, t')
    ensures t == t'
  {
  }

  /**
   * The child `pmxParcial` builds, as the position each slot is copied from:
   * segment slots from `p1`, every other slot from `p2`.
   */
  function Assemble<T>(x1: seq<T>, x2: seq<T>, lo: int, hi: int, pick: seq<int>): (r: seq<T>)
    requires |x1| == |pick| && |x2| == |pick|
    requires forall k :: 0 <= k < |pick| ==> 0 <= pick[k] < |pick|
    ensures |r| == |pick|
    ensures forall k :: 0 <= k < |pick| ==> r[k] == if lo <= k < hi then x1[pick[k]] else x2[pick[k]]
  {
    seq(|pick|, k requires 0 <= k < |pick| => if lo <= k < hi then x1[pick[k]] else x2[pick[k]])
  }

  /**
   * What `pmxParcial` stores, slot by slot: `p1`'s segment in place; each
   * start's `p2` value at the exit of its chain; `p2`'s own value in every
   * other slot.
   */
  ghost predicate Placed<T>(c: Cross<T>, pick: seq<int>)
    requires c.Valid()
  {
    |pick| == |c.p1| &&
    (forall k :: 0 <= k < |pick| ==> 0 <= pick[k] < |pick|) &&
    (forall k :: c.InSegment(k) ==> pick[k] == k) &&
    (forall s :: c.Start(s) ==> exists t: nat :: c.Exits(s, t) && pick[c.Follow(s, t)] == s) &&
    (forall q :: 0 <= q < |pick| && !c.InSegment(q) && !c.IsExit(q) ==> pick[q] == q)
  }

  function Child<T>(c: Cross<T>, pick: seq<int>): (r: seq<T>)
    requires c.Valid() && Placed(c, pick)
  {
    Assemble(c.p1, c.p2, c.lo, c.hi, pick)
  }

  /** `child` is the PMX child of `p1` and `p2` with segment [lo, hi), its other slots placed by `pick`. */
  ghost predicate PmxChild<T>(p1: seq<T>, p2: seq<T>, lo: int, hi: int, pick: seq<int>, child: seq<T>) {
    var c := Cross(p1, p2, lo, hi);
    c.Valid() && Placed(c, pick) && child == Child(c, pick)
  }

  /** A PMX child is a permutation of both parents' values. */
  lemma PmxChildIsPermutation<T>(p1: seq<T>, p2: seq<T>, lo: int, hi: int, pick: seq<int>, child: seq<T>)
    requires PmxChild(p1, p2, lo, hi, pick, child)
    ensures SamePermutation(child, p1) && SamePermutation(child, p2)
  {
    ChildIsPermutation(Cross(p1, p2, lo, hi), pick);
  }

  /** The slot choice of a PMX child is determined by its parents and cuts. */
  lemma PmxChildUnique<T>(p1: seq<T>, p2: seq<T>, lo: int, hi: int, x: seq<int>, cx: seq<T>, y: seq<int>, cy: seq<T>)
    requires PmxChild(p1, p2, lo, hi, x, cx) && PmxChild(p1, p2, lo, hi, y, cy)
    ensures x == y && cx == cy
  {
    PlacedUnique(Cross(p1, p2, lo, hi), x, y);
  }

  /** A value of `p2` missing from `p1`'s segment, at a start, reaches the child at its chain's exit. */
  lemma CoveredByChain<T>(c: Cross<T>, pick: seq<int>, j: int)
    requires c.Valid() && Placed(c, pick) && c.Start(j)
    ensures c.p2[j] in Child(c, pick)
  {
    var t: nat :| c.Exits(j, t) && pick[c.Follow(j, t)] == j;
    var q := c.Follow(j, t);
    assert Child(c, pick)[q] == c.p2[j];
  }

  /** Outside the segment, a `p2` value missing from `p1`'s segment stays where `p2` has it. */
  lemma CoveredInPlace<T>(c: Cross<T>, pick: seq<int>, j: int)
    requires c.Valid() && Placed(c, pick) && 0 <= j < |c.p2| && !c.InSegment(j)
    requires c.p2[j] !in c.p1[c.lo..c.hi]
    ensures c.p2[j] in Child(c, pick)
  {
    if c.IsExit(j) {
      var s, t: nat :| c.Start(s) && c.Exits(s, t) && c.Follow(s, t) == j;
      StepFromSegment(c, s, t);
      assert false;
    }
    assert Child(c, pick)[j] == c.p2[j];
  }

  /** Every value of `p1` reaches the child, so the child is a permutation of the parents. */
  lemma ChildIsPermutation<T>(c: Cross<T>, pick: seq<int>)
    requires c.Valid() && Placed(c, pick)
    ensures Seqs.Distinct(Child(c, pick))
    ensures multiset(Child(c, pick)) == multiset(c.p1) == multiset(c.p2)
  {
    var child := Child(c, pick);
    forall x | x in c.p1 ensures x in child {
      var k := Seqs.IndexOf(c.p1, x);
      if c.InSegment(k) {
        assert child[k] == x;
      } else {
        assert x in multiset(c.p2);
        var j := Seqs.IndexOf(c.p2, x);
        SegmentMember(c, k);
        if c.InSegment(j) {
          CoveredByChain(c, pick, j);
        } else {
          CoveredInPlace(c, pick, j);
        }
      }
    }
    Seqs.PermutationByCover(child, c.p1);
  }

  /** `Placed` fixes the child completely: there is one PMX child per crossover. */
  lemma PlacedUnique<T>(c: Cross<T>, x: seq<int>, y: seq<int>)
    requires c.Valid() && Placed(c, x) && Placed(c, y)
    ensures x == y
  {
    forall q | 0 <= q < |x| ensures x[q] == y[q] {
      if !c.InSegment(q) && c.IsExit(q) {
        var s, t: nat :| c.Start(s) && c.Exits(s, t) && c.Follow(s, t) == q;
        var tx: nat :| c.Exits(s, tx) && x[c.Follow(s, tx)] == s;
        var ty: nat :| c.Exits(s, ty) && y[c.Follow(s, ty)] == s;
        ExitUnique(c, s, t, tx);
        ExitUnique(c, s, t, ty);
      }
    }
  }

  /** `nextClearBit(0)` on a bit set of |s| bits: the first clear bit, or |s| when all are set. */
  function FirstClear(s: seq<bool>): (k: nat)
    ensures k <= |s| && (k < |s| ==> !s[k])
    ensures forall j :: 0 <= j < k ==> s[j]
  {
    if s == [] || !s[0] then 0 else 1 + FirstClear(s[1..])
  }

  /**
   * The state of `pmxParcial` after the chain walks of the first i segment
   * positions: `used` is the bit set, `pick` the slots written so far (-1 for
   * a slot still as the generator left it), and for each walked position
   * d its chain's exit `ends[d]`, reached after `steps[d]` steps (-1 for a
   * position that is not a start).
   */
  ghost predicate ChainState<T>(c: Cross<T>, i: int, used: seq<bool>, pick: seq<int>, ends: seq<int>, steps: seq<nat>)
    requires c.Valid()
  {
    0 <= i <= c.hi - c.lo && |used| == |c.p1| && |pick| == |c.p1| && |ends| == i && |steps| == i &&
    (forall j :: 0 <= j < |used| ==> (used[j] <==> c.InSegment(j) || j in ends)) &&
    (forall d :: 0 <= d < i ==>
       if c.Start(c.lo + d) then
         c.Exits(c.lo + d, steps[d]) && ends[d] == c.Follow(c.lo + d, steps[d]) && pick[ends[d]] == c.lo + d
       else ends[d] == -1) &&
    (forall k :: c.InSegment(k) ==> pick[k] == k) &&
    (forall q :: 0 <= q < |pick| && !c.InSegment(q) && q !in ends ==> pick[q] == -1)
  }

  /** The chain of a new start never runs into the exit of an earlier one. */
  lemma FreshChain<T>(c: Cross<T>, i: int, used: seq<bool>, pick: seq<int>, ends: seq<int>, steps: seq<nat>, t: nat)
    requires c.Valid() && ChainState(c, i, used, pick, ends, steps) && i < c.hi - c.lo
    requires c.Start(c.lo + i) && c.Inside(c.lo + i, t)
    ensures c.Follow(c.lo + i, t) !in ends
  {
    forall d | 0 <= d < i ensures ends[d] != c.Follow(c.lo + i, t) {
      if c.Start(c.lo + d) && ends[d] == c.Follow(c.lo + i, t) {
        ChainsMeet(c, c.lo + i, t, c.lo + d, steps[d]);
      }
    }
  }

  /** Writing a start's value at its chain's exit. */
  lemma ChainStep<T>(c: Cross<T>, i: int, used: seq<bool>, pick: seq<int>, ends: seq<int>, steps: seq<nat>, t: nat)
    requires c.Valid() && ChainState(c, i, used, pick, ends, steps) && i < c.hi - c.lo
    requires c.Start(c.lo + i) && c.Exits(c.lo + i, t) && c.Follow(c.lo + i, t) !in ends
    ensures ChainState(c, i + 1, used[c.Follow(c.lo + i, t) := true], pick[c.Follow(c.lo + i, t) := c.lo + i],
                       ends + [c.Follow(c.lo + i, t)], steps + [t])
  {
  }

  /** A segment position whose value `p1`'s segment already holds is passed over. */
  lemma ChainSkip<T>(c: Cross<T>, i: int, used: seq<bool>, pick: seq<int>, ends: seq<int>, steps: seq<nat>)
    requires c.Valid() && ChainState(c, i, used, pick, ends, steps) && i < c.hi - c.lo
    requires !c.Start(c.lo + i)
    ensures ChainState(c, i + 1, used, pick, ends + [-1], steps + [0])
  {
  }

  /** The state of the final loop: the chain walks done, some clear slots filled from `p2`. */
  ghost predicate FillState<T>(c: Cross<T>, used: seq<bool>, pick: seq<int>, ends: seq<int>, steps: seq<nat>)
    requires c.Valid()
  {
    var i := c.hi - c.lo;
    |used| == |c.p1| && |pick| == |c.p1| && |ends| == i && |steps| == i &&
    (forall j :: 0 <= j < |used| && (c.InSegment(j) || j in ends) ==> used[j]) &&
    (forall d :: 0 <= d < i ==>
       if c.Start(c.lo + d) then
         c.Exits(c.lo + d, steps[d]) && ends[d] == c.Follow(c.lo + d, steps[d]) && pick[ends[d]] == c.lo + d
       else ends[d] == -1) &&
    (forall k :: c.InSegment(k) ==> pick[k] == k) &&
    (forall q :: 0 <= q < |pick| && !c.InSegment(q) && q !in ends ==> pick[q] == if used[q] then q else -1)
  }

  lemma ChainsDone<T>(c: Cross<T>, used: seq<bool>, pick: seq<int>, ends: seq<int>, steps: seq<nat>)
    requires c.Valid() && ChainState(c, c.hi - c.lo, used, pick, ends, steps)
    ensures FillState(c, used, pick, ends, steps)
  {
  }

  /** Filling the first clear slot with `p2`'s value at that slot. */
  lemma FillStep<T>(c: Cross<T>, used: seq<bool>, pick: seq<int>, ends: seq<int>, steps: seq<nat>)
    requires c.Valid() && FillState(c, used, pick, ends, steps) && FirstClear(used) < |used|
    ensures FillState(c, used[FirstClear(used) := true], pick[FirstClear(used) := FirstClear(used)], ends, steps)
    ensures FirstClear(used[FirstClear(used) := true]) > FirstClear(used)
  {
    var k := FirstClear(used);
    var used', pick' := used[k := true], pick[k := k];
    assert !c.InSegment(k) && k !in ends;
    forall d | 0 <= d < c.hi - c.lo && c.Start(c.lo + d) ensures pick'[ends[d]] == c.lo + d {
      assert ends[d] != k;
    }
    forall q | 0 <= q < |pick'| && !c.InSegment(q) && q !in ends
      ensures pick'[q] == if used'[q] then q else -1
    {
      if q != k {
        assert pick'[q] == pick[q] && used'[q] == used[q];
      }
    }
    FirstClearAdvances(used);
  }

  /** Setting the lowest clear bit moves the lowest clear bit up. */
  lemma FirstClearAdvances(used: seq<bool>)
    requires FirstClear(used) < |used|
    ensures FirstClear(used[FirstClear(used) := true]) > FirstClear(used)
  {
    var k := FirstClear(used);
    var used' := used[k := true];
    assert forall j :: 0 <= j <= k ==> used'[j];
  }

  /** With every slot taken, the slots written are exactly `Placed`. */
  lemma FillDone<T>(c: Cross<T>, used: seq<bool>, pick: seq<int>, ends: seq<int>, steps: seq<nat>)
    requires c.Valid() && FillState(c, used, pick, ends, steps) && FirstClear(used) == |used|
    ensures Placed(c, pick)
  {
    FillDoneRange(c, used, pick, ends, steps);
    FillDoneStarts(c, used, pick, ends, steps);
    FillDoneRest(c, used, pick, ends, steps);
  }

  lemma FillDoneRange<T>(c: Cross<T>, used: seq<bool>, pick: seq<int>, ends: seq<int>, steps: seq<nat>)
    requires c.Valid() && FillState(c, used, pick, ends, steps) && FirstClear(used) == |used|
    ensures forall k :: 0 <= k < |pick| ==> 0 <= pick[k] < |pick|
  {
    forall k | 0 <= k < |pick| ensures 0 <= pick[k] < |pick| {
      if !c.InSegment(k) && k in ends {
        var d :| 0 <= d < |ends| && ends[d] == k;
        assert c.Start(c.lo + d);
      }
    }
  }

  lemma FillDoneStarts<T>(c: Cross<T>, used: seq<bool>, pick: seq<int>, ends: seq<int>, steps: seq<nat>)
    requires c.Valid() && FillState(c, used, pick, ends, steps)
    ensures forall s :: c.Start(s) ==> exists t: nat :: c.Exits(s, t) && pick[c.Follow(s, t)] == s
  {
    forall s | c.Start(s) ensures exists t: nat :: c.Exits(s, t) && pick[c.Follow(s, t)] == s {
      var d := s - c.lo;
      assert c.Start(c.lo + d) && c.lo + d == s;
      assert c.Exits(s, steps[d]) && pick[c.Follow(s, steps[d])] == s;
    }
  }

  lemma FillDoneRest<T>(c: Cross<T>, used: seq<bool>, pick: seq<int>, ends: seq<int>, steps: seq<nat>)
    requires c.Valid() && FillState(c, used, pick, ends, steps) && FirstClear(used) == |used|
    ensures forall q :: 0 <= q < |pick| && !c.InSegment(q) && !c.IsExit(q) ==> pick[q] == q
  {
    EndsAreExits(c, used, pick, ends, steps);
    forall q | 0 <= q < |pick| && !c.InSegment(q) && !c.IsExit(q) ensures pick[q] == q {
      assert q !in ends;
    }
  }

  /** Every position recorded in `ends` is where a chain leaves the segment. */
  lemma EndsAreExits<T>(c: Cross<T>, used: seq<bool>, pick: seq<int>, ends: seq<int>, steps: seq<nat>)
    requires c.Valid() && FillState(c, used, pick, ends, steps)
    ensures forall q :: 0 <= q && q in ends ==> c.IsExit(q)
  {
    forall q | 0 <= q && q in ends ensures c.IsExit(q) {
      var d :| 0 <= d < |ends| && ends[d] == q;
      assert c.Start(c.lo + d);
      assert c.Exits(c.lo + d, steps[d]) && c.Follow(c.lo + d, steps[d]) == q;
    }
  }

  /**
   * The slot-level algorithm of `pmxParcial`: the bit set `usados` marks the
   * segment, each start's chain is walked with `indexOf` until it reaches a
   * clear bit, and then every clear bit, lowest first, takes `p2`'s slot.
   */
  method PmxSlots<T(==)>(c: Cross<T>) returns (pick: seq<int>)
    requires c.Valid()
    ensures Placed(c, pick)
  {
    var n := |c.p1|;
    var usados := new bool[n](_ => false);
    pick := seq(n, k => if c.lo <= k < c.hi then k else -1);
    forall k | c.lo <= k < c.hi {
      usados[k] := true;
    }
    ghost var ends, steps;
    pick, ends, steps := WalkChains(c, usados, pick);
    ChainsDone(c, usados[..], pick, ends, steps);
    pick := FillClear(c, usados, pick, ends, steps);
  }

  /** The `for` loop of `pmxParcial`: one chain walk for each start of the segment, in order. */
  method WalkChains<T(==)>(c: Cross<T>, usados: array<bool>, pick0: seq<int>)
    returns (pick: seq<int>, ghost ends: seq<int>, ghost steps: seq<nat>)
    requires c.Valid() && ChainState(c, 0, usados[..], pick0, [], [])
    modifies usados
    ensures ChainState(c, c.hi - c.lo, usados[..], pick, ends, steps)
  {
    pick, ends, steps := pick0, [], [];
    var i := 0;
    while i < c.hi - c.lo
      invariant ChainState(c, i, usados[..], pick, ends, steps)
    {
      if c.p2[c.lo + i] !in c.p1[c.lo..c.hi] {
        var index, t := WalkChain(c, usados, i, pick, ends, steps);
        ghost var used := usados[..];
        ChainStep(c, i, used, pick, ends, steps, t);
        pick := pick[index := c.lo + i];
        usados[index] := true;
        assert usados[..] == used[index := true];
        ends := ends + [index];
        steps := steps + [t];
      } else {
        ChainSkip(c, i, usados[..], pick, ends, steps);
        ends := ends + [-1];
        steps := steps + [0];
      }
      i := i + 1;
    }
  }

  /** The `while` loop of one chain walk: `indexOf` steps from the start until a clear bit. */
  method WalkChain<T(==)>(c: Cross<T>, usados: array<bool>, i: int, ghost pick: seq<int>, ghost ends: seq<int>, ghost steps: seq<nat>)
    returns (index: int, ghost t: nat)
    requires c.Valid() && ChainState(c, i, usados[..], pick, ends, steps) && i < c.hi - c.lo
    requires c.Start(c.lo + i)
    ensures c.Exits(c.lo + i, t) && index == c.Follow(c.lo + i, t) && index !in ends
  {
    ghost var used := usados[..];
    index := c.lo + i;
    t := 0;
    FreshChain(c, i, used, pick, ends, steps, 0);
    while usados[index]
      invariant 0 <= index < usados.Length && index == c.Follow(c.lo + i, t) && c.Inside(c.lo + i, t)
      invariant index !in ends
      decreases c.hi - c.lo - t
    {
      ChainAdvance(c, i, used, pick, ends, steps, t);
      index := Seqs.IndexOf(c.p2, c.p1[index]);
      t := t + 1;
    }
    assert !used[index];
  }

  /**
   * One `indexOf` step of a chain walk from a set bit off the recorded exits:
   * that bit is a segment position, so the walk stays within its bound and
   * does not reach a recorded exit.
   */
  lemma ChainAdvance<T>(c: Cross<T>, i: int, used: seq<bool>, pick: seq<int>, ends: seq<int>, steps: seq<nat>, t: nat)
    requires c.Valid() && ChainState(c, i, used, pick, ends, steps) && i < c.hi - c.lo
    requires c.Start(c.lo + i) && c.Inside(c.lo + i, t)
    requires used[c.Follow(c.lo + i, t)] && c.Follow(c.lo + i, t) !in ends
    ensures c.Inside(c.lo + i, t + 1) && t + 1 <= c.hi - c.lo
    ensures Seqs.IndexOf(c.p2, c.p1[c.Follow(c.lo + i, t)]) == c.Follow(c.lo + i, t + 1)
    ensures c.Follow(c.lo + i, t + 1) !in ends
  {
    var index := c.Follow(c.lo + i, t);
    UsedOffChain(c, i, used, pick, ends, steps, index);
    ChainExtends(c, c.lo + i, t);
    FreshChain(c, i, used, pick, ends, steps, t + 1);
  }

  /** A set bit off the recorded exits is a segment position. */
  lemma UsedOffChain<T>(c: Cross<T>, i: int, used: seq<bool>, pick: seq<int>, ends: seq<int>, steps: seq<nat>, q: int)
    requires c.Valid() && ChainState(c, i, used, pick, ends, steps)
    requires 0 <= q < |used| && used[q] && q !in ends
    ensures c.InSegment(q)
  {
  }

  /** A chain from a start still inside the segment takes one more `indexOf` step, within its bound. */
  lemma ChainExtends<T>(c: Cross<T>, s: int, t: nat)
    requires c.Valid() && c.Start(s) && c.Inside(s, t) && c.InSegment(c.Follow(s, t))
    ensures c.Inside(s, t + 1) && t + 1 <= c.hi - c.lo
    ensures Seqs.IndexOf(c.p2, c.p1[c.Follow(s, t)]) == c.Follow(s, t + 1)
  {
    assert c.Inside(s, t + 1);
    ChainBound(c, s, t + 1);
    NextIsIndexOf(c, c.Follow(s, t));
  }

  /** The final `while` loop of `pmxParcial`: the lowest clear bit takes `p2`'s slot until none is left. */
  method FillClear<T(==)>(c: Cross<T>, usados: array<bool>, pick0: seq<int>, ghost ends: seq<int>, ghost steps: seq<nat>)
    returns (pick: seq<int>)
    requires c.Valid() && FillState(c, usados[..], pick0, ends, steps)
    modifies usados
    ensures Placed(c, pick)
  {
    pick := pick0;
    while FirstClear(usados[..]) < usados.Length
      invariant FillState(c, usados[..], pick, ends, steps)
      decreases usados.Length - FirstClear(usados[..])
    {
      var index := FirstClear(usados[..]);
      ghost var used := usados[..];
      FillStep(c, used, pick, ends, steps);
      pick := pick[index := index];
      usados[index] := true;
      assert usados[..] == used[index := true];
    }
    FillDone(c, usados[..], pick, ends, steps);
  }

  /** `subList(from, to)` of a list of `size` elements: the range checks of `ArrayList`. */
  function SubListCheck(from: int, to: int, size: int): (r: Outcome)
    ensures r.Pass? <==> 0 <= from <= to <= size
    ensures r.Throw? ==> r.error == if from < 0 || to > size then IndexOutOfBounds else IllegalArgument
  {
    if from < 0 || to > size then Throw(IndexOutOfBounds)
    else if from > to then Throw(IllegalArgument)
    else Pass
  }

  /** Every slot of a genome holds a locus `copia` accepts. */
  predicate CopyableGenome(vs: seq<Option<Value>>) {
    forall k :: 0 <= k < |vs| ==> vs[k].Some? && Copyable(vs[k].value)
  }

  lemma GenomeOfAssemble(x1: seq<Locus>, x2: seq<Locus>, lo: int, hi: int, pick: seq<int>)
    requires |x1| == |pick| && |x2| == |pick|
    requires forall k :: 0 <= k < |pick| ==> 0 <= pick[k] < |pick|
    ensures GenomeOf(Assemble(x1, x2, lo, hi, pick)) == Assemble(GenomeOf(x1), GenomeOf(x2), lo, hi, pick)
  {
    var l, r := GenomeOf(Assemble(x1, x2, lo, hi, pick)), Assemble(GenomeOf(x1), GenomeOf(x2), lo, hi, pick);
    assert |l| == |r|;
    forall k | 0 <= k < |l| ensures l[k] == r[k] { }
  }

  /** `PMX`: a two-partner recombiner with optional limits on the cut points. */
  class PMX {
    const base: Operators.Recombinador
    var limitado: bool
    var fixado: bool
    var limitesAtivos: bool
    var limiteInferiorCross: int
    var limiteSuperiorCross: int

    /** Limits are active only once set, and set limits are ordered `int`s from 0 up. */
    ghost predicate Valid()
      reads this
    {
      (limitesAtivos ==> limitado) &&
      IsInt32(limiteInferiorCross) && IsInt32(limiteSuperiorCross) &&
      (limitado ==> 0 <= limiteInferiorCross <= limiteSuperiorCross)
    }

    constructor (b: Operators.Recombinador)
      ensures base == b && !limitado && !fixado && !limitesAtivos
      ensures limiteInferiorCross == 0 && limiteSuperiorCross == 0 && Valid()
    {
      base := b;
      limitado, fixado, limitesAtivos := false, false, false;
      limiteInferiorCross, limiteSuperiorCross := 0, 0;
    }

    /**
     * `setLimites(lo, hi, fixa)`: a negative lower limit or an upper limit
     * below it is refused and changes nothing; otherwise the limits are
     * stored, `fixa` decides whether they are the cut points themselves, and
     * they are activated.
     */
    method SetLimites(lo: int, hi: int, fixaPosicoes: bool) returns (r: Outcome)
      requires Valid() && IsInt32(lo) && IsInt32(hi)
      modifies this`limitado, this`fixado, this`limitesAtivos, this`limiteInferiorCross, this`limiteSuperiorCross
      ensures Valid()
      ensures r.Pass? <==> 0 <= lo <= hi
      ensures r.Throw? ==> r.error == IllegalArgument
      ensures r.Pass? ==> limiteInferiorCross == lo && limiteSuperiorCross == hi && limitado
                          && fixado == fixaPosicoes && limitesAtivos
      ensures r.Throw? ==> limitado == old(limitado) && fixado == old(fixado) && limitesAtivos == old(limitesAtivos)
                           && limiteInferiorCross == old(limiteInferiorCross)
                           && limiteSuperiorCross == old(limiteSuperiorCross)
    {
      if lo < 0 {
        return Throw(IllegalArgument);
      }
      if lo > hi {
        return Throw(IllegalArgument);
      }
      limiteInferiorCross := lo;
      limiteSuperiorCross := hi;
      limitado := true;
      fixado := fixaPosicoes;
      r := AtivaLimites();
    }

    /** `desativaLimites`: the limits stay stored, only inactive. */
    method DesativaLimites()
      requires Valid()
      modifies this`limitesAtivos
      ensures Valid() && !limitesAtivos
    {
      limitesAtivos := false;
    }

    /** `ativaLimites`: refused while no limits were ever set. */
    method AtivaLimites() returns (r: Outcome)
      requires Valid()
      modifies this`limitesAtivos
      ensures Valid()
      ensures r.Pass? <==> limitado
      ensures r.Throw? ==> r.error == IllegalState
      ensures limitesAtivos == (old(limitesAtivos) || limitado)
    {
      if !limitado {
        return Throw(IllegalState);
      }
      limitesAtivos := true;
      return Pass;
    }

    /**
     * `posicoesDeCrossover(par)`: the stored limits when they are active and
     * fixed (or equal); two distinct sorted positions drawn between them when
     * they are active; two distinct sorted positions of `par` otherwise.
     */
    method PosicoesDeCrossover(par: Ser) returns (r: Result<(int, int)>)
      requires Valid()
      ensures limitado && limitesAtivos && (fixado || limiteInferiorCross == limiteSuperiorCross) ==>
                r == Ok((limiteInferiorCross, limiteSuperiorCross))
      ensures limitado && limitesAtivos && !fixado && limiteInferiorCross != limiteSuperiorCross ==>
                (r.Ok? <==> limiteSuperiorCross < |par.genes|) &&
                (r.Ok? ==> limiteInferiorCross <= r.value.0 < r.value.1 <= limiteSuperiorCross)
      ensures !(limitado && limitesAtivos) ==>
                (r.Ok? <==> |par.genes| >= 2) && (r.Ok? ==> 0 <= r.value.0 < r.value.1 < |par.genes|)
      ensures r.Ok? && |par.genes| <= MaxInt ==> IsInt32(r.value.0) && IsInt32(r.value.1)
      ensures r.Fail? ==> r.error == IllegalArgument
    {
      var crossover: Result<seq<int>>;
      if limitado && limitesAtivos {
        if fixado || limiteInferiorCross == limiteSuperiorCross {
          return Ok((limiteInferiorCross, limiteSuperiorCross));
        }
        crossover := GetUniformeSerNRange(par, 2, limiteInferiorCross, limiteSuperiorCross);
      } else {
        crossover := GetUniformeSerN(par, 2);
      }
      if crossover.Fail? {
        return Fail(crossover.error);
      }
      var a, b := crossover.value[0], crossover.value[1];
      assert a != b by {
        assert Seqs.Distinct(crossover.value);
      }
      r := if a < b then Ok((a, b)) else Ok((b, a));
    }

    /**
     * `recombina(pares)`: the first two of `pares` are the parents; one pair
     * of cut points, drawn from the first parent, serves both children, the
     * first from (par1, par2) and the second with the roles exchanged.
     * `filho1` and `filho2` are the generator's two new individuals.
     */
    method Recombina(pares: seq<Ser>, filho1: Ser, filho2: Ser) returns (r: Outcome, cuts: (int, int), ghost pick1: seq<int>, ghost pick2: seq<int>)
      requires Valid()
      requires |pares| >= 2 ==> SamePermutation(pares[0].Genome(), pares[1].Genome())
      requires filho1 != filho2 && filho1 !in pares && filho2 !in pares
      requires filho1.fitness.None? && filho2.fitness.None?
      requires |pares| >= 2 ==> |filho1.genes| == |pares[0].genes| && |filho2.genes| == |pares[1].genes|
      requires |pares| >= 2 ==> |pares[0].genes| <= MaxInt
      modifies filho1`genes, filho2`genes
      ensures |pares| < 2 ==> r == Throw(IndexOutOfBounds)
      ensures r.Throw? && |pares| < 2 ==> filho1.genes == old(filho1.genes) && filho2.genes == old(filho2.genes)
      ensures |pares| >= 2 && !(limitado && limitesAtivos) && |pares[0].genes| < 2 ==> r == Throw(IllegalArgument)
      ensures r.Pass? ==>
                |pares| >= 2 && IsInt32(cuts.0) && IsInt32(cuts.1) &&
                PmxChild(old(pares[0].Genome()), old(pares[1].Genome()), cuts.0, Succ32(cuts.1), pick1, filho1.Genome()) &&
                PmxChild(old(pares[1].Genome()), old(pares[0].Genome()), cuts.0, Succ32(cuts.1), pick2, filho2.Genome())
      ensures r.Pass? ==>
                SamePermutation(filho1.Genome(), old(pares[0].Genome())) &&
                SamePermutation(filho2.Genome(), old(pares[0].Genome()))
      ensures r.Pass? && limitado && limitesAtivos && fixado ==> cuts == (limiteInferiorCross, limiteSuperiorCross)
      ensures r.Pass? && limitado && limitesAtivos && !fixado ==>
                limiteInferiorCross <= cuts.0 <= cuts.1 <= limiteSuperiorCross
      ensures r.Pass? && !(limitado && limitesAtivos) ==> 0 <= cuts.0 < cuts.1 < |pares[0].genes|
    {
      cuts, pick1, pick2 := (0, 0), [], [];
      if |pares| < 2 {
        return Throw(IndexOutOfBounds), cuts, pick1, pick2;
      }
      assert filho1 != pares[0] && filho1 != pares[1] && filho2 != pares[0] && filho2 != pares[1];
      r, cuts, pick1, pick2 := RecombinaPar(pares[0], pares[1], filho1, filho2);
    }

    /** `recombina` once both parents are at hand: one draw of cut points, then both children. */
    method RecombinaPar(par1: Ser, par2: Ser, filho1: Ser, filho2: Ser) returns (r: Outcome, cuts: (int, int), ghost pick1: seq<int>, ghost pick2: seq<int>)
      requires Valid()
      requires SamePermutation(par1.Genome(), par2.Genome())
      requires filho1 != filho2 && filho1 != par1 && filho1 != par2 && filho2 != par1 && filho2 != par2
      requires filho1.fitness.None? && filho2.fitness.None?
      requires |filho1.genes| == |par1.genes| && |filho2.genes| == |par2.genes| && |par1.genes| <= MaxInt
      modifies filho1`genes, filho2`genes
      ensures !(limitado && limitesAtivos) && |par1.genes| < 2 ==> r == Throw(IllegalArgument)
      ensures r.Pass? ==>
                IsInt32(cuts.0) && IsInt32(cuts.1) &&
                PmxChild(old(par1.Genome()), old(par2.Genome()), cuts.0, Succ32(cuts.1), pick1, filho1.Genome()) &&
                PmxChild(old(par2.Genome()), old(par1.Genome()), cuts.0, Succ32(cuts.1), pick2, filho2.Genome())
      ensures r.Pass? ==>
                SamePermutation(filho1.Genome(), old(par1.Genome())) &&
                SamePermutation(filho2.Genome(), old(par1.Genome()))
      ensures r.Pass? && limitado && limitesAtivos && fixado ==> cuts == (limiteInferiorCross, limiteSuperiorCross)
      ensures r.Pass? && limitado && limitesAtivos && !fixado ==>
                limiteInferiorCross <= cuts.0 <= cuts.1 <= limiteSuperiorCross
      ensures r.Pass? && !(limitado && limitesAtivos) ==> 0 <= cuts.0 < cuts.1 < |par1.genes|
    {
      cuts, pick1, pick2 := (0, 0), [], [];
      ghost var g1, g2 := par1.Genome(), par2.Genome();
      var crossover := PosicoesDeCrossover(par1);
      if crossover.Fail? {
        return Throw(crossover.error), cuts, pick1, pick2;
      }
      cuts := crossover.value;
      ghost var n := |par1.genes|;
      r, pick1, pick2 := PmxBoth(par1, par2, filho1, filho2, cuts.0, cuts.1, g1, g2);
      assert |par1.genes| == n;
    }

    /** The two `pmxParcial` calls of `recombina`, the second with the parents exchanged. */
    method PmxBoth(par1: Ser, par2: Ser, filho1: Ser, filho2: Ser, c1: int, c2: int, ghost g1: seq<Option<Value>>, ghost g2: seq<Option<Value>>)
      returns (r: Outcome, ghost pick1: seq<int>, ghost pick2: seq<int>)
      requires par1.Genome() == g1 && par2.Genome() == g2 && SamePermutation(g1, g2) && IsInt32(c1) && IsInt32(c2)
      requires filho1 != filho2 && filho1 != par1 && filho1 != par2 && filho2 != par1 && filho2 != par2
      requires filho1.fitness.None? && filho2.fitness.None?
      requires |filho1.genes| == |par1.genes| && |filho2.genes| == |par2.genes|
      modifies filho1`genes, filho2`genes
      ensures r.Pass? ==> PmxChild(g1, g2, c1, Succ32(c2), pick1, filho1.Genome()) &&
                          PmxChild(g2, g1, c1, Succ32(c2), pick2, filho2.Genome())
      ensures r.Pass? ==> SamePermutation(filho1.Genome(), g1) && SamePermutation(filho2.Genome(), g1)
    {
      pick2 := [];
      r, pick1 := FirstChild(par1, par2, filho1, c1, c2, g1, g2);
      if r.Throw? {
        return;
      }
      ghost var child1 := filho1.Genome();
      r, pick2 := SecondChild(par2, par1, filho2, filho1, c1, c2, g2, g1, child1);
      if r.Pass? {
        PmxChildIsPermutation(g1, g2, c1, Succ32(c2), pick1, child1);
        PmxChildIsPermutation(g2, g1, c1, Succ32(c2), pick2, filho2.Genome());
      }
    }

    /** The first `pmxParcial` call of `recombina`: the child when it succeeds, the parents left as they are. */
    method FirstChild(par1: Ser, par2: Ser, filho: Ser, c1: int, c2: int, ghost g1: seq<Option<Value>>, ghost g2: seq<Option<Value>>)
      returns (r: Outcome, ghost pick: seq<int>)
      requires par1.Genome() == g1 && par2.Genome() == g2 && SamePermutation(g1, g2) && IsInt32(c1) && IsInt32(c2)
      requires filho != par1 && filho != par2 && filho.fitness.None? && |filho.genes| == |par1.genes|
      modifies filho`genes
      ensures par1.Genome() == g1 && par2.Genome() == g2
      ensures r.Pass? ==> PmxChild(g1, g2, c1, Succ32(c2), pick, filho.Genome())
    {
      r, pick := PmxParcial(par1, par2, filho, c1, c2);
      assert old(par1.Genome()) == g1 && old(par2.Genome()) == g2;
    }

    /** The second `pmxParcial` call of `recombina`: the child when it succeeds, the first child left as it is. */
    method SecondChild(par1: Ser, par2: Ser, filho: Ser, outro: Ser, c1: int, c2: int,
                       ghost g1: seq<Option<Value>>, ghost g2: seq<Option<Value>>, ghost kept: seq<Option<Value>>)
      returns (r: Outcome, ghost pick: seq<int>)
      requires par1.Genome() == g1 && par2.Genome() == g2 && SamePermutation(g1, g2) && IsInt32(c1) && IsInt32(c2)
      requires filho != outro && filho.fitness.None? && |filho.genes| == |par1.genes| && outro.Genome() == kept
      modifies filho`genes
      ensures outro.Genome() == kept
      ensures r.Pass? ==> PmxChild(g1, g2, c1, Succ32(c2), pick, filho.Genome())
    {
      r, pick := PmxParcial(par1, par2, filho, c1, c2);
      assert old(par1.Genome()) == g1 && old(par2.Genome()) == g2;
    }

    /**
     * `pmxParcial(par1, par2, c1, c2)` writing into `filho`, the generator's
     * new individual: copies of both parents' genes, the range checks of
     * `subList(c1, c2 + 1)`, then the slots `PmxSlots` computes, stored into
     * `filho`. Parents must be permutations of the same values, which is what
     * makes every chain walk end.
     */
    method PmxParcial(par1: Ser, par2: Ser, filho: Ser, c1: int, c2: int) returns (r: Outcome, ghost pick: seq<int>)
      requires SamePermutation(par1.Genome(), par2.Genome()) && IsInt32(c1) && IsInt32(c2)
      requires filho.fitness.None? && |filho.genes| == |par1.genes|
      modifies filho`genes
      ensures r.Pass? <==> old(CopyableGenome(par1.Genome()) && CopyableGenome(par2.Genome()))
                           && 0 <= c1 <= Succ32(c2) <= |old(par1.genes)|
      ensures r.Throw? ==> filho.genes == old(filho.genes)
      ensures r.Throw? && old(CopyableGenome(par1.Genome()) && CopyableGenome(par2.Genome())) ==>
                r.error == if c1 < 0 || Succ32(c2) > |old(par1.genes)| then IndexOutOfBounds else IllegalArgument
      ensures r.Pass? ==> PmxChild(old(par1.Genome()), old(par2.Genome()), c1, Succ32(c2), pick, filho.Genome())
      ensures r.Pass? ==> forall g :: g in filho.genes ==> g != null && fresh(g) && g.owner == filho
    {
      pick := [];
      ghost var g1, g2 := par1.Genome(), par2.Genome();
      var x1, x2;
      r, x1, x2 := CopyParents(par1, par2, g1, g2);
      if r.Throw? {
        return;
      }
      r, pick := CutAndStore(filho, x1, x2, c1, c2, g1, g2);
      assert old(par1.Genome()) == g1 && old(par2.Genome()) == g2 && |x1| == |old(par1.genes)|;
    }
  }

  /**
   * The two `getCaracteristicasCopia` calls of `pmxParcial`: fresh, unowned
   * copies of both parents' genes, or the failure of the first one that fails.
   */
  method CopyParents(par1: Ser, par2: Ser, ghost g1: seq<Option<Value>>, ghost g2: seq<Option<Value>>)
    returns (r: Outcome, x1: seq<Locus>, x2: seq<Locus>)
    requires par1.Genome() == g1 && par2.Genome() == g2
    ensures r.Pass? <==> CopyableGenome(g1) && CopyableGenome(g2)
    ensures r.Pass? ==> GenomeOf(x1) == g1 && GenomeOf(x2) == g2
    ensures r.Pass? ==> forall g :: g in x1 || g in x2 ==> fresh(g)
    ensures r.Pass? ==> (forall k :: 0 <= k < |x1| ==> x1[k].owner == null) && forall k :: 0 <= k < |x2| ==> x2[k].owner == null
  {
    x1, x2 := [], [];
    CopyableSlots(par1);
    CopyableSlots(par2);
    var cromossomo1 := par1.GetCaracteristicasCopia();
    if cromossomo1.Fail? {
      return Throw(cromossomo1.error), x1, x2;
    }
    var cromossomo2 := par2.GetCaracteristicasCopia();
    if cromossomo2.Fail? {
      return Throw(cromossomo2.error), x1, x2;
    }
    x1, x2 := cromossomo1.value, cromossomo2.value;
    CopiesGenome(x1, par1.genes);
    CopiesGenome(x2, par2.genes);
    r := Pass;
  }

  /** A genome is copyable exactly when every slot holds a locus `copia` accepts. */
  lemma CopyableSlots(s: Ser)
    ensures CopyableGenome(s.Genome()) <==> forall k :: 0 <= k < |s.genes| ==> s.genes[k] != null && Copyable(s.genes[k].value)
  {
    var vs := s.Genome();
    assert |vs| == |s.genes|;
    assert vs == GenomeOf(s.genes);
  }

  /**
   * `pmxParcial` after its copies: the range checks of `subList(c1, c2 + 1)`
   * (`c2 + 1` in `int` arithmetic), then the child's slots stored into `filho`.
   */
  method CutAndStore(filho: Ser, x1: seq<Locus>, x2: seq<Locus>, c1: int, c2: int, ghost g1: seq<Option<Value>>, ghost g2: seq<Option<Value>>)
    returns (r: Outcome, ghost pick: seq<int>)
    requires GenomeOf(x1) == g1 && GenomeOf(x2) == g2 && SamePermutation(g1, g2) && IsInt32(c1) && IsInt32(c2)
    requires filho.fitness.None? && |filho.genes| == |x1|
    requires forall k :: 0 <= k < |x1| ==> x1[k].owner == null && x2[k].owner == null
    modifies filho`genes, LociOf(x1)`owner, LociOf(x2)`owner
    ensures r.Pass? <==> 0 <= c1 <= Succ32(c2) <= |x1|
    ensures r.Throw? ==> filho.genes == old(filho.genes)
    ensures r.Throw? ==> r.error == if c1 < 0 || Succ32(c2) > |x1| then IndexOutOfBounds else IllegalArgument
    ensures r.Pass? ==> PmxChild(g1, g2, c1, Succ32(c2), pick, filho.Genome())
    ensures r.Pass? ==> forall g :: g in filho.genes ==> g != null && g.owner == filho && (g in x1 || g in x2)
  {
    pick := [];
    var hi := Succ32(c2);
    r := SubListCheck(c1, hi, |x1|);
    if r.Throw? {
      return;
    }
    pick := StoreChild(filho, x1, x2, c1, hi);
  }

  /** Copies hold the values of the genes they copy. */
  lemma CopiesGenome(copies: seq<Locus>, origem: seq<Locus?>)
    requires CopiesOf(copies, origem)
    ensures GenomeOf(copies) == GenomeOf(origem)
  {
    var l, r := GenomeOf(copies), GenomeOf(origem);
    assert |l| == |r|;
    forall k | 0 <= k < |l| ensures l[k] == r[k] { }
  }

  /**
   * The writes of `pmxParcial` once its range checks passed: the slots
   * `PmxSlots` computes on the copies' values, each filled with the copy it
   * names.
   */
  method StoreChild(filho: Ser, x1: seq<Locus>, x2: seq<Locus>, lo: int, hi: int) returns (ghost pick: seq<int>)
    requires SamePermutation(GenomeOf(x1), GenomeOf(x2)) && 0 <= lo <= hi <= |x1|
    requires filho.fitness.None? && |filho.genes| == |x1|
    requires forall k :: 0 <= k < |x1| ==> x1[k].owner == null && x2[k].owner == null
    modifies filho`genes, LociOf(x1)`owner, LociOf(x2)`owner
    ensures PmxChild(old(GenomeOf(x1)), old(GenomeOf(x2)), lo, hi, pick, filho.Genome())
    ensures forall g :: g in filho.genes ==> g != null && g.owner == filho && (g in x1 || g in x2)
  {
    var cross := Cross(GenomeOf(x1), GenomeOf(x2), lo, hi);
    var slots := PmxSlots(cross);
    pick := slots;
    var filhos := Assemble(x1, x2, lo, hi, slots);
    GenomeOfAssemble(x1, x2, lo, hi, slots);
    AssembledFromCopies(x1, x2, lo, hi, slots);
    ghost var child := GenomeOf(filhos);
    assert child == Child(cross, pick);
    StoreAll(filho, filhos);
  }

  lemma AssembledFromCopies(x1: seq<Locus>, x2: seq<Locus>, lo: int, hi: int, pick: seq<int>)
    requires |x1| == |pick| && |x2| == |pick|
    requires forall k :: 0 <= k < |pick| ==> 0 <= pick[k] < |pick|
    requires forall k :: 0 <= k < |x1| ==> x1[k].owner == null && x2[k].owner == null
    ensures forall g :: g in Assemble(x1, x2, lo, hi, pick) ==> g.owner == null && (g in x1 || g in x2)
  {
    var filhos := Assemble(x1, x2, lo, hi, pick);
    forall g | g in filhos ensures g.owner == null && (g in x1 || g in x2) {
      var k :| 0 <= k < |filhos| && filhos[k] == g;
      assert filhos[k] == if lo <= k < hi then x1[pick[k]] else x2[pick[k]];
    }
  }

  /** `setCaracteristicas` over every slot with unowned genes: all writes succeed. */
  method StoreAll(filho: Ser, filhos: seq<Locus>)
    requires filho.fitness.None? && |filhos| == |filho.genes|
    requires forall g :: g in filhos ==> g.owner == null
    modifies filho`genes, LociOf(filhos)`owner
    ensures filho.genes == filhos && filho.Genome() == old(GenomeOf(filhos))
    ensures forall g :: g in filhos ==> g.owner == filho
  {
    ghost var written;
    var r;
    r, written := filho.SetCaracteristicas(filhos);
    assert r.Pass?;
    assert filhos[..written] == filhos;
  }

  /**
   * `new PMX(p)`: the recombiner of `p` with two partners; a probability
   * outside [0, 1] is refused.
   */
  method NewPMX(p: real) returns (r: Result<PMX>)
    ensures r.Ok? <==> Operators.IsProbability(p)
    ensures r.Fail? ==> r.error == IllegalArgument
    ensures r.Ok? ==> fresh(r.value) && fresh(r.value.base) && r.value.Valid()
                      && r.value.base.probabilidade == p && r.value.base.nParceiros == 2
                      && !r.value.limitado && !r.value.limitesAtivos
  {
    var b := Operators.NewRecombinador(p, 2);
    if b.Fail? {
      return Fail(b.error);
    }
    var pmx := new PMX(b.value);
    return Ok(pmx);
  }
}
