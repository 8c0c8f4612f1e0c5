/**
 * Facts about sequences that the collection code of the engine relies on:
 * `List.indexOf`, pairwise-distinct lists, and the pigeonhole counting that
 * makes distinct-index sampling and PMX well defined.
 */
module Seqs {

  predicate Distinct<T(==)>(s: seq<T>) {
    forall i, j :: 0 <= i < j < |s| ==> s[i] != s[j]
  }

  function Elements<T>(s: seq<T>): set<T> {
    set x | x in s
  }

  predicate AllIn(s: seq<int>, lo: int, hi: int) {
    forall i :: 0 <= i < |s| ==> lo <= s[i] <= hi
  }

  /** `List.indexOf`: the first position holding `v`, or -1 when there is none. */
  function IndexOf<T(==)>(s: seq<T>, v: T): (k: int)
    ensures -1 <= k < |s|
    ensures 0 <= k ==> s[k] == v && v !in s[..k]
    ensures k == -1 <==> v !in s
  {
    if |s| == 0 then -1
    else if s[0] == v then 0
    else
      var k := IndexOf(s[1..], v);
      assert s[1..][..(if k < 0 then 0 else k)] == s[1..(if k < 0 then 1 else k + 1)];
      if k == -1 then -1 else k + 1
  }

  lemma IndexOfDistinct<T>(s: seq<T>, k: int)
    requires Distinct(s) && 0 <= k < |s|
    ensures IndexOf(s, s[k]) == k
  {
  }

  /** The integers lo..hi inclusive. */
  function Range(lo: int, hi: int): (r: set<int>)
    ensures forall k :: k in r <==> lo <= k <= hi
    decreases hi - lo
  {
    if lo > hi then {} else {lo} + Range(lo + 1, hi)
  }

  lemma {:induction false} RangeSize(lo: int, hi: int)
    requires lo <= hi + 1
    ensures |Range(lo, hi)| == hi - lo + 1
    decreases hi - lo
  {
    if lo <= hi {
      RangeSize(lo + 1, hi);
      assert Range(lo, hi) == Range(lo + 1, hi) + {lo};
    } else {
      assert Range(lo, hi) == {};
    }
  }

  lemma {:induction false} ElementsSize<T>(s: seq<T>)
    ensures |Elements(s)| <= |s|
    ensures Distinct(s) ==> |Elements(s)| == |s|
    ensures |Elements(s)| == |s| ==> Distinct(s)
  {
    if |s| > 0 {
      var t := s[..|s| - 1];
      var x := s[|s| - 1];
      ElementsSize(t);
      assert Elements(s) == Elements(t) + {x};
      if x in t {
        assert Elements(s) == Elements(t);
      } else {
        assert |Elements(s)| == |Elements(t)| + 1;
        if |Elements(s)| == |s| {
          forall i, j | 0 <= i < j < |s| ensures s[i] != s[j] {
            if j < |s| - 1 { assert t[i] == s[i] && t[j] == s[j]; }
            else { assert s[i] == t[i]; }
          }
        }
      }
    }
  }

  /** A list of distinct integers from [lo, hi] has at most hi - lo + 1 elements. */
  lemma DistinctInRangeBound(s: seq<int>, lo: int, hi: int)
    requires Distinct(s) && AllIn(s, lo, hi)
    ensures |s| <= if lo <= hi then hi - lo + 1 else 0
  {
    ElementsSize(s);
    if lo <= hi {
      RangeSize(lo, hi);
      assert Elements(s) <= Range(lo, hi);
      SubsetSize(Elements(s), Range(lo, hi));
    }
  }

  /** While fewer than hi - lo + 1 distinct values have been drawn, an undrawn value is left. */
  lemma UndrawnExists(s: seq<int>, lo: int, hi: int) returns (k: int)
    requires Distinct(s) && AllIn(s, lo, hi) && |s| < hi - lo + 1
    ensures lo <= k <= hi && k !in s
  {
    RangeSize(lo, hi);
    ElementsSize(s);
    if Range(lo, hi) <= Elements(s) {
      SubsetSize(Range(lo, hi), Elements(s));
      assert false;
    }
    k :| k in Range(lo, hi) && k !in Elements(s);
  }

  lemma SubsetSize<T>(a: set<T>, b: set<T>)
    requires a <= b
    ensures |a| <= |b|
    ensures |a| == |b| ==> a == b
  {
    assert b == a + (b - a);
    assert |b| == |a| + |b - a|;
    if |a| == |b| {
      assert |b - a| == 0;
      assert b - a == {};
    }
  }

  /**
   * A list as long as a list of distinct values and containing every one of
   * them has exactly those values, each once: it is a permutation of them.
   */
  lemma {:induction false} PermutationByCover<T>(c: seq<T>, p: seq<T>)
    requires |c| == |p| && Distinct(p)
    requires forall x :: x in p ==> x in c
    ensures Distinct(c) && multiset(c) == multiset(p)
  {
    ElementsSize(p);
    ElementsSize(c);
    assert Elements(p) <= Elements(c);
    SubsetSize(Elements(p), Elements(c));
    assert Elements(c) == Elements(p);
    DistinctSameElements(c, p);
  }

  lemma {:induction false} DistinctSameElements<T>(c: seq<T>, p: seq<T>)
    requires Distinct(c) && Distinct(p) && Elements(c) == Elements(p)
    ensures multiset(c) == multiset(p)
  {
    DistinctCounts(c);
    DistinctCounts(p);
    forall x ensures multiset(c)[x] == multiset(p)[x] {
      assert x in c <==> x in Elements(c);
      assert x in p <==> x in Elements(p);
    }
  }

  /** In a list of distinct values every value occurs at most once. */
  lemma {:induction false} DistinctCounts<T>(s: seq<T>)
    requires Distinct(s)
    ensures forall x :: multiset(s)[x] == if x in s then 1 else 0
  {
    if |s| > 0 {
      var t := s[1..];
      assert s == [s[0]] + t;
      assert Distinct(t) by {
        forall i, j | 0 <= i < j < |t| ensures t[i] != t[j] {
          assert t[i] == s[i + 1] && t[j] == s[j + 1];
        }
      }
      DistinctCounts(t);
      forall x ensures multiset(s)[x] == if x in s then 1 else 0 {
        assert multiset(s) == multiset{s[0]} + multiset(t);
        assert x in s <==> x == s[0] || x in t;
      }
    }
  }
}
