/**
 * Populations (`Populacao` with the sorted backing set of `PopulacaoOrdenada`):
 * the members are kept in a `TreeSet` ordered by the environment's
 * comparator, so iteration and positional access are in ascending order and
 * the best individual is the last one.
 */
module Population {
  import opened Errors
  import opened Genes
  import opened Beings
  import opened Environment
  import Seqs

  /** The ids of the individuals in `ms` are pairwise different (the counter's guarantee). */
  ghost predicate IdsUnique(ms: seq<Ser>) {
    forall i, j :: 0 <= i < |ms| && 0 <= j < |ms| ==> UniqueIds(ms[i], ms[j])
  }

  /** The individuals of `ms` whose membership in `c` is `inside`, in order. */
  function Filter(ms: seq<Ser>, c: seq<Ser>, inside: bool): (r: seq<Ser>)
    ensures forall i :: 0 <= i < |r| ==> r[i] in ms && (r[i] in c) == inside
    ensures forall i :: 0 <= i < |ms| && (ms[i] in c) == inside ==> ms[i] in r
    ensures |r| <= |ms|
  {
    if ms == [] then []
    else
      var rest := Filter(ms[1..], c, inside);
      if (ms[0] in c) == inside then [ms[0]] + rest else rest
  }

  /** Everything the comparator may read about the individuals of `ms`. */
  ghost function Footprint(ms: seq<Ser>): set<object>
    reads set s | s in ms
  {
    (set s: Ser | s in ms :: s as object) + (set s: Ser, g: Locus | s in ms && g in s.genes :: g as object)
  }

  /** Strictly ascending under the environment's `compare`. */
  ghost predicate AscendingUnder(env: Ambiente, ms: seq<Ser>)
    reads Footprint(ms)
  {
    forall i, j :: 0 <= i < j < |ms| ==> env.Compare(ms[i], ms[j]) < 0
  }

  /** Dropping members keeps the order of the rest. */
  lemma {:induction false} FilterAscending(env: Ambiente, ms: seq<Ser>, c: seq<Ser>, inside: bool)
    requires AscendingUnder(env, ms)
    ensures AscendingUnder(env, Filter(ms, c, inside))
  {
    if ms != [] {
      var rest := Filter(ms[1..], c, inside);
      AscendingTail(env, ms);
      FilterAscending(env, ms[1..], c, inside);
      if (ms[0] in c) == inside {
        var r := [ms[0]] + rest;
        forall j | 0 < j < |r| ensures env.Compare(r[0], r[j]) < 0 {
          assert r[j] == rest[j - 1] && rest[j - 1] in ms[1..];
          var k :| 1 <= k < |ms| && ms[k] == r[j];
        }
        FirstBelowRest(env, r);
      }
    }
  }

  lemma AscendingTail(env: Ambiente, ms: seq<Ser>)
    requires AscendingUnder(env, ms) && ms != []
    ensures AscendingUnder(env, ms[1..])
  {
    forall i, j | 0 <= i < j < |ms[1..]| ensures env.Compare(ms[1..][i], ms[1..][j]) < 0 {
      assert ms[1..][i] == ms[i + 1] && ms[1..][j] == ms[j + 1];
    }
  }

  lemma FirstBelowRest(env: Ambiente, r: seq<Ser>)
    requires r != [] && AscendingUnder(env, r[1..])
    requires forall j :: 0 < j < |r| ==> env.Compare(r[0], r[j]) < 0
    ensures AscendingUnder(env, r)
  {
    forall i, j | 0 <= i < j < |r| ensures env.Compare(r[i], r[j]) < 0 {
      if i > 0 {
        assert r[i] == r[1..][i - 1] && r[j] == r[1..][j - 1];
      }
    }
  }

  class Populacao {
    /** `ambiente`, which is also the `TreeSet`'s comparator. */
    const env: Ambiente
    /** `maxIndividuos`; 0 means unlimited. */
    const maxIndividuos: nat
    /** `seres`, in iteration (ascending) order. */
    var members: seq<Ser>

    constructor (ambiente: Ambiente, max: nat)
      ensures env == ambiente && maxIndividuos == max && members == []
    {
      env := ambiente;
      maxIndividuos := max;
      members := [];
    }

    /** The `TreeSet` invariant: strictly ascending under `compare`. */
    ghost predicate Ascending()
      reads this, Footprint(members)
    {
      AscendingUnder(env, members)
    }

    function Size(): (n: nat)
      reads this
      ensures n == |members|
    {
      |members|
    }

    function IsEmpty(): (b: bool)
      reads this
      ensures b <==> |members| == 0
    {
      |members| == 0
    }

    /** `contains(s)`: the tree looks the individual up with the comparator. */
    ghost predicate Contains(s: Ser)
      reads this, Footprint(members), s`fitness, s`evaluatedBy, s`genes, LociOf(s.genes)
    {
      exists k :: 0 <= k < |members| && env.Compare(members[k], s) == 0
    }

    /** With unique ids, looking up with the comparator is looking up the instance. */
    lemma ContainsIsMembership(s: Ser)
      requires IdsUnique(members + [s])
      ensures Contains(s) <==> s in members
    {
      if s in members {
        var k :| 0 <= k < |members| && members[k] == s;
        env.CompareIsBetter(members[k], s);
      }
      if Contains(s) {
        var k :| 0 <= k < |members| && env.Compare(members[k], s) == 0;
        assert (members + [s])[k] == members[k] && (members + [s])[|members|] == s;
        env.CompareIsBetter(members[k], s);
      }
    }

    /** The members are pairwise different instances. */
    lemma AscendingDistinct()
      requires Ascending()
      ensures Seqs.Distinct(members)
    {
      forall i, j | 0 <= i < j < |members| ensures members[i] != members[j] {
        if members[i] == members[j] {
          env.CompareAntisymmetric(members[i], members[j]);
        }
      }
    }

    /**
     * `add(s)`: `avalia(s)` is computed and discarded (nothing is stored),
     * then the tree inserts `s` unless a member compares 0 with it.
     */
    method Add(s: Ser) returns (added: bool)
      requires Ascending() && IdsUnique(members + [s])
      modifies this`members
      ensures Ascending()
      ensures added <==> s !in old(members)
      ensures added ==> multiset(members) == multiset(old(members)) + multiset{s}
      ensures !added ==> members == old(members)
      ensures forall x :: x in members <==> x in old(members) || x == s
    {
      var k := 0;
      while k < |members| && env.Compare(members[k], s) < 0
        invariant 0 <= k <= |members|
        invariant forall i :: 0 <= i < k ==> env.Compare(members[i], s) < 0
      {
        k := k + 1;
      }
      ContainsIsMembership(s);
      if k < |members| && env.Compare(members[k], s) == 0 {
        return false;
      }
      InsertAscending(k, s);
      InsertAt(k, s);
      added := true;
    }

    /** Stores `s` at position k, where it keeps the order. */
    method InsertAt(k: int, s: Ser)
      requires 0 <= k <= |members| && s !in members
      requires AscendingUnder(env, members[..k] + [s] + members[k..])
      modifies this`members
      ensures members == old(members[..k] + [s] + members[k..])
      ensures Ascending()
      ensures multiset(members) == multiset(old(members)) + multiset{s}
      ensures forall x :: x in members <==> x in old(members) || x == s
    {
      var m := members[..k] + [s] + members[k..];
      assert members == members[..k] + members[k..];
      assert this !in Footprint(m);
      members := m;
    }

    /** Inserting `s` at the first position whose member is not below it keeps the order. */
    lemma InsertAscending(k: int, s: Ser)
      requires Ascending() && IdsUnique(members + [s])
      requires 0 <= k <= |members|
      requires forall i :: 0 <= i < k ==> env.Compare(members[i], s) < 0
      requires k < |members| ==> env.Compare(members[k], s) >= 0 && env.Compare(members[k], s) != 0
      ensures s !in members
      ensures AscendingUnder(env, members[..k] + [s] + members[k..])
    {
      forall t | 0 <= t < |members| ensures members[t] != s {
        if t > k {
          assert env.Compare(members[k], members[t]) < 0;
        }
      }
      var m := members[..k] + [s] + members[k..];
      assert forall i :: 0 <= i < |members| ==> (members + [s])[i] == members[i];
      assert (members + [s])[|members|] == s;
      forall i, j | 0 <= i < j < |m| ensures env.Compare(m[i], m[j]) < 0 {
        if j < k {
          assert m[i] == members[i] && m[j] == members[j];
        } else if j == k {
          assert m[i] == members[i] && m[j] == s;
        } else if i == k {
          assert m[j] == members[j - 1];
          env.CompareAntisymmetric(members[k], s);
          if j - 1 > k {
            env.CompareTransitive(s, members[k], members[j - 1]);
          }
        } else if i < k {
          assert m[i] == members[i] && m[j] == members[j - 1];
        } else {
          assert m[i] == members[i - 1] && m[j] == members[j - 1];
        }
      }
    }

    /**
     * `addAll(xs)`: the environment evaluates the collection (storing), then
     * the tree adds each element in turn.
     */
    method AddAll(xs: seq<Ser>) returns (changed: bool)
      requires Ascending() && IdsUnique(members + xs)
      requires forall x :: x in xs ==> x.Valid()
      modifies this`members, (set x | x in xs)`fitness, (set x | x in xs)`evaluatedBy
      ensures Ascending()
      ensures forall x :: x in members <==> x in old(members) || x in xs
      ensures forall x :: x in xs ==> x.Valid() && x.IsAvaliadoPor(env)
      ensures forall x :: x in xs && old(x.IsAvaliadoPor(env)) ==> x.fitness == old(x.fitness) && x.evaluatedBy == old(x.evaluatedBy)
      ensures changed <==> exists x :: x in xs && x !in old(members)
    {
      EvaluateKeepsOrder(xs);
      changed := InsertAll(xs);
    }

    /** The insertions of `addAll`, one element after the other. */
    method InsertAll(xs: seq<Ser>) returns (changed: bool)
      requires Ascending() && IdsUnique(members + xs)
      modifies this`members
      ensures Ascending()
      ensures forall x :: x in members <==> x in old(members) || x in xs
      ensures changed <==> exists x :: x in xs && x !in old(members)
    {
      var i := 0;
      changed := false;
      while i < |xs|
        invariant 0 <= i <= |xs|
        invariant Ascending()
        invariant forall x :: x in members <==> x in old(members) || x in xs[..i]
        invariant changed <==> exists x :: x in xs[..i] && x !in old(members)
        invariant IdsUnique(members + xs)
      {
        assert xs[..i + 1] == xs[..i] + [xs[i]];
        SubsetIdsUnique(members, xs, xs[i]);
        var a := Add(xs[i]);
        changed := changed || a;
        forall x | x in members ensures x in old(members) || x in xs {
          if x !in old(members) {
            assert x in xs[..i + 1];
          }
        }
        KeepIdsUnique(old(members), members, xs);
        i := i + 1;
      }
      assert xs[..i] == xs;
    }

    /** Evaluating a collection leaves the tree's order as it was. */
    method EvaluateKeepsOrder(xs: seq<Ser>)
      requires Ascending()
      requires forall x :: x in xs ==> x.Valid()
      modifies (set x | x in xs)`fitness, (set x | x in xs)`evaluatedBy
      ensures Ascending()
      ensures forall x :: x in xs ==> x.Valid() && x.IsAvaliadoPor(env)
      ensures forall x :: x in xs && old(x.IsAvaliadoPor(env)) ==> x.fitness == old(x.fitness) && x.evaluatedBy == old(x.evaluatedBy)
    {
      env.AvaliaTodos(xs);
      assert forall s :: s in members ==> s.genes == old(s.genes) && s.Genome() == old(s.Genome());
      assert forall s :: s in members ==> env.Grau(s) == old(env.Grau(s));
      assert forall i, j :: 0 <= i < j < |members| ==>
               env.Compare(members[i], members[j]) == old(env.Compare(members[i], members[j]));
    }

    lemma SubsetIdsUnique(ms: seq<Ser>, xs: seq<Ser>, x: Ser)
      requires IdsUnique(ms + xs) && x in xs
      ensures IdsUnique(ms + [x])
    {
      var i :| 0 <= i < |xs| && xs[i] == x;
      forall a, b | 0 <= a < |ms + [x]| && 0 <= b < |ms + [x]|
        ensures UniqueIds((ms + [x])[a], (ms + [x])[b])
      {
        var a' := if a < |ms| then a else |ms| + i;
        var b' := if b < |ms| then b else |ms| + i;
        assert (ms + [x])[a] == (ms + xs)[a'] && (ms + [x])[b] == (ms + xs)[b'];
      }
    }

    lemma KeepIdsUnique(old_: seq<Ser>, ms: seq<Ser>, xs: seq<Ser>)
      requires IdsUnique(old_ + xs)
      requires forall x :: x in ms ==> x in old_ || x in xs
      ensures IdsUnique(ms + xs)
    {
      forall a, b | 0 <= a < |ms + xs| && 0 <= b < |ms + xs|
        ensures UniqueIds((ms + xs)[a], (ms + xs)[b])
      {
        var u, v := (ms + xs)[a], (ms + xs)[b];
        assert u in old_ + xs && v in old_ + xs;
        var a' :| 0 <= a' < |old_ + xs| && (old_ + xs)[a'] == u;
        var b' :| 0 <= b' < |old_ + xs| && (old_ + xs)[b'] == v;
      }
    }

    /** `setIndividuos(xs)`: `clear()`, then `addAll(xs)`. */
    method SetIndividuos(xs: seq<Ser>) returns (changed: bool)
      requires IdsUnique(xs)
      requires forall x :: x in xs ==> x.Valid()
      modifies this`members, (set x | x in xs)`fitness, (set x | x in xs)`evaluatedBy
      ensures Ascending()
      ensures forall x :: x in members <==> x in xs
      ensures forall x :: x in members ==> x.Valid() && x.IsAvaliadoPor(env)
      ensures forall x :: x in xs && old(x.IsAvaliadoPor(env)) ==> x.fitness == old(x.fitness) && x.evaluatedBy == old(x.evaluatedBy)
      ensures changed <==> xs != []
    {
      Clear();
      assert members + xs == xs;
      changed := AddAll(xs);
      if xs != [] {
        assert xs[0] in xs;
      }
    }

    /** `clear()`. */
    method Clear()
      modifies this`members
      ensures members == [] && Ascending()
    {
      members := [];
    }

    /**
     * `get(indice)`: the element at `indice` of the iteration order. An index at
     * or past the end throws; a negative one skips the loop and returns null.
     */
    method Get(indice: int) returns (r: Result<Ser?>)
      ensures r.Fail? <==> indice >= |members|
      ensures r.Fail? ==> r.error == IndexOutOfBounds
      ensures r.Ok? ==> r.value == if indice < 0 then null else members[indice]
    {
      if indice >= |members| {
        return Fail(IndexOutOfBounds);
      }
      var ser: Ser? := null;
      var i := 0;
      while i <= indice
        invariant 0 <= i <= |members| && (if indice >= 0 then i <= indice + 1 else i == 0)
        invariant ser == if i == 0 then null else members[i - 1]
      {
        ser := members[i];
        i := i + 1;
      }
      return Ok(ser);
    }

    /**
     * `get(indice)` as its documentation describes it: a negative index
     * throws IndexOutOfBounds as well, so every index it answers is a
     * position of the population.
     */
    method GetDocumented(indice: int) returns (r: Result<Ser>)
      ensures r.Ok? <==> 0 <= indice < |members|
      ensures r.Fail? ==> r.error == IndexOutOfBounds
      ensures r.Ok? ==> r.value == members[indice]
    {
      if indice < 0 {
        return Fail(IndexOutOfBounds);
      }
      var g := Get(indice);
      if g.Fail? {
        return Fail(g.error);
      }
      return Ok(members[indice]);
    }

    /**
     * `remove(s)`: the tree removes the member that compares 0 with `s`;
     * with unique ids that is `s` itself.
     */
    method Remove(s: Ser) returns (removed: bool)
      requires Ascending() && IdsUnique(members + [s])
      modifies this`members
      ensures Ascending()
      ensures removed <==> s in old(members)
      ensures !removed ==> members == old(members)
      ensures removed ==> exists k :: 0 <= k < |old(members)| && old(members)[k] == s
                                      && members == old(members)[..k] + old(members)[k + 1..]
      ensures s !in members
    {
      ContainsIsMembership(s);
      AscendingDistinct();
      var k := 0;
      while k < |members| && members[k] != s
        invariant 0 <= k <= |members|
        invariant s !in members[..k]
      {
        k := k + 1;
      }
      if k == |members| {
        assert members[..k] == members;
        return false;
      }
      AscendingRemove(k);
      assert s !in members[..k] + members[k + 1..] by {
        forall i | k < i < |members| ensures members[i] != s {
        }
      }
      var m := members[..k] + members[k + 1..];
      assert this !in Footprint(m);
      members := m;
      return true;
    }

    lemma AscendingRemove(k: int)
      requires Ascending() && 0 <= k < |members|
      ensures AscendingUnder(env, members[..k] + members[k + 1..])
    {
      var m := members[..k] + members[k + 1..];
      forall i, j | 0 <= i < j < |m| ensures env.Compare(m[i], m[j]) < 0 {
        var i' := if i < k then i else i + 1;
        var j' := if j < k then j else j + 1;
        assert m[i] == members[i'] && m[j] == members[j'];
      }
    }

    /** `removeAll(c)`: the members that are elements of `c` (identity) are removed. */
    method RemoveAll(c: seq<Ser>) returns (changed: bool)
      requires Ascending()
      modifies this`members
      ensures Ascending()
      ensures members == Filter(old(members), c, false)
      ensures changed <==> exists x :: x in old(members) && x in c
    {
      var kept := Filter(members, c, false);
      FilterAscending(env, members, c, false);
      changed := |kept| != |members|;
      FilterSize(members, c, false);
      assert this !in Footprint(kept);
      members := kept;
      assert AscendingUnder(env, kept);
    }

    /** `retainAll(c)`: only the members that are elements of `c` (identity) are kept. */
    method RetainAll(c: seq<Ser>) returns (changed: bool)
      requires Ascending()
      modifies this`members
      ensures Ascending()
      ensures members == Filter(old(members), c, true)
      ensures changed <==> exists x :: x in old(members) && x !in c
    {
      var kept := Filter(members, c, true);
      FilterAscending(env, members, c, true);
      changed := |kept| != |members|;
      FilterSize(members, c, true);
      assert this !in Footprint(kept);
      members := kept;
      assert AscendingUnder(env, kept);
    }

    /** The filter keeps every element exactly when it drops none. */
    lemma {:induction false} FilterSize(ms: seq<Ser>, c: seq<Ser>, inside: bool)
      ensures |Filter(ms, c, inside)| == |ms| <==> forall x :: x in ms ==> (x in c) == inside
    {
      if ms != [] {
        FilterSize(ms[1..], c, inside);
        assert forall x :: x in ms <==> x == ms[0] || x in ms[1..];
      }
    }

    /** `getMelhor`: the greatest member (`TreeSet.last`); an empty population throws. */
    function GetMelhor(): (r: Result<Ser>)
      reads this
      ensures r.Fail? <==> members == []
      ensures r.Fail? ==> r.error == NoSuchElement
      ensures r.Ok? ==> r.value in members
    {
      if members == [] then Fail(NoSuchElement) else Ok(members[|members| - 1])
    }

    /** The best member is better than every other member. */
    lemma GetMelhorIsBest()
      requires Ascending() && members != []
      ensures forall m :: m in members && m != GetMelhor().value ==> env.Compare(GetMelhor().value, m) > 0
    {
      var b := GetMelhor().value;
      forall m | m in members && m != b ensures env.Compare(b, m) > 0 {
        var i :| 0 <= i < |members| && members[i] == m;
        env.CompareAntisymmetric(m, b);
      }
    }

    /** `getMelhorGrau`: the fitness stored in the best member. */
    function GetMelhorGrau(): (r: Result<Option<real>>)
      reads this, set s | s in members
      ensures r.Fail? <==> members == []
      ensures r.Ok? ==> r.value == GetMelhor().value.fitness
    {
      var best :- GetMelhor();
      Ok(best.fitness)
    }

    /**
     * `getNMelhores(n)`: the descending set limited to n, so min(n, size)
     * members best-first; a negative limit throws.
     */
    function GetNMelhores(n: int): (r: Result<seq<Ser>>)
      reads this
      ensures r.Fail? <==> n < 0
      ensures r.Fail? ==> r.error == IllegalArgument
      ensures r.Ok? ==> |r.value| == (if n < |members| then n else |members|)
      ensures r.Ok? ==> forall k :: 0 <= k < |r.value| ==> r.value[k] == members[|members| - 1 - k]
    {
      if n < 0 then Fail(IllegalArgument)
      else
        var ms := members;
        var m := if n < |ms| then n else |ms|;
        Ok(seq(m, k requires 0 <= k < m => ms[|ms| - 1 - k]))
    }

    /** The top N come best-first, and the first of them is `getMelhor`. */
    lemma GetNMelhoresDescending(n: int)
      requires Ascending() && n >= 0
      ensures var t := GetNMelhores(n).value;
              (forall i, j :: 0 <= i < j < |t| ==> env.Compare(t[i], t[j]) > 0) &&
              (t != [] ==> t[0] == GetMelhor().value)
    {
      var t := GetNMelhores(n).value;
      forall i, j | 0 <= i < j < |t| ensures env.Compare(t[i], t[j]) > 0 {
        var i', j' := |members| - 1 - i, |members| - 1 - j;
        assert j' < i';
        env.CompareAntisymmetric(members[j'], members[i']);
      }
    }

    /** `getNdistintos`: the number of distinct members, which is the size. */
    function GetNdistintos(): (n: nat)
      reads this
      ensures n == |Seqs.Elements(members)|
    {
      Seqs.ElementsSize(members);
      |Seqs.Elements(members)|
    }

    lemma NdistintosIsSize()
      requires Ascending()
      ensures GetNdistintos() == |members|
    {
      AscendingDistinct();
      Seqs.ElementsSize(members);
    }

    /**
     * `containsAll(c)` as written: it asks the tree whether the collection
     * object itself is a member. On a non-empty tree the comparator cannot
     * cast a collection to an individual; an empty tree answers false.
     */
    function ContainsAllAsWritten(c: seq<Ser>): (r: Result<bool>)
      reads this
      ensures r == if members == [] then Ok(false) else Fail(ClassCast)
    {
      if members == [] then Ok(false) else Fail(ClassCast)
    }

    /** `containsAll(c)` as the `Collection` contract means it: every element of c is a member. */
    ghost predicate ContainsAll(c: seq<Ser>)
      reads this, Footprint(members), set x | x in c, set x: Ser, g: Locus | x in c && g in x.genes :: g
    {
      forall i :: 0 <= i < |c| ==> Contains(c[i])
    }

    /** With unique ids, `ContainsAll` is inclusion of the instances. */
    lemma ContainsAllIsInclusion(c: seq<Ser>)
      requires IdsUnique(members + c)
      ensures ContainsAll(c) <==> forall x :: x in c ==> x in members
    {
      forall x | x in c ensures Contains(x) <==> x in members {
        SubsetIdsUnique(members, c, x);
        ContainsIsMembership(x);
      }
    }

    /** The discrepancy: the empty collection, contained in every population, and the members themselves. */
    lemma ContainsAllDiscrepancy()
      requires IdsUnique(members)
      ensures ContainsAll([]) && ContainsAllAsWritten([]) != Ok(true)
      ensures members != [] ==> ContainsAll(members) && ContainsAllAsWritten(members).Fail?
    {
      assert members + members == members + members;
      forall x | x in members ensures Contains(x) {
        var k :| 0 <= k < |members| && members[k] == x;
        env.CompareIsBetter(x, x);
      }
    }
  }

  /** `Populacao(ambiente, maxIndividuos)`: a null environment and a negative maximum are refused. */
  method NewPopulacao(ambiente: Ambiente?, max: int) returns (r: Result<Populacao>)
    ensures r.Ok? <==> ambiente != null && max >= 0
    ensures r.Fail? ==> r.error == IllegalArgument
    ensures r.Ok? ==> fresh(r.value) && r.value.env == ambiente && r.value.maxIndividuos == max
                      && r.value.members == []
  {
    if ambiente == null || max < 0 {
      return Fail(IllegalArgument);
    }
    var p := new Populacao(ambiente, max);
    return Ok(p);
  }
}
