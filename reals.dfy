/**
 * Real-valued individuals (`SerReal`) and their recombination operator
 * (`RecombinadorReal`): simple recombination copies the first k genes of
 * each parent into its child and blends the rest, whole arithmetic
 * recombination blends every gene. A `double` is a `real` here.
 */
module Reals {
  import opened Errors
  import opened Genes
  import opened Beings
  import opened Generators
  import Crossovers
  import Sampling

  /** `alfa * other + (1 - alfa) * own`: the blended value of the child whose own parent holds `own`. */
  function Blend(alfa: real, own: real, other: real): real {
    alfa * other + (1.0 - alfa) * own
  }

  /** What `setCaracteristicaCopia(i, v)` throws on an unevaluated child with `length` slots, for i >= 0. */
  function CopyError(v: Option<Value>, i: nat, length: nat): (e: Option<Exception>)
    ensures e.None? <==> v.Some? && Copyable(v.value) && i < length
  {
    if v.None? then Some(NullPointer)
    else if !Copyable(v.value) then Some(if v.value.Real? then IllegalArgument else NullPointer)
    else if i >= length then Some(IndexOutOfBounds)
    else None
  }

  /**
   * Step i of the first loop: par1's gene i is read and copied into child
   * 1, then par2's into child 2. The genes copied, or the first exception.
   */
  function HeadStep(g1: seq<Option<Value>>, g2: seq<Option<Value>>, i: nat, length: nat): (r: Result<(Option<Value>, Option<Value>)>)
    ensures r.Ok? <==> i < |g1| && i < |g2| && i < length && g1[i].Some? && Copyable(g1[i].value)
                       && g2[i].Some? && Copyable(g2[i].value)
    ensures r.Ok? ==> r.value == (g1[i], g2[i])
  {
    if i >= |g1| then Fail(IndexOutOfBounds)
    else if CopyError(g1[i], i, length).Some? then Fail(CopyError(g1[i], i, length).value)
    else if i >= |g2| then Fail(IndexOutOfBounds)
    else if CopyError(g2[i], i, length).Some? then Fail(CopyError(g2[i], i, length).value)
    else Ok((g1[i], g2[i]))
  }

  /** The first n steps of the first loop: the genes both children hold, or the first exception. */
  function Heads(g1: seq<Option<Value>>, g2: seq<Option<Value>>, n: nat, length: nat)
    : (r: Result<(seq<Option<Value>>, seq<Option<Value>>)>)
    ensures r.Ok? ==> n <= |g1| && n <= |g2| && n <= length && |r.value.0| == n && |r.value.1| == n
  {
    if n == 0 then Ok(([], []))
    else
      match Heads(g1, g2, n - 1, length)
      case Fail(e) => Fail(e)
      case Ok(h) =>
        match HeadStep(g1, g2, n - 1, length)
        case Fail(e) => Fail(e)
        case Ok(p) => Ok((h.0 + [p.0], h.1 + [p.1]))
  }

  /**
   * The pair of genes one blending step writes at position i: both parents'
   * genes are real loci with values, and each child gets the blend of the
   * two values around its own parent's value, inside its own parent's bounds.
   */
  predicate Blended(alfa: real, p1: Option<Value>, p2: Option<Value>, c1: Option<Value>, c2: Option<Value>) {
    p1.Some? && p1.value.Real? && p1.value.x.Some? && p2.Some? && p2.value.Real? && p2.value.x.Some? &&
    c1 == Some(Real(Some(Blend(alfa, p1.value.x.value, p2.value.x.value)), p1.value.lower, p1.value.upper)) &&
    c2 == Some(Real(Some(Blend(alfa, p2.value.x.value, p1.value.x.value)), p2.value.lower, p2.value.upper)) &&
    Copyable(c1.value) && Copyable(c2.value)
  }

  /**
   * Step i of the second loop, in the order the Java evaluates it: read and
   * cast par1's gene, read and cast par2's gene, unbox both values, build
   * child 1's locus in par1's bounds and store it, build child 2's locus in
   * par2's bounds and store a copy of it. The loci written, or the first
   * exception.
   */
  function TailStep(alfa: real, g1: seq<Option<Value>>, g2: seq<Option<Value>>, i: int, length: nat)
    : (r: Result<(Option<Value>, Option<Value>)>)
    ensures r.Ok? ==> 0 <= i < |g1| && i < |g2| && i < length && Blended(alfa, g1[i], g2[i], r.value.0, r.value.1)
    ensures i < 0 ==> r == Fail(IndexOutOfBounds)
  {
    if !(0 <= i < |g1|) then Fail(IndexOutOfBounds)
    else if g1[i].Some? && !g1[i].value.Real? then Fail(ClassCast)
    else if i >= |g2| then Fail(IndexOutOfBounds)
    else if g2[i].Some? && !g2[i].value.Real? then Fail(ClassCast)
    else if g1[i].None? || g1[i].value.x.None? then Fail(NullPointer)
    else if g2[i].None? || g2[i].value.x.None? then Fail(NullPointer)
    else BlendStep(alfa, g1[i].value, g2[i].value, i, length)
  }

  /** Step i once both genes are read: child 1's locus built and stored, then child 2's built. */
  function BlendStep(alfa: real, l1: Value, l2: Value, i: int, length: nat): Result<(Option<Value>, Option<Value>)>
    requires l1.Real? && l1.x.Some? && l2.Real? && l2.x.Some?
  {
    var n1 := NewReal(Some(Blend(alfa, l1.x.value, l2.x.value)), l1.lower, l1.upper);
    if n1.Fail? then Fail(n1.error)
    else if i >= length then Fail(IndexOutOfBounds)
    else
      var n2 := NewReal(Some(Blend(alfa, l2.x.value, l1.x.value)), l2.lower, l2.upper);
      if n2.Fail? then Fail(n2.error)
      else Ok((Some(n1.value), Some(n2.value)))
  }

  /** Steps k, ..., k + n - 1 of the second loop: the genes written, or the first exception. */
  function Tails(alfa: real, g1: seq<Option<Value>>, g2: seq<Option<Value>>, k: int, n: nat, length: nat)
    : (r: Result<(seq<Option<Value>>, seq<Option<Value>>)>)
    ensures r.Ok? && n > 0 ==> 0 <= k && k + n <= |g1| && k + n <= |g2| && k + n <= length
    ensures r.Ok? ==> |r.value.0| == n && |r.value.1| == n
  {
    if n == 0 then Ok(([], []))
    else
      match Tails(alfa, g1, g2, k, n - 1, length)
      case Fail(e) => Fail(e)
      case Ok(t) =>
        match TailStep(alfa, g1, g2, k + n - 1, length)
        case Fail(e) => Fail(e)
        case Ok(p) => Ok((t.0 + [p.0], t.1 + [p.1]))
  }

  /** The first n steps copy both parents' first n genes, each into its own child. */
  lemma {:induction false} HeadsCopy(g1: seq<Option<Value>>, g2: seq<Option<Value>>, n: nat, length: nat,
                                     h: (seq<Option<Value>>, seq<Option<Value>>))
    requires Heads(g1, g2, n, length) == Ok(h)
    ensures forall i :: 0 <= i < n ==> h.0[i] == g1[i] && h.1[i] == g2[i]
  {
    if n > 0 {
      var prev := Heads(g1, g2, n - 1, length).value;
      HeadsCopy(g1, g2, n - 1, length, prev);
      assert h == (prev.0 + [g1[n - 1]], prev.1 + [g2[n - 1]]);
    }
  }

  /** Every step of the second loop that completed wrote a blended pair. */
  lemma {:induction false} TailsBlend(alfa: real, g1: seq<Option<Value>>, g2: seq<Option<Value>>, k: int, n: nat, length: nat,
                                      t: (seq<Option<Value>>, seq<Option<Value>>))
    requires Tails(alfa, g1, g2, k, n, length) == Ok(t)
    ensures forall j :: 0 <= j < n ==> Blended(alfa, g1[k + j], g2[k + j], t.0[j], t.1[j])
  {
    if n > 0 {
      var prev := Tails(alfa, g1, g2, k, n - 1, length).value;
      var p := TailStep(alfa, g1, g2, k + n - 1, length).value;
      TailsBlend(alfa, g1, g2, k, n - 1, length, prev);
      assert t == (prev.0 + [p.0], prev.1 + [p.1]);
    }
  }

  /** How many times the first loop runs. */
  function HeadCount(k: int): nat {
    if k > 0 then k else 0
  }

  /** How many times the second loop runs. */
  function TailCount(k: int, size: nat): nat {
    if k < size then size - k else 0
  }

  /**
   * `simpleRecombination(k, alfa, par1, par2)` on the parents' genomes, for
   * children with `length` slots: the genes the two children end up
   * holding from position 0, or the exception the run throws.
   */
  function Simple(k: int, alfa: real, g1: seq<Option<Value>>, g2: seq<Option<Value>>, length: nat)
    : (r: Result<(seq<Option<Value>>, seq<Option<Value>>)>)
    ensures k > |g1| ==> r.Fail?
    ensures r.Ok? ==> 0 <= k <= |g1| && |g1| <= |g2| && |g1| <= length && |r.value.0| == |g1| && |r.value.1| == |g1|
    ensures r.Ok? ==> forall i :: 0 <= i < k ==> r.value.0[i] == g1[i] && r.value.1[i] == g2[i]
    ensures r.Ok? ==> forall i :: k <= i < |g1| ==> Blended(alfa, g1[i], g2[i], r.value.0[i], r.value.1[i])
  {
    match Heads(g1, g2, HeadCount(k), length)
    case Fail(e) => Fail(e)
    case Ok(h) =>
      match Tails(alfa, g1, g2, k, TailCount(k, |g1|), length)
      case Fail(e) => Fail(e)
      case Ok(t) =>
        SimpleShape(k, alfa, g1, g2, length, h, t);
        Ok((h.0 + t.0, h.1 + t.1))
  }

  /** A negative k skips the first loop and throws at the first read of the second. */
  lemma SimpleNegativeCut(k: int, alfa: real, g1: seq<Option<Value>>, g2: seq<Option<Value>>, length: nat)
    requires k < 0
    ensures Simple(k, alfa, g1, g2, length) == Fail(IndexOutOfBounds)
  {
    assert Tails(alfa, g1, g2, k, 1, length) == Fail(IndexOutOfBounds);
    TailsFailed(alfa, g1, g2, k, 1, TailCount(k, |g1|), length);
  }

  lemma SimpleShape(k: int, alfa: real, g1: seq<Option<Value>>, g2: seq<Option<Value>>, length: nat,
                    h: (seq<Option<Value>>, seq<Option<Value>>), t: (seq<Option<Value>>, seq<Option<Value>>))
    requires Heads(g1, g2, HeadCount(k), length) == Ok(h)
    requires Tails(alfa, g1, g2, k, TailCount(k, |g1|), length) == Ok(t)
    ensures 0 <= k <= |g1| && |g1| <= |g2| && |g1| <= length && |h.0 + t.0| == |g1| && |h.1 + t.1| == |g1|
    ensures forall i :: 0 <= i < k ==> (h.0 + t.0)[i] == g1[i] && (h.1 + t.1)[i] == g2[i]
    ensures forall i :: k <= i < |g1| ==> Blended(alfa, g1[i], g2[i], (h.0 + t.0)[i], (h.1 + t.1)[i])
  {
    HeadsCopy(g1, g2, HeadCount(k), length, h);
    TailsBlend(alfa, g1, g2, k, TailCount(k, |g1|), length, t);
    forall i | 0 <= i < k ensures (h.0 + t.0)[i] == g1[i] && (h.1 + t.1)[i] == g2[i] {
      assert (h.0 + t.0)[i] == h.0[i] && (h.1 + t.1)[i] == h.1[i];
    }
    forall i | k <= i < |g1| ensures Blended(alfa, g1[i], g2[i], (h.0 + t.0)[i], (h.1 + t.1)[i]) {
      assert (h.0 + t.0)[i] == t.0[i - k] && (h.1 + t.1)[i] == t.1[i - k];
    }
  }

  /** Once the first loop has thrown, every longer run throws the same exception. */
  lemma {:induction false} HeadsFailed(g1: seq<Option<Value>>, g2: seq<Option<Value>>, n: nat, m: nat, length: nat)
    requires Heads(g1, g2, n, length).Fail? && n <= m
    ensures Heads(g1, g2, m, length) == Heads(g1, g2, n, length)
    decreases m
  {
    if m > n {
      HeadsFailed(g1, g2, n, m - 1, length);
    }
  }

  /** Once the second loop has thrown, every longer run throws the same exception. */
  lemma {:induction false} TailsFailed(alfa: real, g1: seq<Option<Value>>, g2: seq<Option<Value>>, k: int, n: nat, m: nat, length: nat)
    requires Tails(alfa, g1, g2, k, n, length).Fail? && n <= m
    ensures Tails(alfa, g1, g2, k, m, length) == Tails(alfa, g1, g2, k, n, length)
    decreases m
  {
    if m > n {
      TailsFailed(alfa, g1, g2, k, n, m - 1, length);
    }
  }

  /** `setCaracteristicaCopia(i, src)` on a child holding `front`, with i == |front|. */
  method CopyInto(f: Ser, i: nat, src: Locus?, ghost front: seq<Option<Value>>, ghost length: nat) returns (w: Outcome)
    requires Crossovers.Holds(f, front, length) && i == |front|
    modifies f`genes
    ensures w.Pass? <==> CopyError(Slot(src), i, length).None?
    ensures w.Throw? ==> w.error == CopyError(Slot(src), i, length).value
    ensures w.Pass? ==> Crossovers.Holds(f, front + [Slot(src)], length)
  {
    ghost var copy;
    w, copy := f.SetCaracteristicaCopia(i, src);
    if w.Pass? {
      forall j | 0 <= j < |front| + 1 ensures f.genes[j] != null && (front + [Slot(src)])[j] == Some(f.genes[j].value) {
      }
    }
  }

  /** Half a pass of the first loop: `par.getCaracteristica(i)`, copied into the child. */
  method CopyGeneAt(f: Ser, i: nat, par: Ser, ghost g: seq<Option<Value>>, ghost front: seq<Option<Value>>, ghost length: nat)
    returns (w: Outcome)
    requires f != par && Crossovers.Holds(f, front, length) && |front| == i && g == par.Genome()
    modifies f`genes
    ensures g == par.Genome()
    ensures w.Pass? <==> i < |g| && CopyError(g[i], i, length).None?
    ensures w.Throw? ==> w.error == if i >= |g| then IndexOutOfBounds else CopyError(g[i], i, length).value
    ensures w.Pass? ==> Crossovers.Holds(f, front + [g[i]], length)
  {
    var o := par.GetCaracteristica(i);
    if o.Fail? {
      return Throw(o.error);
    }
    w := CopyInto(f, i, o.value, front, length);
  }

  /** One pass of the first loop: the copies of both parents' gene i. */
  method HeadStepAt(f1: Ser, f2: Ser, i: nat, par1: Ser, par2: Ser, ghost g1: seq<Option<Value>>, ghost g2: seq<Option<Value>>,
                    ghost h: (seq<Option<Value>>, seq<Option<Value>>), ghost length: nat)
    returns (w: Outcome)
    requires f1 != f2 && f1 != par1 && f1 != par2 && f2 != par1 && f2 != par2
    requires Crossovers.Holds(f1, h.0, length) && Crossovers.Holds(f2, h.1, length) && |h.0| == i && |h.1| == i
    requires g1 == par1.Genome() && g2 == par2.Genome()
    modifies f1`genes, f2`genes
    ensures g1 == par1.Genome() && g2 == par2.Genome()
    ensures w.Pass? <==> HeadStep(g1, g2, i, length).Ok?
    ensures w.Throw? ==> HeadStep(g1, g2, i, length) == Fail(w.error)
    ensures w.Pass? ==> Crossovers.Holds(f1, h.0 + [g1[i]], length) && Crossovers.Holds(f2, h.1 + [g2[i]], length)
  {
    w := CopyGeneAt(f1, i, par1, g1, h.0, length);
    if w.Throw? {
      return;
    }
    assert g2 == par2.Genome() && Crossovers.Holds(f2, h.1, length);
    ghost var held := f1.genes;
    w := CopyGeneAt(f2, i, par2, g2, h.1, length);
    assert f1.genes == held;
  }

  /** The first loop, `for (i = 0; i < k; i++)`: the heads of both parents, copied. */
  method CopyHeads(f1: Ser, f2: Ser, k: int, par1: Ser, par2: Ser, ghost g1: seq<Option<Value>>, ghost g2: seq<Option<Value>>,
                   ghost length: nat)
    returns (w: Outcome, ghost h: (seq<Option<Value>>, seq<Option<Value>>))
    requires f1 != f2 && f1 != par1 && f1 != par2 && f2 != par1 && f2 != par2
    requires Crossovers.Holds(f1, [], length) && Crossovers.Holds(f2, [], length)
    requires g1 == par1.Genome() && g2 == par2.Genome()
    modifies f1`genes, f2`genes
    ensures g1 == par1.Genome() && g2 == par2.Genome()
    ensures w.Pass? <==> Heads(g1, g2, HeadCount(k), length).Ok?
    ensures w.Throw? ==> Heads(g1, g2, HeadCount(k), length) == Fail(w.error)
    ensures w.Pass? ==> Heads(g1, g2, HeadCount(k), length) == Ok(h) &&
                        Crossovers.Holds(f1, h.0, length) && Crossovers.Holds(f2, h.1, length)
  {
    h := ([], []);
    var i := 0;
    while i < k
      invariant 0 <= i <= HeadCount(k)
      invariant Heads(g1, g2, i, length) == Ok(h)
      invariant Crossovers.Holds(f1, h.0, length) && Crossovers.Holds(f2, h.1, length)
      invariant g1 == par1.Genome() && g2 == par2.Genome()
    {
      w := HeadStepAt(f1, f2, i, par1, par2, g1, g2, h, length);
      if w.Throw? {
        HeadsFailed(g1, g2, i + 1, HeadCount(k), length);
        return;
      }
      h := (h.0 + [g1[i]], h.1 + [g2[i]]);
      i := i + 1;
    }
    w := Pass;
  }

  /** A fresh locus holding `v`, stored by `setCaracteristica(i, ...)` in a child holding `front`. */
  method StoreNew(f: Ser, i: nat, v: Value, ghost front: seq<Option<Value>>, ghost length: nat) returns (w: Outcome)
    requires Crossovers.Holds(f, front, length) && i == |front|
    modifies f`genes
    ensures w.Pass? <==> i < length
    ensures w.Throw? ==> w.error == IndexOutOfBounds
    ensures w.Pass? ==> Crossovers.Holds(f, front + [Some(v)], length)
  {
    var novo := new Locus(v);
    w := f.SetCaracteristica(i, novo);
    if w.Pass? {
      forall j | 0 <= j < |front| + 1 ensures f.genes[j] != null && (front + [Some(v)])[j] == Some(f.genes[j].value) {
      }
    }
  }

  /** The reads, casts and unboxing that open a pass of the second loop: both parents' real loci at i. */
  method ReadPair(i: int, par1: Ser, par2: Ser, ghost g1: seq<Option<Value>>, ghost g2: seq<Option<Value>>)
    returns (r: Result<(Value, Value)>)
    requires g1 == par1.Genome() && g2 == par2.Genome()
    ensures r.Ok? <==> 0 <= i < |g1| && i < |g2| && g1[i].Some? && g1[i].value.Real? && g1[i].value.x.Some?
                       && g2[i].Some? && g2[i].value.Real? && g2[i].value.x.Some?
    ensures r.Ok? ==> r.value == (g1[i].value, g2[i].value)
    ensures r.Fail? ==> TailStep(0.0, g1, g2, i, 0) == Fail(r.error)
  {
    var o1 := par1.GetCaracteristica(i);
    if o1.Fail? {
      return Fail(o1.error);
    }
    var locus1 := o1.value;
    if locus1 != null && !locus1.value.Real? {
      return Fail(ClassCast);
    }
    var o2 := par2.GetCaracteristica(i);
    if o2.Fail? {
      return Fail(o2.error);
    }
    var locus2 := o2.value;
    if locus2 != null && !locus2.value.Real? {
      return Fail(ClassCast);
    }
    if locus1 == null || locus1.value.x.None? {
      return Fail(NullPointer);
    }
    if locus2 == null || locus2.value.x.None? {
      return Fail(NullPointer);
    }
    return Ok((locus1.value, locus2.value));
  }

  /** One pass of the second loop: the two blended loci at i. */
  method TailStepAt(f1: Ser, f2: Ser, i: int, alfa: real, par1: Ser, par2: Ser,
                    ghost g1: seq<Option<Value>>, ghost g2: seq<Option<Value>>,
                    ghost fr: (seq<Option<Value>>, seq<Option<Value>>), ghost length: nat)
    returns (w: Outcome)
    requires f1 != f2 && f1 != par1 && f1 != par2 && f2 != par1 && f2 != par2
    requires Crossovers.Holds(f1, fr.0, length) && Crossovers.Holds(f2, fr.1, length)
    requires i < 0 || (|fr.0| == i && |fr.1| == i)
    requires g1 == par1.Genome() && g2 == par2.Genome()
    modifies f1`genes, f2`genes
    ensures g1 == par1.Genome() && g2 == par2.Genome()
    ensures w.Pass? <==> TailStep(alfa, g1, g2, i, length).Ok?
    ensures w.Throw? ==> TailStep(alfa, g1, g2, i, length) == Fail(w.error)
    ensures w.Pass? ==> Crossovers.Holds(f1, fr.0 + [TailStep(alfa, g1, g2, i, length).value.0], length)
                        && Crossovers.Holds(f2, fr.1 + [TailStep(alfa, g1, g2, i, length).value.1], length)
  {
    var pair := ReadPair(i, par1, par2, g1, g2);
    if pair.Fail? {
      return Throw(pair.error);
    }
    var (l1, l2) := pair.value;
    w := WriteBlend(f1, f2, i, alfa, l1, l2, fr, length);
    assert TailStep(alfa, g1, g2, i, length) == BlendStep(alfa, l1, l2, i, length);
  }

  /** The writes of pass i once both genes are read: child 1's new locus, then a copy of child 2's. */
  method WriteBlend(f1: Ser, f2: Ser, i: nat, alfa: real, l1: Value, l2: Value,
                    ghost fr: (seq<Option<Value>>, seq<Option<Value>>), ghost length: nat)
    returns (w: Outcome)
    requires f1 != f2 && l1.Real? && l1.x.Some? && l2.Real? && l2.x.Some?
    requires Crossovers.Holds(f1, fr.0, length) && Crossovers.Holds(f2, fr.1, length) && |fr.0| == i && |fr.1| == i
    modifies f1`genes, f2`genes
    ensures w.Pass? <==> BlendStep(alfa, l1, l2, i, length).Ok?
    ensures w.Throw? ==> BlendStep(alfa, l1, l2, i, length) == Fail(w.error)
    ensures w.Pass? ==> Crossovers.Holds(f1, fr.0 + [BlendStep(alfa, l1, l2, i, length).value.0], length)
                        && Crossovers.Holds(f2, fr.1 + [BlendStep(alfa, l1, l2, i, length).value.1], length)
  {
    var n1 := NewReal(Some(Blend(alfa, l1.x.value, l2.x.value)), l1.lower, l1.upper);
    if n1.Fail? {
      return Throw(n1.error);
    }
    w := StoreNew(f1, i, n1.value, fr.0, length);
    if w.Throw? {
      return;
    }
    var n2 := NewReal(Some(Blend(alfa, l2.x.value, l1.x.value)), l2.lower, l2.upper);
    if n2.Fail? {
      return Throw(n2.error);
    }
    var novo2 := new Locus(n2.value);
    w := CopyInto(f2, i, novo2, fr.1, length);
  }

  /**
   * After the passes of the second loop from k up to i: they wrote the
   * loci `t`, and the children hold `fr`, the heads `h` followed by `t`.
   */
  ghost predicate TailState(f1: Ser, f2: Ser, alfa: real, g1: seq<Option<Value>>, g2: seq<Option<Value>>, k: int, i: int,
                            h: (seq<Option<Value>>, seq<Option<Value>>), t: (seq<Option<Value>>, seq<Option<Value>>),
                            fr: (seq<Option<Value>>, seq<Option<Value>>), length: nat)
    reads f1, f2, LociOf(f1.genes), LociOf(f2.genes)
  {
    k <= i && (k < 0 ==> i == k) && (k >= 0 ==> |h.0| == k && |h.1| == k) &&
    Tails(alfa, g1, g2, k, i - k, length) == Ok(t) && fr == (h.0 + t.0, h.1 + t.1) &&
    Crossovers.Holds(f1, fr.0, length) && Crossovers.Holds(f2, fr.1, length)
  }

  /** Pass i of the second loop, with what the children hold before it. */
  method TailRound(f1: Ser, f2: Ser, i: int, k: int, alfa: real, par1: Ser, par2: Ser,
                   ghost g1: seq<Option<Value>>, ghost g2: seq<Option<Value>>,
                   ghost h: (seq<Option<Value>>, seq<Option<Value>>), ghost t: (seq<Option<Value>>, seq<Option<Value>>),
                   ghost fr: (seq<Option<Value>>, seq<Option<Value>>), ghost length: nat)
    returns (w: Outcome, ghost t': (seq<Option<Value>>, seq<Option<Value>>), ghost fr': (seq<Option<Value>>, seq<Option<Value>>))
    requires f1 != f2 && f1 != par1 && f1 != par2 && f2 != par1 && f2 != par2
    requires TailState(f1, f2, alfa, g1, g2, k, i, h, t, fr, length) && i < |g1|
    requires g1 == par1.Genome() && g2 == par2.Genome()
    modifies f1`genes, f2`genes
    ensures g1 == par1.Genome() && g2 == par2.Genome()
    ensures w.Pass? ==> TailState(f1, f2, alfa, g1, g2, k, i + 1, h, t', fr', length)
    ensures w.Throw? ==> Tails(alfa, g1, g2, k, TailCount(k, |g1|), length) == Fail(w.error)
  {
    t', fr' := t, fr;
    ghost var n := i - k;
    assert Tails(alfa, g1, g2, k, n, length) == Ok(t);
    w := TailStepAt(f1, f2, i, alfa, par1, par2, g1, g2, fr, length);
    if w.Throw? {
      TailsStop(alfa, g1, g2, k, n, i, length, t);
      return;
    }
    ghost var p := TailStep(alfa, g1, g2, i, length).value;
    TailsGrow(alfa, g1, g2, k, n, i, length, h, t, p);
    t', fr' := (t.0 + [p.0], t.1 + [p.1]), (fr.0 + [p.0], fr.1 + [p.1]);
  }

  /** The second loop, `for (i = k; i < par1.getSize(); i++)`, after the heads `h`. */
  method BlendTails(f1: Ser, f2: Ser, k: int, alfa: real, par1: Ser, par2: Ser,
                    ghost g1: seq<Option<Value>>, ghost g2: seq<Option<Value>>,
                    ghost h: (seq<Option<Value>>, seq<Option<Value>>), ghost length: nat)
    returns (w: Outcome, ghost t: (seq<Option<Value>>, seq<Option<Value>>), ghost fr: (seq<Option<Value>>, seq<Option<Value>>))
    requires f1 != f2 && f1 != par1 && f1 != par2 && f2 != par1 && f2 != par2
    requires Heads(g1, g2, HeadCount(k), length) == Ok(h)
    requires Crossovers.Holds(f1, h.0, length) && Crossovers.Holds(f2, h.1, length)
    requires g1 == par1.Genome() && g2 == par2.Genome()
    modifies f1`genes, f2`genes
    ensures w.Pass? <==> Tails(alfa, g1, g2, k, TailCount(k, |g1|), length).Ok?
    ensures w.Throw? ==> Tails(alfa, g1, g2, k, TailCount(k, |g1|), length) == Fail(w.error)
    ensures w.Pass? ==> Tails(alfa, g1, g2, k, TailCount(k, |g1|), length) == Ok(t) && fr == (h.0 + t.0, h.1 + t.1) &&
                        Crossovers.Holds(f1, fr.0, length) && Crossovers.Holds(f2, fr.1, length)
  {
    t := ([], []);
    fr := h;
    var i := k;
    assert h.0 + [] == h.0 && h.1 + [] == h.1;
    while i < |par1.genes|
      invariant TailState(f1, f2, alfa, g1, g2, k, i, h, t, fr, length) && i - k <= TailCount(k, |g1|)
      invariant g1 == par1.Genome() && g2 == par2.Genome()
    {
      w, t, fr := TailRound(f1, f2, i, k, alfa, par1, par2, g1, g2, h, t, fr, length);
      if w.Throw? {
        return;
      }
      i := i + 1;
    }
    TailsDone(alfa, g1, g2, k, i, h, t, length);
    w := Pass;
  }

  /** The second loop stops at par1's end: it made `TailCount` passes. */
  lemma TailsDone(alfa: real, g1: seq<Option<Value>>, g2: seq<Option<Value>>, k: int, i: int,
                  h: (seq<Option<Value>>, seq<Option<Value>>), t: (seq<Option<Value>>, seq<Option<Value>>), length: nat)
    requires k <= i && i - k <= TailCount(k, |g1|) && i >= |g1|
    requires Tails(alfa, g1, g2, k, i - k, length) == Ok(t)
    ensures Tails(alfa, g1, g2, k, TailCount(k, |g1|), length) == Ok(t)
  {
  }

  /** A pass of the second loop that throws ends the whole loop with its exception. */
  lemma TailsStop(alfa: real, g1: seq<Option<Value>>, g2: seq<Option<Value>>, k: int, n: nat, i: int, length: nat,
                  t: (seq<Option<Value>>, seq<Option<Value>>))
    requires i == k + n && Tails(alfa, g1, g2, k, n, length) == Ok(t) && TailStep(alfa, g1, g2, i, length).Fail?
    requires n < TailCount(k, |g1|)
    ensures Tails(alfa, g1, g2, k, TailCount(k, |g1|), length) == Fail(TailStep(alfa, g1, g2, i, length).error)
  {
    assert Tails(alfa, g1, g2, k, n + 1, length) == Fail(TailStep(alfa, g1, g2, k + n, length).error);
    TailsFailed(alfa, g1, g2, k, n + 1, TailCount(k, |g1|), length);
  }

  /** One more pass of the second loop appends its pair of loci to what the children hold. */
  lemma TailsGrow(alfa: real, g1: seq<Option<Value>>, g2: seq<Option<Value>>, k: int, n: nat, i: int, length: nat,
                  h: (seq<Option<Value>>, seq<Option<Value>>), t: (seq<Option<Value>>, seq<Option<Value>>),
                  p: (Option<Value>, Option<Value>))
    requires i == k + n && Tails(alfa, g1, g2, k, n, length) == Ok(t) && TailStep(alfa, g1, g2, i, length) == Ok(p)
    ensures Tails(alfa, g1, g2, k, n + 1, length) == Ok((t.0 + [p.0], t.1 + [p.1]))
    ensures (h.0 + t.0) + [p.0] == h.0 + (t.0 + [p.0]) && (h.1 + t.1) + [p.1] == h.1 + (t.1 + [p.1])
  {
  }

  /**
   * The instance `simpleRecombination(k, alfa, par1, par2)`: two fresh
   * children from the generator, then the two loops. The run follows
   * `Simple` step for step and throws the exception it names.
   */
  method SimpleRecombination(gerador: Gerador, k: int, alfa: real, par1: Ser, par2: Ser) returns (r: Result<seq<Ser>>)
    modifies gerador.counter
    ensures gerador.counter.next == old(gerador.counter.next) + 2
    ensures r.Ok? <==> Simple(k, alfa, old(par1.Genome()), old(par2.Genome()), gerador.length).Ok?
    ensures r.Fail? ==> Simple(k, alfa, old(par1.Genome()), old(par2.Genome()), gerador.length) == Fail(r.error)
    ensures r.Ok? ==> |r.value| == 2 && fresh(r.value[0]) && fresh(r.value[1]) && r.value[0] != r.value[1]
    ensures r.Ok? ==> r.value[0].species == gerador.species && r.value[1].species == gerador.species
                      && r.value[0].fitness.None? && r.value[1].fitness.None?
    ensures r.Ok? ==>
              r.value[0].Genome() == Crossovers.Padded(Simple(k, alfa, old(par1.Genome()), old(par2.Genome()), gerador.length).value.0, gerador.length) &&
              r.value[1].Genome() == Crossovers.Padded(Simple(k, alfa, old(par1.Genome()), old(par2.Genome()), gerador.length).value.1, gerador.length)
  {
    ghost var g1, g2 := par1.Genome(), par2.Genome();
    var f1 := gerador.Get();
    var f2 := gerador.Get();
    assert par1.Genome() == g1 && par2.Genome() == g2;
    assert Crossovers.Holds(f1, [], gerador.length) && Crossovers.Holds(f2, [], gerador.length);
    var w;
    ghost var h, t, fr;
    w, h := CopyHeads(f1, f2, k, par1, par2, g1, g2, gerador.length);
    if w.Throw? {
      return Fail(w.error);
    }
    w, t, fr := BlendTails(f1, f2, k, alfa, par1, par2, g1, g2, h, gerador.length);
    if w.Throw? {
      return Fail(w.error);
    }
    Crossovers.HoldsGenome(f1, fr.0, gerador.length);
    Crossovers.HoldsGenome(f2, fr.1, gerador.length);
    return Ok([f1, f2]);
  }

  /** The random overload: k is drawn from [0, |par1|) before any child is made. */
  method SimpleRecombinationAleatorio(gerador: Gerador, alfa: real, par1: Ser, par2: Ser) returns (r: Result<seq<Ser>>, k: int)
    modifies gerador.counter
    ensures |par1.genes| == 0 ==> r == Fail(IllegalArgument) && gerador.counter.next == old(gerador.counter.next)
    ensures |par1.genes| > 0 ==> 0 <= k < |par1.genes| && gerador.counter.next == old(gerador.counter.next) + 2
    ensures |par1.genes| > 0 ==>
              (r.Ok? <==> Simple(k, alfa, old(par1.Genome()), old(par2.Genome()), gerador.length).Ok?) &&
              (r.Fail? ==> Simple(k, alfa, old(par1.Genome()), old(par2.Genome()), gerador.length) == Fail(r.error))
    ensures r.Ok? ==> |r.value| == 2 && fresh(r.value[0]) && fresh(r.value[1]) && r.value[0] != r.value[1]
    ensures r.Ok? ==>
              r.value[0].Genome() == Crossovers.Padded(Simple(k, alfa, old(par1.Genome()), old(par2.Genome()), gerador.length).value.0, gerador.length) &&
              r.value[1].Genome() == Crossovers.Padded(Simple(k, alfa, old(par1.Genome()), old(par2.Genome()), gerador.length).value.1, gerador.length)
  {
    ghost var g1, g2 := par1.Genome(), par2.Genome();
    var cut := Sampling.GetUniformeSer(par1);
    if cut.Fail? {
      return Fail(cut.error), 0;
    }
    k := cut.value;
    assert par1.Genome() == g1 && par2.Genome() == g2;
    r := SimpleRecombination(gerador, k, alfa, par1, par2);
  }

  /** `wholeArithmeticRecombination(alfa, par1, par2)`: simple recombination from k = 0, every gene blended. */
  method WholeArithmeticRecombination(gerador: Gerador, alfa: real, par1: Ser, par2: Ser) returns (r: Result<seq<Ser>>)
    modifies gerador.counter
    ensures gerador.counter.next == old(gerador.counter.next) + 2
    ensures r.Ok? <==> Simple(0, alfa, old(par1.Genome()), old(par2.Genome()), gerador.length).Ok?
    ensures r.Fail? ==> Simple(0, alfa, old(par1.Genome()), old(par2.Genome()), gerador.length) == Fail(r.error)
    ensures r.Ok? ==> |r.value| == 2 && fresh(r.value[0]) && fresh(r.value[1]) && r.value[0] != r.value[1]
    ensures r.Ok? ==>
              r.value[0].Genome() == Crossovers.Padded(Simple(0, alfa, old(par1.Genome()), old(par2.Genome()), gerador.length).value.0, gerador.length) &&
              r.value[1].Genome() == Crossovers.Padded(Simple(0, alfa, old(par1.Genome()), old(par2.Genome()), gerador.length).value.1, gerador.length)
  {
    r := SimpleRecombination(gerador, 0, alfa, par1, par2);
  }

  /** Exchanging equally long parents exchanges the children. */
  lemma SimpleSwap(k: int, alfa: real, g1: seq<Option<Value>>, g2: seq<Option<Value>>, length: nat)
    requires |g1| == |g2| && Simple(k, alfa, g1, g2, length).Ok?
    ensures Simple(k, alfa, g2, g1, length) == Ok((Simple(k, alfa, g1, g2, length).value.1, Simple(k, alfa, g1, g2, length).value.0))
  {
    var h := Heads(g1, g2, HeadCount(k), length).value;
    var t := Tails(alfa, g1, g2, k, TailCount(k, |g1|), length).value;
    HeadsSwap(g1, g2, HeadCount(k), length, h);
    TailsSwap(alfa, g1, g2, k, TailCount(k, |g1|), length, t);
  }

  lemma {:induction false} HeadsSwap(g1: seq<Option<Value>>, g2: seq<Option<Value>>, n: nat, length: nat,
                                     h: (seq<Option<Value>>, seq<Option<Value>>))
    requires Heads(g1, g2, n, length) == Ok(h)
    ensures Heads(g2, g1, n, length) == Ok((h.1, h.0))
  {
    if n > 0 {
      var prev := Heads(g1, g2, n - 1, length).value;
      HeadsSwap(g1, g2, n - 1, length, prev);
      assert HeadStep(g2, g1, n - 1, length) == Ok((g2[n - 1], g1[n - 1]));
    }
  }

  lemma {:induction false} TailsSwap(alfa: real, g1: seq<Option<Value>>, g2: seq<Option<Value>>, k: int, n: nat, length: nat,
                                     t: (seq<Option<Value>>, seq<Option<Value>>))
    requires |g1| == |g2| && Tails(alfa, g1, g2, k, n, length) == Ok(t)
    ensures Tails(alfa, g2, g1, k, n, length) == Ok((t.1, t.0))
  {
    if n > 0 {
      var prev := Tails(alfa, g1, g2, k, n - 1, length).value;
      TailsSwap(alfa, g1, g2, k, n - 1, length, prev);
      var p := TailStep(alfa, g1, g2, k + n - 1, length).value;
      assert TailStep(alfa, g2, g1, k + n - 1, length) == Ok((p.1, p.0));
    }
  }

  /** With alfa = 0 nothing is blended: child 1 is a copy of par1, child 2 of par2's first |par1| genes. */
  lemma SimpleZeroAlfa(k: int, g1: seq<Option<Value>>, g2: seq<Option<Value>>, length: nat)
    requires Simple(k, 0.0, g1, g2, length).Ok?
    ensures Simple(k, 0.0, g1, g2, length).value.0 == g1
    ensures Simple(k, 0.0, g1, g2, length).value.1 == g2[..|g1|]
  {
    var c := Simple(k, 0.0, g1, g2, length).value;
    forall i | k <= i < |g1| ensures c.0[i] == g1[i] && c.1[i] == g2[i] {
      assert Blended(0.0, g1[i], g2[i], c.0[i], c.1[i]);
    }
    assert c.0 == g1;
    assert c.1 == g2[..|g1|];
  }

  /** Blending keeps the sum of each pair of values: what one child gains, the other loses. */
  lemma SimpleConserves(k: int, alfa: real, g1: seq<Option<Value>>, g2: seq<Option<Value>>, length: nat, i: int)
    requires Simple(k, alfa, g1, g2, length).Ok? && k <= i < |g1|
    ensures Simple(k, alfa, g1, g2, length).value.0[i].value.x.value + Simple(k, alfa, g1, g2, length).value.1[i].value.x.value
            == g1[i].value.x.value + g2[i].value.x.value
  {
    var c := Simple(k, alfa, g1, g2, length).value;
    assert Blended(alfa, g1[i], g2[i], c.0[i], c.1[i]);
    var a, b := g1[i].value.x.value, g2[i].value.x.value;
    assert Blend(alfa, a, b) + Blend(alfa, b, a) == a + b;
  }

  /** Position i of both parents holds a real value inside the same bounds [lower, upper). */
  predicate Compatible(g1: seq<Option<Value>>, g2: seq<Option<Value>>, i: int)
    requires 0 <= i < |g1| && i < |g2|
  {
    g1[i].Some? && g1[i].value.Real? && g1[i].value.x.Some? &&
    g2[i].Some? && g2[i].value.Real? && g2[i].value.x.Some? &&
    g1[i].value.lower == g2[i].value.lower && g1[i].value.upper == g2[i].value.upper &&
    Admissible(g1[i].value) && Admissible(g2[i].value)
  }

  /** For 0 <= alfa <= 1 a blend lies between its two values, so it stays inside their common bounds. */
  lemma BlendWithin(alfa: real, a: real, b: real, lower: real, upper: real)
    requires 0.0 <= alfa <= 1.0 && lower <= a < upper && lower <= b < upper
    ensures lower <= Blend(alfa, a, b) < upper
  {
    BlendShift(alfa, a, b);
    if a <= b {
      MulNonNegative(alfa, b - a);
      MulNonNegative(1.0 - alfa, b - a);
    } else {
      MulNonNegative(alfa, a - b);
      MulNonNegative(1.0 - alfa, a - b);
    }
  }

  /** The blend moves from its own value by alfa times the distance to the other, and by less than all of it. */
  lemma BlendShift(alfa: real, a: real, b: real)
    ensures Blend(alfa, a, b) == a + alfa * (b - a)
    ensures alfa * (b - a) == -(alfa * (a - b))
    ensures (1.0 - alfa) * (b - a) == (b - a) - alfa * (b - a)
    ensures (1.0 - alfa) * (a - b) == (a - b) - alfa * (a - b)
  {
  }

  lemma MulNonNegative(x: real, y: real)
    requires 0.0 <= x && 0.0 <= y
    ensures 0.0 <= x * y
  {
  }

  /**
   * Convex blends of compatible parents never throw: with 0 <= alfa <= 1,
   * any cut in [0, |par1|] and children long enough, simple recombination
   * returns two children.
   */
  lemma SimpleInRange(k: int, alfa: real, g1: seq<Option<Value>>, g2: seq<Option<Value>>, length: nat)
    requires 0.0 <= alfa <= 1.0 && 0 <= k <= |g1| <= |g2| && |g1| <= length
    requires forall i :: 0 <= i < |g1| ==> Compatible(g1, g2, i)
    ensures Simple(k, alfa, g1, g2, length).Ok?
  {
    HeadsInRange(g1, g2, k, length);
    TailsInRange(alfa, g1, g2, k, |g1| - k, length);
  }

  lemma {:induction false} HeadsInRange(g1: seq<Option<Value>>, g2: seq<Option<Value>>, n: nat, length: nat)
    requires n <= |g1| <= |g2| && |g1| <= length
    requires forall i :: 0 <= i < |g1| ==> Compatible(g1, g2, i)
    ensures Heads(g1, g2, n, length).Ok?
  {
    if n > 0 {
      HeadsInRange(g1, g2, n - 1, length);
      assert Compatible(g1, g2, n - 1);
    }
  }

  lemma {:induction false} TailsInRange(alfa: real, g1: seq<Option<Value>>, g2: seq<Option<Value>>, k: int, n: nat, length: nat)
    requires 0.0 <= alfa <= 1.0 && 0 <= k && k + n <= |g1| <= |g2| && |g1| <= length
    requires forall i :: 0 <= i < |g1| ==> Compatible(g1, g2, i)
    ensures Tails(alfa, g1, g2, k, n, length).Ok?
  {
    if n > 0 {
      TailsInRange(alfa, g1, g2, k, n - 1, length);
      var i := k + n - 1;
      assert Compatible(g1, g2, i);
      var l1, l2 := g1[i].value, g2[i].value;
      BlendWithin(alfa, l1.x.value, l2.x.value, l1.lower, l1.upper);
      BlendWithin(alfa, l2.x.value, l1.x.value, l2.lower, l2.upper);
      assert TailStep(alfa, g1, g2, i, length).Ok?;
    }
  }

  /** `SerReal(n)`: the `SerFixo` constructor with n empty slots; n <= 0 is refused. */
  method NewSerReal(counter: IdCounter, n: int) returns (r: Result<Ser>)
    modifies counter
    ensures counter.next == old(counter.next) + 1
    ensures r.Ok? <==> n > 0
    ensures r.Fail? ==> r.error == IllegalArgument
    ensures r.Ok? ==> fresh(r.value) && r.value.id == old(counter.next) && r.value.species == Plain
                      && r.value.Unborn(n) && r.value.Valid()
  {
    r := NewSerFixo(counter, n, Plain);
  }

  /**
   * `doubleListToLocusList(list)`: one fresh locus per value, in order,
   * each with the bounds [-Double.MAX_VALUE, Double.MAX_VALUE). The first
   * value outside them throws.
   */
  method DoubleListToLocusList(xs: seq<Option<real>>) returns (r: Result<seq<Locus>>)
    ensures r.Ok? <==> forall k :: 0 <= k < |xs| ==> NewRealUnbounded(xs[k]).Ok?
    ensures r.Fail? ==> r.error == IllegalArgument
    ensures r.Ok? ==> |r.value| == |xs| && forall k, j :: 0 <= k < j < |r.value| ==> r.value[k] != r.value[j]
    ensures r.Ok? ==> forall k :: 0 <= k < |xs| ==>
                        fresh(r.value[k]) && r.value[k].owner == null && r.value[k].value == Real(xs[k], -MaxDouble, MaxDouble)
  {
    var loci: seq<Locus> := [];
    var i := 0;
    while i < |xs|
      invariant 0 <= i <= |xs| && |loci| == i && forall k, j :: 0 <= k < j < |loci| ==> loci[k] != loci[j]
      invariant forall k :: 0 <= k < i ==> NewRealUnbounded(xs[k]).Ok?
      invariant forall k :: 0 <= k < i ==>
                  fresh(loci[k]) && loci[k].owner == null && loci[k].value == Real(xs[k], -MaxDouble, MaxDouble)
    {
      var v := NewRealUnbounded(xs[i]);
      if v.Fail? {
        return Fail(v.error);
      }
      var g := new Locus(v.value);
      loci := loci + [g];
      i := i + 1;
    }
    return Ok(loci);
  }
}
