/**
 * Genes (`Caracteristica` and its loci). Every locus is one `Locus` object
 * holding its owner and a `Value`; the constructor of `Value` names the Java
 * locus class.
 */
module Genes {
  import opened Errors
  import Random

  datatype Value =
      /** ic.populacional.seres.binarios.LocusBinario, whose `Boolean` may be null */
    | Bit(bit: Option<bool>)
      /** ic.ce.seres.binarios.LocusBinario, whose `Boolean` may be null */
    | BoxedBit(boxed: Option<bool>)
      /** LocusInteiro */
    | Integer(n: int)
      /** LocusPermutacao (both packages) */
    | Permutation(p: int)
      /** LocusReal: a nullable value and final bounds [lower, upper) */
    | Real(x: Option<real>, lower: real, upper: real)

  /** The Java class of a locus together with its final fields: what no setter can change. */
  predicate SameKind(a: Value, b: Value) {
    match a
    case Bit(_) => b.Bit?
    case BoxedBit(_) => b.BoxedBit?
    case Integer(_) => b.Integer?
    case Permutation(_) => b.Permutation?
    case Real(_, lo, hi) => b.Real? && b.lower == lo && b.upper == hi
  }

  /** `LocusReal.setValor`'s check: null, or lower <= x < upper. */
  predicate Admissible(v: Value) {
    v.Real? ==> (v.x.None? || v.lower <= v.x.value < v.upper)
  }

  /**
   * What `copia` can rebuild: a real value inside its bounds (the checking
   * constructor), and a non-null bit for the `ic.populacional` binary locus
   * (whose `getBit` unboxes).
   */
  predicate Copyable(v: Value) {
    Admissible(v) && !(v.Bit? && v.bit.None?)
  }

  /** `Double.MAX_VALUE`, (2 - 2^-52) * 2^1023. */
  const MaxDouble: real := 179769313486231570814527423731704356798070567525844996598917476803157260780028538760589558632766878171540458953514382464234321326889464182768467546703537516986049910576551282076245490090389328944075868508455133942304583236903222948165808559332123348274797826204144723168738177180919299881250404026184124858368.0

  /**
   * `new LocusReal(x, lower, upper)`: inverted bounds are refused first,
   * then `setValor` refuses a non-null value outside [lower, upper).
   */
  function NewReal(x: Option<real>, lower: real, upper: real): (r: Result<Value>)
    ensures r.Ok? <==> lower <= upper && (x.None? || lower <= x.value < upper)
    ensures r.Fail? ==> r.error == IllegalArgument
    ensures r.Ok? ==> r.value.Real? && r.value.x == x && r.value.lower == lower && r.value.upper == upper
    ensures r.Ok? ==> Copyable(r.value)
  {
    if upper < lower then Fail(IllegalArgument)
    else if x.Some? && (x.value < lower || x.value >= upper) then Fail(IllegalArgument)
    else Ok(Real(x, lower, upper))
  }

  /** `new LocusReal(x)`: the bounds [-Double.MAX_VALUE, Double.MAX_VALUE). */
  function NewRealUnbounded(x: Option<real>): (r: Result<Value>)
    ensures r.Ok? <==> x.None? || -MaxDouble <= x.value < MaxDouble
    ensures r.Ok? ==> r.value == Real(x, -MaxDouble, MaxDouble)
  {
    NewReal(x, -MaxDouble, MaxDouble)
  }

  /** The upper bound is exclusive, so `Double.MAX_VALUE` itself is refused. */
  lemma MaxDoubleRefused()
    ensures NewRealUnbounded(Some(MaxDouble)) == Fail(IllegalArgument)
    ensures NewRealUnbounded(Some(-MaxDouble)).Ok?
  {
  }

  /** The bit of a binary locus. */
  function BitOf(v: Value): Option<bool>
    requires v.Bit? || v.BoxedBit?
  {
    if v.Bit? then v.bit else v.boxed
  }

  /** A binary locus of the same class holding `b`. */
  function WithBit(v: Value, b: Option<bool>): (r: Value)
    requires v.Bit? || v.BoxedBit?
    ensures (r.Bit? <==> v.Bit?) && (r.Bit? || r.BoxedBit?) && BitOf(r) == b
  {
    if v.Bit? then Bit(b) else BoxedBit(b)
  }

  /** `flip`'s effect on a non-null bit. */
  function Flipped(v: Value): (r: Value)
    requires (v.Bit? || v.BoxedBit?) && BitOf(v).Some?
    ensures (r.Bit? <==> v.Bit?) && (r.Bit? || r.BoxedBit?) && BitOf(r) == Some(!BitOf(v).value)
  {
    WithBit(v, Some(!BitOf(v).value))
  }

  /** Flipping twice restores the locus, and a flip always changes the bit. */
  lemma FlipInvolution(v: Value)
    requires (v.Bit? || v.BoxedBit?) && BitOf(v).Some?
    ensures Flipped(Flipped(v)) == v
    ensures Flipped(v) != v
  {
  }

  /** `getValor` of a binary locus: 1 for true, 0 for false; a null bit throws on unboxing. */
  function BitValor(v: Value): (r: Result<int>)
    requires v.Bit? || v.BoxedBit?
    ensures r.Ok? <==> BitOf(v).Some?
    ensures r.Fail? ==> r.error == NullPointer
    ensures r.Ok? ==> (r.value == 1 <==> BitOf(v) == Some(true)) && (r.value == 0 <==> BitOf(v) == Some(false))
  {
    match BitOf(v)
    case None => Fail(NullPointer)
    case Some(b) => Ok(if b then 1 else 0)
  }

  /** The default constructors: `ic.populacional`'s sets false, `ic.ce`'s leaves null. */
  const DefaultBit: Value := Bit(Some(false))
  const DefaultBoxedBit: Value := BoxedBit(None)

  class Locus {
    /** `dono`: the individual owning the gene, null while unowned. */
    var owner: object?
    var value: Value

    constructor (v: Value)
      ensures owner == null && value == v
    {
      owner := null;
      value := v;
    }

    /** `setSer`: an unowned gene accepts any owner; an owned one only its own owner. */
    method SetSer(dono: object?) returns (r: Outcome)
      modifies this`owner
      ensures r.Pass? <==> old(owner) == null || old(owner) == dono
      ensures r.Throw? ==> r.error == IllegalState
      ensures owner == if r.Pass? then dono else old(owner)
      ensures old(owner) != null ==> owner == old(owner)
    {
      if owner != null && owner != dono {
        return Throw(IllegalState);
      }
      owner := dono;
      return Pass;
    }

    /**
     * `copia`: a new locus with the same value and no owner. A real locus is
     * rebuilt through its checking constructor, so a value that `maximixa`
     * or `minimiza` left outside [lower, upper) cannot be copied.
     */
    method Copia() returns (r: Result<Locus>)
      ensures r.Ok? <==> Copyable(value)
      ensures r.Fail? ==> r.error == if value.Real? then IllegalArgument else NullPointer
      ensures r.Ok? ==> fresh(r.value) && r.value.owner == null && r.value.value == value
    {
      if value.Bit? && value.bit.None? {
        return Fail(NullPointer);
      }
      if !Admissible(value) {
        return Fail(IllegalArgument);
      }
      var c := new Locus(value);
      return Ok(c);
    }

    /**
     * `getBit`: the stored bit. `ic.ce`'s returns the `Boolean`;
     * `ic.populacional`'s returns a primitive, so a null bit throws.
     */
    function GetBit(): (r: Result<Option<bool>>)
      reads this`value
      requires value.Bit? || value.BoxedBit?
      ensures r.Fail? <==> value == Bit(None)
      ensures r.Fail? ==> r.error == NullPointer
      ensures r.Ok? ==> r.value == BitOf(value)
    {
      if value.Bit? && value.bit.None? then Fail(NullPointer) else Ok(BitOf(value))
    }

    /** `setBit`: stores any `Boolean`, null included; `getBit` then returns it. */
    method SetBit(b: Option<bool>)
      requires value.Bit? || value.BoxedBit?
      modifies this`value
      ensures value == WithBit(old(value), b)
      ensures b.Some? || value.BoxedBit? ==> GetBit() == Ok(b)
    {
      value := WithBit(value, b);
    }

    /** `flip`: negates the bit; a null bit throws and stays null. */
    method Flip() returns (r: Outcome)
      requires value.Bit? || value.BoxedBit?
      modifies this`value
      ensures r.Pass? <==> BitOf(old(value)).Some?
      ensures r.Throw? ==> r.error == NullPointer && value == old(value)
      ensures r.Pass? ==> value == Flipped(old(value))
    {
      if BitOf(value).None? {
        return Throw(NullPointer);
      }
      SetBit(Some(!BitOf(value).value));
      return Pass;
    }

    /** `setRepresentacaoNumerica`: overwrites an integer or permutation value, unchecked. */
    method SetRepresentacaoNumerica(x: int)
      requires value.Integer? || value.Permutation?
      modifies this`value
      ensures SameKind(value, old(value)) && value == if value.Integer? then Integer(x) else Permutation(x)
    {
      value := if value.Integer? then Integer(x) else Permutation(x);
    }

    /** `setValor`: null, or a value in [lower, upper); otherwise throws and keeps the old value. */
    method SetValor(v: Option<real>) returns (r: Outcome)
      requires value.Real?
      modifies this`value
      ensures r.Pass? <==> v.None? || old(value.lower) <= v.value < old(value.upper)
      ensures r.Throw? ==> r.error == IllegalArgument
      ensures SameKind(value, old(value)) && value.x == if r.Pass? then v else old(value.x)
      ensures old(Admissible(value)) ==> Admissible(value)
    {
      if v.Some? && (v.value < value.lower || v.value >= value.upper) {
        return Throw(IllegalArgument);
      }
      value := value.(x := v);
      return Pass;
    }

    /**
     * `maximixa`: `nextDown(upper)`, without the range check; it is in range
     * whenever the range is non-empty.
     */
    method Maximixa()
      requires value.Real?
      modifies this`value
      ensures SameKind(value, old(value)) && value.x.Some? && value.x.value < value.upper
      ensures value.lower < value.upper ==> Admissible(value)
    {
      var d := Random.NextDown(value.upper, value.lower);
      value := value.(x := Some(d));
    }

    /** `minimiza`: the lower bound, without the range check (out of range when lower = upper). */
    method Minimiza()
      requires value.Real?
      modifies this`value
      ensures SameKind(value, old(value)) && value.x == Some(value.lower)
      ensures Admissible(value) <==> value.lower < value.upper
    {
      value := value.(x := Some(value.lower));
    }
  }

  /**
   * `equals` of the loci: binary loci do not override it (identity); the
   * others compare their values, after an `instanceof` test, and a real
   * locus with a null value throws.
   */
  function LocusEquals(a: Locus, b: Locus?): (r: Result<bool>)
    reads a`value, (if b == null then {} else {b})`value
    ensures r.Fail? <==> a.value.Real? && a.value.x.None? && b != null && b.value.Real?
    ensures r.Ok? && r.value && !a.value.Bit? && !a.value.BoxedBit? ==>
              b != null && SameValueKind(a.value, b.value)
  {
    match a.value
    case Bit(_) => Ok(a == b)
    case BoxedBit(_) => Ok(a == b)
    case Integer(n) => Ok(b != null && b.value.Integer? && b.value.n == n)
    case Permutation(p) => Ok(b != null && b.value.Permutation? && b.value.p == p)
    case Real(x, _, _) =>
      if b == null || !b.value.Real? then Ok(false)
      else if x.None? then Fail(NullPointer)
      else Ok(b.value.x == x)
  }

  /** Loci of one class holding one value (the bounds of a real locus aside). */
  predicate SameValueKind(a: Value, b: Value) {
    match a
    case Bit(x) => b == Bit(x)
    case BoxedBit(x) => b == BoxedBit(x)
    case Integer(n) => b == Integer(n)
    case Permutation(p) => b == Permutation(p)
    case Real(x, _, _) => b.Real? && b.x == x
  }

  /** The sign of a difference, as `compareTo` reports it. */
  function Sign(d: real): (r: int)
    ensures -1 <= r <= 1
    ensures (r < 0 <==> d < 0.0) && (r == 0 <==> d == 0.0)
  {
    if d < 0.0 then -1 else if d == 0.0 then 0 else 1
  }

  /** `compareTo` of integer, permutation and real loci: by value only, null real values throw. */
  function CompareTo(a: Value, b: Value): (r: Result<int>)
    requires (a.Integer? && b.Integer?) || (a.Permutation? && b.Permutation?) || (a.Real? && b.Real?)
    ensures r.Fail? <==> a.Real? && (a.x.None? || b.x.None?)
    ensures r.Ok? ==> -1 <= r.value <= 1
  {
    match a
    case Integer(n) => Ok(Sign((n - b.n) as real))
    case Permutation(p) => Ok(Sign((p - b.p) as real))
    case Real(x, _, _) =>
      if x.None? || b.x.None? then Fail(NullPointer) else Ok(Sign(x.value - b.x.value))
  }

  /** `compareTo` agrees with `equals`, and the order is antisymmetric. */
  lemma CompareToConsistent(a: Locus, b: Locus)
    requires (a.value.Integer? && b.value.Integer?) || (a.value.Permutation? && b.value.Permutation?)
             || (a.value.Real? && b.value.Real? && a.value.x.Some? && b.value.x.Some?)
    ensures CompareTo(a.value, b.value).Ok? && LocusEquals(a, b).Ok?
    ensures CompareTo(a.value, b.value).value == 0 <==> LocusEquals(a, b).value
    ensures CompareTo(b.value, a.value).value == -CompareTo(a.value, b.value).value
  {
  }

  /**
   * The `copia` contract: the copy is equal to the original, except for the
   * binary loci, whose identity `equals` makes a copy unequal.
   */
  lemma CopyEquality(a: Locus, c: Locus)
    requires a != c && c.value == a.value && Copyable(a.value)
    requires a.value.Real? ==> a.value.x.Some?
    ensures LocusEquals(a, c) == Ok(!a.value.Bit? && !a.value.BoxedBit?)
  {
  }
}
