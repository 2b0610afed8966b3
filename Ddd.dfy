/** Structural equality of value objects (namespace Force.Ddd).

    A value object is known to the equality protocol only through its runtime
    type and the ordered list of its equality components. Components are
    objects of an arbitrary type V, a null component is None; what a component
    object's own Equals and GetHashCode answer is not part of this library, so
    every member takes them as the parameters `eq` and `hash`. */
module Ddd {
  import opened Wrappers
  import opened MachineInts

  /** The runtime type of an object, as GetType() reports it. */
  type TypeName = string

  /** An instance of a concrete value-object class: its runtime type and the
      sequence that its GetEqualityComponents yields. */
  datatype ValueObject<V> = ValueObject(runtimeType: TypeName, components: seq<Option<V>>)

  // ---------------------------------------------------------------------------
  // Equals

  /** How the default equality comparer that SequenceEqual uses compares two
      components: null equals only null, otherwise the first one's Equals. */
  function ComponentEquals<V>(eq: (V, V) -> bool, x: Option<V>, y: Option<V>): (r: bool)
    ensures x.None? || y.None? ==> (r <==> x.None? && y.None?)
    ensures x.Some? && y.Some? ==> (r <==> eq(x.value, y.value))
  {
    match (x, y)
    case (None, None) => true
    case (Some(a), Some(b)) => eq(a, b)
    case _ => false
  }

  /** The reference meaning of "the same components": equal length and equal
      elements at every position. */
  predicate ElementwiseEqual<V>(eq: (V, V) -> bool, xs: seq<Option<V>>, ys: seq<Option<V>>)
  {
    |xs| == |ys| && forall i :: 0 <= i < |xs| ==> ComponentEquals(eq, xs[i], ys[i])
  }

  /** Enumerable.SequenceEqual: walk both sequences together, fail on the first
      pair that differs, and at the end of the first sequence require the
      second one to be at its end too. */
  function SequenceEqual<V>(eq: (V, V) -> bool, xs: seq<Option<V>>, ys: seq<Option<V>>): (r: bool)
    ensures r <==> ElementwiseEqual(eq, xs, ys)
    decreases |xs|
  {
    if xs == [] then ys == []
    else ys != [] && ComponentEquals(eq, xs[0], ys[0]) && SequenceEqual(eq, xs[1..], ys[1..])
  }

  /** ValueObject.Equals(object obj). A null argument is never equal; an
      argument of another runtime type is an InvalidComparison failure, not
      "not equal"; otherwise the component sequences decide. */
  function Equals<V>(eq: (V, V) -> bool, v: ValueObject<V>, obj: Option<ValueObject<V>>): (r: Result<bool, Failure>)
    ensures obj.None? ==> r == Ok(false)
    ensures r.Err? <==> obj.Some? && obj.value.runtimeType != v.runtimeType
    ensures r.Err? ==> obj.Some? && r.error == InvalidComparison(v.runtimeType, obj.value.runtimeType)
    ensures r == Ok(true) <==>
      obj.Some? && obj.value.runtimeType == v.runtimeType && ElementwiseEqual(eq, v.components, obj.value.components)
  {
    if obj.None? then Ok(false)
    else if v.runtimeType != obj.value.runtimeType then Err(InvalidComparison(v.runtimeType, obj.value.runtimeType))
    else Ok(SequenceEqual(eq, v.components, obj.value.components))
  }

  /** With a reflexive component equality, every value object equals itself. */
  lemma EqualsReflexive<V>(eq: (V, V) -> bool, v: ValueObject<V>)
    requires forall x :: eq(x, x)
    ensures Equals(eq, v, Some(v)) == Ok(true)
  {
  }

  /** With a symmetric component equality, Equals gives the same verdict in
      both directions; a failure in one direction is a failure in the other. */
  lemma EqualsSymmetric<V>(eq: (V, V) -> bool, a: ValueObject<V>, b: ValueObject<V>)
    requires forall x, y :: eq(x, y) ==> eq(y, x)
    ensures Equals(eq, a, Some(b)).Err? <==> Equals(eq, b, Some(a)).Err?
    ensures Equals(eq, a, Some(b)) == Ok(true) <==> Equals(eq, b, Some(a)) == Ok(true)
  {
  }

  // ---------------------------------------------------------------------------
  // GetHashCode

  const Seed: int32 := 1
  const Multiplier: int := 23

  /** `obj?.GetHashCode() ?? 0`: a null component hashes to 0. */
  function ComponentHash<V>(hash: V -> int32, c: Option<V>): (r: int32)
    ensures c.None? ==> r == 0
    ensures c.Some? ==> r == hash(c.value)
  {
    match c
    case None => 0
    case Some(x) => hash(x)
  }

  /** One step of the fold, `current * 23 + h` in an unchecked context: the
      exact value modulo 2^32, and the exact value itself when it fits. */
  function Accumulate<V>(hash: V -> int32, current: int32, c: Option<V>): (r: int32)
    ensures (current as int * Multiplier + ComponentHash(hash, c) as int - r as int) % Int32Modulus == 0
    ensures Int32Min <= current as int * Multiplier + ComponentHash(hash, c) as int <= Int32Max ==>
      r as int == current as int * Multiplier + ComponentHash(hash, c) as int
  {
    Wrap32(current as int * Multiplier + ComponentHash(hash, c) as int)
  }

  function Pow23(n: nat): int
  {
    if n == 0 then 1 else Multiplier * Pow23(n - 1)
  }

  /** The sum of h(c_i) * 23^(n-1-i) over the n components. */
  function WeightedSum<V>(hash: V -> int32, cs: seq<Option<V>>): int
  {
    if cs == [] then 0
    else ComponentHash(hash, cs[0]) as int * Pow23(|cs| - 1) + WeightedSum(hash, cs[1..])
  }

  /** The exact value of the fold without overflow:
      23^n + sum of h(c_i) * 23^(n-1-i). */
  function HashPolynomial<V>(hash: V -> int32, cs: seq<Option<V>>): int
  {
    Pow23(|cs|) + WeightedSum(hash, cs)
  }

  /** Enumerable.Aggregate: the left fold of Accumulate over the components.
      Wrapping at every step loses nothing but the high bits: the result is
      the exact polynomial in the start value and the component hashes,
      reduced to 32 bits once. */
  function Aggregate<V>(hash: V -> int32, current: int32, cs: seq<Option<V>>): (r: int32)
    ensures r == Wrap32(current as int * Pow23(|cs|) + WeightedSum(hash, cs))
    decreases |cs|
  {
    if cs == [] then current
    else
      var exact := current as int * Multiplier + ComponentHash(hash, cs[0]) as int;
      var p := Pow23(|cs| - 1);
      Wrap32Step(exact, p, WeightedSum(hash, cs[1..]));
      Distribute(current as int, ComponentHash(hash, cs[0]) as int, p);
      Aggregate(hash, Accumulate(hash, current, cs[0]), cs[1..])
  }

  /** Distributivity at the step of Aggregate; the solver needs it stated
      on its own to keep the nonlinear proof small. */
  lemma Distribute(a: int, h: int, p: int)
    ensures (a * Multiplier + h) * p == a * (Multiplier * p) + h * p
  {
  }

  /** ValueObject.GetHashCode(): the exact polynomial 23^n + sum of
      h(c_i) * 23^(n-1-i) reduced to 32 bits, a null component adding 0. */
  function GetHashCode<V>(hash: V -> int32, v: ValueObject<V>): (r: int32)
    ensures r == Wrap32(HashPolynomial(hash, v.components))
  {
    Aggregate(hash, Seed, v.components)
  }

  /** Element-wise equal component sequences have the same weighted hash sum
      when component hashing agrees with component equality. */
  lemma {:induction false} WeightedSumRespectsEquality<V>(
    eq: (V, V) -> bool, hash: V -> int32, xs: seq<Option<V>>, ys: seq<Option<V>>)
    requires forall x, y :: eq(x, y) ==> hash(x) == hash(y)
    requires ElementwiseEqual(eq, xs, ys)
    ensures WeightedSum(hash, xs) == WeightedSum(hash, ys)
    decreases |xs|
  {
    if xs != [] {
      assert ComponentEquals(eq, xs[0], ys[0]);
      assert ComponentHash(hash, xs[0]) == ComponentHash(hash, ys[0]);
      assert ElementwiseEqual(eq, xs[1..], ys[1..]) by {
        forall i | 0 <= i < |xs| - 1
          ensures ComponentEquals(eq, xs[1..][i], ys[1..][i])
        {
          assert ComponentEquals(eq, xs[i + 1], ys[i + 1]);
        }
      }
      WeightedSumRespectsEquality(eq, hash, xs[1..], ys[1..]);
    }
  }

  /** Objects that Equals declares equal have equal hash codes, provided the
      components' own hashing agrees with their own equality. */
  lemma EqualObjectsHashEqual<V>(eq: (V, V) -> bool, hash: V -> int32, a: ValueObject<V>, b: ValueObject<V>)
    requires forall x, y :: eq(x, y) ==> hash(x) == hash(y)
    requires Equals(eq, a, Some(b)) == Ok(true)
    ensures GetHashCode(hash, a) == GetHashCode(hash, b)
  {
    WeightedSumRespectsEquality(eq, hash, a.components, b.components);
  }

  // ---------------------------------------------------------------------------
  // operator == and operator !=

  /** `a == b` on possibly null references: both null are equal, exactly one
      null is unequal, otherwise a.Equals(b) decides, its failure included. */
  function OperatorEquals<V>(eq: (V, V) -> bool, a: Option<ValueObject<V>>, b: Option<ValueObject<V>>): (r: Result<bool, Failure>)
    ensures a.None? && b.None? ==> r == Ok(true)
    ensures a.None? != b.None? ==> r == Ok(false)
    ensures r.Err? <==> a.Some? && b.Some? && a.value.runtimeType != b.value.runtimeType
    ensures r.Err? ==> a.Some? && b.Some? && r.error == InvalidComparison(a.value.runtimeType, b.value.runtimeType)
    ensures a.Some? && b.Some? && a.value.runtimeType == b.value.runtimeType ==>
      (r == Ok(true) <==> ElementwiseEqual(eq, a.value.components, b.value.components))
  {
    if a.None? && b.None? then Ok(true)
    else if a.None? || b.None? then Ok(false)
    else Equals(eq, a.value, b)
  }

  /** `a != b` is `!(a == b)`: the negated verdict, or the same failure. */
  function OperatorNotEquals<V>(eq: (V, V) -> bool, a: Option<ValueObject<V>>, b: Option<ValueObject<V>>): (r: Result<bool, Failure>)
    ensures a.None? && b.None? ==> r == Ok(false)
    ensures a.None? != b.None? ==> r == Ok(true)
    ensures r.Err? <==> OperatorEquals(eq, a, b).Err?
    ensures r.Err? ==> r.error == OperatorEquals(eq, a, b).error
    ensures r.Ok? ==> r.value == !OperatorEquals(eq, a, b).value
  {
    match OperatorEquals(eq, a, b)
    case Ok(same) => Ok(!same)
    case Err(e) => Err(e)
  }

  // ---------------------------------------------------------------------------
  // ValueObject<T>

  /** An instance of a subclass of ValueObject<T>: its runtime type and the
      one (possibly null) value it wraps, fixed at construction. */
  datatype SingleValueObject<T> = SingleValueObject(runtimeType: TypeName, value: Option<T>)

  /** The object as the equality protocol sees it: GetEqualityComponents
      yields the wrapped value alone. */
  function AsValueObject<T>(w: SingleValueObject<T>): (r: ValueObject<T>)
    ensures r.runtimeType == w.runtimeType
    ensures r.components == [w.value]
  {
    ValueObject(w.runtimeType, [w.value])
  }

  /** The implicit conversion to T, a static operator on a possibly null
      reference: the wrapped value itself, the one equality component; a null
      reference is dereferenced and fails. */
  function ToPrimitive<T>(w: Option<SingleValueObject<T>>): (r: Result<Option<T>, Failure>)
    ensures r.Err? <==> w.None?
    ensures r.Err? ==> r.error == NullReference
    ensures r.Ok? ==> w.Some? && AsValueObject(w.value).components == [r.value]
  {
    match w
    case None => Err(NullReference)
    case Some(o) => Ok(o.value)
  }

  /** Two wrappers of the same runtime type are equal exactly when their
      wrapped values are; wrappers of different runtime types fail. */
  lemma SingleValueEquals<T>(eq: (T, T) -> bool, a: SingleValueObject<T>, b: SingleValueObject<T>)
    ensures a.runtimeType == b.runtimeType ==>
      Equals(eq, AsValueObject(a), Some(AsValueObject(b))) == Ok(ComponentEquals(eq, a.value, b.value))
    ensures a.runtimeType != b.runtimeType ==>
      Equals(eq, AsValueObject(a), Some(AsValueObject(b))) == Err(InvalidComparison(a.runtimeType, b.runtimeType))
  {
  }

  /** The hash of a single-value object is 1 * 23 + h(Value), wrapped. */
  lemma SingleValueHash<T>(hash: T -> int32, w: SingleValueObject<T>)
    ensures GetHashCode(hash, AsValueObject(w)) == Wrap32(Multiplier + ComponentHash(hash, w.value) as int)
  {
  }

  // ---------------------------------------------------------------------------
  // StringValueObject

  const StringValueObjectType: TypeName := "Force.Ddd.StringValueObject"

  /** new StringValueObject(value) */
  function NewStringValueObject(value: Option<string>): (r: SingleValueObject<string>)
    ensures r.runtimeType == StringValueObjectType
    ensures ToPrimitive(Some(r)) == Ok(value)
  {
    SingleValueObject(StringValueObjectType, value)
  }

  /** Ordinal prefix test, character by character. */
  function IsPrefix(prefix: string, s: string): (r: bool)
    ensures r <==> |prefix| <= |s| && s[..|prefix|] == prefix
  {
    if prefix == [] then true
    else s != [] && prefix[0] == s[0] && IsPrefix(prefix[1..], s[1..])
  }

  /** StringValueObject.StartsWith(value): the wrapped string's prefix test;
      a null wrapped string is dereferenced and fails. */
  function StartsWith(w: SingleValueObject<string>, prefix: string): (r: Result<bool, Failure>)
    ensures r.Err? <==> w.value.None?
    ensures r.Err? ==> r.error == NullReference
    ensures w.value.Some? ==>
      (r == Ok(true) <==> |prefix| <= |w.value.value| && w.value.value[..|prefix|] == prefix)
  {
    match w.value
    case None => Err(NullReference)
    case Some(s) => Ok(IsPrefix(prefix, s))
  }

  /** StringValueObject.ToString(): the wrapped string, unchanged. */
  function ToString(w: SingleValueObject<string>): (r: Option<string>)
    ensures ToPrimitive(Some(w)) == Ok(r)
  {
    w.value
  }

  /** Constructing from a string and converting back gives that string, and
      the prefix test answers for it as for the bare string. */
  lemma StringValueObjectRoundTrip(s: string, prefix: string)
    ensures ToString(NewStringValueObject(Some(s))) == Some(s)
    ensures StartsWith(NewStringValueObject(Some(s)), prefix) == Ok(prefix <= s)
  {
  }
}
