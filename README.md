# Force: value-object equality and paged results, in Dafny

This project models the two in-memory components of the Force shared-kernel
library and proves properties of the model.

- **Force.Ddd**: value objects with structural equality (module `Ddd`,
  `Ddd.dfy`). A value object is its runtime type plus the ordered equality
  components its concrete class declares. `Equals` returns false for null.
  It fails with `InvalidComparison` when the runtime types differ, and
  otherwise compares the components in order. `GetHashCode` folds the
  components from seed 1 with `acc * 23 + h`, where a null component adds 0
  and arithmetic wraps at 32 bits. `operator ==` and `operator !=` add the
  handling of null operands. `ValueObject<T>` wraps one value, and
  `StringValueObject` adds `StartsWith` and `ToString`.
- **Force.Linq.Pagination**: a page of items plus the total size of the
  source it was cut from (module `Pagination`, `Pagination.dfy`). There is an
  untyped `PagedEnumerable` and a typed `PagedEnumerable<T>` with two
  constructors.

Supporting modules: `Wrappers` (`Option` for a nullable reference, `Result`
for a call that may throw, `Failure` for the two exceptions the core raises) and `MachineInts` (`int32`, `int64` and the
`unchecked` 32-bit wrap-around `Wrap32`).

How the model represents the source:

- A component object's own `Equals` and `GetHashCode` are not part of the
  library. Every member takes them as the function parameters `eq` and `hash`.
  A null component is `None`.
- Operators and the implicit conversion become named functions:
  `OperatorEquals`, `OperatorNotEquals` and `ToPrimitive`.
- Dafny classes cannot inherit from classes. So `PagedEnumerable<T>` is the
  class `TypedPagedEnumerable`, which holds its untyped part as the object
  `base`. The base `Items` and the hiding typed `Items` stay two separate
  fields, as in the C# class.
- The paged constructor's `Paginate(paging)` is the function parameter
  `paginate`. The model does not define any offset/limit arithmetic.

The typed `Items` of `PagedEnumerable<T>` is get-only and only the
items-and-total constructor assigns it. After the query constructor it is
null, so the typed `GetEnumerator` dereferences null. The model keeps this
behaviour: `Pagination.QueryPage` proves that on this path the untyped
enumeration yields the page while the typed one fails with `NullReference`.
A reader of the class would expect both views to be populated on every
path; the model follows the code.

The items-and-total constructor stores the reference it is given without
copying it, so a single-pass input could be consumed twice through the two
views. The model stores the sequence as given; for an immutable Dafny `seq`
the two views cannot diverge.

## Model

| member | source | states |
|---|---|---|
| `MachineInts.Wrap32` | Force/Ddd/ValueObject.cs:34-37 | the unchecked int result agrees with the exact value modulo 2^32 and equals it whenever the exact value fits in 32 bits |
| `MachineInts.Wrap32Unique` | Force/Ddd/ValueObject.cs:34-37 | the only int32 congruent to x modulo 2^32 is Wrap32(x), so Wrap32's contract determines it |
| `MachineInts.Wrap32Step` | Force/Ddd/ValueObject.cs:34-37 | wrapping the accumulator before the next `* 23 + h` step does not change the wrapped result |
| `Ddd.ComponentEquals` | Force/Ddd/ValueObject.cs:26 | the default comparer that SequenceEqual uses: when either component is null they are equal iff both are null; otherwise the first component's Equals decides |
| `Ddd.SequenceEqual` | Force/Ddd/ValueObject.cs:26 | the walk of SequenceEqual with the default comparer is true iff both sequences have the same length and equal components at every index, with null equal only to null |
| `Ddd.Equals` | Force/Ddd/ValueObject.cs:11-27 | null argument gives Ok(false) and never fails; it fails iff the runtime types differ, with InvalidComparison(this type, other type); it is Ok(true) iff the types match and the component sequences are element-wise equal |
| `Ddd.EqualsReflexive` | Force/Ddd/ValueObject.cs:24-26 | with a reflexive component equality, every value object equals itself |
| `Ddd.EqualsSymmetric` | Force/Ddd/ValueObject.cs:18-26 | with a symmetric component equality, a.Equals(b) fails iff b.Equals(a) does, and is true iff b.Equals(a) is |
| `Ddd.EqualObjectsHashEqual` | Force/Ddd/ValueObject.cs:24-38 | two objects that Equals declares equal have equal hash codes, given component hashing consistent with component equality |
| `Ddd.ComponentHash` | Force/Ddd/ValueObject.cs:36 | `obj?.GetHashCode() ?? 0`: a null component contributes exactly 0, any other its own hash code |
| `Ddd.Accumulate` | Force/Ddd/ValueObject.cs:34-37 | one fold step agrees with the exact `current * 23 + h` modulo 2^32, and equals it whenever it fits in 32 bits |
| `Ddd.Aggregate` | Force/Ddd/ValueObject.cs:31-38 | the unchecked left fold from `current` equals the exact polynomial current*23^n + sum of h(c_i)*23^(n-1-i), reduced to 32 bits once |
| `Ddd.GetHashCode` | Force/Ddd/ValueObject.cs:29-39 | the hash code is the exact polynomial 23^n + sum of h(c_i)*23^(n-1-i) from seed 1, reduced to 32 bits, with 0 for a null component |
| `Ddd.WeightedSumRespectsEquality` | Force/Ddd/ValueObject.cs:31-38 | element-wise equal component sequences have the same weighted hash sum when component hashing agrees with component equality |
| `Ddd.OperatorEquals` | Force/Ddd/ValueObject.cs:41-50 | both null gives true and exactly one null gives false; for two objects it fails iff their types differ (the InvalidComparison of Equals) and otherwise is true iff the components are element-wise equal |
| `Ddd.OperatorNotEquals` | Force/Ddd/ValueObject.cs:52-55 | both null gives false and exactly one null gives true; otherwise it fails exactly when `==` does, with the same error, and is the negation of `==` |
| `Ddd.AsValueObject` | Force/Ddd/ValueObject.cs:67-70 | GetEqualityComponents of a ValueObject<T> is exactly the one-element sequence [Value] and the runtime type is kept; SingleValueEquals and SingleValueHash derive equality and hash from it |
| `Ddd.ToPrimitive` | Force/Ddd/ValueObject.cs:72-73 | the implicit conversion of a null reference fails with NullReference; otherwise it returns exactly the one equality component of the ValueObject<T>, its Value |
| `Ddd.SingleValueEquals` | Force/Ddd/ValueObject.cs:67-70 | two ValueObject<T> of one runtime type are equal iff their wrapped values are (null equal only to null); different runtime types fail with InvalidComparison |
| `Ddd.SingleValueHash` | Force/Ddd/ValueObject.cs:67-70 | the hash of a ValueObject<T> is Wrap32(23 + h(Value)), and 23 for a null Value |
| `Ddd.NewStringValueObject` | Force/Ddd/ValueObject.cs:76-80 | a new StringValueObject has the StringValueObject runtime type and converts back to exactly the string it was built from |
| `Ddd.IsPrefix` | Force/Ddd/ValueObject.cs:84 | the character-by-character test is true iff the prefix is no longer than the string and equals its first characters |
| `Ddd.StartsWith` | Force/Ddd/ValueObject.cs:82-85 | fails with NullReference iff the wrapped string is null; otherwise true iff the argument is a prefix of the wrapped string |
| `Ddd.ToString` | Force/Ddd/ValueObject.cs:87-88 | ToString returns the wrapped string, the same value as the implicit conversion |
| `Ddd.StringValueObjectRoundTrip` | Force/Ddd/ValueObject.cs:76-88 | wrapping a string and calling ToString gives it back, and StartsWith answers as the bare string's prefix test |
| `Pagination.Enumerate` | Force/Linq/Pagination/PagedEnumerable.cs:19 | enumerating an Items reference fails iff it is null and otherwise yields exactly its items, in order |
| `Pagination.PagedEnumerable.constructor` | Force/Linq/Pagination/PagedEnumerable.cs:13-17 | Items and Total are stored exactly as supplied, with no check relating them |
| `Pagination.PagedEnumerable.GetEnumerator` | Force/Linq/Pagination/PagedEnumerable.cs:19 | yields exactly the stored Items in order, and fails with NullReference iff Items is null |
| `Pagination.TypedPagedEnumerable.FromQuery` | Force/Linq/Pagination/PagedEnumerable.cs:25-28 | the base Items is the materialised page, the Total is the count of the whole query whatever the paging, and the typed Items stays null |
| `Pagination.TypedPagedEnumerable.constructor` | Force/Linq/Pagination/PagedEnumerable.cs:30-36 | the base Items and the typed Items are the same supplied sequence, and Total is the supplied total |
| `Pagination.TypedPagedEnumerable.GetUntypedEnumerator` | Force/Linq/Pagination/PagedEnumerable.cs:19 | the inherited enumerator yields exactly the base Items in order, and fails iff they are null |
| `Pagination.TypedPagedEnumerable.GetEnumerator` | Force/Linq/Pagination/PagedEnumerable.cs:38-39 | the typed enumerator yields exactly the typed Items in order, and fails with NullReference iff they are null |
| `Pagination.QueryPage` | Force/Linq/Pagination/PagedEnumerable.cs:23-28 | after the query constructor, the untyped enumeration yields the page, Total is the size of the whole query, and the typed enumeration fails with NullReference |
| `Pagination.ItemsPage` | Force/Linq/Pagination/PagedEnumerable.cs:30-39 | after the items-and-total constructor, the typed and untyped enumerations both yield exactly the supplied items, and Total is the supplied total |

## Left out

- .NET reflection: `GetType()` is the `runtimeType` tag of each object.
- Equals: the components' own Equals is assumed not to throw, because `eq` returns a plain bool. A component that is itself a value object of another runtime type than its counterpart would throw ArgumentException from inside SequenceEqual; that nested failure is not modelled.
- GetHashCode: the components' own GetHashCode is assumed not to throw, because `hash` returns a plain int32.
- Equals: its argument is a possibly null value object. Any other kind of object has a runtime type that differs from every value object's, so Equals would fail for it in the same way. That case is not modelled separately.
- The text of the exception message raised by Equals is not modelled.
- The Equals and GetHashCode of component objects are not part of the library. They are the parameters `eq` and `hash`. The hash lemmas take consistency between them as a precondition.
- Subclass overrides of Equals or GetHashCode: no class in the source overrides them.
- StartsWith: culture-sensitive comparison is approximated by an ordinal character-by-character prefix test. A null argument (ArgumentNullException) is not modelled, because the prefix is a non-null string.
- Operator-overloading and implicit-conversion syntax: these are the named functions OperatorEquals, OperatorNotEquals and ToPrimitive.
- The LINQ query provider, `IOrderedQueryable` and the `Paginate` extension with `IPaging` are not part of this model. The query is a `seq`, `Count()` is its length, and the page is `paginate(queryable)` for a caller-supplied function.
- TypedPagedEnumerable.FromQuery: requires a source of at most 2^31 - 1 items, the range of the `int` that `Count()` returns. A larger source's count overflow is not modelled.
- Deferred, single-pass enumeration and repeated enumeration: an enumerator is modelled as the sequence it yields, and Dafny sequences are immutable.
- Class inheritance and member hiding: the typed class holds its untyped part as the object `base`.
