# OnionSeed.Types: Interval and HashCode in Dafny

This project models the two value types of `OnionSeed.Types`:

- `HashCode` (src/OnionSeed.Types/HashCode.cs), a fluent hash combiner. It
  hashes one item (`Of`) or a sequence (`OfEach`) and folds further items into
  an existing value (`And`, `AndEach`). Each fold step is the System.Tuple
  mixer `((h1 << 5) + h1) ^ h2` in unchecked 32-bit arithmetic. A null item
  hashes to 0. The value converts implicitly to `int`.
- `Interval<T>` (src/OnionSeed.Types/Interval.cs), an immutable interval over
  an `IComparable<T>`. It has two endpoints and an inclusion flag for each.
  It classifies itself as open, half-open or closed, and as empty, degenerate
  or proper. It has structural equality, a structural hash built with
  `HashCode`, and bracket notation such as `[3, 7)` for its text.

Files:

- `Wrappers.dfy`: `Option` (a reference that may be null) and `Result` (a
  value or the exception thrown).
- `HashCode.dfy`, module `HashCodes`. Hash values are `bv32` bit patterns, so
  `<<`, `+` and `^` wrap exactly as C# `unchecked` arithmetic does. `Fold` is
  the specification of the accumulator loop. `FoldItems` is that loop,
  written as a method and proved equal to `Fold`.
- `Interval.dfy`, module `Intervals`: the interval datatype, its classification
  predicates, the constructors, equality, hash and `ToString`.
- `IntervalScenarios.dfy`, module `IntervalScenarios`: the cases of the
  interval test suite, using `int` endpoints.

The type `T` brings three things the model cannot see. Each is a parameter:

- `cmp` stands for `CompareTo`. The source's helpers `IsLessThan`,
  `IsEqualTo` and `IsGreaterThan` come from the namespace
  `OnionSeed.Helpers.Comparable`, which is not part of this model. They are
  read as the sign of `a.CompareTo(b)`. Lemmas that need the order laws
  require `IsTotalOrder(cmp)`.
- `hash` stands for `T.GetHashCode`.
- `show` stands for `T.ToString`.

The hash of a `bool` is .NET's `Boolean.GetHashCode`: 1 for true and 0 for
false (`BoolHash`).

Where the code departs from what its tests or the usual reading of the type
suggest, the model follows the code:

- The four-argument constructor only checks for null (Interval.cs:36-47). It
  does not reject `max < min`, although the test suite expects
  `ArgumentOutOfRangeException` there. See Findings.
- `OfEach` has no null guard. A null sequence reaches the `foreach`, which
  throws. The model returns `Failure(NullReference)`. `AndEach` does guard:
  a null sequence returns the current value.
- The fold is not order-sensitive for every pair of distinct items. Folding
  the item hashes 1 and 0x8000_0001 in either order gives the same value
  (`SwappedItemsCanCollide`). What does hold is proved instead: each step is
  injective in each argument, and changing the hash at any one position
  changes the fold (`FoldSensitiveAtEachPosition`).
- The classification compares endpoints only. Over the integers, `(3, 4)`
  contains no element, yet it is proper and not empty
  (`AdjacentOpenIntervalIsProper`). "Empty" means "contains zero elements"
  only when `T` is dense. For any `T`, the model proves the two facts that do
  hold: an empty interval contains nothing, and a degenerate one contains
  exactly its endpoint.

## Model

| member | source | states |
|---|---|---|
| `HashCodes.CombineMultipliesBy33` | src/OnionSeed.Types/HashCode.cs:77-84 | The shift-add-xor step equals wrapping multiplication of `h1` by 33, then xor with `h2`. |
| `HashCodes.CombineInjectiveInSecond` | src/OnionSeed.Types/HashCode.cs:77-84 | With the accumulator fixed, distinct item hashes give distinct results. |
| `HashCodes.CombineInjectiveInFirst` | src/OnionSeed.Types/HashCode.cs:77-84 | With the item hash fixed, distinct accumulators give distinct results. |
| `HashCodes.SwappedItemsCanCollide` | src/OnionSeed.Types/HashCode.cs:77-84 | Item hashes 1 and 0x8000_0001 give the same value in either order, so order-sensitivity is not absolute. |
| `HashCodes.FoldConcat` | src/OnionSeed.Types/HashCode.cs:64-73 | Folding `xs + ys` from `s` equals folding `ys` from the result of folding `xs` from `s`. |
| `HashCodes.FoldAppend` | src/OnionSeed.Types/HashCode.cs:64-73 | Folding one more item is one more Combine of the accumulator with that item's hash. |
| `HashCodes.FoldInjectiveInStart` | src/OnionSeed.Types/HashCode.cs:64-73 | Two different start values never give the same fold over the same items. |
| `HashCodes.FoldSensitiveAtEachPosition` | src/OnionSeed.Types/HashCode.cs:64-73 | Two sequences that differ only in one item's hash fold to different values. |
| `HashCodes.FoldItems` | src/OnionSeed.Types/HashCode.cs:64-73 | The foreach loop returns the left fold of Combine over the item hashes, starting from the start hash. |
| `HashCodes.Of` | src/OnionSeed.Types/HashCode.cs:32 | A null item gives 0; any other item gives its own hash. |
| `HashCodes.OfEach` | src/OnionSeed.Types/HashCode.cs:40 | A null sequence fails with NullReference; otherwise the result is the fold of the items from 0. |
| `HashCodes.AndEach` | src/OnionSeed.Types/HashCode.cs:56-62 | A null sequence returns the value unchanged; otherwise the result is the fold of the items from the current value. |
| `HashCodes.And` | src/OnionSeed.Types/HashCode.cs:48 | `And(x)` equals `AndEach([x])`. |
| `HashCodes.OfIsFoldFromZero` | src/OnionSeed.Types/HashCode.cs:32-40 | `Of(x)` equals `OfEach([x])`, and `Of(x).AndEach(ys)` equals `OfEach([x] + ys)`. |
| `HashCodes.AndEachConcat` | src/OnionSeed.Types/HashCode.cs:56-73 | Calling `AndEach(xs)` and then `AndEach(ys)` equals `AndEach(xs + ys)`. |
| `HashCodes.ToInt32` | src/OnionSeed.Types/HashCode.cs:24 | The conversion gives an int in the 32-bit signed range that is congruent to the stored bits modulo 2^32. |
| `HashCodes.ToInt32Injective` | src/OnionSeed.Types/HashCode.cs:24 | Distinct hash values convert to distinct ints. |
| `Intervals.New` | src/OnionSeed.Types/Interval.cs:36-47 | A null `min` fails with ArgumentNull("min"); otherwise a null `max` fails with ArgumentNull("max"); otherwise construction succeeds and the four accessors return the arguments unchanged. |
| `Intervals.NewClosed` | src/OnionSeed.Types/Interval.cs:22-25 | The same null checks as `New`; on success the interval is closed and keeps both endpoints. |
| `Intervals.NewChecked` | test/OnionSeed.Types.Tests/IntervalTests.cs:91-103 | Succeeds exactly when both endpoints are present and `max` is not less than `min`; a reversed range fails with ArgumentOutOfRange; on success it agrees with `New`. |
| `Intervals.CheckedIntervalIsNotReversed` | src/OnionSeed.Types/Interval.cs:87-89 | An interval from the checked constructor never has `min > max`, so it is empty exactly when its endpoints are equal and it is not closed. |
| `Intervals.OpennessIsExclusive` | src/OnionSeed.Types/Interval.cs:72-82 | Every interval is exactly one of open, half-open and closed. |
| `Intervals.SizeIsExclusive` | src/OnionSeed.Types/Interval.cs:87-100 | Every interval is exactly one of empty, degenerate and proper. |
| `Intervals.EmptyHasNoElement` | src/OnionSeed.Types/Interval.cs:84-89 | Under a total order, an empty interval contains no element. |
| `Intervals.DegenerateHasOneElement` | src/OnionSeed.Types/Interval.cs:91-94 | Under a total order, a degenerate interval contains exactly the values equal to its endpoint. |
| `Intervals.ProperClosedHasBothEndpoints` | src/OnionSeed.Types/Interval.cs:96-100 | A closed proper interval contains both endpoints, and they are not equal. |
| `Intervals.EqualityOperator` | src/OnionSeed.Types/Interval.cs:108-111 | `==` holds iff both endpoints compare equal and both flags match. |
| `Intervals.InequalityOperator` | src/OnionSeed.Types/Interval.cs:119-122 | `!=` holds iff some endpoint compares unequal or some flag differs; it is the negation of `==`. |
| `Intervals.EqualsObject` | src/OnionSeed.Types/Interval.cs:125-131 | Returns false for null or a non-interval; otherwise it agrees with `==`. |
| `Intervals.EqualsIsEquivalence` | src/OnionSeed.Types/Interval.cs:134-138 | Under a total order, `Equals` is reflexive, symmetric and transitive. |
| `Intervals.EqualsIsStructural` | src/OnionSeed.Types/Interval.cs:134-138 | If CompareTo returns zero only for identical values, `Equals` is exactly value equality of the four fields. |
| `Intervals.HashOf` | src/OnionSeed.Types/Interval.cs:141-145 | The hash is Combine(Combine(Combine(h(MinIsIncluded), h(Min)), h(Max)), h(MaxIsIncluded)), converted to int. |
| `Intervals.EqualIntervalsHaveEqualHashes` | src/OnionSeed.Types/Interval.cs:141-145 | Equal intervals have equal hashes, provided T's hash gives equal results for values that compare equal. |
| `Intervals.HashSeesMinIsIncluded` | src/OnionSeed.Types/Interval.cs:141-145 | Flipping only the min inclusion flag changes the hash. |
| `Intervals.HashSeesMin` | src/OnionSeed.Types/Interval.cs:141-145 | Replacing only Min with a value whose hash differs changes the hash. |
| `Intervals.HashSeesMax` | src/OnionSeed.Types/Interval.cs:141-145 | Replacing only Max with a value whose hash differs changes the hash. |
| `Intervals.HashSeesMaxIsIncluded` | src/OnionSeed.Types/Interval.cs:141-145 | Flipping only the max inclusion flag changes the hash. |
| `Intervals.ToString` | src/OnionSeed.Types/Interval.cs:151-156 | The text is `[` or `(` (for an included or excluded Min), then Min's text, then `, `, then Max's text, then `]` or `)` (for Max); its length is the two texts plus 4. |
| `Intervals.ToStringShowsFlags` | src/OnionSeed.Types/Interval.cs:151-156 | Two intervals with the same text have the same inclusion flags. |
| `IntervalScenarios.NullEndpointsAreRejected` | test/OnionSeed.Types.Tests/IntervalTests.cs:9-24 | Both constructors reject a null endpoint, checking `min` before `max`. |
| `IntervalScenarios.ReversedRangeIsAccepted` | src/OnionSeed.Types/Interval.cs:36-47 | As written, both constructors accept min 3 and max 2 with any flags, and `[3, 2]` is classified as empty. |
| `IntervalScenarios.ReversedRangeIsRejectedWhenChecked` | test/OnionSeed.Types.Tests/IntervalTests.cs:91-103 | The checked constructor rejects min 3 and max 2 with ArgumentOutOfRange, and accepts min 3 and max 3. |
| `IntervalScenarios.EqualityOperatorsOnIntervals` | test/OnionSeed.Types.Tests/IntervalTests.cs:105-141 | `(3, 7)` equals itself and none of `(3, 7]`, `(3, 6)`, `(4, 7)` and `[3, 7)`; `!=` gives the opposite answers; `Equals(null)` is false. |
| `IntervalScenarios.HashesOfNeighboursDiffer` | test/OnionSeed.Types.Tests/IntervalTests.cs:177-214 | If the Int32 hash separates 3 from 4 and 6 from 7, then `(3, 7)` hashes differently from each of the four intervals that differ from it in one field. |
| `IntervalScenarios.ToStringOfIntervals` | test/OnionSeed.Types.Tests/IntervalTests.cs:216-231 | The four flag combinations for 3 and 7 render as `(3, 7)`, `(3, 7]`, `[3, 7)` and `[3, 7]`. |
| `IntervalScenarios.AdjacentOpenIntervalIsProper` | src/OnionSeed.Types/Interval.cs:84-100 | Over the integers, `(3, 4)` is proper and not empty, yet it contains no element. |

## Findings

| source | as written | input that shows it | evidently intended | confidence | as-written member | corrected member |
|---|---|---|---|---|---|---|
| src/OnionSeed.Types/Interval.cs:36-47 | The constructors check only for null endpoints and accept `max < min`. | `new Interval<int>(3, 2)` and `new Interval<int>(b1, 3, 2, b2)` for any flags. These build `[3, 2]`, which `IsEmpty` then reports as empty. | Throw ArgumentOutOfRangeException when `max < min`, as the tests at test/OnionSeed.Types.Tests/IntervalTests.cs:42-51 and :91-103 expect. | high; not executed | `IntervalScenarios.ReversedRangeIsAccepted` (on `Intervals.New`) | `Intervals.NewChecked`, with `Intervals.CheckedIntervalIsNotReversed` and `IntervalScenarios.ReversedRangeIsRejectedWhenChecked` |

`New` and `NewClosed` model the constructors as written. `NewChecked` is the
corrected constructor. Its ensures state when it fails, and
`CheckedIntervalIsNotReversed` proves what it guarantees: the
`Min.IsGreaterThan(Max)` case of `IsEmpty` cannot arise.

## Left out

- Ascending and descending traversal of an interval: Interval.cs has no such
  members, so nothing is modelled for them.
- The comparison helpers in `OnionSeed.Helpers.Comparable` are not part of this
  model. They are replaced by the sign of the `cmp` parameter.
- `T.GetHashCode`, `T.ToString` and `Char.GetHashCode` are .NET library
  behaviour. They are the parameters `hash` and `show`. As a result, the
  tests asserting concrete non-zero or pairwise-distinct hashes
  (IntervalTests.cs:177-214, HashCodeTests.cs:9-101) are not proved as
  stated. `HashesOfNeighboursDiffer` proves the part that follows for any
  hash that separates the endpoints.
- `Equals(object)`: the run-time type test `obj as Interval<T>?` is modelled
  as an `Option` argument. `None` stands for null and for an object of any
  other type.
- `IEnumerable<T>` is modelled as a finite sequence. Lazy, infinite or
  side-effecting enumerables are not modelled.
- The struct default value `default(Interval<T>)`, which has null endpoints,
  is not modelled. Every modelled interval comes from a constructor or
  holds non-null endpoints.
