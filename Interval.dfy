/** The immutable interval value of src/OnionSeed.Types/Interval.cs.

    `T` is ordered by its own `CompareTo`, passed here as `cmp`: a negative
    result means "less than", zero "equal to", a positive one "greater than".
    The comparison helpers Interval.cs imports (IsLessThan, IsEqualTo,
    IsGreaterThan) are read as the sign of `a.CompareTo(b)`. The hash and the
    text of a `T` (its own `GetHashCode` and `ToString`) are the parameters
    `hash` and `show`. */
module Intervals {
  import opened Wrappers
  import opened HashCodes

  predicate IsLessThan<T>(cmp: (T, T) -> int, a: T, b: T) { cmp(a, b) < 0 }

  predicate IsEqualTo<T>(cmp: (T, T) -> int, a: T, b: T) { cmp(a, b) == 0 }

  predicate IsGreaterThan<T>(cmp: (T, T) -> int, a: T, b: T) { cmp(a, b) > 0 }

  /** What IComparable<T> promises of CompareTo: every value equals itself,
      swapping the operands flips the sign, and "at most" is transitive. */
  ghost predicate IsTotalOrder<T(!new)>(cmp: (T, T) -> int)
  {
    && (forall a :: cmp(a, a) == 0)
    && (forall a, b :: cmp(a, b) < 0 <==> cmp(b, a) > 0)
    && (forall a, b, c :: cmp(a, b) <= 0 && cmp(b, c) <= 0 ==> cmp(a, c) <= 0)
  }

  /** The interval: its endpoints and whether each belongs to it. The four
      get-only properties are set once, by the constructor, and never change. */
  datatype Interval<T> = Interval(minIsIncluded: bool, min: T, max: T, maxIsIncluded: bool)
  {
    /** Neither endpoint is included. */
    predicate IsOpen() { !minIsIncluded && !maxIsIncluded }

    /** Exactly one endpoint is included. */
    predicate IsHalfOpen() { minIsIncluded != maxIsIncluded }

    /** Both endpoints are included. */
    predicate IsClosed() { minIsIncluded && maxIsIncluded }

    /** The interval holds no element. */
    predicate IsEmpty(cmp: (T, T) -> int)
    {
      IsGreaterThan(cmp, min, max) || (IsEqualTo(cmp, min, max) && !IsClosed())
    }

    /** The interval holds exactly one element. */
    predicate IsDegenerate(cmp: (T, T) -> int)
    {
      IsEqualTo(cmp, min, max) && IsClosed()
    }

    /** The interval is neither empty nor degenerate. */
    predicate IsProper(cmp: (T, T) -> int)
    {
      IsLessThan(cmp, min, max)
    }

    /** Membership, as in the mathematical definition the type follows; the
        source has no such member, it gives the predicates above a meaning. */
    predicate Contains(cmp: (T, T) -> int, x: T)
    {
      && (if minIsIncluded then cmp(min, x) <= 0 else cmp(min, x) < 0)
      && (if maxIsIncluded then cmp(x, max) <= 0 else cmp(x, max) < 0)
    }
  }

  /** The exceptions the constructors throw, with the parameter they name. */
  datatype IntervalError = ArgumentNull(paramName: string) | ArgumentOutOfRange

  /** The four-argument constructor: it rejects a null `min`, then a null
      `max`, and stores its arguments as given. It does not compare them. */
  function New<T>(minIsIncluded: bool, min: Option<T>, max: Option<T>, maxIsIncluded: bool)
    : (r: Result<Interval<T>, IntervalError>)
    ensures r.Success? <==> min.Some? && max.Some?
    ensures min.None? ==> r == Failure(ArgumentNull("min"))
    ensures min.Some? && max.None? ==> r == Failure(ArgumentNull("max"))
    ensures r.Success? ==>
      && r.value.minIsIncluded == minIsIncluded
      && Some(r.value.min) == min
      && Some(r.value.max) == max
      && r.value.maxIsIncluded == maxIsIncluded
  {
    if min.None? then Failure(ArgumentNull("min"))
    else if max.None? then Failure(ArgumentNull("max"))
    else Success(Interval(minIsIncluded, min.value, max.value, maxIsIncluded))
  }

  /** The two-argument constructor: the interval is closed by default. */
  function NewClosed<T>(min: Option<T>, max: Option<T>): (r: Result<Interval<T>, IntervalError>)
    ensures r.Success? <==> min.Some? && max.Some?
    ensures min.None? ==> r == Failure(ArgumentNull("min"))
    ensures min.Some? && max.None? ==> r == Failure(ArgumentNull("max"))
    ensures r.Success? ==> r.value.IsClosed() && Some(r.value.min) == min && Some(r.value.max) == max
  {
    New(true, min, max, true)
  }

  /** The constructor the test suite expects: after the null checks it also
      rejects `max` less than `min`. */
  function NewChecked<T>(minIsIncluded: bool, min: Option<T>, max: Option<T>, maxIsIncluded: bool, cmp: (T, T) -> int)
    : (r: Result<Interval<T>, IntervalError>)
    ensures r.Success? <==> min.Some? && max.Some? && !IsLessThan(cmp, max.value, min.value)
    ensures min.None? ==> r == Failure(ArgumentNull("min"))
    ensures min.Some? && max.None? ==> r == Failure(ArgumentNull("max"))
    ensures min.Some? && max.Some? && IsLessThan(cmp, max.value, min.value) ==> r == Failure(ArgumentOutOfRange)
    ensures r.Success? ==> New(minIsIncluded, min, max, maxIsIncluded) == r
  {
    match New(minIsIncluded, min, max, maxIsIncluded)
    case Failure(e) => Failure(e)
    case Success(i) => if IsLessThan(cmp, i.max, i.min) then Failure(ArgumentOutOfRange) else Success(i)
  }

  /** An interval the checked constructor accepts is never reversed, so it
      is empty only when its endpoints are equal and one is excluded. */
  lemma CheckedIntervalIsNotReversed<T(!new)>(minIsIncluded: bool, min: T, max: T, maxIsIncluded: bool, cmp: (T, T) -> int)
    requires IsTotalOrder(cmp)
    requires NewChecked(minIsIncluded, Some(min), Some(max), maxIsIncluded, cmp).Success?
    ensures var i := NewChecked(minIsIncluded, Some(min), Some(max), maxIsIncluded, cmp).value;
      && !IsGreaterThan(cmp, i.min, i.max)
      && (i.IsEmpty(cmp) <==> IsEqualTo(cmp, i.min, i.max) && !i.IsClosed())
  {
  }

  /** Exactly one of open, half-open and closed holds. */
  lemma OpennessIsExclusive<T>(i: Interval<T>)
    ensures i.IsOpen() || i.IsHalfOpen() || i.IsClosed()
    ensures !(i.IsOpen() && i.IsHalfOpen())
    ensures !(i.IsOpen() && i.IsClosed())
    ensures !(i.IsHalfOpen() && i.IsClosed())
  {
  }

  /** Exactly one of empty, degenerate and proper holds: a proper interval is
      neither empty nor degenerate, and no interval is both empty and
      degenerate. */
  lemma SizeIsExclusive<T>(i: Interval<T>, cmp: (T, T) -> int)
    ensures i.IsEmpty(cmp) || i.IsDegenerate(cmp) || i.IsProper(cmp)
    ensures !(i.IsEmpty(cmp) && i.IsDegenerate(cmp))
    ensures i.IsProper(cmp) ==> !i.IsEmpty(cmp) && !i.IsDegenerate(cmp)
  {
  }

  /** An empty interval contains nothing. */
  lemma EmptyHasNoElement<T(!new)>(i: Interval<T>, cmp: (T, T) -> int, x: T)
    requires IsTotalOrder(cmp)
    requires i.IsEmpty(cmp)
    ensures !i.Contains(cmp, x)
  {
    assert cmp(i.min, x) <= 0 && cmp(x, i.max) <= 0 ==> cmp(i.min, i.max) <= 0;
    assert cmp(i.min, i.max) == 0 ==> cmp(i.max, i.min) == 0;
    assert cmp(x, i.max) <= 0 && cmp(i.max, i.min) <= 0 ==> cmp(x, i.min) <= 0;
    assert cmp(i.max, i.min) <= 0 && cmp(i.min, x) <= 0 ==> cmp(i.max, x) <= 0;
  }

  /** A degenerate interval contains exactly the values equal to its endpoint. */
  lemma DegenerateHasOneElement<T(!new)>(i: Interval<T>, cmp: (T, T) -> int, x: T)
    requires IsTotalOrder(cmp)
    requires i.IsDegenerate(cmp)
    ensures i.Contains(cmp, x) <==> IsEqualTo(cmp, x, i.min)
  {
    assert cmp(i.max, i.min) == 0;
    assert cmp(x, i.max) <= 0 ==> cmp(x, i.min) <= 0;
    assert cmp(x, i.min) == 0 ==> cmp(i.min, x) == 0 && cmp(x, i.max) <= 0;
  }

  /** A proper interval has two distinct endpoints, both inside it when it is
      closed. */
  lemma ProperClosedHasBothEndpoints<T(!new)>(i: Interval<T>, cmp: (T, T) -> int)
    requires IsTotalOrder(cmp)
    requires i.IsProper(cmp) && i.IsClosed()
    ensures i.Contains(cmp, i.min) && i.Contains(cmp, i.max)
    ensures !IsEqualTo(cmp, i.min, i.max)
  {
  }

  /** Equals(Interval<T>): both endpoints compare equal and both flags match. */
  predicate Equals<T>(a: Interval<T>, b: Interval<T>, cmp: (T, T) -> int)
  {
    && IsEqualTo(cmp, a.min, b.min)
    && IsEqualTo(cmp, a.max, b.max)
    && a.minIsIncluded == b.minIsIncluded
    && a.maxIsIncluded == b.maxIsIncluded
  }

  /** operator ==: structural equality, field by field. */
  function EqualityOperator<T>(left: Interval<T>, right: Interval<T>, cmp: (T, T) -> int): (b: bool)
    ensures b <==>
      && IsEqualTo(cmp, left.min, right.min)
      && IsEqualTo(cmp, left.max, right.max)
      && left.minIsIncluded == right.minIsIncluded
      && left.maxIsIncluded == right.maxIsIncluded
  {
    Equals(left, right, cmp)
  }

  /** operator !=: true as soon as one field differs. */
  function InequalityOperator<T>(left: Interval<T>, right: Interval<T>, cmp: (T, T) -> int): (b: bool)
    ensures b <==>
      || !IsEqualTo(cmp, left.min, right.min)
      || !IsEqualTo(cmp, left.max, right.max)
      || left.minIsIncluded != right.minIsIncluded
      || left.maxIsIncluded != right.maxIsIncluded
    ensures b == !EqualityOperator(left, right, cmp)
  {
    !Equals(left, right, cmp)
  }

  /** Equals(object): `obj` is None when it is null or not an Interval<T>. */
  function EqualsObject<T>(i: Interval<T>, obj: Option<Interval<T>>, cmp: (T, T) -> int): (b: bool)
    ensures obj.None? ==> !b
    ensures obj.Some? ==> (b <==> EqualityOperator(i, obj.value, cmp))
  {
    match obj
    case None => false
    case Some(other) => Equals(i, other, cmp)
  }

  /** Under a total order, Equals is an equivalence relation. */
  lemma EqualsIsEquivalence<T(!new)>(a: Interval<T>, b: Interval<T>, c: Interval<T>, cmp: (T, T) -> int)
    requires IsTotalOrder(cmp)
    ensures Equals(a, a, cmp)
    ensures Equals(a, b, cmp) ==> Equals(b, a, cmp)
    ensures Equals(a, b, cmp) && Equals(b, c, cmp) ==> Equals(a, c, cmp)
  {
    if Equals(a, b, cmp) && Equals(b, c, cmp) {
      CompareEqualIsTransitive(cmp, a.min, b.min, c.min);
      CompareEqualIsTransitive(cmp, a.max, b.max, c.max);
    }
  }

  /** Values that compare equal to a common value compare equal. */
  lemma CompareEqualIsTransitive<T(!new)>(cmp: (T, T) -> int, x: T, y: T, z: T)
    requires IsTotalOrder(cmp)
    requires IsEqualTo(cmp, x, y) && IsEqualTo(cmp, y, z)
    ensures IsEqualTo(cmp, x, z)
  {
    assert cmp(y, x) == 0 && cmp(z, y) == 0;
    assert cmp(x, z) <= 0 && cmp(z, x) <= 0;
  }

  /** When CompareTo returns zero exactly for identical values, Equals is
      plain value equality: equality never merges two different intervals. */
  lemma EqualsIsStructural<T>(a: Interval<T>, b: Interval<T>, cmp: (T, T) -> int)
    requires forall x, y :: cmp(x, y) == 0 <==> x == y
    ensures Equals(a, b, cmp) <==> a == b
  {
  }

  /** Boolean.GetHashCode: 1 for true, 0 for false. */
  function BoolHash(b: bool): bv32 { if b then 1 else 0 }

  /** GetHashCode: Of(MinIsIncluded).And(Min).And(Max).And(MaxIsIncluded),
      converted to int. */
  function HashOf<T>(i: Interval<T>, hash: T -> bv32): (r: int)
    ensures r == ToInt32(HashCode(HashOfParts(BoolHash(i.minIsIncluded), hash(i.min), hash(i.max), BoolHash(i.maxIsIncluded))))
  {
    var h := Of(Some(i.minIsIncluded), BoolHash);
    var h := And(h, Some(i.min), hash);
    var h := And(h, Some(i.max), hash);
    var h := And(h, Some(i.maxIsIncluded), BoolHash);
    ToInt32(h)
  }

  /** The hash is consistent with equality, provided T's own hash gives equal
      values to values that compare equal. */
  lemma EqualIntervalsHaveEqualHashes<T(!new)>(a: Interval<T>, b: Interval<T>, cmp: (T, T) -> int, hash: T -> bv32)
    requires forall x, y :: cmp(x, y) == 0 ==> hash(x) == hash(y)
    requires Equals(a, b, cmp)
    ensures HashOf(a, hash) == HashOf(b, hash)
  {
  }

  /** The hash of an interval whose minIsIncluded flag, Min, Max and
      maxIsIncluded hash to h0, h1, h2 and h3. */
  function HashOfParts(h0: bv32, h1: bv32, h2: bv32, h3: bv32): bv32
  {
    Combine(Combine(Combine(h0, h1), h2), h3)
  }

  /** Each step after the first keeps two distinct accumulators apart. */
  lemma HashOfPartsInjectiveInFirst(h0: bv32, g0: bv32, h1: bv32, h2: bv32, h3: bv32)
    requires h0 != g0
    ensures HashOfParts(h0, h1, h2, h3) != HashOfParts(g0, h1, h2, h3)
  {
    CombineInjectiveInFirst(h0, g0, h1);
    CombineInjectiveInFirst(Combine(h0, h1), Combine(g0, h1), h2);
    CombineInjectiveInFirst(Combine(Combine(h0, h1), h2), Combine(Combine(g0, h1), h2), h3);
  }

  /** Flipping minIsIncluded, and nothing else, changes the hash. */
  lemma HashSeesMinIsIncluded<T>(a: Interval<T>, hash: T -> bv32)
    ensures HashOf(a, hash) != HashOf(a.(minIsIncluded := !a.minIsIncluded), hash)
  {
    var b := a.(minIsIncluded := !a.minIsIncluded);
    HashOfPartsInjectiveInFirst(BoolHash(a.minIsIncluded), BoolHash(b.minIsIncluded), hash(a.min), hash(a.max), BoolHash(a.maxIsIncluded));
    ToInt32Injective(HashCode(HashOfParts(BoolHash(a.minIsIncluded), hash(a.min), hash(a.max), BoolHash(a.maxIsIncluded))),
                     HashCode(HashOfParts(BoolHash(b.minIsIncluded), hash(a.min), hash(a.max), BoolHash(a.maxIsIncluded))));
  }

  /** Replacing Min by a value with another hash, and nothing else, changes
      the hash. */
  lemma HashSeesMin<T>(a: Interval<T>, m: T, hash: T -> bv32)
    requires hash(m) != hash(a.min)
    ensures HashOf(a, hash) != HashOf(a.(min := m), hash)
  {
    var h0 := BoolHash(a.minIsIncluded);
    CombineInjectiveInSecond(h0, hash(a.min), hash(m));
    CombineInjectiveInFirst(Combine(h0, hash(a.min)), Combine(h0, hash(m)), hash(a.max));
    CombineInjectiveInFirst(Combine(Combine(h0, hash(a.min)), hash(a.max)), Combine(Combine(h0, hash(m)), hash(a.max)), BoolHash(a.maxIsIncluded));
    ToInt32Injective(HashCode(HashOfParts(h0, hash(a.min), hash(a.max), BoolHash(a.maxIsIncluded))),
                     HashCode(HashOfParts(h0, hash(m), hash(a.max), BoolHash(a.maxIsIncluded))));
  }

  /** Replacing Max by a value with another hash, and nothing else, changes
      the hash. */
  lemma HashSeesMax<T>(a: Interval<T>, m: T, hash: T -> bv32)
    requires hash(m) != hash(a.max)
    ensures HashOf(a, hash) != HashOf(a.(max := m), hash)
  {
    var h1 := Combine(BoolHash(a.minIsIncluded), hash(a.min));
    CombineInjectiveInSecond(h1, hash(a.max), hash(m));
    CombineInjectiveInFirst(Combine(h1, hash(a.max)), Combine(h1, hash(m)), BoolHash(a.maxIsIncluded));
    ToInt32Injective(HashCode(Combine(Combine(h1, hash(a.max)), BoolHash(a.maxIsIncluded))),
                     HashCode(Combine(Combine(h1, hash(m)), BoolHash(a.maxIsIncluded))));
  }

  /** Flipping maxIsIncluded, and nothing else, changes the hash. */
  lemma HashSeesMaxIsIncluded<T>(a: Interval<T>, hash: T -> bv32)
    ensures HashOf(a, hash) != HashOf(a.(maxIsIncluded := !a.maxIsIncluded), hash)
  {
    var h2 := Combine(Combine(BoolHash(a.minIsIncluded), hash(a.min)), hash(a.max));
    CombineInjectiveInSecond(h2, BoolHash(a.maxIsIncluded), BoolHash(!a.maxIsIncluded));
    ToInt32Injective(HashCode(Combine(h2, BoolHash(a.maxIsIncluded))), HashCode(Combine(h2, BoolHash(!a.maxIsIncluded))));
  }

  /** ToString: an opening bracket, Min, ", ", Max and a closing bracket; a
      square bracket marks an included endpoint, a round one an excluded one. */
  function ToString<T>(i: Interval<T>, show: T -> string): (s: string)
    ensures |s| == |show(i.min)| + |show(i.max)| + 4
    ensures s[0] == (if i.minIsIncluded then '[' else '(')
    ensures s[1..1 + |show(i.min)|] == show(i.min)
    ensures s[1 + |show(i.min)|..3 + |show(i.min)|] == ", "
    ensures s[3 + |show(i.min)|..|s| - 1] == show(i.max)
    ensures s[|s| - 1] == (if i.maxIsIncluded then ']' else ')')
  {
    var start := if i.minIsIncluded then '[' else '(';
    var end := if i.maxIsIncluded then ']' else ')';
    [start] + show(i.min) + ", " + show(i.max) + [end]
  }

  /** The brackets of the text give back both inclusion flags. */
  lemma ToStringShowsFlags<T>(a: Interval<T>, b: Interval<T>, show: T -> string)
    requires ToString(a, show) == ToString(b, show)
    ensures a.minIsIncluded == b.minIsIncluded && a.maxIsIncluded == b.maxIsIncluded
  {
    var s := ToString(a, show);
    assert s[0] == ToString(b, show)[0];
    assert s[|s| - 1] == ToString(b, show)[|s| - 1];
  }
}
