/** The scenarios of test/OnionSeed.Types.Tests/IntervalTests.cs, with
    Int32 (or string) endpoints. */
module IntervalScenarios {
  import opened Wrappers
  import opened HashCodes
  import opened Intervals

  /** The sign of Int32.CompareTo. */
  function CompareInts(a: int, b: int): int
  {
    if a < b then -1 else if a == b then 0 else 1
  }

  lemma CompareIntsIsTotalOrder()
    ensures IsTotalOrder(CompareInts)
  {
  }

  function DigitChar(d: nat): char
    requires d < 10
  {
    "0123456789"[d]
  }

  /** Int32.ToString for a non-negative value: its decimal digits. */
  function ShowNat(n: nat): string
  {
    if n < 10 then [DigitChar(n)] else ShowNat(n / 10) + [DigitChar(n % 10)]
  }

  /** Int32.ToString: decimal digits, with a minus sign when negative. */
  function ShowInt(n: int): string
  {
    if n < 0 then "-" + ShowNat(-n) else ShowNat(n)
  }

  /** A null endpoint is rejected by both constructors, `min` first. */
  lemma NullEndpointsAreRejected(minIsIncluded: bool, maxIsIncluded: bool)
    ensures NewClosed<string>(None, None) == Failure(ArgumentNull("min"))
    ensures NewClosed<string>(None, Some("DEF")) == Failure(ArgumentNull("min"))
    ensures NewClosed<string>(Some("ABC"), None) == Failure(ArgumentNull("max"))
    ensures New<string>(minIsIncluded, None, Some("DEF"), maxIsIncluded).Failure?
    ensures New<string>(minIsIncluded, Some("ABC"), None, maxIsIncluded).Failure?
  {
  }

  /** As written, the constructors accept max < min: [3, 2] is built, and it
      is classified as empty. */
  lemma ReversedRangeIsAccepted()
    ensures NewClosed(Some(3), Some(2)) == Success(Interval(true, 3, 2, true))
    ensures forall minIsIncluded: bool, maxIsIncluded: bool ::
      New(minIsIncluded, Some(3), Some(2), maxIsIncluded).Success?
    ensures Interval(true, 3, 2, true).IsEmpty(CompareInts)
  {
  }

  /** The checked constructor throws ArgumentOutOfRange for max < min, with
      any inclusion flags, and still accepts max == min. */
  lemma ReversedRangeIsRejectedWhenChecked(minIsIncluded: bool, maxIsIncluded: bool)
    ensures NewChecked(minIsIncluded, Some(3), Some(2), maxIsIncluded, CompareInts) == Failure(ArgumentOutOfRange)
    ensures NewChecked(minIsIncluded, Some(3), Some(3), maxIsIncluded, CompareInts)
      == Success(Interval(minIsIncluded, 3, 3, maxIsIncluded))
  {
  }

  /** (3, 7) compared with the five intervals of the equality tests. */
  lemma EqualityOperatorsOnIntervals()
    ensures EqualityOperator(Interval(false, 3, 7, false), Interval(false, 3, 7, false), CompareInts)
    ensures !EqualityOperator(Interval(false, 3, 7, false), Interval(false, 3, 7, true), CompareInts)
    ensures !EqualityOperator(Interval(false, 3, 7, false), Interval(false, 3, 6, false), CompareInts)
    ensures !EqualityOperator(Interval(false, 3, 7, false), Interval(false, 4, 7, false), CompareInts)
    ensures !EqualityOperator(Interval(false, 3, 7, false), Interval(true, 3, 7, false), CompareInts)
    ensures !InequalityOperator(Interval(false, 3, 7, false), Interval(false, 3, 7, false), CompareInts)
    ensures InequalityOperator(Interval(false, 3, 7, false), Interval(false, 3, 7, true), CompareInts)
    ensures InequalityOperator(Interval(false, 3, 7, false), Interval(false, 3, 6, false), CompareInts)
    ensures InequalityOperator(Interval(false, 3, 7, false), Interval(false, 4, 7, false), CompareInts)
    ensures InequalityOperator(Interval(false, 3, 7, false), Interval(true, 3, 7, false), CompareInts)
    ensures !EqualsObject(Interval(true, 3, 7, true), None, CompareInts)
  {
  }

  /** The hash of (3, 7) differs from the hashes of the four intervals that
      differ from it in one field, for any Int32 hash that tells 3 from 4
      and 6 from 7. */
  lemma HashesOfNeighboursDiffer(hash: int -> bv32)
    requires hash(3) != hash(4) && hash(6) != hash(7)
    ensures HashOf(Interval(false, 3, 7, false), hash) != HashOf(Interval(false, 3, 7, true), hash)
    ensures HashOf(Interval(false, 3, 7, false), hash) != HashOf(Interval(false, 3, 6, false), hash)
    ensures HashOf(Interval(false, 3, 7, false), hash) != HashOf(Interval(false, 4, 7, false), hash)
    ensures HashOf(Interval(false, 3, 7, false), hash) != HashOf(Interval(true, 3, 7, false), hash)
  {
    var i := Interval(false, 3, 7, false);
    HashSeesMaxIsIncluded(i, hash);
    HashSeesMax(i, 6, hash);
    HashSeesMin(i, 4, hash);
    HashSeesMinIsIncluded(i, hash);
  }

  /** The four bracket forms of 3 to 7. */
  lemma ToStringOfIntervals()
    ensures ToString(Interval(false, 3, 7, false), ShowInt) == "(3, 7)"
    ensures ToString(Interval(false, 3, 7, true), ShowInt) == "(3, 7]"
    ensures ToString(Interval(true, 3, 7, false), ShowInt) == "[3, 7)"
    ensures ToString(Interval(true, 3, 7, true), ShowInt) == "[3, 7]"
  {
    assert ShowInt(3) == "3" && ShowInt(7) == "7";
  }

  /** Over the integers, (3, 4) holds no element, yet it is proper and not
      empty: the classification follows the order of the endpoints, which
      matches element counts only for a dense T. */
  lemma AdjacentOpenIntervalIsProper(x: int)
    ensures Interval(false, 3, 4, false).IsProper(CompareInts)
    ensures !Interval(false, 3, 4, false).IsEmpty(CompareInts)
    ensures !Interval(false, 3, 4, false).Contains(CompareInts, x)
  {
  }
}
