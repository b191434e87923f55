/** The fluent, order-sensitive hash combiner of src/OnionSeed.Types/HashCode.cs.

    A C# `int` is a 32-bit two's complement number. It is kept here as its bit
    pattern, a `bv32`, on which `<<`, `+` and `^` wrap exactly as they do inside
    the source's `unchecked` block. A null reference is `None`, and the hash of
    a non-null item of type `T` (its own `GetHashCode`) is the parameter
    `hash`. */
module HashCodes {
  import opened Wrappers

  /** The struct, with its single readonly field. Every operation returns a
      new value, so a receiver is never changed. */
  datatype HashCode = HashCode(value: bv32)

  /** The exception the foreach loop raises when it is handed a null sequence. */
  datatype HashError = NullReference

  /** CombineHashCodes: the mixer copied from System.Tuple, in unchecked
      arithmetic. Shifting left by 5 and adding the operand is a wrapping
      multiplication by 33. */
  function Combine(h1: bv32, h2: bv32): bv32
  {
    ((h1 << 5) + h1) ^ h2
  }

  /** The step is a wrapping multiplication by 33 followed by an exclusive or. */
  lemma CombineMultipliesBy33(h1: bv32, h2: bv32)
    ensures Combine(h1, h2) == (h1 * 33) ^ h2
  {
  }

  /** For a fixed accumulator, distinct item hashes give distinct results:
      exclusive or with a fixed value is a bijection. */
  lemma CombineInjectiveInSecond(h1: bv32, a: bv32, b: bv32)
    requires a != b
    ensures Combine(h1, a) != Combine(h1, b)
  {
  }

  /** For a fixed item hash, distinct accumulators give distinct results:
      multiplying by the odd number 33 is a bijection modulo 2^32. */
  lemma CombineInjectiveInFirst(a: bv32, b: bv32, h2: bv32)
    requires a != b
    ensures Combine(a, h2) != Combine(b, h2)
  {
    assert (a << 5) + a != (b << 5) + b;
  }

  /** Combining is not order-sensitive for every pair of distinct item
      hashes: 33 * x ^ x is always even, so it takes some value twice, and
      folding 1 then 0x8000_0001 gives the same hash as the reverse order. */
  lemma SwappedItemsCanCollide()
    ensures Combine(Combine(0, 1), 0x8000_0001) == Combine(Combine(0, 0x8000_0001), 1)
  {
  }

  /** GetHashCode(item): a null item hashes to 0, any other to its own hash. */
  function ItemHash<T>(item: Option<T>, hash: T -> bv32): bv32
  {
    match item
    case None => 0
    case Some(x) => hash(x)
  }

  /** The left fold of Combine over the items' hashes, in sequence order,
      from the accumulator `start`. */
  function Fold<T>(start: bv32, items: seq<Option<T>>, hash: T -> bv32): bv32
    decreases |items|
  {
    if items == [] then start
    else Fold(Combine(start, ItemHash(items[0], hash)), items[1..], hash)
  }

  /** Folding a concatenation is folding the second part from where the
      first part left the accumulator. */
  lemma {:induction false} FoldConcat<T>(start: bv32, xs: seq<Option<T>>, ys: seq<Option<T>>, hash: T -> bv32)
    ensures Fold(start, xs + ys, hash) == Fold(Fold(start, xs, hash), ys, hash)
    decreases |xs|
  {
    if xs == [] {
      assert xs + ys == ys;
    } else {
      assert (xs + ys)[1..] == xs[1..] + ys;
      FoldConcat(Combine(start, ItemHash(xs[0], hash)), xs[1..], ys, hash);
    }
  }

  /** One more item is one more Combine step on the accumulator. */
  lemma FoldAppend<T>(start: bv32, xs: seq<Option<T>>, x: Option<T>, hash: T -> bv32)
    ensures Fold(start, xs + [x], hash) == Combine(Fold(start, xs, hash), ItemHash(x, hash))
  {
    FoldConcat(start, xs, [x], hash);
  }

  /** The fold remembers its start: distinct accumulators stay distinct
      whatever items are folded in. */
  lemma {:induction false} FoldInjectiveInStart<T>(a: bv32, b: bv32, items: seq<Option<T>>, hash: T -> bv32)
    requires a != b
    ensures Fold(a, items, hash) != Fold(b, items, hash)
    decreases |items|
  {
    if items != [] {
      var h := ItemHash(items[0], hash);
      CombineInjectiveInFirst(a, b, h);
      FoldInjectiveInStart(Combine(a, h), Combine(b, h), items[1..], hash);
    }
  }

  /** Changing the hash of the item at any one position, and nothing else,
      changes the folded hash. */
  lemma FoldSensitiveAtEachPosition<T>(start: bv32, xs: seq<Option<T>>, ys: seq<Option<T>>, k: nat, hash: T -> bv32)
    requires |xs| == |ys| && k < |xs|
    requires xs[..k] == ys[..k] && xs[k + 1..] == ys[k + 1..]
    requires ItemHash(xs[k], hash) != ItemHash(ys[k], hash)
    ensures Fold(start, xs, hash) != Fold(start, ys, hash)
  {
    var prefix, suffix := xs[..k], xs[k + 1..];
    assert xs == prefix + [xs[k]] + suffix;
    assert ys == prefix + [ys[k]] + suffix;
    var acc := Fold(start, prefix, hash);
    FoldConcat(start, prefix + [xs[k]], suffix, hash);
    FoldConcat(start, prefix + [ys[k]], suffix, hash);
    FoldAppend(start, prefix, xs[k], hash);
    FoldAppend(start, prefix, ys[k], hash);
    CombineInjectiveInSecond(acc, ItemHash(xs[k], hash), ItemHash(ys[k], hash));
    FoldInjectiveInStart(Combine(acc, ItemHash(xs[k], hash)), Combine(acc, ItemHash(ys[k], hash)), suffix, hash);
  }

  /** The private GetHashCode(items, startHashCode): the foreach loop that
      folds each item's hash into the accumulator `temp`. */
  method FoldItems<T>(items: seq<Option<T>>, startHashCode: bv32, hash: T -> bv32) returns (temp: bv32)
    ensures temp == Fold(startHashCode, items, hash)
  {
    temp := startHashCode;
    for i := 0 to |items|
      invariant temp == Fold(startHashCode, items[..i], hash)
    {
      FoldAppend(startHashCode, items[..i], items[i], hash);
      assert items[..i + 1] == items[..i] + [items[i]];
      temp := Combine(temp, ItemHash(items[i], hash));
    }
    assert items[..|items|] == items;
  }

  /** Of(item): the hash of a single item; 0 for null. */
  function Of<T>(item: Option<T>, hash: T -> bv32): (r: HashCode)
    ensures item.None? ==> r.value == 0
    ensures item.Some? ==> r.value == hash(item.value)
  {
    HashCode(ItemHash(item, hash))
  }

  /** OfEach(items): the fold of the items from 0. A null sequence makes the
      foreach loop throw. */
  function OfEach<T>(items: Option<seq<Option<T>>>, hash: T -> bv32): (r: Result<HashCode, HashError>)
    ensures r.Failure? <==> items.None?
    ensures r.Failure? ==> r.error == NullReference
    ensures r.Success? ==> r.value.value == Fold(0, items.value, hash)
  {
    match items
    case None => Failure(NullReference)
    case Some(xs) => Success(HashCode(Fold(0, xs, hash)))
  }

  /** AndEach(items): the fold of the items from the current value; a null
      sequence leaves the value as it is. */
  function AndEach<T>(hc: HashCode, items: Option<seq<Option<T>>>, hash: T -> bv32): (r: HashCode)
    ensures items.None? ==> r == hc
    ensures items.Some? ==> r.value == Fold(hc.value, items.value, hash)
  {
    match items
    case None => HashCode(hc.value)
    case Some(xs) => HashCode(Fold(hc.value, xs, hash))
  }

  /** And(item): one Combine step, the same as AndEach of the one-item sequence. */
  function And<T>(hc: HashCode, item: Option<T>, hash: T -> bv32): (r: HashCode)
    ensures r == AndEach(hc, Some([item]), hash)
  {
    FoldAppend(hc.value, [], item, hash);
    assert [] + [item] == [item];
    HashCode(Combine(hc.value, ItemHash(item, hash)))
  }

  /** Combining into 0 is the identity, so Of is OfEach of one item, and a
      chain starting with Of is OfEach of the whole sequence. */
  lemma OfIsFoldFromZero<T>(x: Option<T>, ys: seq<Option<T>>, hash: T -> bv32)
    ensures OfEach(Some([x]), hash) == Success(Of(x, hash))
    ensures OfEach(Some([x] + ys), hash) == Success(AndEach(Of(x, hash), Some(ys), hash))
  {
    FoldConcat(0, [x], ys, hash);
  }

  /** AndEach of two sequences in turn is AndEach of their concatenation. */
  lemma AndEachConcat<T>(hc: HashCode, xs: seq<Option<T>>, ys: seq<Option<T>>, hash: T -> bv32)
    ensures AndEach(AndEach(hc, Some(xs), hash), Some(ys), hash) == AndEach(hc, Some(xs + ys), hash)
  {
    FoldConcat(hc.value, xs, ys, hash);
  }

  /** The implicit conversion to int: the two's complement reading of the
      stored bits. */
  function ToInt32(hc: HashCode): (r: int)
    ensures -0x8000_0000 <= r < 0x8000_0000
    ensures r % 0x1_0000_0000 == hc.value as int
  {
    BitsToInt32(hc.value)
  }

  /** The two's complement reading of 32 bits. */
  function BitsToInt32(v: bv32): (r: int)
    ensures -0x8000_0000 <= r < 0x8000_0000
    ensures r % 0x1_0000_0000 == v as int
  {
    var n := v as int;
    if n < 0x8000_0000 then n else n - 0x1_0000_0000
  }

  /** Distinct hash codes convert to distinct ints. */
  lemma ToInt32Injective(a: HashCode, b: HashCode)
    requires a != b
    ensures ToInt32(a) != ToInt32(b)
  {
    assert a.value == (a.value as int) as bv32;
    assert b.value == (b.value as int) as bv32;
  }
}
