/**
 * The fixed-sum search: the first pair, and the first triple, of expense entries adding
 * up to 2020, found by nested scans in which every position is tried against every
 * position (an entry may be paired with itself).
 */
module Day1 {

  const Target := 2020

  /** Positions `i`, `j` of `entries` whose values add up to 2020. */
  ghost predicate IsPair(entries: seq<int>, i: int, j: int) {
    0 <= i < |entries| && 0 <= j < |entries| && entries[i] + entries[j] == Target
  }

  /** `(i, j)` is the first summing pair in row-major order: no earlier pair sums to 2020. */
  ghost predicate FirstPair(entries: seq<int>, i: int, j: int) {
    && IsPair(entries, i, j)
    && (forall a, b :: IsPair(entries, a, b) ==> i < a || (i == a && j <= b))
  }

  /** Positions `i`, `j`, `k` whose values add up to 2020. */
  ghost predicate IsTriple(entries: seq<int>, i: int, j: int, k: int) {
    && 0 <= i < |entries| && 0 <= j < |entries| && 0 <= k < |entries|
    && entries[i] + entries[j] + entries[k] == Target
  }

  /** `(i, j, k)` is the first summing triple in lexicographic order. */
  ghost predicate FirstTriple(entries: seq<int>, i: int, j: int, k: int) {
    && IsTriple(entries, i, j, k)
    && (forall a, b, c :: IsTriple(entries, a, b, c) ==>
          i < a || (i == a && (j < b || (j == b && k <= c))))
  }

  /** Row-major order is total, so there is at most one first pair. */
  lemma FirstPairUnique(entries: seq<int>, i: int, j: int, a: int, b: int)
    requires FirstPair(entries, i, j) && FirstPair(entries, a, b)
    ensures i == a && j == b
  {
    assert i < a || (i == a && j <= b);
    assert a < i || (a == i && b <= j);
  }

  /** There is at most one first triple. */
  lemma FirstTripleUnique(entries: seq<int>, i: int, j: int, k: int, a: int, b: int, c: int)
    requires FirstTriple(entries, i, j, k) && FirstTriple(entries, a, b, c)
    ensures i == a && j == b && k == c
  {
    assert i < a || (i == a && (j < b || (j == b && k <= c)));
    assert a < i || (a == i && (b < j || (b == j && c <= k)));
  }

  /**
   * The first part: the product of the first pair summing to 2020, and 0 when no pair does.
   * The product's factors are entries of the list.
   */
  method PartOne(entries: seq<int>) returns (r: int)
    ensures (forall a, b :: !IsPair(entries, a, b)) ==> r == 0
    ensures (exists a, b :: IsPair(entries, a, b)) ==>
      exists i, j :: FirstPair(entries, i, j) && r == entries[i] * entries[j]
  {
    for i := 0 to |entries|
      invariant forall a, b :: IsPair(entries, a, b) ==> i <= a
    {
      for j := 0 to |entries|
        invariant forall a, b :: IsPair(entries, a, b) ==> i < a || (i == a && j <= b)
      {
        if entries[i] + entries[j] == Target {
          assert FirstPair(entries, i, j);
          return entries[i] * entries[j];
        }
      }
    }
    return 0;
  }

  /**
   * The second part: the product of the first triple summing to 2020, and 0 when no triple
   * does.
   */
  method PartTwo(entries: seq<int>) returns (r: int)
    ensures (forall a, b, c :: !IsTriple(entries, a, b, c)) ==> r == 0
    ensures (exists a, b, c :: IsTriple(entries, a, b, c)) ==>
      exists i, j, k :: FirstTriple(entries, i, j, k) && r == entries[i] * entries[j] * entries[k]
  {
    for i := 0 to |entries|
      invariant forall a, b, c :: IsTriple(entries, a, b, c) ==> i <= a
    {
      for j := 0 to |entries|
        invariant forall a, b, c :: IsTriple(entries, a, b, c) ==> i < a || (i == a && j <= b)
      {
        for k := 0 to |entries|
          invariant forall a, b, c :: IsTriple(entries, a, b, c) ==>
            i < a || (i == a && (j < b || (j == b && k <= c)))
        {
          if entries[i] + entries[j] + entries[k] == Target {
            assert FirstTriple(entries, i, j, k);
            return entries[i] * entries[j] * entries[k];
          }
        }
      }
    }
    return 0;
  }

  /** On the puzzle's sample list the pair is 1721 + 299 and the triple 979 + 366 + 675. */
  method Sample() returns (one: int, two: int)
    ensures one == 514579 && two == 241861950
  {
    var entries := [1721, 979, 366, 299, 675, 1456];
    one := PartOne(entries);
    assert FirstPair(entries, 0, 3);
    two := PartTwo(entries);
    assert FirstTriple(entries, 1, 2, 4);
  }
}
