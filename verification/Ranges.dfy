/** Half-open ranges (`src/utils/ranges.ts`) and the partitioned binary search (`src/utils/binary-search.ts`). */
module Ranges {

  datatype NamedRange = NamedRange(name: string, base: int, size: int) {
    predicate Contains(x: int) { base <= x < base + size }
  }

  predicate RangesOverlap(aBase: int, aSize: int, bBase: int, bSize: int) {
    aSize > 0 && bSize > 0 && aBase < bBase + bSize && bBase < aBase + aSize
  }

  predicate Overlap(a: NamedRange, b: NamedRange) {
    RangesOverlap(a.base, a.size, b.base, b.size)
  }

  /** The test is "the two ranges share a point", in both directions. */
  lemma OverlapMeansCommonPoint(a: NamedRange, b: NamedRange)
    ensures Overlap(a, b) <==> exists x :: a.Contains(x) && b.Contains(x)
  {
    if Overlap(a, b) {
      var x := if a.base <= b.base then b.base else a.base;
      assert a.Contains(x) && b.Contains(x);
    }
  }

  ghost predicate PairwiseDisjoint(ranges: seq<NamedRange>) {
    forall i, j :: 0 <= i < j < |ranges| ==> !Overlap(ranges[i], ranges[j])
  }

  datatype Pair = NoPair | Pair(a: NamedRange, b: NamedRange)

  /** The first overlapping pair in index order, or none exactly when the ranges are pairwise disjoint. */
  method FindOverlappingPair(ranges: seq<NamedRange>) returns (pair: Pair)
    ensures pair.NoPair? <==> PairwiseDisjoint(ranges)
    ensures pair.Pair? ==> exists i, j ::
              && 0 <= i < j < |ranges| && pair == Pair(ranges[i], ranges[j]) && Overlap(ranges[i], ranges[j])
              && (forall k, l :: 0 <= k < l < |ranges| && (k < i || (k == i && l < j)) ==>
                   !Overlap(ranges[k], ranges[l]))
  {
    for index := 0 to |ranges|
      invariant forall k, l :: 0 <= k < l < |ranges| && k < index ==> !Overlap(ranges[k], ranges[l])
    {
      for other := index + 1 to |ranges|
        invariant forall l :: index < l < other ==> !Overlap(ranges[index], ranges[l])
      {
        if Overlap(ranges[index], ranges[other]) {
          return Pair(ranges[index], ranges[other]);
        }
      }
    }
    return NoPair;
  }

  /** Index of the last item satisfying a predicate that holds on a prefix, or -1. */
  method FindLastIndex<Item>(items: seq<Item>, matches: Item -> bool) returns (index: int)
    requires forall i, j :: 0 <= i < j < |items| && matches(items[j]) ==> matches(items[i])
    ensures -1 <= index < |items|
    ensures forall i :: 0 <= i < |items| ==> (matches(items[i]) <==> i <= index)
  {
    var low, high := 0, |items|;
    while low < high
      invariant 0 <= low <= high <= |items|
      invariant forall i :: 0 <= i < low ==> matches(items[i])
      invariant forall i :: high <= i < |items| ==> !matches(items[i])
    {
      var mid := (low + high) / 2;
      if matches(items[mid]) {
        low := mid + 1;
      } else {
        high := mid;
      }
    }
    return low - 1;
  }
}
