/** pages/binary-search.js: an index at which a value can be inserted to keep a sequence
    ordered, found by narrowing a half-open window. */
module Search {

  /** `compare` never increases along `s`: every element that compares greater than the
      value sought comes before every element that compares smaller. */
  ghost predicate NonIncreasing<T>(s: seq<T>, compare: T -> int)
  {
    forall i, j :: 0 <= i < j < |s| ==> compare(s[i]) >= compare(s[j])
  }

  /** binarySearch. `compare(x)` is positive when the value sought belongs after `x`, negative
      when it belongs before `x` and 0 when the two are equal. */
  method BinarySearch<T>(indexable: seq<T>, compare: T -> int) returns (index: nat)
    ensures index <= |indexable|
    // Whatever `compare` is: a hit, or a point whose neighbours lie on the right sides.
    ensures || (index < |indexable| && compare(indexable[index]) == 0)
            || (&& (index == |indexable| || compare(indexable[index]) < 0)
                && (index == 0 || compare(indexable[index - 1]) > 0))
    // On an ordered input: a position that keeps the order.
    ensures NonIncreasing(indexable, compare) ==>
      && (forall i :: 0 <= i < index ==> compare(indexable[i]) >= 0)
      && (forall i :: index <= i < |indexable| ==> compare(indexable[i]) <= 0)
    // On an ordered input without an equal element: the insertion point.
    ensures NonIncreasing(indexable, compare) && (forall i :: 0 <= i < |indexable| ==> compare(indexable[i]) != 0) ==>
      && (forall i :: 0 <= i < index ==> compare(indexable[i]) > 0)
      && (forall i :: index <= i < |indexable| ==> compare(indexable[i]) < 0)
  {
    var start := 0;
    var end := |indexable|;
    while start < end
      invariant 0 <= start <= end <= |indexable|
      invariant end == |indexable| || compare(indexable[end]) < 0
      invariant start == 0 || compare(indexable[start - 1]) > 0
      invariant NonIncreasing(indexable, compare) ==> forall i :: 0 <= i < start ==> compare(indexable[i]) > 0
      invariant NonIncreasing(indexable, compare) ==> forall i :: end <= i < |indexable| ==> compare(indexable[i]) < 0
      decreases end - start
    {
      var mid := (start + end) / 2;
      var c := compare(indexable[mid]);
      if c < 0 {
        end := mid;
      } else if c > 0 {
        start := mid + 1;
      } else {
        return mid;
      }
    }
    return start;
  }
}
