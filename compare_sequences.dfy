/** util/compare-sequences.js: lexicographic comparison of two sequences, walked in lockstep. */
module SequenceOrder {

  /** `less` is a strict total order: irreflexive, transitive and connected. JavaScript's `<`
      on strings is one; compareSequences needs one for its result to be an order. */
  ghost predicate StrictTotalOrder<T(!new)>(less: (T, T) -> bool)
  {
    && (forall x :: !less(x, x))
    && (forall x, y, z :: less(x, y) && less(y, z) ==> less(x, z))
    && (forall x, y :: x != y ==> less(x, y) || less(y, x))
  }

  /** The result of compareSequences when element `x` counts as smaller than `y` iff
      `less(x, y)` and as greater iff `less(y, x)`: -1, 0 or 1. */
  function Compare<T>(a: seq<T>, b: seq<T>, less: (T, T) -> bool): (r: int)
    ensures r == -1 || r == 0 || r == 1
  {
    if |a| == 0 then (if |b| == 0 then 0 else -1)
    else if |b| == 0 then 1
    else if less(a[0], b[0]) then -1
    else if less(b[0], a[0]) then 1
    else Compare(a[1..], b[1..], less)
  }

  /** compareSequences: advances one position in both sequences per iteration until one of
      them is exhausted or the elements at the position differ. */
  method CompareSequences<T>(a: seq<T>, b: seq<T>, less: (T, T) -> bool) returns (r: int)
    ensures r == Compare(a, b, less)
  {
    var i := 0;
    while true
      invariant i <= |a| && i <= |b|
      invariant Compare(a[i..], b[i..], less) == Compare(a, b, less)
      decreases |a| - i
    {
      if i == |a| {
        return if i == |b| then 0 else -1;
      }
      if i == |b| {
        return 1;
      }
      if less(a[i], b[i]) {
        return -1;
      }
      if less(b[i], a[i]) {
        return 1;
      }
      assert a[i..][1..] == a[i + 1..] && b[i..][1..] == b[i + 1..];
      i := i + 1;
    }
  }

  /** Equal sequences, the two empty ones included, compare 0. */
  lemma {:induction false} CompareSelf<T(!new)>(a: seq<T>, less: (T, T) -> bool)
    requires StrictTotalOrder(less)
    ensures Compare(a, a, less) == 0
    decreases |a|
  {
    if |a| > 0 {
      CompareSelf(a[1..], less);
    }
  }

  /** A proper prefix compares -1 against the longer sequence, which compares 1 against it. */
  lemma {:induction false} ComparePrefix<T(!new)>(a: seq<T>, b: seq<T>, less: (T, T) -> bool)
    requires StrictTotalOrder(less)
    requires |a| < |b| && a == b[..|a|]
    ensures Compare(a, b, less) == -1 && Compare(b, a, less) == 1
    decreases |a|
  {
    if |a| > 0 {
      assert a[1..] == b[1..][..|a| - 1];
      ComparePrefix(a[1..], b[1..], less);
    }
  }

  /** Past a common prefix, the first position where the sequences differ decides. */
  lemma {:induction false} CompareFirstDifference<T(!new)>(a: seq<T>, b: seq<T>, k: nat, less: (T, T) -> bool)
    requires StrictTotalOrder(less)
    requires k < |a| && k < |b| && a[..k] == b[..k] && a[k] != b[k]
    ensures Compare(a, b, less) == if less(a[k], b[k]) then -1 else 1
    decreases k
  {
    if k > 0 {
      assert a[0] == a[..k][0] && b[0] == b[..k][0];
      assert a[1..][..k - 1] == a[..k][1..] && b[1..][..k - 1] == b[..k][1..];
      CompareFirstDifference(a[1..], b[1..], k - 1, less);
    }
  }

  /** Antisymmetry: swapping the arguments negates the result. */
  lemma {:induction false} CompareAntisymmetric<T(!new)>(a: seq<T>, b: seq<T>, less: (T, T) -> bool)
    requires StrictTotalOrder(less)
    ensures Compare(a, b, less) == -Compare(b, a, less)
    decreases |a|
  {
    if |a| > 0 && |b| > 0 {
      CompareAntisymmetric(a[1..], b[1..], less);
    }
  }

  /** Only equal sequences compare 0. */
  lemma {:induction false} CompareZeroIffEqual<T(!new)>(a: seq<T>, b: seq<T>, less: (T, T) -> bool)
    requires StrictTotalOrder(less)
    ensures Compare(a, b, less) == 0 <==> a == b
    decreases |a|
  {
    if a == b {
      CompareSelf(a, less);
    } else if |a| > 0 && |b| > 0 {
      CompareZeroIffEqual(a[1..], b[1..], less);
      assert a == [a[0]] + a[1..] && b == [b[0]] + b[1..];
    }
  }

  /** "Compares -1" is transitive. */
  lemma {:induction false} CompareTransitive<T(!new)>(a: seq<T>, b: seq<T>, c: seq<T>, less: (T, T) -> bool)
    requires StrictTotalOrder(less)
    requires Compare(a, b, less) == -1 && Compare(b, c, less) == -1
    ensures Compare(a, c, less) == -1
    decreases |a|
  {
    if |a| > 0 && |b| > 0 && |c| > 0 && !less(a[0], b[0]) && !less(b[0], c[0]) {
      CompareTransitive(a[1..], b[1..], c[1..], less);
    }
  }

  /** "Compares at most 0" is transitive. */
  lemma CompareAtMostTransitive<T(!new)>(a: seq<T>, b: seq<T>, c: seq<T>, less: (T, T) -> bool)
    requires StrictTotalOrder(less)
    requires Compare(a, b, less) <= 0 && Compare(b, c, less) <= 0
    ensures Compare(a, c, less) <= 0
  {
    CompareZeroIffEqual(a, b, less);
    CompareZeroIffEqual(b, c, less);
    if Compare(a, b, less) == -1 && Compare(b, c, less) == -1 {
      CompareTransitive(a, b, c, less);
    }
  }

  /** Comparing one fixed sequence against an ordered pair: the result never increases from
      the smaller element of the pair to the larger. */
  lemma CompareMonotone<T(!new)>(k: seq<T>, x: seq<T>, y: seq<T>, less: (T, T) -> bool)
    requires StrictTotalOrder(less)
    requires Compare(x, y, less) <= 0
    ensures Compare(k, x, less) >= Compare(k, y, less)
  {
    CompareAntisymmetric(k, x, less);
    CompareAntisymmetric(k, y, less);
    CompareZeroIffEqual(k, x, less);
    CompareZeroIffEqual(k, y, less);
    CompareZeroIffEqual(x, y, less);
    if Compare(k, x, less) == -1 && Compare(k, y, less) >= 0 {
      CompareAtMostTransitive(y, k, x, less);
      CompareAntisymmetric(x, y, less);
    } else if Compare(k, x, less) == 0 && Compare(k, y, less) == 1 {
      CompareAntisymmetric(x, y, less);
    }
  }

  /** JavaScript's `<` on two characters. */
  predicate CharLess(c: char, d: char)
  {
    c < d
  }

  /** JavaScript's `<` on two strings: compareSequences over their characters says -1. */
  predicate StringLess(x: string, y: string)
  {
    Compare(x, y, CharLess) == -1
  }

  /** `<` on strings is a strict total order, so compareSequences over sequences of strings
      is antisymmetric and transitive. */
  lemma StringLessIsStrictTotalOrder()
    ensures StrictTotalOrder(StringLess)
  {
    assert StrictTotalOrder(CharLess);
    forall x: string
      ensures !StringLess(x, x)
    {
      CompareSelf(x, CharLess);
    }
    forall x: string, y: string, z: string | StringLess(x, y) && StringLess(y, z)
      ensures StringLess(x, z)
    {
      CompareTransitive(x, y, z, CharLess);
    }
    forall x: string, y: string | x != y
      ensures StringLess(x, y) || StringLess(y, x)
    {
      CompareZeroIffEqual(x, y, CharLess);
      CompareAntisymmetric(x, y, CharLess);
    }
  }
}
