/** Small value types shared by the modules of this model. */
module Wrappers {

  /** A value that may be absent: JavaScript's `undefined` / `null` results. */
  datatype Option<+T> = None | Some(value: T)

  /** True iff no element of `s` occurs twice, as in a JavaScript `Set`. */
  ghost predicate NoDuplicates<T>(s: seq<T>)
  {
    forall i, j :: 0 <= i < j < |s| ==> s[i] != s[j]
  }

  /** Without its first element a duplicate-free sequence stays duplicate-free and no longer
      holds that element. */
  lemma NoDuplicatesTail<T>(s: seq<T>)
    requires NoDuplicates(s) && |s| > 0
    ensures NoDuplicates(s[1..]) && s[0] !in s[1..]
  {
    forall i, j | 0 <= i < j < |s| - 1
      ensures s[1..][i] != s[1..][j]
    {
      assert s[1..][i] == s[i + 1] && s[1..][j] == s[j + 1];
    }
  }

  /** Putting an element that is not yet there in front keeps a sequence duplicate-free. */
  lemma NoDuplicatesCons<T>(x: T, s: seq<T>)
    requires NoDuplicates(s) && x !in s
    ensures NoDuplicates([x] + s)
  {
    forall i, j | 0 <= i < j < |s| + 1
      ensures ([x] + s)[i] != ([x] + s)[j]
    {
      assert ([x] + s)[j] == s[j - 1];
    }
  }

  /** Putting an element in at a position adds exactly that element; when it is not yet there
      the sequence stays duplicate-free. */
  lemma InsertAtNoDuplicates<T>(s: seq<T>, x: T, index: nat)
    requires index <= |s|
    ensures multiset(s[..index] + [x] + s[index..]) == multiset(s) + multiset{x}
    ensures NoDuplicates(s) && x !in s ==> NoDuplicates(s[..index] + [x] + s[index..])
  {
    var r := s[..index] + [x] + s[index..];
    assert s == s[..index] + s[index..];
    if NoDuplicates(s) && x !in s {
      forall i, j | 0 <= i < j < |r|
        ensures r[i] != r[j]
      {
        if j < index {
          assert r[i] == s[i] && r[j] == s[j];
        } else if j == index {
          assert r[i] == s[i];
        } else if i < index {
          assert r[i] == s[i] && r[j] == s[j - 1];
        } else if i > index {
          assert r[i] == s[i - 1] && r[j] == s[j - 1];
        }
      }
    }
  }

  /** A non-empty sequence holds its head and the elements of its tail. */
  lemma MultisetOfHeadAndTail<T>(s: seq<T>)
    requires |s| > 0
    ensures multiset(s) == multiset(s[1..]) + multiset{s[0]}
  {
    assert s == [s[0]] + s[1..];
  }

  /** A prefix one element longer is the shorter prefix followed by that element. */
  lemma PrefixGrows<T>(s: seq<T>, i: nat)
    requires i < |s|
    ensures s[..i + 1] == s[..i] + [s[i]]
  {
  }

  /** Appending an element that is not yet there keeps a sequence duplicate-free. */
  lemma NoDuplicatesSnoc<T>(s: seq<T>, x: T)
    requires NoDuplicates(s) && x !in s
    ensures NoDuplicates(s + [x])
  {
    forall i, j | 0 <= i < j < |s| + 1
      ensures (s + [x])[i] != (s + [x])[j]
    {
      assert (s + [x])[i] == s[i];
    }
  }

  /** Two duplicate-free sequences with no element in common concatenate to a duplicate-free
      one. */
  lemma NoDuplicatesAppend<T>(a: seq<T>, b: seq<T>)
    requires NoDuplicates(a) && NoDuplicates(b)
    requires forall i :: 0 <= i < |b| ==> b[i] !in a
    ensures NoDuplicates(a + b)
  {
    forall i, j | 0 <= i < j < |a| + |b|
      ensures (a + b)[i] != (a + b)[j]
    {
      if j >= |a| {
        assert (a + b)[j] == b[j - |a|];
        if i < |a| {
          assert (a + b)[i] == a[i];
        } else {
          assert (a + b)[i] == b[i - |a|];
        }
      }
    }
  }
}
