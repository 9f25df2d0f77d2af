/** pages/list.js, `getDomainSort`: the key the options page sorts a host name by. Labels are
    compared from the right, except that the last two labels stay together as one component,
    so sibling hosts sort next to each other. */
module DomainSorting {

  /** `s.split(sep)`: the pieces between separators; a string without one is a single piece,
      the empty string included. Joining the pieces again gives back `s`. */
  function Split(s: string, sep: char): (parts: seq<string>)
    ensures |parts| >= 1
    ensures forall i :: 0 <= i < |parts| ==> sep !in parts[i]
    ensures Join(parts, sep) == s
  {
    if |s| == 0 then [""]
    else
      var rest := Split(s[1..], sep);
      if s[0] == sep then
        assert ([""] + rest)[1..] == rest;
        [""] + rest
      else
        var parts := [[s[0]] + rest[0]] + rest[1..];
        assert parts[1..] == rest[1..];
        assert s == [s[0]] + s[1..];
        parts
  }

  /** `parts.join(sep)`. */
  function Join(parts: seq<string>, sep: char): string
  {
    if |parts| == 0 then ""
    else if |parts| == 1 then parts[0]
    else parts[0] + [sep] + Join(parts[1..], sep)
  }

  /** Joining two non-empty runs of pieces puts one separator between their joins. */
  lemma {:induction false} JoinAppend(a: seq<string>, b: seq<string>, sep: char)
    requires |a| >= 1 && |b| >= 1
    ensures Join(a + b, sep) == Join(a, sep) + [sep] + Join(b, sep)
    decreases |a|
  {
    if |a| > 1 {
      assert (a + b)[1..] == a[1..] + b;
      JoinAppend(a[1..], b, sep);
    }
  }

  /** `Array.prototype.reverse`. */
  function Reverse<T>(s: seq<T>): (r: seq<T>)
    ensures |r| == |s|
    ensures forall i :: 0 <= i < |s| ==> r[i] == s[|s| - 1 - i]
  {
    if |s| == 0 then [] else Reverse(s[1..]) + [s[0]]
  }

  /** The sort key of a host name. A name without a dot is its own one-component key;
      otherwise the first component is the last two labels joined by a dot and the others are
      the remaining labels from right to left. */
  function DomainSort(domain: string): (key: seq<string>)
    ensures 1 <= |key|
  {
    var labels := Split(domain, '.');
    if |labels| == 1 then [domain]
    else [labels[|labels| - 2] + "." + labels[|labels| - 1]] + Reverse(labels[..|labels| - 2])
  }

  /** getDomainSort: splits at the dots, folds the last label into the one before it while
      labels remain to fold (once, for any name with a dot), then reverses. */
  method GetDomainSort(domain: string) returns (key: seq<string>)
    ensures key == DomainSort(domain)
  {
    var components := Split(domain, '.');
    ghost var labels := components;
    var suffixCount := if |components| == 1 then 0 else 1;
    for i := 0 to suffixCount
      invariant |components| == |labels| - i
      invariant components == labels[..|labels| - 1 - i] + [Join(labels[|labels| - 1 - i..], '.')]
    {
      var tail := components[|components| - 1];
      components := components[..|components| - 1];
      assert labels[|labels| - 2 - i..][1..] == labels[|labels| - 1 - i..];
      components := components[|components| - 1 := components[|components| - 1] + "." + tail];
      assert components == labels[..|labels| - 2 - i] + [Join(labels[|labels| - 2 - i..], '.')];
    }
    if suffixCount == 0 {
      assert components == labels;
    } else {
      assert labels[|labels| - 2..] == [labels[|labels| - 2], labels[|labels| - 1]];
    }
    key := Reverse(components);
    assert key == DomainSort(domain);
  }

  /** A host name without a dot maps to the one-element key `[domain]`. */
  lemma DomainSortWithoutDot(domain: string)
    requires '.' !in domain
    ensures DomainSort(domain) == [domain]
  {
  }

  /** A host name of k >= 2 labels maps to k - 1 components: the last two labels joined by a
      dot, then the other labels from right to left. */
  lemma DomainSortOfLabels(domain: string)
    requires |Split(domain, '.')| >= 2
    ensures var labels, key := Split(domain, '.'), DomainSort(domain);
      && |key| == |labels| - 1
      && key[0] == labels[|labels| - 2] + "." + labels[|labels| - 1]
      && forall i :: 1 <= i < |key| ==> key[i] == labels[|labels| - 2 - i]
  {
  }

  /** Reversing a key and joining it with dots gives back the host name. */
  lemma DomainSortRoundTrip(domain: string)
    ensures Join(Reverse(DomainSort(domain)), '.') == domain
  {
    var labels := Split(domain, '.');
    var n := |labels|;
    if n == 1 {
      assert Reverse([domain]) == [domain];
    } else {
      var front := labels[..n - 2];
      var joined := labels[n - 2] + "." + labels[n - 1];
      var key := DomainSort(domain);
      assert key == [joined] + Reverse(front);
      var back := Reverse(key);
      assert |back| == n - 1;
      forall i | 0 <= i < n - 1
        ensures back[i] == (front + [joined])[i]
      {
        if i < n - 2 {
          assert back[i] == key[n - 2 - i] == Reverse(front)[n - 3 - i] == front[i];
        }
      }
      assert back == front + [joined];
      assert labels == front + [labels[n - 2], labels[n - 1]];
      assert Join([labels[n - 2], labels[n - 1]], '.') == joined;
      if n > 2 {
        JoinAppend(front, [joined], '.');
        JoinAppend(front, [labels[n - 2], labels[n - 1]], '.');
      } else {
        assert back == [joined];
      }
    }
  }

  /** Different host names have different keys. */
  lemma DomainSortInjective(a: string, b: string)
    requires DomainSort(a) == DomainSort(b)
    ensures a == b
  {
    DomainSortRoundTrip(a);
    DomainSortRoundTrip(b);
  }
}
