/** pages/list.js: the options page. It shows the allowed and the redirected hosts as two
    `<select>` lists kept in `getDomainSort` order, remembers which `<option>` shows each host
    (`domainOptions`) and brings both lists up to date with the messages of the background
    page. The DOM is reduced to what the lists hold. */
module DomainList {
  import opened Wrappers
  import opened SequenceOrder
  import opened Search
  import opened DomainSorting

  /** An `<option>` element: the host it shows and the key `optionSorts` keeps for it. */
  class DomainOption {
    const text: string
    const sortKey: seq<string>

    constructor (text: string, sortKey: seq<string>)
      ensures this.text == text && this.sortKey == sortKey
    {
      this.text := text;
      this.sortKey := sortKey;
    }
  }

  /** compareOptions: compareSequences on the two options' keys. */
  function CompareOptions(a: DomainOption, b: DomainOption): (r: int)
    ensures r == -1 || r == 0 || r == 1
    ensures r == 0 <==> a.sortKey == b.sortKey
  {
    StringLessIsStrictTotalOrder();
    CompareZeroIffEqual(a.sortKey, b.sortKey, StringLess);
    Compare(a.sortKey, b.sortKey, StringLess)
  }

  /** Swapping two options negates their comparison. */
  lemma OptionsAntisymmetric(a: DomainOption, b: DomainOption)
    ensures CompareOptions(a, b) == -CompareOptions(b, a)
  {
    StringLessIsStrictTotalOrder();
    CompareAntisymmetric(a.sortKey, b.sortKey, StringLess);
  }

  /** "Sorts no later than" is transitive. */
  lemma OptionsTransitive(a: DomainOption, b: DomainOption, c: DomainOption)
    requires CompareOptions(a, b) <= 0 && CompareOptions(b, c) <= 0
    ensures CompareOptions(a, c) <= 0
  {
    StringLessIsStrictTotalOrder();
    CompareAtMostTransitive(a.sortKey, b.sortKey, c.sortKey, StringLess);
  }

  /** The order of the sequence: every option sorts no later than those after it. */
  ghost predicate Sorted(s: seq<DomainOption>)
  {
    forall i, j {:trigger CompareOptions(s[i], s[j])} :: 0 <= i < j < |s| ==> CompareOptions(s[i], s[j]) <= 0
  }

  /** On a sorted list, comparing a new option against each element gives values that never
      increase: the list is ordered for binarySearch. */
  lemma SortedIsOrderedForSearch(s: seq<DomainOption>, option: DomainOption)
    requires Sorted(s)
    ensures NonIncreasing(s, reference => CompareOptions(option, reference))
  {
    StringLessIsStrictTotalOrder();
    forall i, j | 0 <= i < j < |s|
      ensures CompareOptions(option, s[i]) >= CompareOptions(option, s[j])
    {
      assert CompareOptions(s[i], s[j]) <= 0;
      CompareMonotone(option.sortKey, s[i].sortKey, s[j].sortKey, StringLess);
    }
  }

  /** Putting an option between the elements that sort no later than it and those that sort
      no earlier keeps a list sorted. */
  lemma InsertAtKeepsSorted(s: seq<DomainOption>, option: DomainOption, index: nat)
    requires Sorted(s) && index <= |s|
    requires forall i :: 0 <= i < index ==> CompareOptions(option, s[i]) >= 0
    requires forall i :: index <= i < |s| ==> CompareOptions(option, s[i]) <= 0
    ensures Sorted(s[..index] + [option] + s[index..])
  {
    var r := s[..index] + [option] + s[index..];
    forall i, j | 0 <= i < j < |r|
      ensures CompareOptions(r[i], r[j]) <= 0
    {
      if j < index {
        assert r[i] == s[i] && r[j] == s[j];
      } else if j == index {
        OptionsAntisymmetric(option, s[i]);
      } else if i < index {
        assert r[i] == s[i] && r[j] == s[j - 1];
      } else if i > index {
        assert r[i] == s[i - 1] && r[j] == s[j - 1];
      }
    }
  }

  /** Every slice of a sorted list is sorted. */
  lemma SortedSlice(s: seq<DomainOption>, lo: nat, hi: nat)
    requires Sorted(s) && lo <= hi <= |s|
    ensures Sorted(s[lo..hi])
  {
    forall i, j | 0 <= i < j < hi - lo
      ensures CompareOptions(s[lo..hi][i], s[lo..hi][j]) <= 0
    {
      assert s[lo..hi][i] == s[lo + i] && s[lo..hi][j] == s[lo + j];
    }
  }

  /** One step of `Array.prototype.sort(compareOptions)`: an option goes in front of the first
      element it does not sort after. */
  function SortInsert(option: DomainOption, s: seq<DomainOption>): (r: seq<DomainOption>)
    ensures |r| == |s| + 1
  {
    if |s| == 0 then [option]
    else if CompareOptions(option, s[0]) <= 0 then [option] + s
    else [s[0]] + SortInsert(option, s[1..])
  }

  /** `Array.prototype.sort(compareOptions)`, stable like the built-in one. */
  function SortOptions(s: seq<DomainOption>): (r: seq<DomainOption>)
    ensures |r| == |s|
  {
    if |s| == 0 then [] else SortInsert(s[0], SortOptions(s[1..]))
  }

  /** An option that sorts no later than every element of a sorted list can go in front. */
  lemma ConsSorted(x: DomainOption, rest: seq<DomainOption>)
    requires Sorted(rest)
    requires forall i :: 0 <= i < |rest| ==> CompareOptions(x, rest[i]) <= 0
    ensures Sorted([x] + rest)
  {
    var r := [x] + rest;
    forall i, j | 0 <= i < j < |r|
      ensures CompareOptions(r[i], r[j]) <= 0
    {
      assert r[j] == rest[j - 1];
      if i > 0 {
        assert r[i] == rest[i - 1];
      }
    }
  }

  /** Sorting in one option keeps a list sorted and adds exactly that option. */
  lemma {:induction false} SortInsertSorted(option: DomainOption, s: seq<DomainOption>)
    requires Sorted(s)
    ensures Sorted(SortInsert(option, s))
    ensures multiset(SortInsert(option, s)) == multiset(s) + multiset{option}
    decreases |s|
  {
    SortInsertPermutes(option, s);
    if |s| > 0 {
      if CompareOptions(option, s[0]) <= 0 {
        forall i | 0 <= i < |s|
          ensures CompareOptions(option, s[i]) <= 0
        {
          if i > 0 {
            OptionsTransitive(option, s[0], s[i]);
          }
        }
        ConsSorted(option, s);
      } else {
        SortedSlice(s, 1, |s|);
        SortInsertSorted(option, s[1..]);
        var rest := SortInsert(option, s[1..]);
        SortedHeadBeforeInserted(option, s, rest);
        ConsSorted(s[0], rest);
      }
    }
  }

  /** The head of a sorted list sorts no later than an option that sorts after it, or than
      anything else of the list. */
  lemma SortedHeadBeforeInserted(option: DomainOption, s: seq<DomainOption>, rest: seq<DomainOption>)
    requires Sorted(s) && |s| > 0 && CompareOptions(option, s[0]) > 0
    requires multiset(rest) == multiset(s[1..]) + multiset{option}
    ensures forall i :: 0 <= i < |rest| ==> CompareOptions(s[0], rest[i]) <= 0
  {
    OptionsAntisymmetric(option, s[0]);
    forall i | 0 <= i < |rest|
      ensures CompareOptions(s[0], rest[i]) <= 0
    {
      var x := rest[i];
      assert x in multiset(rest);
      if x != option {
        assert x in s[1..];
        var k :| 1 <= k < |s| && s[k] == x;
      }
    }
  }

  /** Sorting in an option that is not yet there keeps a list duplicate-free. */
  lemma {:induction false} SortInsertNoDuplicates(option: DomainOption, s: seq<DomainOption>)
    requires NoDuplicates(s) && option !in s
    ensures NoDuplicates(SortInsert(option, s))
    decreases |s|
  {
    if |s| == 0 {
    } else if CompareOptions(option, s[0]) <= 0 {
      NoDuplicatesCons(option, s);
    } else {
      NoDuplicatesTail(s);
      SortInsertNoDuplicates(option, s[1..]);
      SortInsertPermutes(option, s[1..]);
      assert s[0] !in multiset(SortInsert(option, s[1..]));
      NoDuplicatesCons(s[0], SortInsert(option, s[1..]));
    }
  }

  /** Sorting in an option adds exactly that option. */
  lemma {:induction false} SortInsertPermutes(option: DomainOption, s: seq<DomainOption>)
    ensures multiset(SortInsert(option, s)) == multiset(s) + multiset{option}
    decreases |s|
  {
    if |s| > 0 && CompareOptions(option, s[0]) > 0 {
      SortInsertPermutes(option, s[1..]);
      assert s == [s[0]] + s[1..];
    }
  }

  /** Sorting yields a sorted permutation of the options. */
  lemma {:induction false} SortOptionsSorted(s: seq<DomainOption>)
    ensures Sorted(SortOptions(s))
    ensures multiset(SortOptions(s)) == multiset(s)
    decreases |s|
  {
    if |s| > 0 {
      var rest := SortOptions(s[1..]);
      SortOptionsSorted(s[1..]);
      SortInsertSorted(s[0], rest);
      assert SortOptions(s) == SortInsert(s[0], rest);
      MultisetOfHeadAndTail(s);
    }
  }

  /** Sorting options that are all different keeps them all different. */
  lemma {:induction false} SortOptionsNoDuplicates(s: seq<DomainOption>)
    requires NoDuplicates(s)
    ensures NoDuplicates(SortOptions(s))
    decreases |s|
  {
    if |s| > 0 {
      NoDuplicatesTail(s);
      SortOptionsNoDuplicates(s[1..]);
      SortOptionsSorted(s[1..]);
      assert s[0] !in multiset(SortOptions(s[1..]));
      SortInsertNoDuplicates(s[0], SortOptions(s[1..]));
    }
  }

  /** The options of `s` that are not in `gone`, in their order: what `option.remove()` leaves
      of a list once each of them has been taken out. */
  function Without(s: seq<DomainOption>, gone: set<DomainOption>): (r: seq<DomainOption>)
    ensures |r| <= |s|
    ensures forall i :: 0 <= i < |r| ==> r[i] in s && r[i] !in gone
    ensures forall i :: 0 <= i < |s| && s[i] !in gone ==> s[i] in r
  {
    if |s| == 0 then []
    else if s[0] in gone then Without(s[1..], gone)
    else [s[0]] + Without(s[1..], gone)
  }

  /** Removing the option at position `k` of a duplicate-free list leaves the others in their
      order: those before `k`, then those after it. */
  lemma {:induction false} WithoutAt(s: seq<DomainOption>, k: nat)
    requires NoDuplicates(s) && k < |s|
    ensures Without(s, {s[k]}) == s[..k] + s[k + 1..]
  {
    NoDuplicatesTail(s);
    if k == 0 {
      WithoutChanges(s[1..], {s[0]});
    } else {
      WithoutAt(s[1..], k - 1);
      assert s[1..][k - 1] == s[k] && s[0] != s[k];
      assert Without(s, {s[k]}) == [s[0]] + Without(s[1..], {s[k]});
      assert s[..k] == [s[0]] + s[1..][..k - 1];
      assert s[k + 1..] == s[1..][k..];
    }
  }

  /** Removing options leaves a list unchanged exactly when none of them was in it; otherwise
      the list gets shorter. */
  lemma {:induction false} WithoutChanges(s: seq<DomainOption>, gone: set<DomainOption>)
    ensures Without(s, gone) == s <==> (forall i :: 0 <= i < |s| ==> s[i] !in gone)
    ensures Without(s, gone) != s ==> |Without(s, gone)| < |s|
    decreases |s|
  {
    if |s| > 0 {
      WithoutChanges(s[1..], gone);
      assert s == [s[0]] + s[1..];
      if s[0] !in gone && Without(s[1..], gone) != s[1..] {
        assert Without(s, gone)[1..] == Without(s[1..], gone);
      }
    }
  }

  /** Removing an option that a duplicate-free list holds shortens it by one. */
  lemma {:induction false} WithoutOne(s: seq<DomainOption>, option: DomainOption)
    requires NoDuplicates(s) && option in s
    ensures |Without(s, {option})| == |s| - 1
    decreases |s|
  {
    NoDuplicatesTail(s);
    if s[0] == option {
      WithoutChanges(s[1..], {option});
    } else {
      WithoutOne(s[1..], option);
    }
  }

  /** Removing two groups of options one after the other removes their union. */
  lemma {:induction false} WithoutTwice(s: seq<DomainOption>, a: set<DomainOption>, b: set<DomainOption>)
    ensures Without(Without(s, a), b) == Without(s, a + b)
    decreases |s|
  {
    if |s| > 0 {
      WithoutTwice(s[1..], a, b);
      if s[0] !in a {
        assert ([s[0]] + Without(s[1..], a))[1..] == Without(s[1..], a);
      }
    }
  }

  /** Removing options keeps a list sorted. */
  lemma {:induction false} WithoutSorted(s: seq<DomainOption>, gone: set<DomainOption>)
    requires Sorted(s)
    ensures Sorted(Without(s, gone))
    decreases |s|
  {
    if |s| > 0 {
      SortedSlice(s, 1, |s|);
      WithoutSorted(s[1..], gone);
      if s[0] !in gone {
        var rest := Without(s[1..], gone);
        forall i | 0 <= i < |rest|
          ensures CompareOptions(s[0], rest[i]) <= 0
        {
          assert rest[i] in s[1..];
          var k :| 1 <= k < |s| && s[k] == rest[i];
        }
        ConsSorted(s[0], rest);
      }
    }
  }

  /** Removing options keeps a list duplicate-free. */
  lemma {:induction false} WithoutNoDuplicates(s: seq<DomainOption>, gone: set<DomainOption>)
    requires NoDuplicates(s)
    ensures NoDuplicates(Without(s, gone))
    decreases |s|
  {
    if |s| > 0 {
      NoDuplicatesTail(s);
      WithoutNoDuplicates(s[1..], gone);
      if s[0] !in gone {
        NoDuplicatesCons(s[0], Without(s[1..], gone));
      }
    }
  }

  /** The host names that a run of options shows, in order. */
  function Texts(s: seq<DomainOption>): (r: seq<string>)
    ensures |r| == |s|
    ensures forall i :: 0 <= i < |s| ==> r[i] == s[i].text
  {
    seq(|s|, i requires 0 <= i < |s| => s[i].text)
  }

  /** The names shown by an option followed by a run are its name followed by theirs. */
  lemma TextsCons(x: DomainOption, s: seq<DomainOption>)
    ensures Texts([x] + s) == [x.text] + Texts(s)
  {
    assert ([x] + s)[1..] == s;
  }

  /** The names shown by a non-empty run are its first option's name followed by the rest's. */
  lemma TextsSplit(s: seq<DomainOption>)
    requires |s| > 0
    ensures Texts(s) == [s[0].text] + Texts(s[1..])
  {
  }

  /** Sorting in an option adds exactly its host name to the names shown. */
  lemma {:induction false} SortInsertTexts(option: DomainOption, s: seq<DomainOption>)
    ensures multiset(Texts(SortInsert(option, s))) == multiset(Texts(s)) + multiset{option.text}
    decreases |s|
  {
    if |s| == 0 {
    } else if CompareOptions(option, s[0]) <= 0 {
      TextsCons(option, s);
    } else {
      var rest := SortInsert(option, s[1..]);
      SortInsertTexts(option, s[1..]);
      TextsCons(s[0], rest);
      TextsSplit(s);
    }
  }

  /** Sorting options shows the same host names, each as often as before. */
  lemma {:induction false} SortOptionsTexts(s: seq<DomainOption>)
    ensures multiset(Texts(SortOptions(s))) == multiset(Texts(s))
    decreases |s|
  {
    if |s| > 0 {
      SortOptionsTexts(s[1..]);
      SortInsertTexts(s[0], SortOptions(s[1..]));
      TextsSplit(s);
    }
  }

  /** `domainOptions.set(option.text, option)` for each option in turn: every option filed
      under its text, a later one in place of an earlier one. */
  function Filed(domainOptions: map<string, DomainOption>, s: seq<DomainOption>): map<string, DomainOption>
    decreases |s|
  {
    if |s| == 0 then domainOptions
    else Filed(domainOptions, s[..|s| - 1])[s[|s| - 1].text := s[|s| - 1]]
  }

  /** Filing one more option files it last. */
  lemma FiledSnoc(domainOptions: map<string, DomainOption>, s: seq<DomainOption>, option: DomainOption)
    ensures Filed(domainOptions, s + [option]) == Filed(domainOptions, s)[option.text := option]
  {
    assert (s + [option])[..|s|] == s;
  }

  /** The names shown by a run are those of all but its last option followed by that of the last. */
  lemma TextsSnoc(s: seq<DomainOption>)
    requires |s| > 0
    ensures Texts(s) == Texts(s[..|s| - 1]) + [s[|s| - 1].text]
  {
  }

  /** After filing a run of options, `domainOptions` holds the names it held and the names the
      run shows; each name the run shows is filed with one of its options showing that name,
      and every other name keeps its entry. */
  lemma {:induction false} FiledEntries(domainOptions: map<string, DomainOption>, s: seq<DomainOption>)
    ensures forall h :: h in Filed(domainOptions, s) <==> h in domainOptions || h in Texts(s)
    ensures forall h | h in Texts(s) :: Filed(domainOptions, s)[h] in s && Filed(domainOptions, s)[h].text == h
    ensures forall h | h in domainOptions && h !in Texts(s) :: Filed(domainOptions, s)[h] == domainOptions[h]
    decreases |s|
  {
    if |s| > 0 {
      var init := s[..|s| - 1];
      FiledEntries(domainOptions, init);
      TextsSnoc(s);
      forall h | h in Texts(init)
        ensures Filed(domainOptions, init)[h] in s
      {
        assert Filed(domainOptions, init)[h] in init;
      }
    }
  }

  /** Filing options for the first names of a list of new, different names leaves the next
      name unfiled. */
  lemma FiledOthers(domainOptions: map<string, DomainOption>, options: seq<DomainOption>, hostnames: seq<string>, i: nat)
    requires i < |hostnames| && Texts(options) == hostnames[..i]
    requires NoDuplicates(hostnames) && forall k :: 0 <= k < |hostnames| ==> hostnames[k] !in domainOptions
    ensures hostnames[i] !in Filed(domainOptions, options)
  {
    FiledEntries(domainOptions, options);
    assert forall k :: 0 <= k < i ==> hostnames[..i][k] != hostnames[i];
  }

  /** A list holding a run of inserted options, with one more inserted, holds the longer run. */
  lemma InsertedGrows(list: seq<DomainOption>, grown: seq<DomainOption>, start: seq<DomainOption>,
                      options: seq<DomainOption>, option: DomainOption, index: nat)
    requires multiset(list) == multiset(start) + multiset(options)
    requires index <= |list| && grown == list[..index] + [option] + list[index..]
    ensures multiset(grown) == multiset(start) + multiset(options + [option])
  {
    InsertAtNoDuplicates(list, option, index);
  }

  /** One more option, showing the next name, shows one more of the names. */
  lemma TextsGrow(options: seq<DomainOption>, option: DomainOption, hostnames: seq<string>, i: nat)
    requires i < |hostnames| && Texts(options) == hostnames[..i] && option.text == hostnames[i]
    ensures Texts(options + [option]) == hostnames[..i + 1]
  {
    TextsSnoc(options + [option]);
    assert (options + [option])[..i] == options;
    PrefixGrows(hostnames, i);
  }

  /** When the run shows every name once, each of its options is the one filed under its name. */
  lemma {:induction false} FiledLatest(domainOptions: map<string, DomainOption>, s: seq<DomainOption>)
    requires NoDuplicates(Texts(s))
    ensures forall k :: 0 <= k < |s| ==> s[k].text in Filed(domainOptions, s) && Filed(domainOptions, s)[s[k].text] == s[k]
    decreases |s|
  {
    if |s| > 0 {
      var init := s[..|s| - 1];
      TextsSnoc(s);
      assert NoDuplicates(Texts(init)) by {
        assert forall i :: 0 <= i < |init| ==> Texts(init)[i] == Texts(s)[i];
      }
      FiledLatest(domainOptions, init);
      forall k | 0 <= k < |s| - 1
        ensures s[k].text != s[|s| - 1].text
      {
        assert Texts(s)[k] != Texts(s)[|s| - 1];
      }
    }
  }

  /** The two `<select>` lists of the page. */
  datatype ListId = AllowList | RedirectList

  /** The list a host leaves when it goes to the other one. */
  function Other(which: ListId): (other: ListId)
    ensures other != which
  {
    match which
    case AllowList => RedirectList
    case RedirectList => AllowList
  }

  /** The option that removing `hostname` takes out of the lists: the one `domainOptions`
      files under it, if any. */
  function Removed(domainOptions: map<string, DomainOption>, hostname: string): (gone: set<DomainOption>)
    ensures hostname !in domainOptions ==> gone == {}
    ensures hostname in domainOptions ==> gone == {domainOptions[hostname]}
  {
    if hostname in domainOptions then {domainOptions[hostname]} else {}
  }

  /** The options that removing `hostnames` one after the other takes out of the lists. */
  function Gone(domainOptions: map<string, DomainOption>, hostnames: seq<string>): (gone: set<DomainOption>)
  {
    if |hostnames| == 0 then {}
    else Gone(domainOptions, hostnames[..|hostnames| - 1]) + Removed(domainOptions, hostnames[|hostnames| - 1])
  }

  /** Every host name removed takes its option with it. */
  lemma {:induction false} GoneHolds(domainOptions: map<string, DomainOption>, hostnames: seq<string>, hostname: string)
    requires hostname in hostnames && hostname in domainOptions
    ensures domainOptions[hostname] in Gone(domainOptions, hostnames)
    decreases |hostnames|
  {
    var n := |hostnames|;
    if hostnames[n - 1] != hostname {
      assert hostname in hostnames[..n - 1] by {
        var k :| 0 <= k < n && hostnames[k] == hostname;
        assert hostnames[..n - 1][k] == hostname;
      }
      GoneHolds(domainOptions, hostnames[..n - 1], hostname);
    }
  }

  /** `domainOptions.delete(hostname)` for each host name in turn. */
  function Unfiled(domainOptions: map<string, DomainOption>, hostnames: seq<string>): map<string, DomainOption>
    decreases |hostnames|
  {
    if |hostnames| == 0 then domainOptions
    else Unfiled(domainOptions, hostnames[..|hostnames| - 1]) - {hostnames[|hostnames| - 1]}
  }

  /** Deleting one more host name. */
  lemma UnfiledStep(domainOptions: map<string, DomainOption>, hostnames: seq<string>, i: nat)
    requires i < |hostnames|
    ensures Unfiled(domainOptions, hostnames[..i + 1]) == Unfiled(domainOptions, hostnames[..i]) - {hostnames[i]}
  {
    assert hostnames[..i + 1][..i] == hostnames[..i];
  }

  /** After the deletions `domainOptions` holds exactly the names it held and that were not
      deleted, each with its old entry. */
  lemma {:induction false} UnfiledEntries(domainOptions: map<string, DomainOption>, hostnames: seq<string>)
    ensures forall h :: h in Unfiled(domainOptions, hostnames) <==> h in domainOptions && h !in hostnames
    ensures forall h | h in Unfiled(domainOptions, hostnames) :: Unfiled(domainOptions, hostnames)[h] == domainOptions[h]
    decreases |hostnames|
  {
    if |hostnames| > 0 {
      var init := hostnames[..|hostnames| - 1];
      UnfiledEntries(domainOptions, init);
      assert hostnames == init + [hostnames[|hostnames| - 1]];
    }
  }

  /** None of the removed host names is filed any longer. */
  lemma UnfiledAvoids(domainOptions: map<string, DomainOption>, hostnames: seq<string>)
    ensures forall k :: 0 <= k < |hostnames| ==> hostnames[k] !in Unfiled(domainOptions, hostnames)
  {
    UnfiledEntries(domainOptions, hostnames);
  }

  /** Removing one more host name takes out the option still filed under it, if any. */
  lemma GoneStep(domainOptions: map<string, DomainOption>, hostnames: seq<string>, i: nat)
    requires i < |hostnames|
    ensures Gone(domainOptions, hostnames[..i + 1])
         == Gone(domainOptions, hostnames[..i]) + Removed(Unfiled(domainOptions, hostnames[..i]), hostnames[i])
  {
    assert hostnames[..i + 1][..i] == hostnames[..i];
    UnfiledEntries(domainOptions, hostnames[..i]);
    if hostnames[i] !in Unfiled(domainOptions, hostnames[..i]) && hostnames[i] in domainOptions {
      GoneHolds(domainOptions, hostnames[..i], hostnames[i]);
    }
  }

  /** What the options page keeps true of its lists and of `domainOptions`: an element sits in
      at most one list and at most once, and `domainOptions` files each option under its own
      text and only options still shown. */
  ghost predicate WellFormed(allow: seq<DomainOption>, redirect: seq<DomainOption>, domainOptions: map<string, DomainOption>)
  {
    && NoDuplicates(allow)
    && NoDuplicates(redirect)
    && (forall i, j :: 0 <= i < |allow| && 0 <= j < |redirect| ==> allow[i] != redirect[j])
    && (forall h | h in domainOptions ::
          domainOptions[h].text == h && (domainOptions[h] in allow || domainOptions[h] in redirect))
  }

  /** Besides: every option shown is the one `domainOptions` holds for its text, so no host is
      shown twice. Host names received twice break this. */
  ghost predicate Indexed(allow: seq<DomainOption>, redirect: seq<DomainOption>, domainOptions: map<string, DomainOption>)
  {
    && (forall i :: 0 <= i < |allow| ==> allow[i].text in domainOptions && domainOptions[allow[i].text] == allow[i])
    && (forall i :: 0 <= i < |redirect| ==> redirect[i].text in domainOptions && domainOptions[redirect[i].text] == redirect[i])
  }

  /** Taking a host's option out of the lists and out of `domainOptions` keeps the page
      well-formed, and keeps every shown option filed if they all were. */
  lemma RemoveKeepsWellFormed(allow: seq<DomainOption>, redirect: seq<DomainOption>,
                              domainOptions: map<string, DomainOption>, hostname: string)
    requires WellFormed(allow, redirect, domainOptions) && hostname in domainOptions
    ensures WellFormed(Without(allow, {domainOptions[hostname]}), Without(redirect, {domainOptions[hostname]}),
                       domainOptions - {hostname})
    ensures Indexed(allow, redirect, domainOptions) ==>
      Indexed(Without(allow, {domainOptions[hostname]}), Without(redirect, {domainOptions[hostname]}),
              domainOptions - {hostname})
  {
    var option := domainOptions[hostname];
    WithoutNoDuplicates(allow, {option});
    WithoutNoDuplicates(redirect, {option});
  }

  /** Swapping the roles of the two lists keeps the page well-formed. */
  lemma WellFormedSwap(allow: seq<DomainOption>, redirect: seq<DomainOption>, domainOptions: map<string, DomainOption>)
    requires WellFormed(allow, redirect, domainOptions)
    ensures WellFormed(redirect, allow, domainOptions)
    ensures Indexed(allow, redirect, domainOptions) ==> Indexed(redirect, allow, domainOptions)
  {
  }

  /** Putting a new option anywhere into the first list and filing it under
      its text keeps the page well-formed. */
  lemma InsertKeepsWellFormed(list: seq<DomainOption>, other: seq<DomainOption>,
                              domainOptions: map<string, DomainOption>, option: DomainOption, index: nat)
    requires WellFormed(list, other, domainOptions)
    requires option !in list && option !in other
    requires index <= |list|
    ensures WellFormed(list[..index] + [option] + list[index..], other, domainOptions[option.text := option])
  {
    var r := list[..index] + [option] + list[index..];
    var m := domainOptions[option.text := option];
    InsertAtNoDuplicates(list, option, index);
    assert forall i :: 0 <= i < |r| ==> r[i] !in other by {
      forall i | 0 <= i < |r|
        ensures r[i] !in other
      {
        if i < index {
          assert r[i] == list[i];
        } else if i > index {
          assert r[i] == list[i - 1];
        }
      }
    }
    assert forall h | h in m :: m[h] in r || m[h] in other by {
      forall h | h in m
        ensures m[h] in r || m[h] in other
      {
        if h != option.text && m[h] in list {
          assert m[h] in multiset(r);
        }
      }
    }
  }

  /** When its host had no option before, the new option is the only one shown for it, so
      every shown option stays filed under its text. */
  lemma InsertKeepsIndexed(list: seq<DomainOption>, other: seq<DomainOption>,
                           domainOptions: map<string, DomainOption>, option: DomainOption, index: nat)
    requires Indexed(list, other, domainOptions) && option.text !in domainOptions
    requires index <= |list|
    ensures Indexed(list[..index] + [option] + list[index..], other, domainOptions[option.text := option])
  {
    var r := list[..index] + [option] + list[index..];
    InsertAtNoDuplicates(list, option, index);
    forall i | 0 <= i < |r| && r[i] != option
      ensures r[i] in list
    {
      assert r[i] in multiset(r);
    }
  }

  /** `InsertKeepsWellFormed` and `InsertKeepsIndexed` for the redirect list. */
  lemma InsertIntoRedirectKeepsWellFormed(allow: seq<DomainOption>, redirect: seq<DomainOption>,
                                          domainOptions: map<string, DomainOption>, option: DomainOption, index: nat)
    requires WellFormed(allow, redirect, domainOptions)
    requires option !in allow && option !in redirect
    requires index <= |redirect|
    ensures WellFormed(allow, redirect[..index] + [option] + redirect[index..], domainOptions[option.text := option])
    ensures Indexed(allow, redirect, domainOptions) && option.text !in domainOptions ==>
      Indexed(allow, redirect[..index] + [option] + redirect[index..], domainOptions[option.text := option])
  {
    var r := redirect[..index] + [option] + redirect[index..];
    var m := domainOptions[option.text := option];
    WellFormedSwap(allow, redirect, domainOptions);
    InsertKeepsWellFormed(redirect, allow, domainOptions, option, index);
    WellFormedSwap(r, allow, m);
    if Indexed(allow, redirect, domainOptions) && option.text !in domainOptions {
      InsertKeepsIndexed(redirect, allow, domainOptions, option, index);
    }
  }

  /** Appending new, duplicate-free options to the first list, with
      `domainOptions` now filing either its old entries or new options, keeps the page
      well-formed. */
  lemma AppendKeepsWellFormed(list: seq<DomainOption>, other: seq<DomainOption>, domainOptions: map<string, DomainOption>,
                              added: seq<DomainOption>, updated: map<string, DomainOption>)
    requires WellFormed(list, other, domainOptions)
    requires NoDuplicates(added)
    requires forall k :: 0 <= k < |added| ==>
      added[k] !in list && added[k] !in other
    requires forall h | h in updated ::
      updated[h].text == h && (updated[h] in added || (h in domainOptions && updated[h] == domainOptions[h]))
    ensures WellFormed(list + added, other, updated)
  {
    NoDuplicatesAppend(list, added);
    forall k | 0 <= k < |list + added|
      ensures (list + added)[k] !in other
    {
      if k >= |list| {
        assert (list + added)[k] == added[k - |list|];
      }
    }
  }

  /** When the new options are the entries `domainOptions` now files under their texts and the
      old entries stay, every shown option stays filed. */
  lemma AppendKeepsIndexed(list: seq<DomainOption>, other: seq<DomainOption>, domainOptions: map<string, DomainOption>,
                           added: seq<DomainOption>, updated: map<string, DomainOption>)
    requires Indexed(list, other, domainOptions)
    requires forall h | h in domainOptions :: h in updated && updated[h] == domainOptions[h]
    requires forall k :: 0 <= k < |added| ==> added[k].text in updated && updated[added[k].text] == added[k]
    ensures Indexed(list + added, other, updated)
  {
    forall k | 0 <= k < |list + added|
      ensures (list + added)[k].text in updated && updated[(list + added)[k].text] == (list + added)[k]
    {
      if k >= |list| {
        assert (list + added)[k] == added[k - |list|];
      }
    }
  }

  /** `options.sort(compareOptions)` for options made from `domains`: a sorted run of the very
      same options, showing each name as often as `domains` holds it. */
  lemma SortOptionsRun(options: seq<DomainOption>, domains: seq<string>)
    requires |options| == |domains|
    requires forall k :: 0 <= k < |options| ==> options[k].text == domains[k]
    ensures |SortOptions(options)| == |options|
    ensures Sorted(SortOptions(options))
    ensures NoDuplicates(options) ==> NoDuplicates(SortOptions(options))
    ensures forall k :: 0 <= k < |SortOptions(options)| ==> SortOptions(options)[k] in options
    ensures forall x | x in options :: x in SortOptions(options)
    ensures multiset(Texts(SortOptions(options))) == multiset(domains)
  {
    var sorted := SortOptions(options);
    SortOptionsSorted(options);
    if NoDuplicates(options) {
      SortOptionsNoDuplicates(options);
    }
    SortOptionsTexts(options);
    assert Texts(options) == domains;
    assert |sorted| == |multiset(sorted)| == |multiset(options)| == |options|;
    forall k | 0 <= k < |sorted|
      ensures sorted[k] in options
    {
      assert sorted[k] in multiset(options);
    }
    forall x | x in options
      ensures x in sorted
    {
      assert x in multiset(sorted);
    }
  }

  /** `options.sort(compareOptions)` appended to the first list, with the options filed in
      `domainOptions`: when the options are new and different, the page
      stays well-formed (and every shown option filed, when their names are new and
      different). */
  lemma AppendSortedKeepsWellFormed(list: seq<DomainOption>, other: seq<DomainOption>,
                                    domainOptions: map<string, DomainOption>, options: seq<DomainOption>)
    requires WellFormed(list, other, domainOptions)
    requires NoDuplicates(options)
    requires forall k :: 0 <= k < |options| ==>
      options[k] !in list && options[k] !in other
    ensures WellFormed(list + SortOptions(options), other, Filed(domainOptions, options))
    ensures && Indexed(list, other, domainOptions) && NoDuplicates(Texts(options))
            && (forall k :: 0 <= k < |options| ==> options[k].text !in domainOptions)
            ==> Indexed(list + SortOptions(options), other, Filed(domainOptions, options))
  {
    var sorted := SortOptions(options);
    var updated := Filed(domainOptions, options);
    SortOptionsRun(options, Texts(options));
    FiledEntries(domainOptions, options);
    forall k | 0 <= k < |sorted|
      ensures sorted[k] !in list && sorted[k] !in other
    {
      var j :| 0 <= j < |options| && options[j] == sorted[k];
    }
    forall h | h in updated
      ensures updated[h].text == h && (updated[h] in sorted || (h in domainOptions && updated[h] == domainOptions[h]))
    {
      if h in Texts(options) {
        assert updated[h] in options;
      }
    }
    AppendKeepsWellFormed(list, other, domainOptions, sorted, updated);
    if && Indexed(list, other, domainOptions) && NoDuplicates(Texts(options))
       && (forall k :: 0 <= k < |options| ==> options[k].text !in domainOptions)
    {
      AppendSortedKeepsIndexed(list, other, domainOptions, options);
    }
  }

  /** The `Indexed` half of `AppendSortedKeepsWellFormed`: options for new, different names,
      filed and appended, are each the one filed under their text. */
  lemma AppendSortedKeepsIndexed(list: seq<DomainOption>, other: seq<DomainOption>,
                                 domainOptions: map<string, DomainOption>, options: seq<DomainOption>)
    requires Indexed(list, other, domainOptions) && NoDuplicates(Texts(options))
    requires forall k :: 0 <= k < |options| ==> options[k].text !in domainOptions
    ensures Indexed(list + SortOptions(options), other, Filed(domainOptions, options))
  {
    var sorted := SortOptions(options);
    var updated := Filed(domainOptions, options);
    SortOptionsRun(options, Texts(options));
    FiledEntries(domainOptions, options);
    FiledLatest(domainOptions, options);
    forall h | h in domainOptions
      ensures h in updated && updated[h] == domainOptions[h]
    {
      assert h !in Texts(options);
    }
    forall k | 0 <= k < |sorted|
      ensures sorted[k].text in updated && updated[sorted[k].text] == sorted[k]
    {
      var j :| 0 <= j < |options| && options[j] == sorted[k];
    }
    AppendKeepsIndexed(list, other, domainOptions, sorted, updated);
  }

  /** `AppendSortedKeepsWellFormed` for the redirect list. */
  lemma AppendSortedToRedirectKeepsWellFormed(allow: seq<DomainOption>, redirect: seq<DomainOption>,
                                              domainOptions: map<string, DomainOption>, options: seq<DomainOption>)
    requires WellFormed(allow, redirect, domainOptions)
    requires NoDuplicates(options)
    requires forall k :: 0 <= k < |options| ==>
      options[k] !in allow && options[k] !in redirect
    ensures WellFormed(allow, redirect + SortOptions(options), Filed(domainOptions, options))
    ensures && Indexed(allow, redirect, domainOptions) && NoDuplicates(Texts(options))
            && (forall k :: 0 <= k < |options| ==> options[k].text !in domainOptions)
            ==> Indexed(allow, redirect + SortOptions(options), Filed(domainOptions, options))
  {
    WellFormedSwap(allow, redirect, domainOptions);
    AppendSortedKeepsWellFormed(redirect, allow, domainOptions, options);
    WellFormedSwap(redirect + SortOptions(options), allow, Filed(domainOptions, options));
  }

  /** What a `state` message leaves in a list: its old options, then a sorted run showing
      exactly the names received, each as often as received. */
  ghost predicate AppendedSorted(before: seq<DomainOption>, after: seq<DomainOption>, domains: seq<string>)
  {
    && |after| == |before| + |domains|
    && after[..|before|] == before
    && Sorted(after[|before|..])
    && multiset(Texts(after[|before|..])) == multiset(domains)
  }

  /** Appending the sorted options made for `domains` loads them. */
  lemma AppendedRun(list: seq<DomainOption>, options: seq<DomainOption>, domains: seq<string>)
    requires Texts(options) == domains
    ensures AppendedSorted(list, list + SortOptions(options), domains)
  {
    assert (list + SortOptions(options))[|list|..] == SortOptions(options);
    assert (list + SortOptions(options))[..|list|] == list;
    SortOptionsRun(options, domains);
  }

  /** Filing two runs showing `first` and then `second` files exactly those names besides
      the ones already filed. */
  lemma FiledTwice(domainOptions: map<string, DomainOption>, options: seq<DomainOption>, more: seq<DomainOption>,
                   first: seq<string>, second: seq<string>)
    requires Texts(options) == first && Texts(more) == second
    ensures forall h :: h in Filed(Filed(domainOptions, options), more) <==> h in domainOptions || h in first || h in second
  {
    FiledEntries(domainOptions, options);
    FiledEntries(Filed(domainOptions, options), more);
  }

  /** What filing the `allow` run and then the `redirect` run leaves in `domainOptions`: a
      name not received keeps its entry, a redirected name is filed with its option of the
      redirect run, and a name only allowed with its option of the allow run. */
  lemma LoadedEntries(domainOptions: map<string, DomainOption>,
                      allowOptions: seq<DomainOption>, allow: seq<string>, allowList: seq<DomainOption>, allow0: seq<DomainOption>,
                      redirectOptions: seq<DomainOption>, redirect: seq<string>, redirectList: seq<DomainOption>, redirect0: seq<DomainOption>)
    requires Texts(allowOptions) == allow && allowList == allow0 + SortOptions(allowOptions)
    requires Texts(redirectOptions) == redirect && redirectList == redirect0 + SortOptions(redirectOptions)
    ensures forall h | h in domainOptions && h !in allow && h !in redirect ::
      h in Filed(Filed(domainOptions, allowOptions), redirectOptions)
      && Filed(Filed(domainOptions, allowOptions), redirectOptions)[h] == domainOptions[h]
    ensures forall h | h in redirect ::
      && h in Filed(Filed(domainOptions, allowOptions), redirectOptions)
      && Filed(Filed(domainOptions, allowOptions), redirectOptions)[h].text == h
      && Filed(Filed(domainOptions, allowOptions), redirectOptions)[h] in redirectList[|redirect0|..]
    ensures forall h | h in allow && h !in redirect ::
      && h in Filed(Filed(domainOptions, allowOptions), redirectOptions)
      && Filed(Filed(domainOptions, allowOptions), redirectOptions)[h].text == h
      && Filed(Filed(domainOptions, allowOptions), redirectOptions)[h] in allowList[|allow0|..]
  {
    FiledEntries(domainOptions, allowOptions);
    FiledEntries(Filed(domainOptions, allowOptions), redirectOptions);
    SortOptionsRun(allowOptions, allow);
    SortOptionsRun(redirectOptions, redirect);
    assert allowList[|allow0|..] == SortOptions(allowOptions);
    assert redirectList[|redirect0|..] == SortOptions(redirectOptions);
  }

  /** Options added to a list are all shown in it, so every name filed with one of them is
      shown. */
  lemma FiledShown(list: seq<DomainOption>, before: seq<DomainOption>, options: seq<DomainOption>,
                   domainOptions: map<string, DomainOption>)
    requires multiset(list) == multiset(before) + multiset(options)
    ensures forall h | h in Texts(options) :: h in Filed(domainOptions, options) && Filed(domainOptions, options)[h] in list
  {
    FiledEntries(domainOptions, options);
    forall h | h in Texts(options)
      ensures Filed(domainOptions, options)[h] in list
    {
      assert Filed(domainOptions, options)[h] in multiset(list);
    }
  }

  /** Unfiling the names of a message and filing new options for some of them touches no
      other name: every other name keeps its option, and no name is filed anew unless the
      message carries it. */
  lemma ReconciledEntries(domainOptions: map<string, DomainOption>, hostnames: seq<string>, options: seq<DomainOption>)
    requires forall h | h in Texts(options) :: h in hostnames
    ensures forall h | h in domainOptions && h !in hostnames ::
      h in Filed(Unfiled(domainOptions, hostnames), options) && Filed(Unfiled(domainOptions, hostnames), options)[h] == domainOptions[h]
    ensures forall h | h in Filed(Unfiled(domainOptions, hostnames), options) :: h in domainOptions || h in hostnames
  {
    UnfiledEntries(domainOptions, hostnames);
    FiledEntries(Unfiled(domainOptions, hostnames), options);
  }

  /** A list that holds the options that survived the removal plus one new option per name of
      the message: every survivor is still shown, every other option shows a name of the
      message, and the list grew by exactly the number of names. */
  lemma ReconciledList(list: seq<DomainOption>, survivors: seq<DomainOption>, options: seq<DomainOption>, hostnames: seq<string>)
    requires multiset(list) == multiset(survivors) + multiset(options)
    requires Texts(options) == hostnames
    ensures |list| == |survivors| + |hostnames|
    ensures forall i :: 0 <= i < |survivors| ==> survivors[i] in list
    ensures forall i :: 0 <= i < |list| ==> list[i] in survivors || list[i].text in hostnames
  {
    assert |list| == |multiset(list)|;
    forall i | 0 <= i < |survivors|
      ensures survivors[i] in list
    {
      assert survivors[i] in multiset(list);
    }
    forall i | 0 <= i < |list| && list[i] !in survivors
      ensures list[i].text in hostnames
    {
      assert list[i] in multiset(list);
      assert list[i] in multiset(options);
      var k :| 0 <= k < |options| && options[k] == list[i];
      assert Texts(options)[k] == list[i].text;
    }
  }

  /** A message from the background page: its `type` and the fields the handler reads. */
  datatype Message = Message(messageType: string, redirect: seq<string>, allow: seq<string>, hostnames: seq<string>)

  /** How the handler ends: the lists loaded, the lists reconciled (with the lists, in order,
      that a `change` event is dispatched on), or the `Error` thrown for any other type. */
  datatype Outcome = Loaded | Reconciled(changeEvents: seq<ListId>) | Thrown(messageType: string)

  /** The `change` events of the `allow`, `redirect` and `block` handler as written: one on the
      allow list when it changed, and one more on the allow list when the redirect list
      changed. */
  function ChangeEventsAsWritten(allowChanged: bool, redirectChanged: bool): (events: seq<ListId>)
    ensures RedirectList !in events
    ensures AllowList in events <==> allowChanged || redirectChanged
  {
    (if allowChanged then [AllowList] else []) + (if redirectChanged then [AllowList] else [])
  }

  /** As written, a change to the redirect list alone is announced on the allow list, and
      whenever the redirect list changes the events differ from the intended ones. */
  lemma RedirectChangeAnnouncedOnAllowList(allowChanged: bool, redirectChanged: bool)
    ensures ChangeEventsAsWritten(false, true) == [AllowList]
    ensures redirectChanged ==> ChangeEventsAsWritten(allowChanged, redirectChanged) != ChangeEvents(allowChanged, redirectChanged)
  {
  }

  /** The `change` events the handler evidently means to dispatch: one on each list that
      changed, the allow list first. */
  function ChangeEvents(allowChanged: bool, redirectChanged: bool): (events: seq<ListId>)
    ensures AllowList in events <==> allowChanged
    ensures RedirectList in events <==> redirectChanged
    ensures NoDuplicates(events)
    ensures |events| > 0 ==> events[0] == if allowChanged then AllowList else RedirectList
  {
    (if allowChanged then [AllowList] else []) + (if redirectChanged then [RedirectList] else [])
  }

  /** The state of the options page: the options of the two lists, in the order shown, and
      `domainOptions`, the option last created for each host name. */
  class ListPage {
    var allowList: seq<DomainOption>
    var redirectList: seq<DomainOption>
    var domainOptions: map<string, DomainOption>

    ghost predicate Valid()
      reads this
    {
      WellFormed(allowList, redirectList, domainOptions)
    }

    ghost predicate Consistent()
      reads this
    {
      WellFormed(allowList, redirectList, domainOptions) && Indexed(allowList, redirectList, domainOptions)
    }

    /** The options of one list. */
    function ListOf(which: ListId): seq<DomainOption>
      reads this
    {
      match which
      case AllowList => allowList
      case RedirectList => redirectList
    }

    /** The page as loaded: both lists empty. */
    constructor ()
      ensures Consistent() && Sorted(allowList) && Sorted(redirectList)
      ensures allowList == [] && redirectList == [] && domainOptions == map[]
    {
      allowList := [];
      redirectList := [];
      domainOptions := map[];
    }

    /** createDomainOption: a new option showing `domain`, keyed by its `getDomainSort`,
        filed in `domainOptions` in place of any earlier one. */
    method CreateDomainOption(domain: string) returns (option: DomainOption)
      modifies this`domainOptions
      ensures fresh(option) && option.text == domain && option.sortKey == DomainSort(domain)
      ensures option !in allowList && option !in redirectList
      ensures domainOptions == old(domainOptions)[domain := option]
    {
      var key := GetDomainSort(domain);
      option := new DomainOption(domain, key);
      domainOptions := domainOptions[domain := option];
    }

    /** removeIfExists: takes the option filed for `hostname` out of its list and out of
        `domainOptions`, and says which list held it; nothing happens for an unknown host. */
    method RemoveIfExists(hostname: string) returns (parent: Option<ListId>)
      requires Valid()
      modifies this`allowList, this`redirectList, this`domainOptions
      ensures Valid()
      ensures old(Consistent()) ==> Consistent()
      ensures domainOptions == old(domainOptions) - {hostname}
      ensures allowList == Without(old(allowList), Removed(old(domainOptions), hostname))
      ensures redirectList == Without(old(redirectList), Removed(old(domainOptions), hostname))
      ensures parent == None <==> hostname !in old(domainOptions)
      ensures parent == Some(AllowList) <==>
        hostname in old(domainOptions) && old(domainOptions)[hostname] in old(allowList)
      ensures parent == Some(AllowList) ==> |allowList| == |old(allowList)| - 1
      ensures parent != Some(AllowList) ==> allowList == old(allowList)
      ensures parent == Some(RedirectList) ==> |redirectList| == |old(redirectList)| - 1
      ensures parent != Some(RedirectList) ==> redirectList == old(redirectList)
    {
      if hostname !in domainOptions {
        assert domainOptions - {hostname} == domainOptions;
        WithoutChanges(allowList, {});
        WithoutChanges(redirectList, {});
        return None;
      }
      var option := domainOptions[hostname];
      RemoveKeepsWellFormed(allowList, redirectList, domainOptions, hostname);
      WithoutChanges(allowList, {option});
      WithoutChanges(redirectList, {option});
      if option in allowList {
        WithoutOne(allowList, option);
        parent := Some(AllowList);
        allowList := Without(allowList, {option});
      } else {
        WithoutOne(redirectList, option);
        parent := Some(RedirectList);
        redirectList := Without(redirectList, {option});
      }
      domainOptions := domainOptions - {hostname};
    }

    /** Inserting a host into a list: a new option for it goes where `InsertIndex` puts it,
        at the end when that is past the last option. */
    method InsertOption(which: ListId, hostname: string) returns (option: DomainOption, index: nat)
      requires Valid()
      modifies this`allowList, this`redirectList, this`domainOptions
      ensures Valid()
      ensures old(Consistent()) && hostname !in old(domainOptions) ==> Consistent()
      ensures fresh(option) && option.text == hostname
      ensures domainOptions == old(domainOptions)[hostname := option]
      ensures index <= |old(ListOf(which))|
      ensures ListOf(which) == old(ListOf(which))[..index] + [option] + old(ListOf(which))[index..]
      ensures ListOf(Other(which)) == old(ListOf(Other(which)))
      ensures old(Sorted(ListOf(which))) ==> Sorted(ListOf(which))
    {
      var allow, redirect := allowList, redirectList;
      ghost var before := domainOptions;
      ghost var indexed := Consistent() && hostname !in domainOptions;
      option := CreateDomainOption(hostname);
      var list := if which == AllowList then allow else redirect;
      index := InsertIndex(list, option);
      // `appendChild` when the index is past the last option, `before` otherwise: both put
      // the option at the index.
      list := list[..index] + [option] + list[index..];
      if which == AllowList {
        InsertKeepsWellFormed(allow, redirect, before, option, index);
        if indexed {
          InsertKeepsIndexed(allow, redirect, before, option, index);
        }
        allowList := list;
      } else {
        InsertIntoRedirectKeepsWellFormed(allow, redirect, before, option, index);
        redirectList := list;
      }
    }

    /** The first loop of the `allow`, `redirect` and `block` handler: `removeIfExists` for every
        host name in turn, noting which lists lost an option. */
    method RemoveHostnames(hostnames: seq<string>) returns (allowChanged: bool, redirectChanged: bool)
      requires Valid()
      modifies this`allowList, this`redirectList, this`domainOptions
      ensures Valid()
      ensures old(Consistent()) ==> Consistent()
      ensures domainOptions == Unfiled(old(domainOptions), hostnames)
      ensures allowList == Without(old(allowList), Gone(old(domainOptions), hostnames))
      ensures redirectList == Without(old(redirectList), Gone(old(domainOptions), hostnames))
      ensures allowChanged <==> allowList != old(allowList)
      ensures redirectChanged <==> redirectList != old(redirectList)
    {
      allowChanged, redirectChanged := false, false;
      WithoutChanges(allowList, {});
      WithoutChanges(redirectList, {});
      for i := 0 to |hostnames|
        invariant Valid()
        invariant old(Consistent()) ==> Consistent()
        invariant domainOptions == Unfiled(old(domainOptions), hostnames[..i])
        invariant allowList == Without(old(allowList), Gone(old(domainOptions), hostnames[..i]))
        invariant redirectList == Without(old(redirectList), Gone(old(domainOptions), hostnames[..i]))
        invariant allowChanged <==> |allowList| < |old(allowList)|
        invariant redirectChanged <==> |redirectList| < |old(redirectList)|
      {
        ghost var gone := Gone(old(domainOptions), hostnames[..i]);
        ghost var removed := Removed(domainOptions, hostnames[i]);
        GoneStep(old(domainOptions), hostnames, i);
        UnfiledStep(old(domainOptions), hostnames, i);
        WithoutTwice(old(allowList), gone, removed);
        WithoutTwice(old(redirectList), gone, removed);
        var parent := RemoveIfExists(hostnames[i]);
        match parent {
          case Some(AllowList) => allowChanged := true;
          case Some(RedirectList) => redirectChanged := true;
          case None =>
        }
      }
      assert hostnames[..|hostnames|] == hostnames;
      WithoutChanges(old(allowList), Gone(old(domainOptions), hostnames));
      WithoutChanges(old(redirectList), Gone(old(domainOptions), hostnames));
    }

    /** The second loop of the `allow` and `redirect` handler: every host name gets a new
        option, returned in the order of `hostnames`, inserted into the target list in
        `compareOptions` order. */
    method InsertHostnames(which: ListId, hostnames: seq<string>) returns (options: seq<DomainOption>)
      requires Valid()
      modifies this`allowList, this`redirectList, this`domainOptions
      ensures Valid()
      ensures Texts(options) == hostnames
      ensures domainOptions == Filed(old(domainOptions), options)
      ensures multiset(ListOf(which)) == multiset(old(ListOf(which))) + multiset(options)
      ensures ListOf(Other(which)) == old(ListOf(Other(which)))
      ensures old(Sorted(ListOf(which))) ==> Sorted(ListOf(which))
      ensures && old(Consistent()) && NoDuplicates(hostnames)
              && (forall k :: 0 <= k < |hostnames| ==> hostnames[k] !in old(domainOptions))
              ==> Consistent()
    {
      ghost var before, target, other := domainOptions, ListOf(which), ListOf(Other(which));
      ghost var sorted := Sorted(target);
      ghost var indexed := && Consistent() && NoDuplicates(hostnames)
                           && (forall k :: 0 <= k < |hostnames| ==> hostnames[k] !in domainOptions);
      options := [];
      for i := 0 to |hostnames|
        invariant Valid()
        invariant Texts(options) == hostnames[..i]
        invariant domainOptions == Filed(before, options)
        invariant multiset(ListOf(which)) == multiset(target) + multiset(options)
        invariant ListOf(Other(which)) == other
        invariant sorted ==> Sorted(ListOf(which))
        invariant indexed ==> Consistent()
      {
        ghost var list := ListOf(which);
        if indexed {
          FiledOthers(before, options, hostnames, i);
        }
        var option, index := InsertOption(which, hostnames[i]);
        InsertedGrows(list, ListOf(which), target, options, option, index);
        FiledSnoc(before, options, option);
        TextsGrow(options, option, hostnames, i);
        options := options + [option];
      }
      assert hostnames[..|hostnames|] == hostnames;
    }

    /** `domains.map(createDomainOption)`: a new option for every name, in order, each filed
        in `domainOptions` as it is made. */
    method CreateDomainOptions(domains: seq<string>) returns (options: seq<DomainOption>)
      modifies this`domainOptions
      ensures Texts(options) == domains
      ensures forall k :: 0 <= k < |options| ==> options[k] !in allowList && options[k] !in redirectList
      ensures NoDuplicates(options)
      ensures domainOptions == Filed(old(domainOptions), options)
    {
      options := [];
      for i := 0 to |domains|
        invariant |options| == i
        invariant forall k :: 0 <= k < i ==> options[k].text == domains[k]
        invariant forall k :: 0 <= k < i ==> options[k] !in allowList && options[k] !in redirectList
        invariant NoDuplicates(options)
        invariant domainOptions == Filed(old(domainOptions), options)
      {
        var option := CreateDomainOption(domains[i]);
        assert option !in options;
        NoDuplicatesSnoc(options, option);
        FiledSnoc(old(domainOptions), options, option);
        options := options + [option];
      }
      assert Texts(options) == domains;
    }

    /** One half of the `state` handler, `domains.map(createDomainOption)
        .sort(compareOptions).forEach(list.appendChild, list)`: the new options, returned in
        the order of `domains`, are filed and appended to list `which` in sorted order. */
    method AppendDomains(which: ListId, domains: seq<string>) returns (options: seq<DomainOption>)
      requires Valid()
      modifies this`allowList, this`redirectList, this`domainOptions
      ensures Valid()
      ensures Texts(options) == domains
      ensures ListOf(which) == old(ListOf(which)) + SortOptions(options)
      ensures ListOf(Other(which)) == old(ListOf(Other(which)))
      ensures domainOptions == Filed(old(domainOptions), options)
      ensures && old(Consistent()) && NoDuplicates(domains)
              && (forall k :: 0 <= k < |domains| ==> domains[k] !in old(domainOptions))
              ==> Consistent()
    {
      var allow, redirect := allowList, redirectList;
      ghost var before := domainOptions;
      options := CreateDomainOptions(domains);
      if which == AllowList {
        AppendSortedKeepsWellFormed(allow, redirect, before, options);
        allowList := allow + SortOptions(options);
      } else {
        AppendSortedToRedirectKeepsWellFormed(allow, redirect, before, options);
        redirectList := redirect + SortOptions(options);
      }
    }

    /** The `state` handler: the allowed hosts, then the redirected hosts, each sorted and
        appended to their list. */
    method LoadState(redirect: seq<string>, allow: seq<string>)
      returns (allowOptions: seq<DomainOption>, redirectOptions: seq<DomainOption>)
      requires Valid()
      modifies this`allowList, this`redirectList, this`domainOptions
      ensures Valid()
      ensures Texts(allowOptions) == allow && allowList == old(allowList) + SortOptions(allowOptions)
      ensures Texts(redirectOptions) == redirect && redirectList == old(redirectList) + SortOptions(redirectOptions)
      ensures domainOptions == Filed(Filed(old(domainOptions), allowOptions), redirectOptions)
      ensures AppendedSorted(old(allowList), allowList, allow)
      ensures AppendedSorted(old(redirectList), redirectList, redirect)
      ensures forall h :: h in domainOptions <==> h in old(domainOptions) || h in allow || h in redirect
      ensures && old(Consistent()) && NoDuplicates(allow) && NoDuplicates(redirect)
              && (forall h | h in allow :: h !in redirect && h !in old(domainOptions))
              && (forall h | h in redirect :: h !in old(domainOptions))
              ==> Consistent()
    {
      ghost var allow0, redirect0, before := allowList, redirectList, domainOptions;
      ghost var indexed := && Consistent() && NoDuplicates(allow) && NoDuplicates(redirect)
                           && (forall h | h in allow :: h !in redirect && h !in domainOptions)
                           && (forall h | h in redirect :: h !in domainOptions);
      assert indexed ==> forall k :: 0 <= k < |allow| ==> allow[k] !in before;
      allowOptions := AppendDomains(AllowList, allow);
      FiledEntries(before, allowOptions);
      ghost var middle := domainOptions;
      assert indexed ==> Consistent() && forall k :: 0 <= k < |redirect| ==> redirect[k] !in middle;
      redirectOptions := AppendDomains(RedirectList, redirect);
      AppendedRun(allow0, allowOptions, allow);
      AppendedRun(redirect0, redirectOptions, redirect);
      FiledTwice(before, allowOptions, redirectOptions, allow, redirect);
    }

    /** The `allow`, `redirect` and `block` handler: every host loses its option, then, for
        `allow` and `redirect`, gets a new one in the target list, which counts as changed. */
    method Reconcile(messageType: string, hostnames: seq<string>) returns (allowChanged: bool, redirectChanged: bool, options: seq<DomainOption>)
      requires Valid()
      modifies this`allowList, this`redirectList, this`domainOptions
      ensures Valid()
      ensures messageType == "allow" || messageType == "redirect" ==> Texts(options) == hostnames
      ensures messageType != "allow" && messageType != "redirect" ==> options == []
      ensures domainOptions == Filed(Unfiled(old(domainOptions), hostnames), options)
      ensures messageType != "allow" ==> allowList == Without(old(allowList), Gone(old(domainOptions), hostnames))
      ensures messageType != "redirect" ==> redirectList == Without(old(redirectList), Gone(old(domainOptions), hostnames))
      ensures messageType == "allow" ==>
        multiset(allowList) == multiset(Without(old(allowList), Gone(old(domainOptions), hostnames))) + multiset(options)
      ensures messageType == "redirect" ==>
        multiset(redirectList) == multiset(Without(old(redirectList), Gone(old(domainOptions), hostnames))) + multiset(options)
      ensures allowChanged <==>
        messageType == "allow" || Without(old(allowList), Gone(old(domainOptions), hostnames)) != old(allowList)
      ensures redirectChanged <==>
        messageType == "redirect" || Without(old(redirectList), Gone(old(domainOptions), hostnames)) != old(redirectList)
      ensures messageType != "allow" && messageType != "redirect" ==>
        forall h :: h in domainOptions <==> h in old(domainOptions) && h !in hostnames
      ensures messageType == "allow" ==> forall h | h in hostnames :: h in domainOptions && domainOptions[h] in allowList
      ensures messageType == "redirect" ==> forall h | h in hostnames :: h in domainOptions && domainOptions[h] in redirectList
      ensures old(Consistent()) && messageType != "redirect" ==>
        forall i :: 0 <= i < |redirectList| ==> redirectList[i].text !in hostnames
      ensures old(Consistent()) && messageType != "allow" ==>
        forall i :: 0 <= i < |allowList| ==> allowList[i].text !in hostnames
      ensures old(Sorted(allowList)) ==> Sorted(allowList)
      ensures old(Sorted(redirectList)) ==> Sorted(redirectList)
      ensures old(Consistent()) && (NoDuplicates(hostnames) || (messageType != "allow" && messageType != "redirect")) ==>
        Consistent()
    {
      ghost var allow0, redirect0, before := allowList, redirectList, domainOptions;
      ghost var sorted := (Sorted(allowList), Sorted(redirectList));
      options := [];
      allowChanged, redirectChanged := RemoveHostnames(hostnames);
      UnfiledEntries(before, hostnames);
      if sorted.0 {
        WithoutSorted(allow0, Gone(before, hostnames));
      }
      if sorted.1 {
        WithoutSorted(redirect0, Gone(before, hostnames));
      }
      // `targetList`: the allow list for `allow`, the redirect list for `redirect`, none for
      // any other type; each host name gets a new option in it.
      ghost var removed, allow1, redirect1 := domainOptions, allowList, redirectList;
      if messageType == "allow" {
        allowChanged := true;
        UnfiledAvoids(before, hostnames);
        options := InsertHostnames(AllowList, hostnames);
        FiledShown(allowList, allow1, options, removed);
      } else if messageType == "redirect" {
        redirectChanged := true;
        UnfiledAvoids(before, hostnames);
        options := InsertHostnames(RedirectList, hostnames);
        FiledShown(redirectList, redirect1, options, removed);
      }
    }

    /** The message listener: `state` loads the lists, `allow`, `redirect` and `block` reconcile
        them, and any other type throws. */
    method OnMessage(message: Message) returns (outcome: Outcome)
      requires Valid()
      modifies this`allowList, this`redirectList, this`domainOptions
      ensures Valid()
      ensures outcome.Thrown? <==> message.messageType !in {"state", "allow", "redirect", "block"}
      ensures outcome.Thrown? ==>
        && outcome.messageType == message.messageType
        && allowList == old(allowList) && redirectList == old(redirectList) && domainOptions == old(domainOptions)
      ensures message.messageType == "state" ==>
        && outcome == Loaded
        && AppendedSorted(old(allowList), allowList, message.allow)
        && AppendedSorted(old(redirectList), redirectList, message.redirect)
        && (forall h :: h in domainOptions <==> h in old(domainOptions) || h in message.allow || h in message.redirect)
        && (forall h | h in old(domainOptions) && h !in message.allow && h !in message.redirect ::
              domainOptions[h] == old(domainOptions)[h])
        && (forall h | h in message.redirect ::
              domainOptions[h].text == h && domainOptions[h] in redirectList[|old(redirectList)|..])
        && (forall h | h in message.allow && h !in message.redirect ::
              domainOptions[h].text == h && domainOptions[h] in allowList[|old(allowList)|..])
      ensures && message.messageType == "state" && old(Consistent())
              && NoDuplicates(message.allow) && NoDuplicates(message.redirect)
              && (forall h | h in message.allow :: h !in message.redirect && h !in old(domainOptions))
              && (forall h | h in message.redirect :: h !in old(domainOptions))
              ==> Consistent()
      ensures message.messageType in {"allow", "redirect", "block"} ==>
        && outcome.Reconciled?
        && (AllowList in outcome.changeEvents <==>
              || message.messageType == "allow"
              || Without(old(allowList), Gone(old(domainOptions), message.hostnames)) != old(allowList))
        && (RedirectList in outcome.changeEvents <==>
              || message.messageType == "redirect"
              || Without(old(redirectList), Gone(old(domainOptions), message.hostnames)) != old(redirectList))
        && (old(Sorted(allowList)) ==> Sorted(allowList))
        && (old(Sorted(redirectList)) ==> Sorted(redirectList))
        && (forall h | h in old(domainOptions) && h !in message.hostnames ::
              h in domainOptions && domainOptions[h] == old(domainOptions)[h])
        && (forall h | h in domainOptions :: h in old(domainOptions) || h in message.hostnames)
      ensures message.messageType == "block" ==>
        && domainOptions == Unfiled(old(domainOptions), message.hostnames)
        && allowList == Without(old(allowList), Gone(old(domainOptions), message.hostnames))
        && redirectList == Without(old(redirectList), Gone(old(domainOptions), message.hostnames))
      ensures message.messageType == "block" ==> forall h | h in message.hostnames :: h !in domainOptions
      ensures message.messageType == "block" && old(Consistent()) ==>
        && Consistent()
        && (forall i :: 0 <= i < |allowList| ==> allowList[i].text !in message.hostnames)
        && (forall i :: 0 <= i < |redirectList| ==> redirectList[i].text !in message.hostnames)
      ensures message.messageType == "allow" ==>
        && redirectList == Without(old(redirectList), Gone(old(domainOptions), message.hostnames))
        && |allowList| == |Without(old(allowList), Gone(old(domainOptions), message.hostnames))| + |message.hostnames|
        && (forall i :: 0 <= i < |Without(old(allowList), Gone(old(domainOptions), message.hostnames))| ==>
              Without(old(allowList), Gone(old(domainOptions), message.hostnames))[i] in allowList)
        && (forall i :: 0 <= i < |allowList| ==>
              allowList[i] in Without(old(allowList), Gone(old(domainOptions), message.hostnames))
              || allowList[i].text in message.hostnames)
        && (forall h | h in message.hostnames :: h in domainOptions && domainOptions[h] in allowList)
      ensures message.messageType == "allow" && old(Consistent()) ==>
        forall i :: 0 <= i < |redirectList| ==> redirectList[i].text !in message.hostnames
      ensures message.messageType == "redirect" ==>
        && allowList == Without(old(allowList), Gone(old(domainOptions), message.hostnames))
        && |redirectList| == |Without(old(redirectList), Gone(old(domainOptions), message.hostnames))| + |message.hostnames|
        && (forall i :: 0 <= i < |Without(old(redirectList), Gone(old(domainOptions), message.hostnames))| ==>
              Without(old(redirectList), Gone(old(domainOptions), message.hostnames))[i] in redirectList)
        && (forall i :: 0 <= i < |redirectList| ==>
              redirectList[i] in Without(old(redirectList), Gone(old(domainOptions), message.hostnames))
              || redirectList[i].text in message.hostnames)
        && (forall h | h in message.hostnames :: h in domainOptions && domainOptions[h] in redirectList)
      ensures message.messageType == "redirect" && old(Consistent()) ==>
        forall i :: 0 <= i < |allowList| ==> allowList[i].text !in message.hostnames
      ensures message.messageType in {"allow", "redirect"} && old(Consistent()) && NoDuplicates(message.hostnames) ==>
        Consistent()
    {
      if message.messageType == "state" {
        ghost var allow0, redirect0, before := allowList, redirectList, domainOptions;
        var allowOptions, redirectOptions := LoadState(message.redirect, message.allow);
        LoadedEntries(before, allowOptions, message.allow, allowList, allow0,
                      redirectOptions, message.redirect, redirectList, redirect0);
        outcome := Loaded;
      } else if message.messageType in {"allow", "redirect", "block"} {
        ghost var allow0, redirect0, before := allowList, redirectList, domainOptions;
        var allowChanged, redirectChanged, options := Reconcile(message.messageType, message.hostnames);
        ReconciledEntries(before, message.hostnames, options);
        ghost var gone := Gone(before, message.hostnames);
        if message.messageType == "allow" {
          ReconciledList(allowList, Without(allow0, gone), options, message.hostnames);
        } else if message.messageType == "redirect" {
          ReconciledList(redirectList, Without(redirect0, gone), options, message.hostnames);
        }
        outcome := Reconciled(ChangeEvents(allowChanged, redirectChanged));
      } else {
        outcome := Thrown(message.messageType);
      }
    }
  }

  /** `binarySearch(options, reference => compareOptions(option, reference))`: where `option`
      goes so that a sorted list stays sorted. */
  method InsertIndex(options: seq<DomainOption>, option: DomainOption) returns (index: nat)
    ensures index <= |options|
    ensures Sorted(options) ==> Sorted(options[..index] + [option] + options[index..])
  {
    index := BinarySearch(options, reference => CompareOptions(option, reference));
    if Sorted(options) {
      SortedIsOrderedForSearch(options, option);
      InsertAtKeepsSorted(options, option, index);
    }
  }
}
