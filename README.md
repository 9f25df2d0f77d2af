# A model of the request policy, block page, options lists and hex codec of the extension

This project models the core of a browser extension that blocks plain-`http` requests by default.

- **Background page** (`background.js`). A blocking `onBeforeRequest` listener first records the
  request's host in a bounded, insertion-ordered `recent` set (at most 20 hosts, the newest last).
  It then decides:
  - upgrade the request to https when the host is in `redirect`;
  - let it through when the host is in `allow`, or when the exact URL is in the single-use
    `temporaryAllow` set, which the request uses up;
  - otherwise cancel it, sending the tab to the block page for a top-level `GET` in a tab.
- **Block page** (`pages/top-level-blocked.js`). It works on the background page's sets directly.
  - A host already decided sends the tab straight on.
  - The allow button moves the host into `allow`, or grants the URL once when "save" is off.
  - The redirect button moves the host into `redirect`.
  - Both report the partial storage update they write.
- **Options page** (`pages/list.js`). It keeps the allowed and the redirected hosts as two
  `<select>` lists.
  - Each list is in `getDomainSort` order under `compareSequences` (`util/compare-sequences.js`).
  - `domainOptions` records the option showing each host.
  - A `state` message fills the lists, sorted.
  - `allow`, `redirect` and `block` messages remove the named hosts and re-insert them into the
    target list at the place `binarySearch` (`pages/binary-search.js`) finds.
- **Hex codec** (`util/encode-hex.js`, `util/decode-hex.js`): lower-case, two digits per byte.

A blocked top-level navigation is cancelled and the tab is sent straight to the block page;
nothing about the blocked URL is signed or checked. The block page changes the background page's
sets itself and writes storage on its own; no component broadcasts policy changes to others.

Layout, one module per source file:

| file | module |
|---|---|
| `background.dfy` | `Background` |
| `top_level_blocked.dfy` | `BlockPage` |
| `list.dfy` | `DomainList` |
| `domain_sort.dfy` | `DomainSorting` (`getDomainSort`) |
| `binary_search.dfy` | `Search` |
| `compare_sequences.dfy` | `SequenceOrder` |
| `encode_hex.dfy` | `HexEncoding` |
| `decode_hex.dfy` | `HexDecoding` |
| `wrappers.dfy` | `Wrappers` (`Option` and duplicate-free sequences) |

State the source changes in place is modelled as classes, and their methods state the whole new state:
- `Background.BackgroundPage` holds the four sets.
- `DomainList.ListPage` holds the two lists and `domainOptions`.
- `DomainList.DomainOption` is an `<option>` element, so that two options for the same host stay
  distinct, as they are in the page.

Loops stay loops, each proved against a function or predicate:
- binarySearch, compareSequences and decodeHex;
- the pop-and-concat loop of getDomainSort;
- the removal and insertion loops of the message handler.

`encodeHex` is pure and is modelled as functions.

## Model

| member | source | states |
|---|---|---|
| HexEncoding.HexDigit | util/encode-hex.js:1 | every digit `toString(16)` writes is one of `0-9a-f` |
| HexEncoding.ToRadix16 | util/encode-hex.js:1 | `n.toString(16)` has at least one digit, and exactly one when `n < 16` |
| HexEncoding.PadStart | util/encode-hex.js:1 | `padStart` gives the target length (or the string's own if longer), the string at the end, the filler before it |
| HexEncoding.EncodeByteHex | util/encode-hex.js:1 | a byte is written as exactly two characters |
| HexEncoding.EncodeByteHexIsPaddedRadix16 | util/encode-hex.js:1 | a byte's two nibble digits are exactly `byte.toString(16).padStart(2, '0')` |
| HexEncoding.EncodeHex | util/encode-hex.js:3-4 | the encoding has two characters per byte |
| HexEncoding.EncodeHexAt | util/encode-hex.js:1-4 | byte `i` is written at characters `2i` (high nibble) and `2i + 1` (low nibble) |
| HexEncoding.EncodeHexAlphabet | util/encode-hex.js:1-4 | every character of an encoding is one of `0-9a-f` |
| HexEncoding.EncodeHexAppend | util/encode-hex.js:3-4 | encoding distributes over concatenation |
| HexDecoding.DigitValue | util/decode-hex.js:5 | a radix-16 digit has a value below 16 |
| HexDecoding.ParseHexPair | util/decode-hex.js:5 | `parseInt` of a pair with no hex digit in it is NaN, stored as 0; a value above 15 needs two digits or a minus sign that wraps modulo 256 |
| HexDecoding.Decoded | util/decode-hex.js:2-5 | `floor(n / 2)` bytes, and byte `i` is `16 * hi + lo` whenever characters `2i` and `2i + 1` are hex digits of either case |
| HexDecoding.DecodeHex | util/decode-hex.js:1-9 | the loop fills a fresh array with `floor(n / 2)` bytes, byte `i` parsed from characters `2i` and `2i + 1` |
| HexDecoding.DecodedLength | util/decode-hex.js:2 | decoding never fails, gives `floor(n / 2)` bytes and ignores a trailing odd character |
| HexDecoding.DecodedIsLocal | util/decode-hex.js:4-5 | byte `i` depends on characters `2i` and `2i + 1` only |
| HexDecoding.DecodesHexDigitPair | util/decode-hex.js:5 | two hex digits of either case decode to `16 * hi + lo` |
| HexDecoding.DigitValueOfHexDigit | util/decode-hex.js:5 | decoding reads back the value of each digit encoding writes |
| HexDecoding.RoundTrip | util/decode-hex.js:1-9 | decoding an encoding gives back every byte, the empty input included |
| SequenceOrder.Compare | util/compare-sequences.js:1-25 | the comparison is always -1, 0 or 1 |
| SequenceOrder.CompareSequences | util/compare-sequences.js:1-25 | the lockstep loop returns the lexicographic comparison |
| SequenceOrder.CompareSelf | util/compare-sequences.js:9-10 | equal sequences, two empty ones included, compare 0 |
| SequenceOrder.ComparePrefix | util/compare-sequences.js:9-15 | a proper prefix compares -1 against the longer sequence, which compares 1 against it |
| SequenceOrder.CompareFirstDifference | util/compare-sequences.js:17-23 | past a common prefix, the first differing position decides |
| SequenceOrder.CompareAntisymmetric | util/compare-sequences.js:9-23 | swapping the arguments negates the result |
| SequenceOrder.CompareZeroIffEqual | util/compare-sequences.js:9-23 | only equal sequences compare 0 |
| SequenceOrder.CompareTransitive | util/compare-sequences.js:9-23 | comparing -1 is transitive |
| SequenceOrder.CompareAtMostTransitive | util/compare-sequences.js:9-23 | comparing at most 0 is transitive |
| SequenceOrder.CompareMonotone | util/compare-sequences.js:9-23 | comparing one sequence against an ordered pair never gives a larger result for the larger element |
| SequenceOrder.StringLessIsStrictTotalOrder | util/compare-sequences.js:17-23 | `<` on strings, the element order of the sort keys, is a strict total order |
| Search.BinarySearch | pages/binary-search.js:2-20 | the index is in `[0, length]`; it is a hit or has its neighbours on the right sides; on ordered input it is a point that keeps the order; with no equal element it is the insertion point |
| DomainSorting.Split | pages/list.js:7 | `split('.')` gives at least one piece, none holding a dot, and joining the pieces gives back the string |
| DomainSorting.Reverse | pages/list.js:17 | `reverse` puts element `i` at position `n - 1 - i` |
| DomainSorting.JoinAppend | pages/list.js:12-15 | joining two runs of labels puts one dot between their joins |
| DomainSorting.DomainSort | pages/list.js:6-18 | the sort key has at least one component; its shape (the last two labels joined by a dot, then the other labels right to left) is DomainSortOfLabels and DomainSortWithoutDot |
| DomainSorting.GetDomainSort | pages/list.js:6-18 | the pop-and-concat loop and the reversal compute the sort key |
| DomainSorting.DomainSortWithoutDot | pages/list.js:7-10 | a host name without a dot has the key `[domain]` |
| DomainSorting.DomainSortOfLabels | pages/list.js:7-17 | a name of k >= 2 labels has k - 1 components: the last two labels joined by a dot, then the other labels from right to left |
| DomainSorting.DomainSortRoundTrip | pages/list.js:12-17 | reversing a key and joining it with dots gives back the host name |
| DomainSorting.DomainSortInjective | pages/list.js:6-18 | different host names have different keys |
| Background.Delete | background.js:19 | `Set.delete` removes exactly the element, keeps every other one and never grows the set; the order of the others is DeleteAt |
| Background.DeleteFromSet | background.js:19 | deleting keeps the set duplicate-free and removes one element when present |
| Background.DeleteAt | background.js:22 | deleting the element at a position leaves those before it, then those after it |
| Background.First | background.js:11-12 | `first` is an element of the set |
| Background.Add | background.js:25 | `Set.add` keeps every element where it was, holds the element afterwards, grows by at most one, leaves a set that already holds it unchanged, and keeps a set duplicate-free |
| Background.Touched | background.js:19-25 | after the update the host just seen is newest, and every host kept was already recent or is that host |
| Background.TouchedIsRecentHistory | background.js:19-25 | `recent` stays duplicate-free with at most 20 hosts and the host just seen newest; a host seen again keeps the size; a new host on a full set evicts exactly the oldest one |
| Background.BackgroundPage.NavigatesToBlockPage | background.js:36 | the tab is sent to the block page exactly for a `main_frame` `GET` request in a tab (tab id not -1); stated through OnBeforeRequest's response |
| Background.BackgroundPage.constructor | background.js:5-9 | start-up loads the stored lists into the two durable sets; `temporaryAllow` and `recent` start empty |
| Background.BackgroundPage.OnBeforeRequest | background.js:14-44 | updates `recent` by the recent-hosts policy; upgrades a host in `redirect` (even one also in `allow`) without touching `temporaryAllow`; else lets through a host in `allow` or a URL in `temporaryAllow`, using up that URL; else cancels, navigating exactly top-level `GET`s in a tab; never changes `allow` or `redirect` |
| BlockPage.Open | pages/top-level-blocked.js:14-22 | the tab goes straight to the URL exactly when the host is already in `redirect` or `allow`, and no set changes |
| BlockPage.AllowClicked | pages/top-level-blocked.js:31-48 | with save: the host is in `allow` and not in `redirect`, and the update carries `allow` always and `redirect` iff the host left it; without save only `temporaryAllow` changes, gaining the URL; disjointness of the sets and every other host's membership are kept |
| BlockPage.RedirectClicked | pages/top-level-blocked.js:50-67 | with save: the host is in `redirect` and not in `allow`, and the update carries `redirect` always and `allow` iff the host left it; without save no set changes; the tab loads the URL over https; disjointness and other hosts' membership are kept |
| BlockPage.SavedAllowLetsRequestsThrough | pages/top-level-blocked.js:31-42 | after allow-and-save, the blocked request and then any other request for the same host, whatever its URL, are let through |
| BlockPage.TemporaryAllowIsSingleUse | background.js:31-34 | a URL allowed without saving is let through once; the identical next request is cancelled |
| DomainList.DomainOption.constructor | pages/list.js:76-78 | a new option shows the host and carries the given key |
| DomainList.CompareOptions | pages/list.js:83-84 | `compareOptions` is -1, 0 or 1, and 0 exactly for options with equal keys |
| DomainList.OptionsAntisymmetric | pages/list.js:83-84 | swapping two options negates `compareOptions` |
| DomainList.OptionsTransitive | pages/list.js:83-84 | sorting no later is transitive under `compareOptions` |
| DomainList.SortedIsOrderedForSearch | pages/list.js:146 | on a sorted list, comparing a new option against each element never increases, so binarySearch applies |
| DomainList.InsertAtKeepsSorted | pages/list.js:146-152 | inserting at a point with no larger option before it and no smaller one after it keeps a list sorted |
| DomainList.SortedSlice | pages/list.js:109 | every slice of a sorted list is sorted |
| DomainList.SortInsert | pages/list.js:109 | one insertion step of the stable sort grows the list by exactly one; that it adds exactly the option is SortInsertPermutes, and that it keeps the list sorted is SortInsertSorted |
| DomainList.SortOptions | pages/list.js:109 | `sort(compareOptions)` keeps the number of options; sortedness and permutation are SortOptionsSorted |
| DomainList.SortInsertSorted | pages/list.js:109 | one insertion step of the sort keeps a list sorted and adds exactly that option |
| DomainList.SortInsertNoDuplicates | pages/list.js:109 | an insertion step of an absent option keeps a list duplicate-free |
| DomainList.SortInsertPermutes | pages/list.js:109 | an insertion step adds exactly the option |
| DomainList.SortOptionsSorted | pages/list.js:108-110 | `sort(compareOptions)` gives a sorted permutation |
| DomainList.SortOptionsNoDuplicates | pages/list.js:108-110 | sorting different options keeps them different |
| DomainList.SortOptionsTexts | pages/list.js:108-113 | sorting shows the same host names, each as often as before |
| DomainList.SortOptionsRun | pages/list.js:108-114 | options made from a list of names sort into a sorted run of the same options, showing each name as often as received |
| DomainList.Without | pages/list.js:94 | `option.remove()` leaves exactly the options not removed, and no more of them than before |
| DomainList.WithoutAt | pages/list.js:94 | removing the option at position `k` of a duplicate-free list leaves those before it, then those after it, in their order |
| DomainList.WithoutChanges | pages/list.js:126-136 | removing leaves a list unchanged exactly when none of the removed options was in it |
| DomainList.WithoutOne | pages/list.js:94 | removing an option a duplicate-free list holds shortens it by one |
| DomainList.WithoutTwice | pages/list.js:126-136 | removing two groups one after the other removes their union |
| DomainList.WithoutSorted | pages/list.js:94 | removing options keeps a list sorted |
| DomainList.WithoutNoDuplicates | pages/list.js:94 | removing options keeps a list duplicate-free |
| DomainList.SortInsertTexts | pages/list.js:109 | an insertion step adds exactly the option's host name to the names shown |
| DomainList.FiledEntries | pages/list.js:79 | after `domainOptions.set` for a run of options, the map holds the old names and the run's names, each run name filed with an option of the run showing it, other entries unchanged |
| DomainList.FiledLatest | pages/list.js:79 | when the run shows every name once, each option is the one filed under its name |
| DomainList.FiledOthers | pages/list.js:144-145 | while inserting new, different names, the next name is not yet filed |
| DomainList.FiledTwice | pages/list.js:105-114 | filing the `allow` options and then the `redirect` options files exactly those names besides the old ones |
| DomainList.LoadedEntries | pages/list.js:105-114 | after `state` files the allow run and then the redirect run, a name not received keeps its entry, a redirected name is filed with its option of the appended redirect run, and a name only allowed with its option of the appended allow run |
| DomainList.FiledShown | pages/list.js:143-154 | every inserted name is filed with an option the target list shows |
| DomainList.Other | pages/list.js:138-141 | the other list is never the target list |
| DomainList.GoneHolds | pages/list.js:126-136 | every known host removed takes its option with it |
| DomainList.UnfiledEntries | pages/list.js:95 | after deleting a run of names, `domainOptions` holds exactly the old names not deleted, with their old entries |
| DomainList.UnfiledAvoids | pages/list.js:126-136 | none of the removed host names is filed afterwards |
| DomainList.RemoveKeepsWellFormed | pages/list.js:86-97 | removing a host's option from the lists and the map keeps the page well-formed, and keeps every shown option filed |
| DomainList.InsertKeepsWellFormed | pages/list.js:145-152 | inserting a new option and filing it keeps the page well-formed |
| DomainList.InsertKeepsIndexed | pages/list.js:145-152 | inserting an option for an unfiled name keeps every shown option filed |
| DomainList.InsertIntoRedirectKeepsWellFormed | pages/list.js:145-152 | inserting into the redirect list keeps the page well-formed |
| DomainList.AppendKeepsWellFormed | pages/list.js:108-114 | appending new, different options and filing them keeps the page well-formed |
| DomainList.AppendKeepsIndexed | pages/list.js:108-114 | appending options that are the ones now filed keeps every shown option filed |
| DomainList.AppendSortedKeepsWellFormed | pages/list.js:108-110 | appending the sorted options to a list and filing them keeps the page well-formed, and indexed when the names are new and different |
| DomainList.AppendSortedKeepsIndexed | pages/list.js:108-110 | appending sorted options for new, different names keeps every shown option filed |
| DomainList.AppendSortedToRedirectKeepsWellFormed | pages/list.js:112-114 | the same for the redirect list |
| DomainList.AppendedRun | pages/list.js:108-114 | a list after the `state` message is its old options, then a sorted run showing exactly the names received |
| DomainList.ReconciledEntries | pages/list.js:126-154 | removing the message's names and filing new options for them keeps every other name's entry and files no name the message does not carry |
| DomainList.ReconciledList | pages/list.js:126-154 | a target list holding the surviving options plus one new option per name still shows every survivor, shows only survivors and the names' options, and grows by the number of names |
| DomainList.ChangeEventsAsWritten | pages/list.js:156-162 | as written, no `change` event ever goes to the redirect list, and the allow list gets one exactly when either list changed |
| DomainList.RedirectChangeAnnouncedOnAllowList | pages/list.js:156-162 | as written, a change to the redirect list alone is announced on the allow list, and whenever the redirect list changed the events differ from the intended ones |
| DomainList.ChangeEvents | pages/list.js:156-162 | the corrected events: one on the allow list iff `allowChanged`, one on the redirect list iff `redirectChanged`, no list twice |
| DomainList.ListPage.constructor | pages/list.js:72-73 | the page starts with empty lists and an empty `domainOptions`, consistent and sorted |
| DomainList.ListPage.CreateDomainOption | pages/list.js:75-81 | a fresh option shows the name, is keyed by `getDomainSort`, is in neither list and is filed under the name, replacing any earlier entry |
| DomainList.ListPage.RemoveIfExists | pages/list.js:86-97 | an unknown host returns null and changes nothing; a known one leaves its list (one option shorter) and `domainOptions`, and that list is returned |
| DomainList.ListPage.InsertOption | pages/list.js:145-152 | a fresh option for the host is filed and inserted into the target list at the binarySearch index; the other list is unchanged; a sorted list stays sorted |
| DomainList.ListPage.RemoveHostnames | pages/list.js:126-136 | the removal loop deletes the names from `domainOptions` and their options from both lists; each flag says exactly whether its list changed |
| DomainList.ListPage.InsertHostnames | pages/list.js:143-154 | the insertion loop adds one new option per name to the target list and files them; the other list is unchanged; sortedness is kept; consistency is kept for new, different names |
| DomainList.ListPage.CreateDomainOptions | pages/list.js:108 | `map(createDomainOption)` gives new, different options showing the names in order, filed in `domainOptions` |
| DomainList.ListPage.AppendDomains | pages/list.js:108-110 | one half of `state`: the sorted options are appended to the list, filed, and the other list is unchanged |
| DomainList.ListPage.LoadState | pages/list.js:105-117 | `state` appends to each list the sorted options made for its names (a sorted run showing exactly the names received), and the new `domainOptions` is the old one with the allow options and then the redirect options filed; consistency is kept for new, different, disjoint names |
| DomainList.ListPage.Reconcile | pages/list.js:119-165 | the new `domainOptions` is the old one with the names deleted and the new options filed; the list that is not the target is exactly the old one without the removed options; the target list holds exactly the surviving options plus one new option per name, showing the names; after `block`, no name is filed; after `allow` or `redirect`, every name is filed with an option of the target list and, on a consistent page, no option of the other list shows one; the flags are true exactly for the target list or a list that lost an option; sortedness is kept, and consistency for different names |
| DomainList.ListPage.OnMessage | pages/list.js:103-170 | an unknown type throws and changes nothing; `state` appends to each list a sorted run showing exactly the names received, files exactly those names (each redirected name with its option of the redirect run, each name only allowed with its option of the allow run), keeps every other name's entry, and keeps consistency for new, different, disjoint names; `allow`, `redirect` and `block` keep every other name's entry and file no new name, leave the non-target lists exactly without the removed options, give the target list every surviving option plus one option per name (and nothing else), and report a `change` event exactly on the target list and on each list that lost an option |
| DomainList.InsertIndex | pages/list.js:146 | the binarySearch index keeps a sorted list sorted when the option is inserted there |

## Findings

| source | as written | input that shows it | evidently intended | confidence | as-written member | corrected member |
|---|---|---|---|---|---|---|
| pages/list.js:160-162 | when `redirectChanged` is set, the `change` event is dispatched on `allowList` | a `block` message for a host shown only in the redirect list: `redirectChanged` is true, yet no event reaches the redirect list, so its Remove and Move buttons keep their old enabled state | `redirectList.dispatchEvent(new Event('change'))` | high, not executed | DomainList.RedirectChangeAnnouncedOnAllowList | DomainList.ChangeEvents |

## Left out

- HMAC signing and verification and a connection hub: this code has neither, so there is nothing to model.
- `bootstrap.js`, `popup/hosts.js` and `pages/redirect-target.js` are not part of this model. They are a legacy add-on, DOM rendering and a message forwarder.
- Asynchrony: the stored sets are taken as already loaded, and each listener or handler runs as one atomic step.
- Browser APIs appear as returned values, not as calls:
  - storage writes become `BlockPage.StorageUpdate`;
  - tab navigations become `Background.BlockingResponse.Cancel(navigatesTab)` and `BlockPage.Navigation`;
  - the `popup` setting and the `window` exports are not modelled.
- URL handling: the host name is an input next to the URL. The https rewrite is the `LoadAsHttps` tag, and the block page's query-string URL is not built.
- Strings are sequences of Unicode characters, not UTF-16 code units. So `<` on strings and `hex.substr` pairing differ from JavaScript for characters outside the Basic Multilingual Plane.
- `hex.length >>> 1` is modelled as `|hex| / 2`, which is the same for any string shorter than 2^32.
- DOM events and buttons: the enabling of buttons by `associateSelectionActions` and the clicks that post messages (pages/list.js:20-70) are not modelled. `change` events are modelled only as the list of lists they go to.
- `Set` iteration order in background.js is modelled for `recent` only. `allow`, `redirect` and `temporaryAllow` are plain sets, and `Array.from` order in a storage update is not modelled.
- `appendChild` and `before` both become insertion at the binarySearch index, which is where either one puts the option.
- Malformed messages, such as a missing `hostnames` or non-array fields, are not modelled. Each message is a record with every field present.
- DomainList.ListPage.InsertOption: does not restate that the new option's key is `getDomainSort` of the host, because `DomainList.ListPage.CreateDomainOption` states it for every option made.
- DomainList.ListPage.Reconcile: states consistency afterwards only for duplicate-free `allow`/`redirect` name lists, because a name received twice leaves its first option shown but no longer filed (pages/list.js:144-152), and the model keeps that behaviour.
- DomainList.WellFormed: the page invariant does not say that each option's key is `getDomainSort` of its text, because no operation changes an option's key after `createDomainOption` sets it.
- DomainList.ListPage.LoadState: returns the options it creates, which the source does not keep, to state the new lists and `domainOptions`.
- DomainList.ListPage.InsertHostnames: returns the inserted options, which the source discards, to state the new `domainOptions`.
- DomainList.ListPage.OnMessage: for `state`, only the appended run is stated sorted, because appending a sorted run to a non-empty list does not make the whole list sorted (pages/list.js:108-114).
- DomainList.ListPage.OnMessage: reports the corrected `change` events of DomainList.ChangeEvents, one on each list that changed, not the as-written ones of pages/list.js:160-162, which DomainList.ChangeEventsAsWritten models (see Findings).
- DomainList.ListPage.Reconcile: returns the inserted options, which the source does not keep, to state the new `domainOptions` and target list.
