/** background.js: the blocking `onBeforeRequest` listener for `http` requests and the state
    it keeps: the durable `redirect` and `allow` host sets, the single-use `temporaryAllow` URL
    set and the bounded, insertion-ordered `recent` host set. */
module Background {
  import opened Wrappers

  /** MAX_RECENT_HOSTS: how many distinct hosts `recent` keeps. */
  const MAX_RECENT_HOSTS: nat := 20

  /** The fields of an intercepted request the listener reads; `hostname` is
      `new URL(url).hostname`. */
  datatype Request = Request(url: string, hostname: string, resourceType: string, tabId: int, httpMethod: string)

  /** What the listener returns: `{ upgradeToSecure: true }`, `{}` or `{ cancel: true }`; a
      cancelled request also reports whether the listener sent its tab to the block page. */
  datatype BlockingResponse = UpgradeToSecure | Allow | Cancel(navigatesTab: bool)

  /** The stored settings: `s.redirect` and `s.allow`, either of which may be absent. */
  datatype StoredSettings = StoredSettings(redirect: Option<seq<string>>, allow: Option<seq<string>>)

  /** `new Set(array)`, where `new Set(undefined)` is empty. */
  function SetOf(stored: Option<seq<string>>): (r: set<string>)
    ensures forall h :: h in r <==> stored.Some? && h in stored.value
  {
    if stored.Some? then set h | h in stored.value else {}
  }

  /** Set.prototype.delete on an insertion-ordered set: every other element keeps its place. */
  function Delete(s: seq<string>, x: string): (r: seq<string>)
    ensures forall y :: y in r <==> y in s && y != x
    ensures |r| <= |s|
    ensures x !in s ==> r == s
  {
    if |s| == 0 then []
    else if s[0] == x then Delete(s[1..], x)
    else [s[0]] + Delete(s[1..], x)
  }

  /** Deleting keeps a set duplicate-free, and removes exactly one element when present. */
  lemma {:induction false} DeleteFromSet(s: seq<string>, x: string)
    requires NoDuplicates(s)
    ensures NoDuplicates(Delete(s, x))
    ensures x in s ==> |Delete(s, x)| == |s| - 1
  {
    if |s| > 0 {
      NoDuplicatesTail(s);
      DeleteFromSet(s[1..], x);
      if s[0] != x {
        var rest := Delete(s[1..], x);
        assert s[0] !in s[1..];
        assert forall i :: 1 <= i < |rest| + 1 ==> ([s[0]] + rest)[i] == rest[i - 1];
      }
    }
  }

  /** Deleting the element at position `k` of a set leaves the others in their order:
      those before `k`, then those after it. */
  lemma {:induction false} DeleteAt(s: seq<string>, k: nat)
    requires NoDuplicates(s) && k < |s|
    ensures Delete(s, s[k]) == s[..k] + s[k + 1..]
  {
    if k == 0 {
      assert s[0] !in s[1..];
    } else {
      NoDuplicatesTail(s);
      DeleteAt(s[1..], k - 1);
      assert s[1..][k - 1] == s[k];
      assert s[..k] == [s[0]] + s[1..][..k - 1];
      assert s[k + 1..] == s[1..][k..];
    }
  }

  /** `first`: the oldest element of an insertion-ordered set. */
  function First(s: seq<string>): (x: string)
    requires |s| > 0
    ensures x in s
  {
    s[0]
  }

  /** Set.prototype.add on an insertion-ordered set: a new element goes last. */
  function Add(s: seq<string>, x: string): (r: seq<string>)
    ensures |s| <= |r| <= |s| + 1 && r[..|s|] == s
    ensures x in r
    ensures x in s ==> r == s
    ensures NoDuplicates(s) ==> NoDuplicates(r)
  {
    if x in s then s else s + [x]
  }

  /** The recent-hosts policy: a host seen again moves to the newest position, a new host goes
      last and, when 20 hosts are already kept, pushes out the oldest one. */
  function Touched(recent: seq<string>, hostname: string): (r: seq<string>)
    ensures |r| > 0 && r[|r| - 1] == hostname
    ensures forall h | h in r :: h in recent || h == hostname
  {
    if hostname in recent then Delete(recent, hostname) + [hostname]
    else if |recent| == MAX_RECENT_HOSTS then recent[1..] + [hostname]
    else recent + [hostname]
  }

  /** The recent hosts stay a duplicate-free set of at most 20 hosts, with the host just seen
      newest; a host seen again leaves the size unchanged, a new host on a full set pushes out
      exactly the oldest one. */
  lemma TouchedIsRecentHistory(recent: seq<string>, hostname: string)
    requires |recent| <= MAX_RECENT_HOSTS && NoDuplicates(recent)
    ensures var r := Touched(recent, hostname);
      && |r| <= MAX_RECENT_HOSTS
      && NoDuplicates(r)
      && r[|r| - 1] == hostname
      && (hostname in recent ==> |r| == |recent|)
      && (hostname !in recent && |recent| == MAX_RECENT_HOSTS ==>
            |r| == |recent| && recent[0] !in r && forall h :: h in recent && h != recent[0] ==> h in r)
  {
    var r := Touched(recent, hostname);
    if hostname in recent {
      DeleteFromSet(recent, hostname);
      var d := Delete(recent, hostname);
      assert forall i, j :: 0 <= i < j < |d| ==> r[i] == d[i] && r[j] == d[j];
    } else if |recent| == MAX_RECENT_HOSTS {
      assert forall i :: 0 <= i < |recent| - 1 ==> r[i] == recent[i + 1];
      assert recent[0] !in recent[1..];
    } else {
      assert forall i :: 0 <= i < |recent| ==> r[i] == recent[i];
    }
  }

  /** The background page's state, shared with the block page through `getBackgroundPage`. */
  class BackgroundPage {
    var redirect: set<string>
    var allow: set<string>
    var temporaryAllow: set<string>
    var recent: seq<string>

    ghost predicate Valid()
      reads this
    {
      |recent| <= MAX_RECENT_HOSTS && NoDuplicates(recent)
    }

    /** Start-up: the stored host lists become the two durable sets; `temporaryAllow` and
        `recent` start empty. */
    constructor (stored: StoredSettings)
      ensures Valid()
      ensures redirect == SetOf(stored.redirect) && allow == SetOf(stored.allow)
      ensures temporaryAllow == {} && recent == []
    {
      redirect := SetOf(stored.redirect);
      allow := SetOf(stored.allow);
      temporaryAllow := {};
      recent := [];
    }

    /** The request is a top-level `GET` navigation in a tab: the block page is shown for it. */
    static predicate NavigatesToBlockPage(request: Request)
    {
      request.resourceType == "main_frame" && request.tabId != -1 && request.httpMethod == "GET"
    }

    /** The `onBeforeRequest` listener: records the host in `recent`, then upgrades a host in
        `redirect`, lets through a host in `allow` or a URL in `temporaryAllow` (using up that
        URL), and cancels everything else. It never changes `allow` or `redirect`. */
    method OnBeforeRequest(request: Request) returns (response: BlockingResponse)
      requires Valid()
      modifies this`recent, this`temporaryAllow
      ensures Valid()
      ensures recent == Touched(old(recent), request.hostname)
      ensures allow == old(allow) && redirect == old(redirect)
      ensures request.hostname in redirect ==>
        response == UpgradeToSecure && temporaryAllow == old(temporaryAllow)
      ensures request.hostname !in redirect && (request.hostname in allow || request.url in old(temporaryAllow)) ==>
        response == Allow && temporaryAllow == old(temporaryAllow) - {request.url}
      ensures request.hostname !in redirect && request.hostname !in allow && request.url !in old(temporaryAllow) ==>
        response == Cancel(NavigatesToBlockPage(request)) && temporaryAllow == old(temporaryAllow)
    {
      var hostname := request.hostname;
      ghost var before := recent;
      DeleteFromSet(recent, hostname);
      recent := Delete(recent, hostname);
      if |recent| == MAX_RECENT_HOSTS {
        assert hostname !in before && recent == before;
        assert Delete(recent[1..], recent[0]) == recent[1..] by {
          assert recent[0] !in recent[1..];
        }
        DeleteFromSet(recent, First(recent));
        recent := Delete(recent, First(recent));
      }
      recent := Add(recent, hostname);
      assert NoDuplicates(recent) && |recent| <= MAX_RECENT_HOSTS by {
        TouchedIsRecentHistory(before, hostname);
      }

      if hostname in redirect {
        return UpgradeToSecure;
      }
      if hostname in allow || request.url in temporaryAllow {
        temporaryAllow := temporaryAllow - {request.url};
        return Allow;
      }
      response := Cancel(NavigatesToBlockPage(request));
    }
  }
}
