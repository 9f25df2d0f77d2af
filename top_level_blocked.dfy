/** pages/top-level-blocked.js: the block page. It reads and changes the background page's
    sets in place and sends its own tab on with `locationReplace`. */
module BlockPage {
  import opened Wrappers
  import opened Background

  /** Where `locationReplace` sends the tab: the blocked URL itself, or that URL with its
      protocol set to `https:`. */
  datatype Navigation = Load(url: string) | LoadAsHttps(url: string)

  /** The object given to `browser.storage.local.set`: a host set is present only when the
      handler wrote it. */
  datatype StorageUpdate = StorageUpdate(allow: Option<set<string>>, redirect: Option<set<string>>)

  /** Opening the page: when the host is already in `redirect` or `allow`, the tab goes straight
      to the URL and the buttons are never offered; otherwise nothing happens until a click. */
  method Open(page: BackgroundPage, url: string, hostname: string) returns (navigation: Option<Navigation>)
    ensures navigation.Some? <==> hostname in page.redirect || hostname in page.allow
    ensures navigation.Some? ==> navigation.value == Load(url)
  {
    if hostname in page.redirect || hostname in page.allow {
      return Some(Load(url));
    }
    return None;
  }

  /** The allow button. With "save" checked the host moves into `allow` (leaving `redirect`)
      and the update always carries `allow`, and carries `redirect` only when the host was
      taken out of it; unchecked, only the exact URL is granted, once, through `temporaryAllow`.
      Either way the tab then loads the URL. */
  method AllowClicked(page: BackgroundPage, url: string, hostname: string, save: bool)
      returns (update: Option<StorageUpdate>, navigation: Navigation)
    modifies page`redirect, page`allow, page`temporaryAllow
    ensures navigation == Load(url)
    ensures save ==>
      && page.allow == old(page.allow) + {hostname}
      && page.redirect == old(page.redirect) - {hostname}
      && page.temporaryAllow == old(page.temporaryAllow)
      && update == Some(StorageUpdate(Some(page.allow),
                                      if hostname in old(page.redirect) then Some(page.redirect) else None))
    ensures !save ==>
      && page.allow == old(page.allow) && page.redirect == old(page.redirect)
      && page.temporaryAllow == old(page.temporaryAllow) + {url}
      && update == None
    ensures save ==> hostname in page.allow && hostname !in page.redirect
    ensures old(page.allow !! page.redirect) ==> page.allow !! page.redirect
    ensures forall h :: h != hostname ==>
      (h in page.allow <==> h in old(page.allow)) && (h in page.redirect <==> h in old(page.redirect))
  {
    if save {
      var redirectUpdate := None;
      if hostname in page.redirect {
        page.redirect := page.redirect - {hostname};
        redirectUpdate := Some(page.redirect);
      }
      page.allow := page.allow + {hostname};
      update := Some(StorageUpdate(Some(page.allow), redirectUpdate));
    } else {
      page.temporaryAllow := page.temporaryAllow + {url};
      update := None;
    }
    navigation := Load(url);
  }

  /** The redirect button. With "save" checked the host moves into `redirect` (leaving `allow`)
      and the update always carries `redirect`, and carries `allow` only when the host was
      taken out of it; unchecked, no set changes. Either way the tab loads the URL over https. */
  method RedirectClicked(page: BackgroundPage, url: string, hostname: string, save: bool)
      returns (update: Option<StorageUpdate>, navigation: Navigation)
    modifies page`redirect, page`allow
    ensures navigation == LoadAsHttps(url)
    ensures save ==>
      && page.redirect == old(page.redirect) + {hostname}
      && page.allow == old(page.allow) - {hostname}
      && update == Some(StorageUpdate(if hostname in old(page.allow) then Some(page.allow) else None,
                                      Some(page.redirect)))
    ensures !save ==> page.allow == old(page.allow) && page.redirect == old(page.redirect) && update == None
    ensures save ==> hostname in page.redirect && hostname !in page.allow
    ensures old(page.allow !! page.redirect) ==> page.allow !! page.redirect
    ensures forall h :: h != hostname ==>
      (h in page.allow <==> h in old(page.allow)) && (h in page.redirect <==> h in old(page.redirect))
  {
    update := None;
    if save {
      var allowUpdate := None;
      if hostname in page.allow {
        page.allow := page.allow - {hostname};
        allowUpdate := Some(page.allow);
      }
      page.redirect := page.redirect + {hostname};
      update := Some(StorageUpdate(allowUpdate, Some(page.redirect)));
    }
    navigation := LoadAsHttps(url);
  }

  /** A host allowed and saved on the block page is let through by the listener from then on:
      the blocked request itself, and after it any other request for the same host. */
  method SavedAllowLetsRequestsThrough(page: BackgroundPage, request: Request, later: Request)
      returns (first: BlockingResponse, second: BlockingResponse)
    requires page.Valid()
    requires later.hostname == request.hostname
    modifies page
    ensures page.Valid()
    ensures first == Allow && second == Allow
  {
    var update, navigation := AllowClicked(page, request.url, request.hostname, true);
    first := page.OnBeforeRequest(request);
    second := page.OnBeforeRequest(later);
  }

  /** A URL allowed without saving is let through exactly once; the next identical request is
      cancelled again, as its host is in neither durable set. */
  method TemporaryAllowIsSingleUse(page: BackgroundPage, request: Request)
      returns (first: BlockingResponse, second: BlockingResponse)
    requires page.Valid()
    requires request.hostname !in page.allow && request.hostname !in page.redirect
    modifies page
    ensures page.Valid()
    ensures first == Allow && second == Cancel(BackgroundPage.NavigatesToBlockPage(request))
  {
    var update, navigation := AllowClicked(page, request.url, request.hostname, false);
    first := page.OnBeforeRequest(request);
    second := page.OnBeforeRequest(request);
  }
}
