/** The domain-aware checker, given a link to the French service, behaves as
    the French checker: it resolves the same places with the same motives
    and polls them with the same requests and the same date rule. */
module Agreement {
  import opened Text
  import opened Booking
  import opened Cooldown
  import opened Filters
  import opened Polling
  import opened Resolve
  import opened Lists
  import French = FrenchChecker
  import Domain = DomainChecker

  /** A domain-aware place without the service and domain fields. */
  function Forget(info: Domain.SiteInfo): French.SiteInfo {
    French.SiteInfo(info.site, info.name, info.encodedName, info.visitMotives)
  }

  function Forgets(infos: seq<Domain.SiteInfo>): (r: seq<French.SiteInfo>)
    ensures |r| == |infos|
    ensures forall i :: 0 <= i < |infos| ==> r[i] == Forget(infos[i])
  {
    seq(|infos|, i requires 0 <= i < |infos| => Forget(infos[i]))
  }

  /** Polling a French place: the same pass, request for request. */
  lemma SlotsAgree(info: Domain.SiteInfo, today: string, tomorrow: string, table: Table, now: int,
                   fetch: string -> Response)
    requires info.baseUrl == French.Origin && info.domain == Domain.FrenchDomain
    ensures Domain.GetAvailableSlots(info, today, tomorrow, table, now, fetch) ==
            French.GetAvailableSlots(Forget(info), today, tomorrow, table, now, fetch)
  {
  }

  /** A link to a page of the French service, as `urlparse` splits it: the
      page is the service root followed by a path with at least one `/` and
      no `?`, and anything after the page is a query string. */
  predicate FrenchLink(site: string, parse: string -> Domain.ParsedUrl) {
    var u := parse(site);
    var page := French.Origin + u.path;
    && u.scheme == "https" && u.netloc == Domain.FrenchDomain
    && '?' !in u.path && '/' in u.path
    && page <= site && (|site| == |page| || site[|page|] == '?')
  }

  /** On a French link both checkers find the same page, slug and service. */
  lemma FrenchLinkParts(site: string, parse: string -> Domain.ParsedUrl)
    requires FrenchLink(site, parse)
    ensures var u := parse(site);
            && BeforeFirst(site, '?') == French.Origin + u.path
            && AfterLast(BeforeFirst(site, '?'), '/') == AfterLast(u.path, '/')
            && Domain.BaseUrl(u) == French.Origin
  {
    var u := parse(site);
    var page := French.Origin + u.path;
    assert Domain.BaseUrl(u) == French.Origin;
    assert forall i :: 0 <= i < |French.Origin| ==> French.Origin[i] != '?';
    assert '?' !in page;
    assert site == page + site[|page|..];
    BeforeFirstOfPrefix(page, site[|page|..], '?');
    AfterLastOfAppend(French.Origin, u.path, '/');
  }

  /** One French link resolves to the same places under both checkers. */
  lemma SitesOfAgree(site: string, parse: string -> Domain.ParsedUrl, fetchBooking: string -> BookingResponse)
    requires FrenchLink(site, parse)
    ensures Forgets(Domain.SitesOf(site, parse, fetchBooking)) == French.SitesOf(site, fetchBooking)
  {
    var u := parse(site);
    FrenchLinkParts(site, parse);
    var stem := BeforeFirst(site, '?');
    var encodedName := AfterLast(u.path, '/');
    assert French.BookingUrl(encodedName) == Domain.BookingUrl(Domain.BaseUrl(u), encodedName);
    assert Domain.MotiveRuleFor(u.netloc) == FirstDoseMrna;
    var response := fetchBooking(French.BookingUrl(encodedName));
    if response.status == StatusOk {
      var resolved := ResolvePlaces(FirstDoseMrna, response.snapshot);
      var mine := Forgets(Domain.SitesOf(site, parse, fetchBooking));
      var theirs := French.SitesOf(site, fetchBooking);
      assert |mine| == |theirs|;
      forall i | 0 <= i < |mine|
        ensures mine[i] == theirs[i]
      {
        var pid := "?pid=" + NatToString(resolved[i].place.id);
        assert Domain.BaseUrl(u) + u.path + pid == stem + pid;
      }
    }
  }

  lemma ForgetsAppend(xs: seq<Domain.SiteInfo>, ys: seq<Domain.SiteInfo>)
    ensures Forgets(xs + ys) == Forgets(xs) + Forgets(ys)
  {
  }

  /** A list of French links resolves to the same places under both
      checkers, in the same order. */
  lemma {:induction false} SitesAgree(sites: seq<string>, parse: string -> Domain.ParsedUrl,
                                      fetchBooking: string -> BookingResponse)
    requires forall i :: 0 <= i < |sites| ==> FrenchLink(sites[i], parse)
    ensures Forgets(Domain.GetSitesInfo(sites, parse, fetchBooking)) == French.GetSitesInfo(sites, fetchBooking)
    decreases |sites|
  {
    if |sites| > 0 {
      SitesAgree(sites[1..], parse, fetchBooking);
      SitesOfAgree(sites[0], parse, fetchBooking);
      ForgetsAppend(Domain.SitesOf(sites[0], parse, fetchBooking), Domain.GetSitesInfo(sites[1..], parse, fetchBooking));
    }
  }
}
