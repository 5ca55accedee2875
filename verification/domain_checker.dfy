/** The domain-aware checker of `doctolib.py`: the same resolution and
    polling as the French checker, with the service host and both filters
    taken from each site link's domain. */
module DomainChecker {
  import opened Text
  import opened Booking
  import opened Cooldown
  import opened Filters
  import opened Polling
  import opened Resolve
  import opened Lists

  const FrenchDomain: string := "www.doctolib.fr"
  const GermanDomain: string := "www.doctolib.de"

  /** `_is_valid_availability` as the rule each domain selects. On any other
      domain the source falls off the end and returns `None`, which the
      filter treats as false. */
  function AvailabilityRuleFor(domain: string, today: string, tomorrow: string): AvailabilityRule {
    if domain == FrenchDomain then SameOrNextDay(today, tomorrow)
    else if domain == GermanDomain then AnyDate
    else NoAvailability
  }

  predicate IsValidAvailability(domain: string, today: string, tomorrow: string, a: Availability) {
    Keeps(AvailabilityRuleFor(domain, today, tomorrow), a)
  }

  /** The French domain keeps today's and tomorrow's days with slots, the
      German domain every day with slots, any other domain nothing. */
  lemma ValidAvailabilityByDomain(domain: string, today: string, tomorrow: string, a: Availability)
    ensures domain == FrenchDomain ==>
              (IsValidAvailability(domain, today, tomorrow, a) <==> (a.date == today || a.date == tomorrow) && |a.slots| > 0)
    ensures domain == GermanDomain ==> (IsValidAvailability(domain, today, tomorrow, a) <==> |a.slots| > 0)
    ensures domain != FrenchDomain && domain != GermanDomain ==> !IsValidAvailability(domain, today, tomorrow, a)
  {
    assert FrenchDomain[13] != GermanDomain[13];
  }

  /** `_is_valid_visit_motive` as the rule each domain selects, with the same
      fall-through to `None` on other domains. */
  function MotiveRuleFor(domain: string): MotiveRule {
    if domain == FrenchDomain then FirstDoseMrna
    else if domain == GermanDomain then AnyMotive
    else NoMotive
  }

  predicate IsValidVisitMotive(domain: string, m: VisitMotive) {
    Admits(MotiveRuleFor(domain), m)
  }

  /** The French domain admits first-dose Pfizer or Moderna motives, the
      German domain every motive, any other domain none. */
  lemma ValidMotiveByDomain(domain: string, m: VisitMotive)
    ensures domain == FrenchDomain ==> (IsValidVisitMotive(domain, m) <==> IsFirstDoseMrna(m.name))
    ensures domain == GermanDomain ==> IsValidVisitMotive(domain, m)
    ensures domain != FrenchDomain && domain != GermanDomain ==> !IsValidVisitMotive(domain, m)
  {
    assert FrenchDomain[13] != GermanDomain[13];
  }

  /** A monitored place: as in the French checker, plus the service's base
      URL and domain taken from the site link. */
  datatype SiteInfo = SiteInfo(site: string, baseUrl: string, domain: string, name: string,
                               encodedName: string, visitMotives: seq<MotiveQuery>)

  /** `get_available_slots`: one pass over the site's motives against the
      site's own service, keeping the days the domain's rule keeps. */
  function GetAvailableSlots(info: SiteInfo, today: string, tomorrow: string, table: Table, now: int,
                             fetch: string -> Response): Poll
  {
    CollectSlots(UrlsUnder(info.baseUrl, today), AvailabilityRuleFor(info.domain, today, tomorrow),
                 info.visitMotives, table, now, fetch)
  }

  /** A site on an unknown domain never reports anything, whatever it asks. */
  lemma UnknownDomainReportsNothing(info: SiteInfo, today: string, tomorrow: string, table: Table, now: int,
                                    fetch: string -> Response)
    requires info.domain != FrenchDomain && info.domain != GermanDomain
    ensures GetAvailableSlots(info, today, tomorrow, table, now, fetch).slots == []
  {
    NothingKeptFindsNothing(UrlsUnder(info.baseUrl, today), NoAvailability, info.visitMotives, table, now, fetch);
  }

  /** On the German service every day with slots in the answer for an allowed
      motive is reported, whatever its date, unless an earlier motive of the
      pass already used the same URL. */
  lemma GermanReportsEveryOpenDay(info: SiteInfo, today: string, tomorrow: string, table: Table, now: int,
                                  fetch: string -> Response, i: nat, a: Availability)
    requires info.domain == GermanDomain
    requires i < |info.visitMotives|
    requires MayQuery(table, UrlsUnder(info.baseUrl, today)(info.visitMotives[i]), now)
    requires forall j :: 0 <= j < i ==>
               UrlsUnder(info.baseUrl, today)(info.visitMotives[j]) != UrlsUnder(info.baseUrl, today)(info.visitMotives[i])
    requires fetch(UrlsUnder(info.baseUrl, today)(info.visitMotives[i])).status == StatusOk
    requires a in fetch(UrlsUnder(info.baseUrl, today)(info.visitMotives[i])).availabilities && |a.slots| > 0
    ensures Entry(a, info.visitMotives[i].name) in GetAvailableSlots(info, today, tomorrow, table, now, fetch).slots
  {
    KeptAreReported(UrlsUnder(info.baseUrl, today), AnyDate, info.visitMotives, table, now, fetch, i, a);
  }

  /** The parts of a site link that the checker reads (`urlparse`). */
  datatype ParsedUrl = ParsedUrl(scheme: string, netloc: string, path: string)

  /** The service root of a parsed link: scheme and host. */
  function BaseUrl(u: ParsedUrl): string {
    u.scheme + "://" + u.netloc
  }

  function BookingUrl(baseUrl: string, encodedName: string): string {
    baseUrl + "/booking/" + encodedName + ".json"
  }

  /** The monitored places of one site link, resolved against the link's own
      service with the link's domain's motive rule, or none when the booking
      request fails. `parse` stands for `urlparse`. */
  function SitesOf(site: string, parse: string -> ParsedUrl, fetchBooking: string -> BookingResponse): seq<SiteInfo> {
    var u := parse(site);
    var baseUrl := BaseUrl(u);
    var encodedName := AfterLast(u.path, '/');
    var response := fetchBooking(BookingUrl(baseUrl, encodedName));
    if response.status != StatusOk then []
    else
      var resolved := ResolvePlaces(MotiveRuleFor(u.netloc), response.snapshot);
      seq(|resolved|, i requires 0 <= i < |resolved| =>
        SiteInfo(baseUrl + u.path + "?pid=" + NatToString(resolved[i].place.id), baseUrl, u.netloc,
                 resolved[i].place.name, encodedName, resolved[i].motives))
  }

  /** `get_sites_info`: the places of every link, in link order. */
  function GetSitesInfo(sites: seq<string>, parse: string -> ParsedUrl,
                        fetchBooking: string -> BookingResponse): seq<SiteInfo>
  {
    FlatMap(site => SitesOf(site, parse, fetchBooking), sites)
  }

  /** A site on an unknown domain resolves to its places with nothing to
      poll, and the places keep the link's service and domain. */
  lemma UnknownDomainPollsNothing(site: string, parse: string -> ParsedUrl, fetchBooking: string -> BookingResponse)
    requires parse(site).netloc != FrenchDomain && parse(site).netloc != GermanDomain
    ensures forall info :: info in SitesOf(site, parse, fetchBooking) ==>
              info.visitMotives == [] && info.domain == parse(site).netloc && info.baseUrl == BaseUrl(parse(site))
  {
    var u := parse(site);
    var response := fetchBooking(BookingUrl(BaseUrl(u), AfterLast(u.path, '/')));
    if response.status == StatusOk {
      var snapshot := response.snapshot;
      forall p | p in snapshot.places
        ensures PlaceMotives(NoMotive, snapshot.visitMotives, p.practiceIds, snapshot.agendas) == []
      {
        NothingAdmitted(snapshot.visitMotives, p.practiceIds, snapshot.agendas);
      }
      var infos := SitesOf(site, parse, fetchBooking);
      forall info | info in infos
        ensures info.visitMotives == []
      {
        var i :| 0 <= i < |infos| && infos[i] == info;
        assert snapshot.places[i] in snapshot.places;
      }
    }
  }

  /** Links are resolved independently: resolving a concatenation of link
      lists concatenates the results. */
  lemma GetSitesInfoAppend(xs: seq<string>, ys: seq<string>, parse: string -> ParsedUrl,
                           fetchBooking: string -> BookingResponse)
    ensures GetSitesInfo(xs + ys, parse, fetchBooking) ==
            GetSitesInfo(xs, parse, fetchBooking) + GetSitesInfo(ys, parse, fetchBooking)
  {
    FlatMapAppend(site => SitesOf(site, parse, fetchBooking), xs, ys);
  }

  /** What a resolved place says about the link and snapshot it came from:
      it carries the link's service, domain and slug, its link reads back to
      the page and the place id, and it polls exactly the snapshot motives the
      domain admits and some agenda serves at the place, each listing exactly
      those agendas and their practices. The list is the place's
      `PlaceMotives` under the domain's rule, so it follows the snapshot's
      motive order with one record per motive (`Resolve.PlaceMotivesAppend`,
      `Resolve.PlaceMotivesOne`). */
  predicate DescribesPlace(info: SiteInfo, site: string, parse: string -> ParsedUrl, place: Place, snapshot: Snapshot) {
    var u := parse(site);
    && info.baseUrl == BaseUrl(u) && info.domain == u.netloc
    && info.encodedName == AfterLast(u.path, '/') && '/' !in info.encodedName
    && info.site == BaseUrl(u) + u.path + "?pid=" + NatToString(place.id)
    && info.name == place.name
    && info.visitMotives == PlaceMotives(MotiveRuleFor(u.netloc), snapshot.visitMotives, place.practiceIds, snapshot.agendas)
    && (forall q :: q in info.visitMotives ==>
          IsValidVisitMotive(u.netloc, VisitMotive(q.id, q.name)) && VisitMotive(q.id, q.name) in snapshot.visitMotives &&
          AgendaWireMatches(q.agendaIds, q.id, place.practiceIds, snapshot.agendas) &&
          PracticeWireMatches(q.practiceIds, q.id, place.practiceIds, snapshot.agendas))
    && forall m :: m in snapshot.visitMotives && IsValidVisitMotive(u.netloc, m) &&
                   ServedAt(m.id, place.practiceIds, snapshot.agendas) ==>
         exists q :: q in info.visitMotives && q.id == m.id && q.name == m.name
  }

  /** The place built from one snapshot place of a link describes it. */
  lemma PlaceInfoDescribes(site: string, parse: string -> ParsedUrl, place: Place, snapshot: Snapshot)
    ensures var u := parse(site);
            var info := SiteInfo(BaseUrl(u) + u.path + "?pid=" + NatToString(place.id), BaseUrl(u), u.netloc,
                                 place.name, AfterLast(u.path, '/'),
                                 PlaceMotives(MotiveRuleFor(u.netloc), snapshot.visitMotives, place.practiceIds, snapshot.agendas));
            DescribesPlace(info, site, parse, place, snapshot)
  {
    var u := parse(site);
    var rule := MotiveRuleFor(u.netloc);
    var motives := PlaceMotives(rule, snapshot.visitMotives, place.practiceIds, snapshot.agendas);
    ServedMotivesArePolled(rule, snapshot.visitMotives, place.practiceIds, snapshot.agendas);
    forall q | q in motives
      ensures IsValidVisitMotive(u.netloc, VisitMotive(q.id, q.name)) && VisitMotive(q.id, q.name) in snapshot.visitMotives
      ensures AgendaWireMatches(q.agendaIds, q.id, place.practiceIds, snapshot.agendas)
      ensures PracticeWireMatches(q.practiceIds, q.id, place.practiceIds, snapshot.agendas)
    {
      QueryWireMatches(rule, snapshot.visitMotives, place.practiceIds, snapshot.agendas, q);
    }
    assert forall m :: m in snapshot.visitMotives && IsValidVisitMotive(u.netloc, m) &&
                       ServedAt(m.id, place.practiceIds, snapshot.agendas) ==>
             exists q :: q in motives && q.id == m.id && q.name == m.name;
  }

  /** A link yields one monitored place per place of a successful booking
      answer, in order, each described faithfully, and none otherwise. */
  lemma SitesOfDescribe(site: string, parse: string -> ParsedUrl, fetchBooking: string -> BookingResponse)
    ensures var u := parse(site);
            var response := fetchBooking(BookingUrl(BaseUrl(u), AfterLast(u.path, '/')));
            var infos := SitesOf(site, parse, fetchBooking);
            && (response.status != StatusOk ==> infos == [])
            && (response.status == StatusOk ==>
                  |infos| == |response.snapshot.places| &&
                  forall i :: 0 <= i < |infos| ==>
                    DescribesPlace(infos[i], site, parse, response.snapshot.places[i], response.snapshot))
  {
    var u := parse(site);
    var response := fetchBooking(BookingUrl(BaseUrl(u), AfterLast(u.path, '/')));
    if response.status == StatusOk {
      var snapshot := response.snapshot;
      var infos := SitesOf(site, parse, fetchBooking);
      forall i | 0 <= i < |infos|
        ensures DescribesPlace(infos[i], site, parse, snapshot.places[i], snapshot)
      {
        PlaceInfoDescribes(site, parse, snapshot.places[i], snapshot);
      }
    }
  }

  /** A resolved place of a link: the booking request succeeded and the
      place describes one place of the answer. */
  predicate DescribesPlaceOf(info: SiteInfo, site: string, parse: string -> ParsedUrl,
                             fetchBooking: string -> BookingResponse)
  {
    var u := parse(site);
    var response := fetchBooking(BookingUrl(BaseUrl(u), AfterLast(u.path, '/')));
    && response.status == StatusOk
    && exists place :: place in response.snapshot.places && DescribesPlace(info, site, parse, place, response.snapshot)
  }

  /** Every resolved place of every link comes from one of the links and
      describes a place of that link's booking answer. */
  lemma SitesDescribePlaces(sites: seq<string>, parse: string -> ParsedUrl, fetchBooking: string -> BookingResponse)
    ensures forall info :: info in GetSitesInfo(sites, parse, fetchBooking) ==>
              exists k :: 0 <= k < |sites| && DescribesPlaceOf(info, sites[k], parse, fetchBooking)
  {
    var f := site => SitesOf(site, parse, fetchBooking);
    FlatMapMembers(f, sites);
    forall info | info in GetSitesInfo(sites, parse, fetchBooking)
      ensures exists k :: 0 <= k < |sites| && DescribesPlaceOf(info, sites[k], parse, fetchBooking)
    {
      var k :| 0 <= k < |sites| && info in f(sites[k]);
      var infos := SitesOf(sites[k], parse, fetchBooking);
      SitesOfDescribe(sites[k], parse, fetchBooking);
      var i :| 0 <= i < |infos| && infos[i] == info;
      var u := parse(sites[k]);
      var snapshot := fetchBooking(BookingUrl(BaseUrl(u), AfterLast(u.path, '/'))).snapshot;
      assert snapshot.places[i] in snapshot.places;
    }
  }
}
