/** The checker of `main.py`, bound to the French booking service: site
    resolution, the per-site check and its alert, the monitoring summary and
    one monitoring round followed by the pause before the next. */
module FrenchChecker {
  import opened Text
  import opened Booking
  import opened Cooldown
  import opened Filters
  import opened Polling
  import opened Resolve
  import opened Lists

  /** The French service; every request of this checker goes to it. */
  const Origin: string := "https://www.doctolib.fr"

  /** A monitored place: its link (the site page with the place selected),
      its name, the site's slug and the motives to poll. */
  datatype SiteInfo = SiteInfo(site: string, name: string, encodedName: string, visitMotives: seq<MotiveQuery>)

  /** `get_available_slots`: one pass over the site's motives, keeping days
      that are today or tomorrow. */
  function GetAvailableSlots(info: SiteInfo, today: string, tomorrow: string, table: Table, now: int,
                             fetch: string -> Response): Poll
  {
    CollectSlots(UrlsUnder(Origin, today), SameOrNextDay(today, tomorrow), info.visitMotives, table, now, fetch)
  }

  /** Every reported day is today or tomorrow, has slots, and is tagged with
      the name of one of the site's motives whose URL the pass requested. */
  lemma SlotsAreTodayOrTomorrow(info: SiteInfo, today: string, tomorrow: string, table: Table, now: int,
                                fetch: string -> Response)
    ensures var poll := GetAvailableSlots(info, today, tomorrow, table, now, fetch);
            forall e :: e in poll.slots ==>
              (e.date == today || e.date == tomorrow) && e.count > 0 &&
              exists i :: 0 <= i < |info.visitMotives| && e.kind == info.visitMotives[i].name &&
                          UrlsUnder(Origin, today)(info.visitMotives[i]) in poll.issued
  {
    forall e | e in GetAvailableSlots(info, today, tomorrow, table, now, fetch).slots
      ensures (e.date == today || e.date == tomorrow) && e.count > 0
      ensures exists i :: 0 <= i < |info.visitMotives| && e.kind == info.visitMotives[i].name &&
                          UrlsUnder(Origin, today)(info.visitMotives[i]) in
                            GetAvailableSlots(info, today, tomorrow, table, now, fetch).issued
    {
      EntryOrigin(UrlsUnder(Origin, today), SameOrNextDay(today, tomorrow), info.visitMotives, table, now, fetch, e);
    }
  }

  /** Two motives with different ids never share a cooldown key, so the
      cooldown of one never holds back the other. */
  lemma DistinctMotivesDistinctKeys(today: string, m1: MotiveQuery, m2: MotiveQuery)
    requires '&' !in today
    requires '&' !in m1.agendaIds && '&' !in m2.agendaIds
    requires '&' !in m1.practiceIds && '&' !in m2.practiceIds
    requires m1.id != m2.id
    ensures UrlsUnder(Origin, today)(m1) != UrlsUnder(Origin, today)(m2)
  {
    assert forall i :: 0 <= i < |Origin| ==> Origin[i] != '?';
    if AvailabilityUrl(Origin, today, m1) == AvailabilityUrl(Origin, today, m2) {
      UrlKeyInjective(Origin, today, m1, Origin, today, m2);
    }
  }

  /** The first line of an alert: a Markdown link to the place. */
  function Header(info: SiteInfo): string {
    "[" + info.name + "](" + info.site + ") :"
  }

  /** The alert line of one entry. */
  function SlotText(e: SlotEntry): string {
    "- " + e.date + " - " + e.kind + " : " + NatToString(e.count) + " slots"
  }

  /** The message built by `check`: empty when nothing was found, otherwise
      the header followed by one line per entry. */
  function AlertMessage(info: SiteInfo, slots: seq<SlotEntry>): string {
    if |slots| == 0 then "" else Header(info) + "\n" + Lines(SlotTexts(slots))
  }

  /** The alert line of each entry, in order. */
  function SlotTexts(slots: seq<SlotEntry>): (r: seq<string>)
    ensures |r| == |slots|
    ensures forall i :: 0 <= i < |slots| ==> r[i] == SlotText(slots[i])
  {
    seq(|slots|, i requires 0 <= i < |slots| => SlotText(slots[i]))
  }

  /** No newline inside any field that an alert line prints. */
  predicate PrintsOnOneLine(info: SiteInfo, slots: seq<SlotEntry>) {
    '\n' !in info.name && '\n' !in info.site &&
    forall i :: 0 <= i < |slots| ==> '\n' !in slots[i].date && '\n' !in slots[i].kind
  }

  /** Reading the alert back: it is empty exactly when there is nothing to
      report; otherwise its lines are the header and one line per entry, in
      order, the whole ending with a newline. */
  lemma AlertReadsBack(info: SiteInfo, slots: seq<SlotEntry>)
    requires PrintsOnOneLine(info, slots)
    ensures AlertMessage(info, slots) == "" <==> |slots| == 0
    ensures |slots| > 0 ==> Split(AlertMessage(info, slots), '\n') == [Header(info)] + SlotTexts(slots) + [""]
  {
    if |slots| > 0 {
      var texts := [Header(info)] + SlotTexts(slots);
      forall i | 0 <= i < |texts|
        ensures '\n' !in texts[i]
      {
        if i > 0 {
          var e := slots[i - 1];
          assert '\n' !in NatToString(e.count);
          assert SlotText(e) == "- " + e.date + " - " + e.kind + " : " + NatToString(e.count) + " slots";
        }
      }
      assert texts[1..] == SlotTexts(slots);
      SplitLines(texts);
    }
  }

  /** Whether the alert went out: not at all, or sent with the sink's verdict. */
  datatype Delivery = Silent | Sent(delivered: bool)

  /** What `check` did for one site. */
  datatype CheckResult = CheckResult(poll: Poll, message: string, delivery: Delivery)

  /** `check`: poll the site, build the alert, and hand a non-empty alert to
      the message sink. A failed delivery is only logged, never retried. */
  function Check(info: SiteInfo, today: string, tomorrow: string, table: Table, now: int,
                 fetch: string -> Response, send: string -> bool): CheckResult
  {
    var poll := GetAvailableSlots(info, today, tomorrow, table, now, fetch);
    var message := AlertMessage(info, poll.slots);
    CheckResult(poll, message, if message == "" then Silent else Sent(send(message)))
  }

  /** An alert goes out exactly when the pass found something, carries the
      alert for those entries, and reports what the sink answered. */
  lemma CheckAlertsIffFound(info: SiteInfo, today: string, tomorrow: string, table: Table, now: int,
                            fetch: string -> Response, send: string -> bool)
    ensures var r := Check(info, today, tomorrow, table, now, fetch, send);
            && (r.delivery.Sent? <==> |r.poll.slots| > 0)
            && (r.delivery.Sent? ==> r.delivery.delivered == send(r.message))
            && r.message == AlertMessage(info, r.poll.slots)
  {
    var r := Check(info, today, tomorrow, table, now, fetch, send);
    if |r.poll.slots| > 0 {
      assert Header(info)[0] == '[';
    }
  }

  /** A check while every motive is cooling down does nothing at all. */
  lemma QuietCheck(info: SiteInfo, today: string, tomorrow: string, table: Table, now: int,
                   fetch: string -> Response, send: string -> bool)
    requires forall i :: 0 <= i < |info.visitMotives| ==> !MayQuery(table, UrlsUnder(Origin, today)(info.visitMotives[i]), now)
    ensures Check(info, today, tomorrow, table, now, fetch, send) == CheckResult(Poll([], table, []), "", Silent)
  {
    AllCoolingIsQuiet(UrlsUnder(Origin, today), SameOrNextDay(today, tomorrow), info.visitMotives, table, now, fetch);
  }

  /** The names of the motives, in order. */
  function MotiveNames(motives: seq<MotiveQuery>): (r: seq<string>)
    ensures |r| == |motives|
    ensures forall i :: 0 <= i < |motives| ==> r[i] == motives[i].name
  {
    seq(|motives|, i requires 0 <= i < |motives| => motives[i].name)
  }

  /** The summary line of one site: its link and its motives' names. */
  function SummaryText(info: SiteInfo): string {
    "- [" + info.name + "](" + info.site + ") => " + Join(MotiveNames(info.visitMotives), ", ")
  }

  /** The message `monitor` sends once before polling starts. */
  function MonitoringSummary(sites: seq<SiteInfo>): string {
    "Monitoring :\n" + Lines(SummaryTexts(sites))
  }

  /** The summary line of each site, in order. */
  function SummaryTexts(sites: seq<SiteInfo>): (r: seq<string>)
    ensures |r| == |sites|
    ensures forall i :: 0 <= i < |sites| ==> r[i] == SummaryText(sites[i])
  {
    seq(|sites|, i requires 0 <= i < |sites| => SummaryText(sites[i]))
  }

  /** No newline inside any field that the summary prints. */
  predicate SummaryOnOneLine(info: SiteInfo) {
    '\n' !in info.name && '\n' !in info.site &&
    forall i :: 0 <= i < |info.visitMotives| ==> '\n' !in info.visitMotives[i].name
  }

  lemma SummaryTextOneLine(info: SiteInfo)
    requires SummaryOnOneLine(info)
    ensures '\n' !in SummaryText(info)
  {
    JoinFree(MotiveNames(info.visitMotives), ", ", '\n');
  }

  /** Reading the summary back: a title line, then exactly one line per site
      in order, each opening with that site's link. */
  lemma SummaryReadsBack(sites: seq<SiteInfo>)
    requires forall i :: 0 <= i < |sites| ==> SummaryOnOneLine(sites[i])
    ensures Split(MonitoringSummary(sites), '\n') == ["Monitoring :"] + SummaryTexts(sites) + [""]
    ensures forall i :: 0 <= i < |sites| ==> "- [" + sites[i].name + "](" + sites[i].site + ") => " <= SummaryTexts(sites)[i]
  {
    var texts := ["Monitoring :"] + SummaryTexts(sites);
    forall i | 0 <= i < |texts|
      ensures '\n' !in texts[i]
    {
      if i > 0 {
        SummaryTextOneLine(sites[i - 1]);
      }
    }
    assert texts[1..] == SummaryTexts(sites);
    assert MonitoringSummary(sites) == Lines(texts);
    SplitLines(texts);
  }

  /** What one round of `monitor` did: the checks in site order and the
      cooldown table they left behind. */
  datatype Round = Round(results: seq<CheckResult>, table: Table)

  /** One round of checks, run one site after the other on the shared
      table; all use the same clock reading. */
  function CheckRound(sites: seq<SiteInfo>, today: string, tomorrow: string, table: Table, now: int,
                      fetch: string -> Response, send: string -> bool): Round
    decreases |sites|
  {
    if |sites| == 0 then Round([], table)
    else
      var r := CheckRound(sites[..|sites| - 1], today, tomorrow, table, now, fetch, send);
      var c := Check(sites[|sites| - 1], today, tomorrow, r.table, now, fetch, send);
      Round(r.results + [c], c.poll.table)
  }

  /** One more check keeps the round's account of the table's keys. */
  lemma RoundTableStep(table: Table, results: seq<CheckResult>, before: Table, c: CheckResult)
    requires forall k :: k in before <==> k in table || exists i :: 0 <= i < |results| && k in results[i].poll.issued
    requires forall k :: k in c.poll.table <==> k in before || k in c.poll.issued
    ensures var all := results + [c];
            forall k :: k in c.poll.table <==> k in table || exists i :: 0 <= i < |all| && k in all[i].poll.issued
  {
    var all := results + [c];
    assert forall i :: 0 <= i < |results| ==> all[i] == results[i];
    assert all[|results|] == c;
  }

  /** A round checks every site once, and a URL has a cooldown entry after
      the round exactly when it had one before or some check requested it. */
  lemma {:induction false} RoundTable(sites: seq<SiteInfo>, today: string, tomorrow: string, table: Table, now: int,
                                      fetch: string -> Response, send: string -> bool)
    ensures var r := CheckRound(sites, today, tomorrow, table, now, fetch, send);
            && |r.results| == |sites|
            && forall k :: k in r.table <==> k in table || exists i :: 0 <= i < |sites| && k in r.results[i].poll.issued
    decreases |sites|
  {
    if |sites| > 0 {
      var n := |sites| - 1;
      RoundTable(sites[..n], today, tomorrow, table, now, fetch, send);
      var r := CheckRound(sites[..n], today, tomorrow, table, now, fetch, send);
      var info := sites[n];
      CollectSlotsTable(UrlsUnder(Origin, today), SameOrNextDay(today, tomorrow), info.visitMotives, r.table, now, fetch);
      var c := Check(info, today, tomorrow, r.table, now, fetch, send);
      assert forall k :: k in c.poll.table <==> k in r.table || k in c.poll.issued;
      RoundTableStep(table, r.results, r.table, c);
    }
  }

  /** A round, then the pause before the next one, computed from the table
      as it stands and a clock reading `later` taken after the round. */
  method MonitorRound(sites: seq<SiteInfo>, today: string, tomorrow: string, table: Table, now: int, later: int,
                      fetch: string -> Response, send: string -> bool) returns (round: Round, w: Wait)
    ensures round == CheckRound(sites, today, tomorrow, table, now, fetch, send)
    ensures |round.results| == |sites|
    ensures w == EmptyTable <==>
              table == map[] && forall i, u :: 0 <= i < |sites| ==> u !in round.results[i].poll.issued
    ensures w.Sleep? ==> 0 < w.seconds < SecondsPerDay
  {
    round := CheckRound(sites, today, tomorrow, table, now, fetch, send);
    RoundTable(sites, today, tomorrow, table, now, fetch, send);
    w := RoundWait(round.table, later);
    if round.table != map[] {
      var k :| k in round.table;
    }
    if table != map[] {
      var k :| k in table;
      assert k in round.table;
    }
    if round.table == map[] {
      forall i, u | 0 <= i < |sites|
        ensures u !in round.results[i].poll.issued
      {
        assert u in round.results[i].poll.issued ==> u in round.table;
      }
    }
  }

  /** The booking request for a site's slug. */
  function BookingUrl(encodedName: string): string {
    Origin + "/booking/" + encodedName + ".json"
  }

  /** The monitored places of one site link, one per place of the booking
      answer, or none when the booking request fails. The link loses its
      query string and gains the place's id; the slug is its last path
      segment. */
  function SitesOf(site: string, fetchBooking: string -> BookingResponse): seq<SiteInfo> {
    var stem := BeforeFirst(site, '?');
    var encodedName := AfterLast(stem, '/');
    var response := fetchBooking(BookingUrl(encodedName));
    if response.status != StatusOk then []
    else
      var resolved := ResolvePlaces(FirstDoseMrna, response.snapshot);
      seq(|resolved|, i requires 0 <= i < |resolved| =>
        SiteInfo(stem + "?pid=" + NatToString(resolved[i].place.id), resolved[i].place.name,
                 encodedName, resolved[i].motives))
  }

  /** `get_sites_info`: the places of every link, in link order. */
  function GetSitesInfo(sites: seq<string>, fetchBooking: string -> BookingResponse): seq<SiteInfo> {
    FlatMap(site => SitesOf(site, fetchBooking), sites)
  }

  /** Links are resolved independently: resolving a concatenation of link
      lists concatenates the results. */
  lemma GetSitesInfoAppend(xs: seq<string>, ys: seq<string>, fetchBooking: string -> BookingResponse)
    ensures GetSitesInfo(xs + ys, fetchBooking) == GetSitesInfo(xs, fetchBooking) + GetSitesInfo(ys, fetchBooking)
  {
    FlatMapAppend(site => SitesOf(site, fetchBooking), xs, ys);
  }

  /** What a resolved place says: its link reads back to the site page and
      the place id, its slug is the page's last path segment, and it polls
      exactly the first-dose mRNA motives of the snapshot that some agenda
      serves at the place, each listing exactly those agendas and their
      practices. The list is the place's `PlaceMotives`, so it follows the
      snapshot's motive order with one record per motive
      (`Resolve.PlaceMotivesAppend`, `Resolve.PlaceMotivesOne`). */
  predicate DescribesPlace(info: SiteInfo, site: string, place: Place, snapshot: Snapshot) {
    var stem := BeforeFirst(site, '?');
    && BeforeFirst(info.site, '?') == stem
    && info.site == stem + "?pid=" + NatToString(place.id)
    && info.name == place.name
    && info.encodedName == AfterLast(stem, '/') && '/' !in info.encodedName
    && info.visitMotives == PlaceMotives(FirstDoseMrna, snapshot.visitMotives, place.practiceIds, snapshot.agendas)
    && (forall q :: q in info.visitMotives ==>
          IsFirstDoseMrna(q.name) && VisitMotive(q.id, q.name) in snapshot.visitMotives &&
          AgendaWireMatches(q.agendaIds, q.id, place.practiceIds, snapshot.agendas) &&
          PracticeWireMatches(q.practiceIds, q.id, place.practiceIds, snapshot.agendas))
    && forall m :: m in snapshot.visitMotives && IsFirstDoseMrna(m.name) && ServedAt(m.id, place.practiceIds, snapshot.agendas) ==>
         exists q :: q in info.visitMotives && q.id == m.id && q.name == m.name
  }

  /** The monitored place built from one snapshot place describes it. */
  lemma PlaceInfoDescribes(site: string, place: Place, snapshot: Snapshot)
    ensures var stem := BeforeFirst(site, '?');
            var info := SiteInfo(stem + "?pid=" + NatToString(place.id), place.name, AfterLast(stem, '/'),
                                 PlaceMotives(FirstDoseMrna, snapshot.visitMotives, place.practiceIds, snapshot.agendas));
            DescribesPlace(info, site, place, snapshot)
  {
    var stem := BeforeFirst(site, '?');
    var motives := PlaceMotives(FirstDoseMrna, snapshot.visitMotives, place.practiceIds, snapshot.agendas);
    var tail := "pid=" + NatToString(place.id);
    assert stem + "?pid=" + NatToString(place.id) == stem + ['?'] + tail;
    SplitAfterPiece(stem, '?', tail);
    ServedMotivesArePolled(FirstDoseMrna, snapshot.visitMotives, place.practiceIds, snapshot.agendas);
    forall q | q in motives
      ensures IsFirstDoseMrna(q.name) && VisitMotive(q.id, q.name) in snapshot.visitMotives
      ensures AgendaWireMatches(q.agendaIds, q.id, place.practiceIds, snapshot.agendas)
      ensures PracticeWireMatches(q.practiceIds, q.id, place.practiceIds, snapshot.agendas)
    {
      QueryWireMatches(FirstDoseMrna, snapshot.visitMotives, place.practiceIds, snapshot.agendas, q);
    }
  }

  /** A link yields one monitored place per place of a successful booking
      answer, in order, each described faithfully, and none otherwise. */
  lemma SitesOfDescribesPlaces(site: string, fetchBooking: string -> BookingResponse)
    ensures var response := fetchBooking(BookingUrl(AfterLast(BeforeFirst(site, '?'), '/')));
            var infos := SitesOf(site, fetchBooking);
            && (response.status != StatusOk ==> infos == [])
            && (response.status == StatusOk ==>
                  |infos| == |response.snapshot.places| &&
                  forall i :: 0 <= i < |infos| ==>
                    DescribesPlace(infos[i], site, response.snapshot.places[i], response.snapshot))
  {
    var stem := BeforeFirst(site, '?');
    var response := fetchBooking(BookingUrl(AfterLast(stem, '/')));
    if response.status == StatusOk {
      var snapshot := response.snapshot;
      var infos := SitesOf(site, fetchBooking);
      forall i | 0 <= i < |infos|
        ensures DescribesPlace(infos[i], site, snapshot.places[i], snapshot)
      {
        PlaceInfoDescribes(site, snapshot.places[i], snapshot);
      }
    }
  }
}
