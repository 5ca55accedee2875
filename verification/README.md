# DoctolibChecker, modelled in Dafny

DoctolibChecker watches vaccination centres on the Doctolib booking service
and sends a Telegram alert when an appointment slot opens. Its user passes it
one or more booking-page links. For each link it downloads the booking
snapshot: the places, the visit motives and the agendas. It then keeps, per
place, the motives worth polling, each with the ids of the agendas that serve
it at the place and of their practices.

After announcing what it monitors, the checker runs rounds forever. In each
round it polls every motive's availability URL, unless that URL was requested
less than sixty seconds ago. It collects the days that have slots and that
the filter keeps, and sends one alert per place that found any. Between
rounds it sleeps until the earliest cooldown expires.

There are two variants of the checker:

- `main.py` talks to the French service only. It keeps days that are today
  or tomorrow, and motives whose name marks a first dose of Pfizer or
  Moderna.
- `doctolib.py` takes the service and both filters from each link's domain:
  - the French domain gets the French rules;
  - the German domain keeps every day with slots and every motive;
  - any other domain keeps nothing.

The Dafny model is organised as follows:

| module | file | contents |
|---|---|---|
| `Text` | `text.dfy` | the string operations relied on (`split`, `join`, `lower`, `in`, `str`) and their round trips |
| `Booking` | `booking.dfy` | the records exchanged with the service |
| `Cooldown` | `cooldown.dfy` | the table `url_next_call`, the sixty-second cooldown, and the pause between rounds |
| `Filters` | `filters.dfy` | the availability filter and the motive filter, as rules |
| `Polling` | `polling.dfy` | the availability URL, and one pass over a place's motives (`get_available_slots`), generic over the URL builder and the day rule |
| `Resolve` | `resolve.dfy` | from a booking snapshot to the motives polled at each place |
| `FrenchChecker` | `french_checker.dfy` | `main.py`: slots, alert, check, monitoring summary, one round and its pause, site resolution |
| `DomainChecker` | `domain_checker.dfy` | `doctolib.py`: the domain-selected filters, slots and site resolution |
| `Agreement` | `agreement.dfy` | on French links, the two variants resolve and poll identically |
| `Lists` | `lists.dfy` | `FlatMap` and its laws |

The model uses these conventions:

- The network, the JSON decoding, `urlparse` and Telegram are function
  parameters:
  - `fetch` answers availability requests;
  - `fetchBooking` answers booking requests;
  - `parse` stands for `urlparse`;
  - `send` stands for the message sink.
- Clock readings are integer microseconds. The dates `today` and `tomorrow`
  are parameters.
- The table is threaded through the calls rather than held in a global.

## Model

| member | source | states |
|---|---|---|
| Text.BeforeFirst | main.py:91 | `site.split("?")[0]` is a prefix of the link without `?`; it is the whole link when there is no `?`, and otherwise it stops right at the first `?` |
| Text.AfterLast | main.py:92 | `split("/")[-1]` is a suffix without `/`; it is the whole string when there is no `/`, and otherwise it starts right after the last `/` |
| Text.SplitJoin | main.py:110-111 | joining separator-free pieces and splitting them again gives the pieces back |
| Text.JoinSplit | main.py:91-92 | splitting a string and joining the pieces gives the string back |
| Text.SplitLines | main.py:56-58 | a text built from newline-free lines, each ending in `\n`, splits into those lines plus a trailing empty piece |
| Text.SplitAfterPiece | main.py:91 | splitting after a separator-free prefix peels that prefix off as the first piece |
| Text.AfterLastOfAppend | doctolib.py:70 | the last segment of `x + y` is that of `y` whenever `y` contains the separator |
| Text.LowerIdempotent | main.py:103 | lower-casing twice is lower-casing once, and leaves no upper-case ASCII letter |
| Text.ParseNatToString | main.py:110 | the decimal form of an id reads back as the id |
| Text.NatToStringInjective | doctolib.py:32 | different ids render differently |
| Cooldown.Record | main.py:40 | after a request the URL's entry is the request time plus sixty seconds; the other entries are unchanged and no other key appears |
| Cooldown.CooldownWindow | main.py:32-33 | after a request at `t1` the URL is refused exactly before `t1` plus sixty seconds, and the other URLs are as allowed as before |
| Cooldown.WaitSeconds | main.py:82 | `timedelta.seconds` of a positive gap is below one day; under a day it is the whole seconds of the gap; it is zero exactly when the gap modulo a day is under one second |
| Cooldown.LowestKey | main.py:79 | the key returned holds a smallest entry of a non-empty table |
| Cooldown.RoundWait | main.py:79-85 | the pause is `EmptyTable` exactly for an empty table (where `min()` raises); otherwise it sleeps a positive number of seconds computed from a smallest entry when that entry lies ahead, and does not sleep otherwise |
| Filters.KeepsNeedsSlots | main.py:43 | no rule keeps a day without slots, and the French rule keeps only what the German rule keeps |
| Filters.MotiveTestIgnoresCase | main.py:103-104 | the motive test gives the same verdict on a name and on its lower-cased form |
| Filters.FirstDosePfizerAdmitted | main.py:103-104 | "1re injection Pfizer" is admitted |
| Filters.SecondDoseRefused | main.py:103-104 | "2e injection Pfizer" is refused |
| Filters.OtherBrandRefused | main.py:103-104 | "1re injection AstraZeneca" is refused |
| Filters.SameOrNextDayExamples | main.py:43 | under the French rule, today with slots is kept, while today without slots and any other date are not; the German rule keeps another date with slots |
| Polling.UrlParts | doctolib.py:32 | the availability URL is the base, then `/availabilities.json?`, then the seven query parameters joined with `&` |
| Polling.ParamsDecode | doctolib.py:32 | the query string splits back into its seven parameters |
| Polling.UrlKeyInjective | doctolib.py:32-35 | equal availability URLs come from the same base, day, motive id, agenda list and practice list |
| Polling.Extract | main.py:43-45 | the entries are no more than the records, and each is tagged with the motive's name and has a positive count |
| Polling.ExtractMembers | main.py:43-45 | an entry is produced exactly for a record the rule keeps, with that record's date and slot count |
| Polling.ExtractAppend | main.py:43-45 | records are filtered one by one, so the entries keep the answer's order |
| Polling.ExtractNone | main.py:43-44 | an answer none of whose records is kept yields no entry |
| Polling.AvailabilityUrl | main.py:29 | defines the availability URL: the base, `/availabilities.json?`, then the seven parameters joined with `&`; `Polling.UrlParts`, `Polling.ParamsDecode` and `Polling.UrlKeyInjective` state how it reads back |
| Polling.PollMotive | main.py:32-48 | defines one iteration of the loop over motives: skip a cooling URL, otherwise request it, record its cooldown whatever the status, and extract entries from a status-200 answer; `Polling.MotiveOutcome` states its contract |
| Polling.MotiveOutcome | main.py:32-48 | a motive is requested exactly when its URL is allowed, and then at that URL only; its URL is cooling down afterwards either way; it yields entries only from a status-200 answer |
| Polling.CollectSlots | main.py:21-49 | defines the pass over a site's motives in order, threading the table and appending each motive's entries; the `Polling` lemmas below state what it guarantees |
| Polling.PassIsIdempotent | main.py:31-40 | after a pass every motive's URL is cooling down, so a second pass at the same instant requests nothing, finds nothing and leaves the table as it is |
| Polling.CollectSlotsTable | main.py:31-40 | only URLs allowed at the start of the pass are requested; each requested URL is then blocked for sixty seconds; every other entry is unchanged, and no key appears except a requested URL |
| Polling.BlockedAreSkipped | main.py:31-33 | a motive whose URL is cooling down is skipped: its URL is not requested, its entry is left as it was, and no entry carries its name unless another motive has the same name |
| Polling.RequestsAreMotiveUrls | main.py:28-29 | only the motives' URLs are requested |
| Polling.AllowedAreRequested | main.py:28-40 | every motive whose URL is allowed at the start of the pass is requested |
| Polling.RequestsAreDistinct | main.py:32-40 | no URL is requested twice in one pass, even when two motives share it |
| Polling.CollectSlotsPrefix | main.py:28-49 | the pass over the first motives is a prefix of the whole pass, in entries and in requests |
| Polling.AllCoolingIsQuiet | main.py:32-33 | when every motive is cooling down, a pass requests nothing, finds nothing and leaves the table unchanged |
| Polling.NothingKeptFindsNothing | main.py:41-48 | when every answer fails or keeps no day, the pass finds nothing |
| Polling.EntriesAreKept | main.py:31-48 | every entry is the date and slot count of a kept record in the status-200 answer to some motive's URL, tagged with that motive's name; that URL was allowed at the start of the pass and was requested in it |
| Polling.EntryOrigin | main.py:41-45 | an entry of a pass carries a kept record's date and slot count, and the name of a motive whose URL the pass requested |
| Polling.SilentMotiveAddsNothing | main.py:32-48 | a motive that is cooling down, or whose request does not answer 200, adds no entry: every entry comes from a motive with another URL, so no entry carries its name unless another motive has that name |
| Polling.KeptAreReported | main.py:32-45 | a kept record in a successful answer for an allowed motive is reported, unless an earlier motive already requested the same URL |
| Resolve.MatchingMembers | main.py:105 | an agenda is kept exactly when it lists the motive and belongs to one of the place's practices |
| Resolve.MatchingAppend | main.py:105 | the agenda filter keeps the snapshot's order |
| Resolve.DashJoinDecodes | main.py:110 | the dash-joined agenda ids split back into their decimal forms, each reading back as its id |
| Resolve.DistinctFacts | main.py:111 | deduplication keeps exactly the elements of the input, each once |
| Resolve.MotiveQueryFor | main.py:107-112 | defines a polled motive record: id, name, the dash-joined ids of the serving agendas, and their practices' ids without repeats; `Resolve.MotiveWireMatches` states what the two wire fields list |
| Resolve.MotiveWireMatches | main.py:105-112 | a record's agenda field lists exactly the agendas serving the motive at the place, and its practice field exactly their practices, once each |
| Resolve.PlaceMotives | main.py:101-112 | defines the motives polled at one place, in snapshot order; `Resolve.PlaceMotivesOne`, `Resolve.PlaceMotivesAppend`, `Resolve.PlaceMotivesMembers` and `Resolve.ServedMotivesArePolled` characterise it |
| Resolve.MotiveRecord | main.py:103-112 | defines what one snapshot motive contributes at a place, at most one record; `Resolve.PlaceMotivesOne` states when it is one |
| Resolve.PlaceMotivesCons | main.py:102-112 | the first motive's record, if any, comes ahead of the records of the remaining motives |
| Resolve.PlaceMotivesOne | main.py:103-112 | a single snapshot motive yields exactly one record, built from its serving agendas, when the rule admits it and some agenda serves it at the place, and nothing otherwise |
| Resolve.PlaceMotivesAppend | main.py:102-112 | motives are resolved one at a time in snapshot order: the records of two concatenated motive lists are the records of the first followed by those of the second, so the result never repeats or reorders a motive |
| Resolve.ServedMotivesArePolled | main.py:102-112 | no motive is lost: every snapshot motive the rule admits and some agenda serves at the place has a polled record with its id and name |
| Resolve.PlaceMotivesMembers | main.py:102-112 | a motive record is polled at a place exactly when it is built from a snapshot motive that the rule admits and some agenda serves there |
| Resolve.AgendaWire | main.py:110 | the `agenda_ids` field lists exactly the agendas serving the motive at the place |
| Resolve.PracticeWire | main.py:111 | the `practice_ids` field lists exactly the practices of those agendas, with no repeats |
| Resolve.QueryWireMatches | main.py:102-112 | a polled record belongs to a snapshot motive that the rule admits; its agenda field lists exactly the serving agendas, and its practice field exactly their practices, once each |
| Resolve.ResolvePlaces | main.py:98-119 | there is one resolved entry per place of the snapshot, in order, each carrying its place |
| Resolve.NothingAdmitted | doctolib.py:55-60 | when the rule admits no motive, nothing is polled at any place |
| FrenchChecker.GetAvailableSlots | main.py:21-49 | defines the French pass: the motives' URLs on the French service, and the today-or-tomorrow rule; `FrenchChecker.SlotsAreTodayOrTomorrow` states its contract |
| FrenchChecker.SlotsAreTodayOrTomorrow | main.py:21-49 | every reported day is today or tomorrow and has slots; it is tagged with the name of one of the site's motives whose URL the pass requested |
| FrenchChecker.DistinctMotivesDistinctKeys | main.py:29-33 | motives with different ids never share a cooldown entry |
| FrenchChecker.AlertMessage | main.py:54-58 | defines the alert: empty when nothing was found, otherwise the link header and one line per entry; `FrenchChecker.AlertReadsBack` reads it back |
| FrenchChecker.AlertReadsBack | main.py:54-58 | the alert is empty exactly when nothing was found; otherwise its lines are the place's link header, then one line per entry in order, ending in a newline |
| FrenchChecker.Check | main.py:52-63 | defines `check`: poll, build the alert, and hand a non-empty alert to the sink; `FrenchChecker.CheckAlertsIffFound` and `FrenchChecker.QuietCheck` state its contract |
| FrenchChecker.CheckAlertsIffFound | main.py:52-63 | a message goes to the sink exactly when the pass found something; it is the alert for those entries, and the sink's answer is recorded |
| FrenchChecker.QuietCheck | main.py:52-63 | a check while every motive is cooling down sends nothing and changes nothing |
| FrenchChecker.MonitoringSummary | main.py:67-69 | defines the summary sent before polling: a title, then one line per site with its link and motive names; `FrenchChecker.SummaryReadsBack` reads it back |
| FrenchChecker.SummaryReadsBack | main.py:67-69 | the monitoring summary's lines are its title, then one line per site in order, each opening with the site's link |
| FrenchChecker.CheckRound | main.py:74-77 | defines one round: every site checked once, in order, on the shared table; `FrenchChecker.RoundTable` states its contract |
| FrenchChecker.RoundTable | main.py:74-77 | a round checks every site once; afterwards a URL has a cooldown entry exactly when it had one before or some check requested it |
| FrenchChecker.MonitorRound | main.py:74-85 | after a round, the pause is `EmptyTable` exactly when the table was empty and nothing was requested; a sleep lasts between one second and one day |
| FrenchChecker.SitesOf | main.py:90-122 | defines the places of one link; `FrenchChecker.SitesOfDescribesPlaces` states its contract |
| FrenchChecker.GetSitesInfo | main.py:88-124 | defines `get_sites_info`: the places of every link, in link order; `FrenchChecker.GetSitesInfoAppend` and `Lists.FlatMapMembers` characterise it |
| FrenchChecker.GetSitesInfoAppend | main.py:88-124 | links are resolved independently, in link order |
| FrenchChecker.PlaceInfoDescribes | main.py:98-119 | the monitored place built from one snapshot place reads back to the page and the place id, carries the page's slug, and polls exactly that place's first-dose mRNA motives in snapshot order |
| FrenchChecker.SitesOfDescribesPlaces | main.py:90-122 | a failed booking request yields nothing; otherwise there is one monitored place per snapshot place, in order; each link reads back to the page and the place id, and the slug is the page's last segment; the motive list is the place's `Resolve.PlaceMotives` under the first-dose mRNA rule, so it holds exactly the first-dose mRNA motives of the snapshot that some agenda serves at the place, in snapshot order with one record per such snapshot motive, each with exact agenda and practice lists |
| DomainChecker.AvailabilityRuleFor | doctolib.py:15-23 | defines the day rule each domain selects; `DomainChecker.ValidAvailabilityByDomain` states it per domain |
| DomainChecker.ValidAvailabilityByDomain | doctolib.py:15-23 | the French domain keeps today's and tomorrow's days with slots; the German domain keeps every day with slots; any other domain keeps nothing |
| DomainChecker.MotiveRuleFor | doctolib.py:55-60 | defines the motive rule each domain selects; `DomainChecker.ValidMotiveByDomain` states it per domain |
| DomainChecker.ValidMotiveByDomain | doctolib.py:55-60 | the French domain admits first-dose Pfizer or Moderna motives; the German domain admits every motive; any other domain admits none |
| DomainChecker.GetAvailableSlots | doctolib.py:26-52 | defines the domain-aware pass: the motives' URLs under the site's base URL, and the day rule of the site's domain; `Agreement.SlotsAgree` and the two lemmas below characterise it |
| DomainChecker.UnknownDomainReportsNothing | doctolib.py:44-48 | a place on an unknown domain never reports a day |
| DomainChecker.GermanReportsEveryOpenDay | doctolib.py:22-23 | on the German service, every day with slots in an allowed motive's answer is reported, whatever its date |
| DomainChecker.SitesOf | doctolib.py:65-101 | defines the places of one link, resolved against the link's own service; `DomainChecker.SitesOfDescribe` states its contract |
| DomainChecker.GetSitesInfo | doctolib.py:63-103 | defines `get_sites_info`: the places of every link, in link order; `DomainChecker.GetSitesInfoAppend` and `DomainChecker.SitesDescribePlaces` characterise it |
| DomainChecker.GetSitesInfoAppend | doctolib.py:63-103 | links are resolved independently, in link order |
| DomainChecker.UnknownDomainPollsNothing | doctolib.py:76-98 | a link on an unknown domain yields places with nothing to poll, carrying the link's service and domain |
| DomainChecker.PlaceInfoDescribes | doctolib.py:76-97 | the place built from one snapshot place carries the link's service, domain and slug, reads back to the page and the place id, and polls exactly the motives the domain admits and some agenda serves there, in snapshot order |
| DomainChecker.SitesOfDescribe | doctolib.py:66-101 | a failed booking request yields nothing; otherwise there is one place per snapshot place, in order; each carries the link's service, domain and slug, and its link reads back to the page and the place id; its motive list is the place's `Resolve.PlaceMotives` under the domain's rule, so it holds exactly the snapshot motives the domain admits and some agenda serves at the place, in snapshot order with one record per such snapshot motive, each with exact agenda and practice lists |
| DomainChecker.SitesDescribePlaces | doctolib.py:63-103 | every resolved place comes from one of the links and describes a place of that link's booking answer in the same terms |
| Agreement.SlotsAgree | doctolib.py:26-52 | on the French service, a pass of the domain-aware checker equals the French checker's pass |
| Agreement.FrenchLinkParts | doctolib.py:66-71 | on a French link, both variants find the same page, slug and service root |
| Agreement.SitesOfAgree | doctolib.py:63-98 | one French link resolves to the same places under both variants |
| Agreement.SitesAgree | doctolib.py:63-103 | a list of French links resolves to the same places under both variants, in the same order |
| Lists.FlatMapMembers | main.py:90-119 | an element of the flattened result comes from some input, and every element of every input's result is in it |

## Left out

- HTTP requests and JSON decoding are not modelled. Answers come from the `fetch` and `fetchBooking` parameters, already decoded. Network exceptions, missing JSON keys and malformed bodies, which raise in the source, are left out.
- The `User-Agent` header is left out: it does not affect what is computed.
- Logging is left out. `doctolib.py` imports a `logger` name that `logger.py` does not define; `logger.py` and `telegram.py` are not part of this model.
- Telegram delivery is the `send` parameter. A failed delivery is only logged, as in the source.
- The thread pool, `wait(timeout=5)` and the interleaving of concurrent checks are left out. A round runs the checks one after another in site order, all on the shared table. A check that outlives the five-second wait is not modelled.
- The endless `while True` loop is left out. `FrenchChecker.MonitorRound` models one round and the pause after it.
- The clock is simplified. The source reads `datetime.now()` afresh for each cooldown test and each table entry. The model uses one reading `now` per round, and a second reading `later` for the pause.
- `strftime` and `timedelta(days=1)` are left out: `today` and `tomorrow` are parameters.
- `time.sleep` itself is left out: the pause is returned as a `Wait` value.
- `urlparse` is the `parse` parameter; only its scheme, host and path are used.
- `str.lower` is modelled for ASCII letters only; other characters are kept as they are.
- `set` iteration order is not modelled. The practice ids are deduplicated in first-occurrence order, and the contracts state only which ids appear and that none repeats, which holds for any order.
- `main.py`'s command-line entry point (`argparse`, `main`) is left out. It only passes the links to `get_sites_info` and the result to `monitor`.
- Ids are `nat`. The source calls `str()` on whatever number the JSON holds; a negative id would put a `-` inside a piece of the dash-joined `agenda_ids` or `practice_ids`. The read-back of those fields (`Resolve.DashJoinDecodes`, `Resolve.AgendaWire`, `Resolve.PracticeWire`) relies on ids being non-negative, as the service's ids are.
- In `doctolib.py`, `_is_valid_availability` reads the clock afresh for every record it tests (doctolib.py:17-20). The URL's date is read once per pass (doctolib.py:27-28). The model passes one `today` and `tomorrow` to the URL and to the filter. It does not model a pass that straddles midnight, where the two can differ.
- `Cooldown.RoundWait` returns `EmptyTable` where `min()` of an empty table raises `ValueError`. This happens when no check requested anything in the first round.
- `FrenchChecker.MonitorRound` does not bound the sleep to the sixty-second cooldown. `later` is an arbitrary reading, so only the one-day bound of `timedelta.seconds` is stated.
