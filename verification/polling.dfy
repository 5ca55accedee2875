/** One polling pass over a site's visit motives: the cooldown check, the
    request, the table update and the extraction of slot entries. The French
    checker and the domain-aware checker run this same loop and differ only in
    the base URL and the availability rule they pass in. */
module Polling {
  import opened Text
  import opened Booking
  import opened Cooldown
  import opened Filters

  /** The query parameters of an availabilities request, in URL order. */
  function QueryParams(today: string, m: MotiveQuery): seq<string> {
    [ "start_date=" + today,
      "visit_motive_ids=" + NatToString(m.id),
      "agenda_ids=" + m.agendaIds,
      "insurance_sector=public",
      "practice_ids=" + m.practiceIds,
      "destroy_temporary=true",
      "limit=4" ]
  }

  /** The availabilities request for one motive: the endpoint under the base
      URL followed by the `&`-joined parameters. The whole URL, today's date
      included, is the cooldown key. */
  function AvailabilityUrl(baseUrl: string, today: string, m: MotiveQuery): string {
    baseUrl + "/availabilities.json?" + Join(QueryParams(today, m), "&")
  }

  /** The request key of every motive of one site on one day. */
  function UrlsUnder(baseUrl: string, today: string): MotiveQuery -> string {
    m => AvailabilityUrl(baseUrl, today, m)
  }

  /** The endpoint is everything before the `?`, the parameters everything after. */
  lemma UrlParts(baseUrl: string, today: string, m: MotiveQuery)
    requires '?' !in baseUrl
    ensures var url := AvailabilityUrl(baseUrl, today, m);
            && BeforeFirst(url, '?') == baseUrl + "/availabilities.json"
            && url[|baseUrl| + 21..] == Join(QueryParams(today, m), "&")
  {
    var endpoint := baseUrl + "/availabilities.json";
    var query := Join(QueryParams(today, m), "&");
    assert AvailabilityUrl(baseUrl, today, m) == endpoint + ['?'] + query;
    SplitAfterPiece(endpoint, '?', query);
  }

  /** Splitting the query at `&` gives back the parameters. */
  lemma ParamsDecode(today: string, m: MotiveQuery)
    requires '&' !in today && '&' !in m.agendaIds && '&' !in m.practiceIds
    ensures Split(Join(QueryParams(today, m), "&"), '&') == QueryParams(today, m)
  {
    var q := QueryParams(today, m);
    forall i | 0 <= i < |q|
      ensures '&' !in q[i]
    {
      assert '&' !in NatToString(m.id);
    }
    SplitJoin(q, '&');
  }

  /** The cooldown key tells requests apart: two motives, days or base URLs
      that differ in any part written into the URL get different keys. */
  lemma UrlKeyInjective(b1: string, t1: string, m1: MotiveQuery,
                        b2: string, t2: string, m2: MotiveQuery)
    requires '?' !in b1 && '?' !in b2
    requires '&' !in t1 && '&' !in t2
    requires '&' !in m1.agendaIds && '&' !in m2.agendaIds
    requires '&' !in m1.practiceIds && '&' !in m2.practiceIds
    requires AvailabilityUrl(b1, t1, m1) == AvailabilityUrl(b2, t2, m2)
    ensures b1 == b2 && t1 == t2
    ensures m1.id == m2.id && m1.agendaIds == m2.agendaIds && m1.practiceIds == m2.practiceIds
  {
    UrlParts(b1, t1, m1);
    UrlParts(b2, t2, m2);
    var e1, e2 := b1 + "/availabilities.json", b2 + "/availabilities.json";
    assert e1 == e2;
    assert b1 == e1[..|b1|] && b2 == e2[..|b2|];
    var q1, q2 := QueryParams(t1, m1), QueryParams(t2, m2);
    ParamsDecode(t1, m1);
    ParamsDecode(t2, m2);
    assert q1 == q2;
    assert t1 == q1[0][11..] && t2 == q2[0][11..];
    assert NatToString(m1.id) == q1[1][17..] && NatToString(m2.id) == q2[1][17..];
    NatToStringInjective(m1.id, m2.id);
    assert m1.agendaIds == q1[2][11..] && m2.agendaIds == q2[2][11..];
    assert m1.practiceIds == q1[4][13..] && m2.practiceIds == q2[4][13..];
  }

  /** The alert entry for one kept availability. */
  function Entry(a: Availability, kind: string): SlotEntry {
    SlotEntry(a.date, |a.slots|, kind)
  }

  /** The slot entries of one response: one per availability the rule keeps,
      in response order, each tagged with the motive's name. */
  function Extract(records: seq<Availability>, rule: AvailabilityRule, kind: string): (r: seq<SlotEntry>)
    ensures |r| <= |records|
    ensures forall j :: 0 <= j < |r| ==> r[j].kind == kind && r[j].count > 0
    decreases |records|
  {
    if |records| == 0 then []
    else
      var rest := Extract(records[1..], rule, kind);
      if Keeps(rule, records[0]) then [Entry(records[0], kind)] + rest else rest
  }

  /** An entry is produced exactly for the records the rule keeps. */
  lemma {:induction false} ExtractMembers(records: seq<Availability>, rule: AvailabilityRule, kind: string)
    ensures forall e :: e in Extract(records, rule, kind) <==>
                          exists a :: a in records && Keeps(rule, a) && e == Entry(a, kind)
    decreases |records|
  {
    if |records| > 0 {
      ExtractMembers(records[1..], rule, kind);
      assert records == [records[0]] + records[1..];
      assert forall a :: a in records <==> a == records[0] || a in records[1..];
    }
  }

  /** Extraction works record by record: it distributes over concatenation,
      so entries keep the order of the records they come from. */
  lemma {:induction false} ExtractAppend(xs: seq<Availability>, ys: seq<Availability>,
                                         rule: AvailabilityRule, kind: string)
    ensures Extract(xs + ys, rule, kind) == Extract(xs, rule, kind) + Extract(ys, rule, kind)
    decreases |xs|
  {
    if |xs| > 0 {
      ExtractAppend(xs[1..], ys, rule, kind);
      assert (xs + ys)[0] == xs[0];
      assert (xs + ys)[1..] == xs[1..] + ys;
      if Keeps(rule, xs[0]) {
        var e := [Entry(xs[0], kind)];
        assert Extract(xs + ys, rule, kind) == e + Extract(xs[1..] + ys, rule, kind);
        assert e + (Extract(xs[1..], rule, kind) + Extract(ys, rule, kind))
            == (e + Extract(xs[1..], rule, kind)) + Extract(ys, rule, kind);
      }
    } else {
      assert xs + ys == ys;
    }
  }

  /** One record contributes exactly one entry when kept and none otherwise. */
  lemma ExtractOne(a: Availability, rule: AvailabilityRule, kind: string)
    ensures Extract([a], rule, kind) == if Keeps(rule, a) then [Entry(a, kind)] else []
  {
  }

  /** What a pass produced: slot entries, the updated cooldown table and the
      URLs actually requested, in order. */
  datatype Poll = Poll(slots: seq<SlotEntry>, table: Table, issued: seq<string>)

  /** One iteration of the loop over motives: skip while cooling down,
      otherwise request, record the cooldown whatever the status, and
      extract entries from a successful answer. */
  function PollMotive(urlOf: MotiveQuery -> string, rule: AvailabilityRule, m: MotiveQuery,
                      table: Table, now: int, fetch: string -> Response): Poll
  {
    var url := urlOf(m);
    if !MayQuery(table, url, now) then
      Poll([], table, [])
    else
      var response := fetch(url);
      var slots := if response.status == StatusOk then Extract(response.availabilities, rule, m.name) else [];
      Poll(slots, Record(table, url, now), [url])
  }

  /** One motive: it is requested exactly when its URL is allowed, and then
      at its own URL only; either way its URL is cooling down afterwards; and
      entries come only from a request answered with status 200. */
  lemma MotiveOutcome(urlOf: MotiveQuery -> string, rule: AvailabilityRule, m: MotiveQuery,
                      table: Table, now: int, fetch: string -> Response)
    ensures var r := PollMotive(urlOf, rule, m, table, now, fetch);
            && (r.issued == [] <==> !MayQuery(table, urlOf(m), now))
            && (r.issued == [] || r.issued == [urlOf(m)])
            && !MayQuery(r.table, urlOf(m), now)
            && (|r.slots| > 0 ==> r.issued == [urlOf(m)] && fetch(urlOf(m)).status == StatusOk)
  {
  }

  /** `get_available_slots`: poll the motives in order, threading the table;
      each motive's entries are appended after those of the motives before
      it. */
  function CollectSlots(urlOf: MotiveQuery -> string, rule: AvailabilityRule, motives: seq<MotiveQuery>,
                        table: Table, now: int, fetch: string -> Response): Poll
    decreases |motives|
  {
    if |motives| == 0 then Poll([], table, [])
    else
      var p := CollectSlots(urlOf, rule, motives[..|motives| - 1], table, now, fetch);
      var s := PollMotive(urlOf, rule, motives[|motives| - 1], p.table, now, fetch);
      Poll(p.slots + s.slots, s.table, p.issued + s.issued)
  }

  /** A pass over the motives is the pass over all but the last, followed by
      the last motive against the table that pass leaves. */
  lemma CollectSlotsStep(urlOf: MotiveQuery -> string, rule: AvailabilityRule, motives: seq<MotiveQuery>,
                         table: Table, now: int, fetch: string -> Response)
    requires |motives| > 0
    ensures var p := CollectSlots(urlOf, rule, motives[..|motives| - 1], table, now, fetch);
            var s := PollMotive(urlOf, rule, motives[|motives| - 1], p.table, now, fetch);
            var r := CollectSlots(urlOf, rule, motives, table, now, fetch);
            r.slots == p.slots + s.slots && r.table == s.table && r.issued == p.issued + s.issued
  {
  }

  /** Only URLs allowed at `now` are requested; each requested URL is
      blocked for the cooldown afterwards; every other entry is left as it
      was, and no entry appears except for a requested URL. */
  lemma {:induction false} CollectSlotsTable(urlOf: MotiveQuery -> string, rule: AvailabilityRule,
                                             motives: seq<MotiveQuery>, table: Table, now: int,
                                             fetch: string -> Response)
    ensures var r := CollectSlots(urlOf, rule, motives, table, now, fetch);
            && (forall u :: u in r.issued ==> MayQuery(table, u, now))
            && (forall k :: k in r.table <==> k in table || k in r.issued)
            && (forall u :: u in r.issued ==> r.table[u] == now + CooldownMicros)
            && (forall u :: u in r.issued ==> !MayQuery(r.table, u, now))
            && (forall k :: k in table && k !in r.issued ==> r.table[k] == table[k])
    decreases |motives|
  {
    if |motives| > 0 {
      var n := |motives| - 1;
      CollectSlotsTable(urlOf, rule, motives[..n], table, now, fetch);
    }
  }

  /** A motive whose URL is still cooling down at `now` is skipped: its URL
      is not requested, its entry in the table is left as it was, and it
      adds no entry under its own name. */
  lemma BlockedAreSkipped(urlOf: MotiveQuery -> string, rule: AvailabilityRule,
                          motives: seq<MotiveQuery>, table: Table, now: int,
                          fetch: string -> Response, i: nat)
    requires i < |motives|
    requires !MayQuery(table, urlOf(motives[i]), now)
    ensures var r := CollectSlots(urlOf, rule, motives, table, now, fetch);
            var url := urlOf(motives[i]);
            url !in r.issued && url in table && url in r.table && r.table[url] == table[url]
    ensures (forall j :: 0 <= j < |motives| && j != i ==> motives[j].name != motives[i].name) ==>
            forall e :: e in CollectSlots(urlOf, rule, motives, table, now, fetch).slots ==> e.kind != motives[i].name
  {
    CollectSlotsTable(urlOf, rule, motives, table, now, fetch);
    SilentMotiveAddsNothing(urlOf, rule, motives, table, now, fetch, i);
  }

  /** After a pass every motive's URL is cooling down, so a second pass at
      the same instant requests nothing, finds nothing and leaves the table
      as the first pass left it. */
  lemma PassIsIdempotent(urlOf: MotiveQuery -> string, rule: AvailabilityRule,
                         motives: seq<MotiveQuery>, table: Table, now: int,
                         fetch: string -> Response)
    ensures var r := CollectSlots(urlOf, rule, motives, table, now, fetch);
            forall i :: 0 <= i < |motives| ==> !MayQuery(r.table, urlOf(motives[i]), now)
    ensures var r := CollectSlots(urlOf, rule, motives, table, now, fetch);
            CollectSlots(urlOf, rule, motives, r.table, now, fetch) == Poll([], r.table, [])
  {
    var r := CollectSlots(urlOf, rule, motives, table, now, fetch);
    CollectSlotsTable(urlOf, rule, motives, table, now, fetch);
    AllowedAreRequested(urlOf, rule, motives, table, now, fetch);
    forall i | 0 <= i < |motives|
      ensures !MayQuery(r.table, urlOf(motives[i]), now)
    {
      var url := urlOf(motives[i]);
      if !MayQuery(table, url, now) {
        assert url !in r.issued;
      }
    }
    AllCoolingIsQuiet(urlOf, rule, motives, r.table, now, fetch);
  }

  /** Only the motives' URLs are ever requested. */
  lemma {:induction false} RequestsAreMotiveUrls(urlOf: MotiveQuery -> string, rule: AvailabilityRule,
                                                 motives: seq<MotiveQuery>, table: Table, now: int,
                                                 fetch: string -> Response)
    ensures forall u :: u in CollectSlots(urlOf, rule, motives, table, now, fetch).issued ==>
                          exists i :: 0 <= i < |motives| && urlOf(motives[i]) == u
    decreases |motives|
  {
    if |motives| > 0 {
      var n := |motives| - 1;
      var front := motives[..n];
      RequestsAreMotiveUrls(urlOf, rule, front, table, now, fetch);
      assert forall i :: 0 <= i < n ==> front[i] == motives[i];
    }
  }

  /** Every motive whose URL is allowed at `now` gets requested. */
  lemma {:induction false} AllowedAreRequested(urlOf: MotiveQuery -> string, rule: AvailabilityRule,
                                               motives: seq<MotiveQuery>, table: Table, now: int,
                                               fetch: string -> Response)
    ensures forall i :: 0 <= i < |motives| && MayQuery(table, urlOf(motives[i]), now) ==>
                          urlOf(motives[i]) in CollectSlots(urlOf, rule, motives, table, now, fetch).issued
    decreases |motives|
  {
    if |motives| > 0 {
      var n := |motives| - 1;
      var front := motives[..n];
      AllowedAreRequested(urlOf, rule, front, table, now, fetch);
      CollectSlotsStep(urlOf, rule, motives, table, now, fetch);
      if MayQuery(table, urlOf(motives[n]), now) {
        LastAllowedIsRequested(urlOf, rule, motives, table, now, fetch);
      }
      var p := CollectSlots(urlOf, rule, front, table, now, fetch);
      var issued := CollectSlots(urlOf, rule, motives, table, now, fetch).issued;
      assert p.issued <= issued;
      forall i | 0 <= i < |motives| && MayQuery(table, urlOf(motives[i]), now)
        ensures urlOf(motives[i]) in issued
      {
        if i < n {
          assert front[i] == motives[i];
          assert urlOf(motives[i]) in p.issued;
        }
      }
    }
  }

  /** The last motive of a pass is requested when its URL was allowed
      before the pass. */
  lemma LastAllowedIsRequested(urlOf: MotiveQuery -> string, rule: AvailabilityRule,
                               motives: seq<MotiveQuery>, table: Table, now: int,
                               fetch: string -> Response)
    requires |motives| > 0
    requires MayQuery(table, urlOf(motives[|motives| - 1]), now)
    ensures urlOf(motives[|motives| - 1]) in CollectSlots(urlOf, rule, motives, table, now, fetch).issued
  {
    var n := |motives| - 1;
    var front := motives[..n];
    var last := urlOf(motives[n]);
    CollectSlotsTable(urlOf, rule, front, table, now, fetch);
    CollectSlotsStep(urlOf, rule, motives, table, now, fetch);
    var p := CollectSlots(urlOf, rule, front, table, now, fetch);
    if last !in p.issued {
      assert MayQuery(p.table, last, now);
    }
  }

  /** A request of the last motive of a pass is not one made earlier in
      the pass, and there is at most one. */
  lemma LastRequestIsFresh(urlOf: MotiveQuery -> string, rule: AvailabilityRule,
                           motives: seq<MotiveQuery>, table: Table, now: int,
                           fetch: string -> Response)
    requires |motives| > 0
    ensures var p := CollectSlots(urlOf, rule, motives[..|motives| - 1], table, now, fetch);
            var s := PollMotive(urlOf, rule, motives[|motives| - 1], p.table, now, fetch);
            |s.issued| <= 1 && (|s.issued| == 1 ==> s.issued[0] !in p.issued)
  {
    var n := |motives| - 1;
    var front := motives[..n];
    CollectSlotsTable(urlOf, rule, front, table, now, fetch);
    var p := CollectSlots(urlOf, rule, front, table, now, fetch);
    assert forall u :: u in p.issued ==> MayQuery(table, u, now);
    assert forall u :: u in p.issued ==> p.table[u] == now + CooldownMicros;
    assert forall u :: u in p.issued ==> !MayQuery(p.table, u, now);
  }

  /** Appending at most one new element keeps a sequence free of repeats. */
  lemma DistinctStep(xs: seq<string>, ys: seq<string>)
    requires forall i, j :: 0 <= i < j < |xs| ==> xs[i] != xs[j]
    requires |ys| <= 1 && (|ys| == 1 ==> ys[0] !in xs)
    ensures forall i, j :: 0 <= i < j < |xs + ys| ==> (xs + ys)[i] != (xs + ys)[j]
  {
    if |ys| == 1 {
      forall i, j | 0 <= i < j < |xs + ys|
        ensures (xs + ys)[i] != (xs + ys)[j]
      {
        if j == |xs| {
          assert (xs + ys)[i] == xs[i];
        }
      }
    } else {
      assert xs + ys == xs;
    }
  }

  /** No URL is requested twice in one pass, even when two motives share it. */
  lemma {:induction false} RequestsAreDistinct(urlOf: MotiveQuery -> string, rule: AvailabilityRule,
                                               motives: seq<MotiveQuery>, table: Table, now: int,
                                               fetch: string -> Response)
    ensures var issued := CollectSlots(urlOf, rule, motives, table, now, fetch).issued;
            forall i, j :: 0 <= i < j < |issued| ==> issued[i] != issued[j]
    decreases |motives|
  {
    if |motives| > 0 {
      var n := |motives| - 1;
      var front := motives[..n];
      RequestsAreDistinct(urlOf, rule, front, table, now, fetch);
      LastRequestIsFresh(urlOf, rule, motives, table, now, fetch);
      CollectSlotsStep(urlOf, rule, motives, table, now, fetch);
      var p := CollectSlots(urlOf, rule, front, table, now, fetch);
      var s := PollMotive(urlOf, rule, motives[n], p.table, now, fetch);
      DistinctStep(p.issued, s.issued);
    }
  }

  /** A prefix of a sequence is a prefix of any extension of it. */
  lemma PrefixExtends<T>(a: seq<T>, b: seq<T>, c: seq<T>)
    requires a <= b
    ensures a <= b + c
  {
    assert (b + c)[..|a|] == b[..|a|];
  }

  /** Earlier motives come first: the pass over a prefix of the motives is a
      prefix of the whole pass, in entries and in requests alike. */
  lemma {:induction false} CollectSlotsPrefix(urlOf: MotiveQuery -> string, rule: AvailabilityRule,
                                              motives: seq<MotiveQuery>, k: nat, table: Table, now: int,
                                              fetch: string -> Response)
    requires k <= |motives|
    ensures var p := CollectSlots(urlOf, rule, motives[..k], table, now, fetch);
            var r := CollectSlots(urlOf, rule, motives, table, now, fetch);
            p.slots <= r.slots && p.issued <= r.issued
    decreases |motives| - k
  {
    if k < |motives| {
      var n := |motives| - 1;
      var front := motives[..n];
      assert front[..k] == motives[..k];
      CollectSlotsPrefix(urlOf, rule, front, k, table, now, fetch);
      CollectSlotsStep(urlOf, rule, motives, table, now, fetch);
      var q := CollectSlots(urlOf, rule, front, table, now, fetch);
      PrefixStep(CollectSlots(urlOf, rule, motives[..k], table, now, fetch), q,
                 PollMotive(urlOf, rule, motives[n], q.table, now, fetch),
                 CollectSlots(urlOf, rule, motives, table, now, fetch));
    } else {
      assert motives[..k] == motives;
    }
  }

  /** The step of `CollectSlotsPrefix`: what precedes a pass precedes it
      followed by one more motive. */
  lemma PrefixStep(p: Poll, q: Poll, s: Poll, r: Poll)
    requires p.slots <= q.slots && p.issued <= q.issued
    requires r.slots == q.slots + s.slots && r.issued == q.issued + s.issued
    ensures p.slots <= r.slots && p.issued <= r.issued
  {
    PrefixExtends(p.slots, q.slots, s.slots);
    PrefixExtends(p.issued, q.issued, s.issued);
  }

  /** A pass in which every motive is still cooling down requests nothing,
      finds nothing and leaves the table as it was. */
  lemma {:induction false} AllCoolingIsQuiet(urlOf: MotiveQuery -> string, rule: AvailabilityRule,
                                             motives: seq<MotiveQuery>, table: Table, now: int,
                                             fetch: string -> Response)
    requires forall i :: 0 <= i < |motives| ==> !MayQuery(table, urlOf(motives[i]), now)
    ensures CollectSlots(urlOf, rule, motives, table, now, fetch) == Poll([], table, [])
    decreases |motives|
  {
    if |motives| > 0 {
      var n := |motives| - 1;
      assert forall i :: 0 <= i < n ==> motives[..n][i] == motives[i];
      AllCoolingIsQuiet(urlOf, rule, motives[..n], table, now, fetch);
    }
  }

  /** A response none of whose records the rule keeps yields no entry. */
  lemma {:induction false} ExtractNone(records: seq<Availability>, rule: AvailabilityRule, kind: string)
    requires forall a :: a in records ==> !Keeps(rule, a)
    ensures Extract(records, rule, kind) == []
    decreases |records|
  {
    if |records| > 0 {
      assert records[0] in records;
      assert forall a :: a in records[1..] ==> a in records;
      ExtractNone(records[1..], rule, kind);
    }
  }

  /** Entries come only from successful requests with a day the rule keeps:
      when every request fails or keeps nothing, the pass finds nothing. */
  lemma {:induction false} NothingKeptFindsNothing(urlOf: MotiveQuery -> string, rule: AvailabilityRule,
                                                   motives: seq<MotiveQuery>, table: Table, now: int,
                                                   fetch: string -> Response)
    requires forall i :: 0 <= i < |motives| ==>
               fetch(urlOf(motives[i])).status != StatusOk ||
               forall a :: a in fetch(urlOf(motives[i])).availabilities ==> !Keeps(rule, a)
    ensures CollectSlots(urlOf, rule, motives, table, now, fetch).slots == []
    decreases |motives|
  {
    if |motives| > 0 {
      var n := |motives| - 1;
      assert forall i :: 0 <= i < n ==> motives[..n][i] == motives[i];
      NothingKeptFindsNothing(urlOf, rule, motives[..n], table, now, fetch);
      CollectSlotsStep(urlOf, rule, motives, table, now, fetch);
      var p := CollectSlots(urlOf, rule, motives[..n], table, now, fetch);
      MotiveFindsNothing(urlOf, rule, motives[n], p.table, now, fetch);
    }
  }

  /** A motive whose answer fails or holds no kept day contributes no entry. */
  lemma MotiveFindsNothing(urlOf: MotiveQuery -> string, rule: AvailabilityRule, m: MotiveQuery,
                           table: Table, now: int, fetch: string -> Response)
    requires fetch(urlOf(m)).status != StatusOk ||
             forall a :: a in fetch(urlOf(m)).availabilities ==> !Keeps(rule, a)
    ensures PollMotive(urlOf, rule, m, table, now, fetch).slots == []
  {
    var response := fetch(urlOf(m));
    if response.status == StatusOk {
      ExtractNone(response.availabilities, rule, m.name);
    }
  }

  /** Entry `e` reports record `a` of the successful answer to motive `m`'s
      URL: the URL was allowed at `now` and requested in the pass, the rule
      keeps `a`, and the entry carries `a`'s date, its slot count and `m`'s
      name. */
  predicate ReportsAnswer(e: SlotEntry, m: MotiveQuery, a: Availability, urlOf: MotiveQuery -> string,
                          rule: AvailabilityRule, table: Table, now: int, fetch: string -> Response,
                          issued: seq<string>)
  {
    && MayQuery(table, urlOf(m), now) && urlOf(m) in issued
    && fetch(urlOf(m)).status == StatusOk
    && a in fetch(urlOf(m)).availabilities && Keeps(rule, a)
    && e == Entry(a, m.name)
  }

  /** Soundness of the entries: each one reports a day the rule keeps, taken
      from the successful answer to a URL that was allowed and requested in
      the pass, under the name of a motive with that URL. A skipped motive
      and a failed request contribute nothing. */
  lemma {:induction false} EntriesAreKept(urlOf: MotiveQuery -> string, rule: AvailabilityRule,
                                          motives: seq<MotiveQuery>, table: Table, now: int,
                                          fetch: string -> Response)
    ensures var r := CollectSlots(urlOf, rule, motives, table, now, fetch);
            forall e :: e in r.slots ==>
              exists i, a :: 0 <= i < |motives| && ReportsAnswer(e, motives[i], a, urlOf, rule, table, now, fetch, r.issued)
    decreases |motives|
  {
    if |motives| > 0 {
      var n := |motives| - 1;
      var front := motives[..n];
      EntriesAreKept(urlOf, rule, front, table, now, fetch);
      CollectSlotsStep(urlOf, rule, motives, table, now, fetch);
      CollectSlotsTable(urlOf, rule, motives, table, now, fetch);
      var p := CollectSlots(urlOf, rule, front, table, now, fetch);
      var s := PollMotive(urlOf, rule, motives[n], p.table, now, fetch);
      var r := CollectSlots(urlOf, rule, motives, table, now, fetch);
      forall e | e in r.slots
        ensures exists i, a :: 0 <= i < |motives| && ReportsAnswer(e, motives[i], a, urlOf, rule, table, now, fetch, r.issued)
      {
        if e in p.slots {
          var i, a :| 0 <= i < |front| && ReportsAnswer(e, front[i], a, urlOf, rule, table, now, fetch, p.issued);
          assert front[i] == motives[i];
          assert urlOf(motives[i]) in r.issued;
          assert ReportsAnswer(e, motives[i], a, urlOf, rule, table, now, fetch, r.issued);
        } else {
          assert e in s.slots;
          var url := urlOf(motives[n]);
          assert s.issued == [url];
          ExtractMembers(fetch(url).availabilities, rule, motives[n].name);
          var a :| a in fetch(url).availabilities && Keeps(rule, a) && e == Entry(a, motives[n].name);
          assert url in r.issued;
          assert ReportsAnswer(e, motives[n], a, urlOf, rule, table, now, fetch, r.issued);
        }
      }
    }
  }

  /** One entry of a pass: a kept record's date and slot count, under the
      name of a motive whose URL the pass requested. */
  lemma EntryOrigin(urlOf: MotiveQuery -> string, rule: AvailabilityRule, motives: seq<MotiveQuery>,
                    table: Table, now: int, fetch: string -> Response, e: SlotEntry)
    requires e in CollectSlots(urlOf, rule, motives, table, now, fetch).slots
    ensures exists a :: Keeps(rule, a) && e == Entry(a, e.kind)
    ensures exists i :: 0 <= i < |motives| && e.kind == motives[i].name &&
                        urlOf(motives[i]) in CollectSlots(urlOf, rule, motives, table, now, fetch).issued
  {
    EntriesAreKept(urlOf, rule, motives, table, now, fetch);
    var i, a :| 0 <= i < |motives| &&
                ReportsAnswer(e, motives[i], a, urlOf, rule, table, now, fetch,
                              CollectSlots(urlOf, rule, motives, table, now, fetch).issued);
  }

  /** A motive whose URL is cooling down, or whose request fails, adds no
      entry: every entry comes from a motive with another URL, so when no
      other motive shares its name, no entry carries that name. */
  lemma SilentMotiveAddsNothing(urlOf: MotiveQuery -> string, rule: AvailabilityRule,
                                motives: seq<MotiveQuery>, table: Table, now: int,
                                fetch: string -> Response, i: nat)
    requires i < |motives|
    requires !MayQuery(table, urlOf(motives[i]), now) || fetch(urlOf(motives[i])).status != StatusOk
    ensures var r := CollectSlots(urlOf, rule, motives, table, now, fetch);
            forall e :: e in r.slots ==>
              exists j :: 0 <= j < |motives| && urlOf(motives[j]) != urlOf(motives[i]) && e.kind == motives[j].name
    ensures (forall j :: 0 <= j < |motives| && j != i ==> motives[j].name != motives[i].name) ==>
            forall e :: e in CollectSlots(urlOf, rule, motives, table, now, fetch).slots ==> e.kind != motives[i].name
  {
    var r := CollectSlots(urlOf, rule, motives, table, now, fetch);
    EntriesAreKept(urlOf, rule, motives, table, now, fetch);
    CollectSlotsTable(urlOf, rule, motives, table, now, fetch);
    forall e | e in r.slots
      ensures exists j :: 0 <= j < |motives| && urlOf(motives[j]) != urlOf(motives[i]) && e.kind == motives[j].name
    {
      var j, a :| 0 <= j < |motives| && ReportsAnswer(e, motives[j], a, urlOf, rule, table, now, fetch, r.issued);
      assert urlOf(motives[j]) != urlOf(motives[i]);
    }
  }

  /** Completeness of the entries: a day the rule keeps in the successful
      answer for a motive is reported, provided the motive's URL was allowed
      and no earlier motive of the pass shares that URL. */
  lemma {:induction false} KeptAreReported(urlOf: MotiveQuery -> string, rule: AvailabilityRule,
                                           motives: seq<MotiveQuery>, table: Table, now: int,
                                           fetch: string -> Response, i: nat, a: Availability)
    requires i < |motives|
    requires MayQuery(table, urlOf(motives[i]), now)
    requires forall j :: 0 <= j < i ==> urlOf(motives[j]) != urlOf(motives[i])
    requires fetch(urlOf(motives[i])).status == StatusOk
    requires a in fetch(urlOf(motives[i])).availabilities && Keeps(rule, a)
    ensures Entry(a, motives[i].name) in CollectSlots(urlOf, rule, motives, table, now, fetch).slots
    decreases |motives|
  {
    var n := |motives| - 1;
    var front := motives[..n];
    var p := CollectSlots(urlOf, rule, front, table, now, fetch);
    var s := PollMotive(urlOf, rule, motives[n], p.table, now, fetch);
    var e := Entry(a, motives[i].name);
    if i < n {
      assert forall j :: 0 <= j <= i ==> front[j] == motives[j];
      KeptAreReported(urlOf, rule, front, table, now, fetch, i, a);
    } else {
      var url := urlOf(motives[n]);
      assert forall j :: 0 <= j < n ==> urlOf(front[j]) != url;
      FreshUrlStaysAllowed(urlOf, rule, front, table, now, fetch, url);
      MotiveReportsKept(urlOf, rule, motives[n], p.table, now, fetch, a);
    }
    CollectSlotsStep(urlOf, rule, motives, table, now, fetch);
    EntryInPass(e, p, s, CollectSlots(urlOf, rule, motives, table, now, fetch));
  }

  /** An entry of either part of a pass is an entry of the pass. */
  lemma EntryInPass(e: SlotEntry, p: Poll, s: Poll, r: Poll)
    requires e in p.slots || e in s.slots
    requires r.slots == p.slots + s.slots
    ensures e in r.slots
  {
  }

  /** An allowed motive with a successful answer reports every day the rule
      keeps in it. */
  lemma MotiveReportsKept(urlOf: MotiveQuery -> string, rule: AvailabilityRule, m: MotiveQuery,
                          table: Table, now: int, fetch: string -> Response, a: Availability)
    requires MayQuery(table, urlOf(m), now)
    requires fetch(urlOf(m)).status == StatusOk
    requires a in fetch(urlOf(m)).availabilities && Keeps(rule, a)
    ensures Entry(a, m.name) in PollMotive(urlOf, rule, m, table, now, fetch).slots
  {
    ExtractMembers(fetch(urlOf(m)).availabilities, rule, m.name);
  }

  /** A URL allowed before a pass and used by none of its motives is still
      allowed after it. */
  lemma FreshUrlStaysAllowed(urlOf: MotiveQuery -> string, rule: AvailabilityRule,
                             motives: seq<MotiveQuery>, table: Table, now: int,
                             fetch: string -> Response, url: string)
    requires MayQuery(table, url, now)
    requires forall j :: 0 <= j < |motives| ==> urlOf(motives[j]) != url
    ensures MayQuery(CollectSlots(urlOf, rule, motives, table, now, fetch).table, url, now)
  {
    var p := CollectSlots(urlOf, rule, motives, table, now, fetch);
    CollectSlotsTable(urlOf, rule, motives, table, now, fetch);
    RequestsAreMotiveUrls(urlOf, rule, motives, table, now, fetch);
    assert url !in p.issued by {
      forall u | u in p.issued
        ensures u != url
      {
        var j :| 0 <= j < |motives| && urlOf(motives[j]) == u;
      }
    }
  }
}
