/** Resolution of a booking snapshot into the visit motives worth polling
    at each place: the motive filter, the agendas that serve the motive at
    the place, and the dash-joined id lists written into the query URL. */
module Resolve {
  import opened Text
  import opened Booking
  import opened Filters

  /** An agenda serves a motive at a place when it lists the motive and
      belongs to one of the place's practices. */
  predicate Serves(a: Agenda, motiveId: nat, practiceIds: seq<nat>) {
    motiveId in a.visitMotiveIds && a.practiceId in practiceIds
  }

  /** The agendas serving the motive at the place, in snapshot order. */
  function MatchingAgendas(agendas: seq<Agenda>, motiveId: nat, practiceIds: seq<nat>): (r: seq<Agenda>)
    ensures |r| <= |agendas|
    decreases |agendas|
  {
    if |agendas| == 0 then []
    else
      var rest := MatchingAgendas(agendas[1..], motiveId, practiceIds);
      if Serves(agendas[0], motiveId, practiceIds) then [agendas[0]] + rest else rest
  }

  /** An agenda is kept exactly when it serves the motive at the place. */
  lemma {:induction false} MatchingMembers(agendas: seq<Agenda>, motiveId: nat, practiceIds: seq<nat>)
    ensures forall a :: a in MatchingAgendas(agendas, motiveId, practiceIds) <==>
                          a in agendas && Serves(a, motiveId, practiceIds)
    decreases |agendas|
  {
    if |agendas| > 0 {
      MatchingMembers(agendas[1..], motiveId, practiceIds);
      assert agendas == [agendas[0]] + agendas[1..];
      assert forall a :: a in agendas <==> a == agendas[0] || a in agendas[1..];
    }
  }

  /** The filter works agenda by agenda, so it keeps the snapshot's order. */
  lemma {:induction false} MatchingAppend(xs: seq<Agenda>, ys: seq<Agenda>, motiveId: nat, practiceIds: seq<nat>)
    ensures MatchingAgendas(xs + ys, motiveId, practiceIds) ==
            MatchingAgendas(xs, motiveId, practiceIds) + MatchingAgendas(ys, motiveId, practiceIds)
    decreases |xs|
  {
    if |xs| > 0 {
      MatchingAppend(xs[1..], ys, motiveId, practiceIds);
      assert (xs + ys)[0] == xs[0];
      assert (xs + ys)[1..] == xs[1..] + ys;
      if Serves(xs[0], motiveId, practiceIds) {
        var head := [xs[0]];
        assert head + (MatchingAgendas(xs[1..], motiveId, practiceIds) + MatchingAgendas(ys, motiveId, practiceIds))
            == (head + MatchingAgendas(xs[1..], motiveId, practiceIds)) + MatchingAgendas(ys, motiveId, practiceIds);
      }
    } else {
      assert xs + ys == ys;
    }
  }

  /** `map(str, ids)`. */
  function Render(ids: seq<nat>): (r: seq<string>)
    ensures |r| == |ids|
    ensures forall i :: 0 <= i < |ids| ==> r[i] == NatToString(ids[i])
  {
    seq(|ids|, i requires 0 <= i < |ids| => NatToString(ids[i]))
  }

  /** The ids rendered and joined with dashes, as they appear in the URL. */
  function DashJoin(pieces: seq<string>): string {
    Join(pieces, "-")
  }

  /** The dash-joined form of a non-empty id list splits back into the
      rendered ids, and each piece reads back as its id. */
  lemma DashJoinDecodes(ids: seq<nat>)
    requires |ids| >= 1
    ensures Split(DashJoin(Render(ids)), '-') == Render(ids)
    ensures forall i :: 0 <= i < |ids| ==> IsDigits(Render(ids)[i]) && ParseNat(Render(ids)[i]) == ids[i]
  {
    var pieces := Render(ids);
    forall i | 0 <= i < |pieces|
      ensures '-' !in pieces[i] && ParseNat(pieces[i]) == ids[i]
    {
      assert '-' !in NatToString(ids[i]);
      ParseNatToString(ids[i]);
    }
    SplitJoin(pieces, '-');
  }

  /** The distinct elements in order of first occurrence. Python's `set`
      gives the same elements in an order of its own. */
  function Distinct<T(==)>(xs: seq<T>): (r: seq<T>)
    ensures |r| <= |xs|
    decreases |xs|
  {
    if |xs| == 0 then []
    else
      var d := Distinct(xs[..|xs| - 1]);
      if xs[|xs| - 1] in d then d else d + [xs[|xs| - 1]]
  }

  /** Deduplication keeps exactly the elements of the input, each once. */
  lemma {:induction false} DistinctFacts<T>(xs: seq<T>)
    ensures forall x :: x in Distinct(xs) <==> x in xs
    ensures forall i, j :: 0 <= i < j < |Distinct(xs)| ==> Distinct(xs)[i] != Distinct(xs)[j]
    decreases |xs|
  {
    if |xs| > 0 {
      var front := xs[..|xs| - 1];
      DistinctFacts(front);
      assert xs == front + [xs[|xs| - 1]];
      assert forall x :: x in xs <==> x in front || x == xs[|xs| - 1];
    }
  }

  function AgendaIdsOf(agendas: seq<Agenda>): (r: seq<nat>)
    ensures |r| == |agendas|
    ensures forall i :: 0 <= i < |agendas| ==> r[i] == agendas[i].id
  {
    seq(|agendas|, i requires 0 <= i < |agendas| => agendas[i].id)
  }

  function PracticeIdsOf(agendas: seq<Agenda>): (r: seq<nat>)
    ensures |r| == |agendas|
    ensures forall i :: 0 <= i < |agendas| ==> r[i] == agendas[i].practiceId
  {
    seq(|agendas|, i requires 0 <= i < |agendas| => agendas[i].practiceId)
  }

  /** The polling record of a motive: its id and name, the matching agendas'
      ids in order and their practices' ids without repetition. */
  function MotiveQueryFor(m: VisitMotive, matching: seq<Agenda>): MotiveQuery {
    MotiveQuery(m.id, m.name, DashJoin(Render(AgendaIdsOf(matching))),
                DashJoin(Distinct(Render(PracticeIdsOf(matching)))))
  }

  /** What one snapshot motive contributes at a place: its record when the
      rule admits it and at least one agenda serves it there, else nothing. */
  function MotiveRecord(rule: MotiveRule, m: VisitMotive, practiceIds: seq<nat>, agendas: seq<Agenda>): (r: seq<MotiveQuery>)
    ensures |r| <= 1
  {
    var matching := MatchingAgendas(agendas, m.id, practiceIds);
    if Admits(rule, m) && |matching| > 0 then [MotiveQueryFor(m, matching)] else []
  }

  /** The motives of one place: those the rule admits and at least one agenda
      serves there, in snapshot order. */
  function PlaceMotives(rule: MotiveRule, motives: seq<VisitMotive>, practiceIds: seq<nat>,
                        agendas: seq<Agenda>): (r: seq<MotiveQuery>)
    ensures |r| <= |motives|
    decreases |motives|
  {
    if |motives| == 0 then []
    else MotiveRecord(rule, motives[0], practiceIds, agendas) + PlaceMotives(rule, motives[1..], practiceIds, agendas)
  }

  /** One motive gives its record exactly when the rule admits it and some
      agenda serves it at the place, and nothing otherwise. */
  lemma PlaceMotivesOne(rule: MotiveRule, m: VisitMotive, practiceIds: seq<nat>, agendas: seq<Agenda>)
    ensures var matching := MatchingAgendas(agendas, m.id, practiceIds);
            PlaceMotives(rule, [m], practiceIds, agendas) ==
              if Admits(rule, m) && |matching| > 0 then [MotiveQueryFor(m, matching)] else []
  {
    assert [m][1..] == [];
  }

  /** One resolution step: a motive in front contributes its own records
      ahead of those of the rest. */
  lemma PlaceMotivesCons(rule: MotiveRule, m: VisitMotive, rest: seq<VisitMotive>,
                         practiceIds: seq<nat>, agendas: seq<Agenda>)
    ensures PlaceMotives(rule, [m] + rest, practiceIds, agendas) ==
            PlaceMotives(rule, [m], practiceIds, agendas) + PlaceMotives(rule, rest, practiceIds, agendas)
  {
    assert ([m] + rest)[0] == m && ([m] + rest)[1..] == rest;
    assert [m][1..] == [];
  }

  /** Motives are resolved one by one: the records of a concatenation are
      those of each part, in order, so the records follow the snapshot's
      motive order and each motive yields at most one. */
  lemma {:induction false} PlaceMotivesAppend(rule: MotiveRule, xs: seq<VisitMotive>, ys: seq<VisitMotive>,
                                              practiceIds: seq<nat>, agendas: seq<Agenda>)
    ensures PlaceMotives(rule, xs + ys, practiceIds, agendas) ==
            PlaceMotives(rule, xs, practiceIds, agendas) + PlaceMotives(rule, ys, practiceIds, agendas)
    decreases |xs|
  {
    if |xs| > 0 {
      var head, tail := xs[0], xs[1..];
      assert xs == [head] + tail;
      assert xs + ys == [head] + (tail + ys);
      PlaceMotivesAppend(rule, tail, ys, practiceIds, agendas);
      PlaceMotivesCons(rule, head, tail + ys, practiceIds, agendas);
      PlaceMotivesCons(rule, head, tail, practiceIds, agendas);
    } else {
      assert xs + ys == ys;
    }
  }

  /** `q` is the polling record of motive `m` at the place: the rule admits
      `m` and some agenda serves it there. */
  predicate PolledAs(q: MotiveQuery, m: VisitMotive, rule: MotiveRule, practiceIds: seq<nat>, agendas: seq<Agenda>) {
    var matching := MatchingAgendas(agendas, m.id, practiceIds);
    Admits(rule, m) && |matching| > 0 && q == MotiveQueryFor(m, matching)
  }

  /** A record is polled exactly when it is the record of a snapshot motive
      the rule admits and some agenda serves at the place. */
  lemma {:induction false} PlaceMotivesMembers(rule: MotiveRule, motives: seq<VisitMotive>,
                                               practiceIds: seq<nat>, agendas: seq<Agenda>)
    ensures forall q :: q in PlaceMotives(rule, motives, practiceIds, agendas) ==>
                          exists m :: m in motives && PolledAs(q, m, rule, practiceIds, agendas)
    ensures forall q, m :: m in motives && PolledAs(q, m, rule, practiceIds, agendas) ==>
                             q in PlaceMotives(rule, motives, practiceIds, agendas)
    decreases |motives|
  {
    if |motives| > 0 {
      var head := motives[0];
      var tail := motives[1..];
      PlaceMotivesMembers(rule, tail, practiceIds, agendas);
      var rest := PlaceMotives(rule, tail, practiceIds, agendas);
      var all := PlaceMotives(rule, motives, practiceIds, agendas);
      assert motives == [head] + tail;
      if PolledAs(MotiveQueryFor(head, MatchingAgendas(agendas, head.id, practiceIds)), head, rule, practiceIds, agendas) {
        assert all == [MotiveQueryFor(head, MatchingAgendas(agendas, head.id, practiceIds))] + rest;
      } else {
        assert all == rest;
      }
      forall q | q in all
        ensures exists m :: m in motives && PolledAs(q, m, rule, practiceIds, agendas)
      {
        if q !in rest {
          assert PolledAs(q, head, rule, practiceIds, agendas);
        }
      }
      forall q, m | m in motives && PolledAs(q, m, rule, practiceIds, agendas)
        ensures q in all
      {
        if m != head {
          assert m in tail;
        }
      }
    }
  }

  /** Some agenda of the snapshot serves the motive at the place. */
  predicate ServedAt(motiveId: nat, practiceIds: seq<nat>, agendas: seq<Agenda>) {
    exists a :: a in agendas && Serves(a, motiveId, practiceIds)
  }

  /** No motive is lost: every snapshot motive the rule admits and some agenda
      serves at the place has a polled record with its id and name. */
  lemma ServedMotivesArePolled(rule: MotiveRule, motives: seq<VisitMotive>, practiceIds: seq<nat>,
                               agendas: seq<Agenda>)
    ensures forall m :: m in motives && Admits(rule, m) && ServedAt(m.id, practiceIds, agendas) ==>
              exists q :: q in PlaceMotives(rule, motives, practiceIds, agendas) && q.id == m.id && q.name == m.name
  {
    PlaceMotivesMembers(rule, motives, practiceIds, agendas);
    forall m | m in motives && Admits(rule, m) && ServedAt(m.id, practiceIds, agendas)
      ensures exists q :: q in PlaceMotives(rule, motives, practiceIds, agendas) && q.id == m.id && q.name == m.name
    {
      var matching := MatchingAgendas(agendas, m.id, practiceIds);
      MatchingMembers(agendas, m.id, practiceIds);
      var a :| a in agendas && Serves(a, m.id, practiceIds);
      assert a in matching;
      assert PolledAs(MotiveQueryFor(m, matching), m, rule, practiceIds, agendas);
    }
  }

  /** The dash-joined `wire` lists exactly the agendas serving the motive at
      the place: every piece is the decimal id of a serving agenda, and the
      id of every serving agenda is a piece. */
  predicate AgendaWireMatches(wire: string, motiveId: nat, practiceIds: seq<nat>, agendas: seq<Agenda>) {
    var pieces := Split(wire, '-');
    && (forall i :: 0 <= i < |pieces| ==>
          IsDigits(pieces[i]) &&
          exists a :: a in agendas && Serves(a, motiveId, practiceIds) && a.id == ParseNat(pieces[i]))
    && (forall a :: a in agendas && Serves(a, motiveId, practiceIds) ==> NatToString(a.id) in pieces)
  }

  /** `pieces` lists the practices of the agendas serving the motive at the
      place, each exactly once: the pieces are distinct, each is the decimal
      id of such a practice, and every such practice is a piece. */
  predicate ListsPractices(pieces: seq<string>, motiveId: nat, practiceIds: seq<nat>, agendas: seq<Agenda>) {
    && (forall i, j :: 0 <= i < j < |pieces| ==> pieces[i] != pieces[j])
    && (forall i :: 0 <= i < |pieces| ==>
          IsDigits(pieces[i]) &&
          exists a :: a in agendas && Serves(a, motiveId, practiceIds) && a.practiceId == ParseNat(pieces[i]))
    && (forall a :: a in agendas && Serves(a, motiveId, practiceIds) ==> NatToString(a.practiceId) in pieces)
  }

  /** The same, read from the dash-joined wire form. */
  predicate PracticeWireMatches(wire: string, motiveId: nat, practiceIds: seq<nat>, agendas: seq<Agenda>) {
    ListsPractices(Split(wire, '-'), motiveId, practiceIds, agendas)
  }

  /** The agenda ids of the serving agendas, read back from their wire form. */
  lemma AgendaWire(matching: seq<Agenda>, motiveId: nat, practiceIds: seq<nat>, agendas: seq<Agenda>)
    requires |matching| >= 1
    requires forall a :: a in matching ==> a in agendas && Serves(a, motiveId, practiceIds)
    requires forall a :: a in agendas && Serves(a, motiveId, practiceIds) ==> a in matching
    ensures AgendaWireMatches(DashJoin(Render(AgendaIdsOf(matching))), motiveId, practiceIds, agendas)
  {
    var ids := AgendaIdsOf(matching);
    var pieces := Render(ids);
    DashJoinDecodes(ids);
    forall i | 0 <= i < |pieces|
      ensures exists a :: a in agendas && Serves(a, motiveId, practiceIds) && a.id == ParseNat(pieces[i])
    {
      assert matching[i] in matching;
    }
    forall a | a in agendas && Serves(a, motiveId, practiceIds)
      ensures NatToString(a.id) in pieces
    {
      var k :| 0 <= k < |matching| && matching[k] == a;
      assert pieces[k] == NatToString(a.id);
    }
  }

  /** Every piece is the decimal form of one of the ids. */
  predicate PiecesNameIds(pieces: seq<string>, ids: seq<nat>) {
    forall i :: 0 <= i < |pieces| ==> IsDigits(pieces[i]) && '-' !in pieces[i] && ParseNat(pieces[i]) in ids
  }

  /** The decimal form of every id is a piece. */
  predicate IdsNamedBy(ids: seq<nat>, pieces: seq<string>) {
    forall x :: x in ids ==> NatToString(x) in pieces
  }

  /** The rendered ids without repetition: distinct decimal pieces, each
      naming one of the ids, and every id named. */
  lemma DistinctRendered(ids: seq<nat>)
    ensures var d := Distinct(Render(ids));
            && (forall i, j :: 0 <= i < j < |d| ==> d[i] != d[j])
            && PiecesNameIds(d, ids)
            && IdsNamedBy(ids, d)
  {
    var rendered := Render(ids);
    var d := Distinct(rendered);
    DistinctFacts(rendered);
    forall i | 0 <= i < |d|
      ensures IsDigits(d[i]) && '-' !in d[i] && ParseNat(d[i]) in ids
    {
      assert d[i] in rendered;
      var k :| 0 <= k < |rendered| && rendered[k] == d[i];
      ParseNatToString(ids[k]);
    }
    forall x | x in ids
      ensures NatToString(x) in d
    {
      var k :| 0 <= k < |ids| && ids[k] == x;
      assert rendered[k] in rendered;
    }
  }

  /** The deduplicated rendered practice ids of the serving agendas list
      exactly their practices. */
  lemma PracticePieces(matching: seq<Agenda>, motiveId: nat, practiceIds: seq<nat>, agendas: seq<Agenda>)
    requires forall a :: a in matching ==> a in agendas && Serves(a, motiveId, practiceIds)
    requires forall a :: a in agendas && Serves(a, motiveId, practiceIds) ==> a in matching
    ensures ListsPractices(Distinct(Render(PracticeIdsOf(matching))), motiveId, practiceIds, agendas)
  {
    DistinctRendered(PracticeIdsOf(matching));
    PracticePiecesSound(matching, motiveId, practiceIds, agendas);
    PracticePiecesComplete(matching, motiveId, practiceIds, agendas);
  }

  /** Each deduplicated piece names the practice of a serving agenda. */
  lemma PracticePiecesSound(matching: seq<Agenda>, motiveId: nat, practiceIds: seq<nat>, agendas: seq<Agenda>)
    requires forall a :: a in matching ==> a in agendas && Serves(a, motiveId, practiceIds)
    ensures var d := Distinct(Render(PracticeIdsOf(matching)));
            forall i :: 0 <= i < |d| ==>
              IsDigits(d[i]) &&
              exists a :: a in agendas && Serves(a, motiveId, practiceIds) && a.practiceId == ParseNat(d[i])
  {
    var pids := PracticeIdsOf(matching);
    var d := Distinct(Render(pids));
    DistinctRendered(pids);
    assert PiecesNameIds(d, pids);
    forall i | 0 <= i < |d|
      ensures IsDigits(d[i])
      ensures exists a :: a in agendas && Serves(a, motiveId, practiceIds) && a.practiceId == ParseNat(d[i])
    {
      assert IsDigits(d[i]) && ParseNat(d[i]) in pids;
      var k :| 0 <= k < |pids| && pids[k] == ParseNat(d[i]);
      assert matching[k] in matching;
    }
  }

  /** The practice of every serving agenda is among the deduplicated pieces. */
  lemma PracticePiecesComplete(matching: seq<Agenda>, motiveId: nat, practiceIds: seq<nat>, agendas: seq<Agenda>)
    requires forall a :: a in agendas && Serves(a, motiveId, practiceIds) ==> a in matching
    ensures forall a :: a in agendas && Serves(a, motiveId, practiceIds) ==>
              NatToString(a.practiceId) in Distinct(Render(PracticeIdsOf(matching)))
  {
    var pids := PracticeIdsOf(matching);
    DistinctRendered(pids);
    assert IdsNamedBy(pids, Distinct(Render(pids)));
    forall a | a in agendas && Serves(a, motiveId, practiceIds)
      ensures NatToString(a.practiceId) in Distinct(Render(pids))
    {
      var k :| 0 <= k < |matching| && matching[k] == a;
      assert pids[k] in pids;
    }
  }

  /** The practice ids of the serving agendas, read back from their wire
      form, each once. */
  lemma PracticeWire(matching: seq<Agenda>, motiveId: nat, practiceIds: seq<nat>, agendas: seq<Agenda>)
    requires |matching| >= 1
    requires forall a :: a in matching ==> a in agendas && Serves(a, motiveId, practiceIds)
    requires forall a :: a in agendas && Serves(a, motiveId, practiceIds) ==> a in matching
    ensures PracticeWireMatches(DashJoin(Distinct(Render(PracticeIdsOf(matching)))), motiveId, practiceIds, agendas)
  {
    var pids := PracticeIdsOf(matching);
    var d := Distinct(Render(pids));
    PracticePieces(matching, motiveId, practiceIds, agendas);
    DistinctRendered(pids);
    assert PiecesNameIds(d, pids) && IdsNamedBy(pids, d);
    assert pids[0] in pids;
    assert NatToString(pids[0]) in d;
    SplitJoin(d, '-');
  }

  /** The wire fields of one motive's record list exactly the agendas
      serving it at the place and exactly their practices, none twice. */
  lemma MotiveWireMatches(m: VisitMotive, practiceIds: seq<nat>, agendas: seq<Agenda>)
    requires |MatchingAgendas(agendas, m.id, practiceIds)| > 0
    ensures var q := MotiveQueryFor(m, MatchingAgendas(agendas, m.id, practiceIds));
            AgendaWireMatches(q.agendaIds, m.id, practiceIds, agendas) &&
            PracticeWireMatches(q.practiceIds, m.id, practiceIds, agendas)
  {
    var matching := MatchingAgendas(agendas, m.id, practiceIds);
    MatchingMembers(agendas, m.id, practiceIds);
    AgendaWire(matching, m.id, practiceIds, agendas);
    PracticeWire(matching, m.id, practiceIds, agendas);
  }

  /** What a polled motive's record means: the motive is one of the
      snapshot's that the rule admits, its agenda ids are exactly those of
      the agendas serving it at the place, and its practice ids exactly
      those agendas' practices, none twice. */
  lemma QueryWireMatches(rule: MotiveRule, motives: seq<VisitMotive>, practiceIds: seq<nat>,
                       agendas: seq<Agenda>, q: MotiveQuery)
    requires q in PlaceMotives(rule, motives, practiceIds, agendas)
    ensures Admits(rule, VisitMotive(q.id, q.name)) && VisitMotive(q.id, q.name) in motives
    ensures AgendaWireMatches(q.agendaIds, q.id, practiceIds, agendas)
    ensures PracticeWireMatches(q.practiceIds, q.id, practiceIds, agendas)
  {
    PlaceMotivesMembers(rule, motives, practiceIds, agendas);
    var m :| m in motives && PolledAs(q, m, rule, practiceIds, agendas);
    assert VisitMotive(q.id, q.name) == m;
    MotiveWireMatches(m, practiceIds, agendas);
  }

  /** One place and the motives resolved for it. */
  datatype Resolved = Resolved(place: Place, motives: seq<MotiveQuery>)

  /** Every place of the snapshot, in order, with its polled motives. */
  function ResolvePlaces(rule: MotiveRule, snapshot: Snapshot): (r: seq<Resolved>)
    ensures |r| == |snapshot.places|
    ensures forall i :: 0 <= i < |r| ==> r[i].place == snapshot.places[i]
  {
    seq(|snapshot.places|, i requires 0 <= i < |snapshot.places| =>
      var place := snapshot.places[i];
      Resolved(place, PlaceMotives(rule, snapshot.visitMotives, place.practiceIds, snapshot.agendas)))
  }

  /** A rule that admits nothing leaves every place without motives. */
  lemma {:induction false} NothingAdmitted(motives: seq<VisitMotive>, practiceIds: seq<nat>, agendas: seq<Agenda>)
    ensures PlaceMotives(NoMotive, motives, practiceIds, agendas) == []
    decreases |motives|
  {
    if |motives| > 0 {
      NothingAdmitted(motives[1..], practiceIds, agendas);
    }
  }
}
