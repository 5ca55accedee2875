/** The two relevance tests: which availability days are worth an alert, and
    which visit motives are worth polling at all. */
module Filters {
  import opened Booking
  import opened Text

  /** Which availability days count. `SameOrNextDay` is the French rule,
      `AnyDate` the German one, `NoAvailability` what any other domain gets. */
  datatype AvailabilityRule = SameOrNextDay(today: string, tomorrow: string) | AnyDate | NoAvailability

  predicate Keeps(rule: AvailabilityRule, a: Availability) {
    match rule
    case SameOrNextDay(today, tomorrow) => (a.date == today || a.date == tomorrow) && |a.slots| > 0
    case AnyDate => |a.slots| > 0
    case NoAvailability => false
  }

  /** No rule keeps a day without slots, and the French rule keeps a subset
      of what the German rule keeps. */
  lemma KeepsNeedsSlots(rule: AvailabilityRule, a: Availability)
    ensures Keeps(rule, a) ==> |a.slots| > 0
    ensures Keeps(rule, a) ==> Keeps(AnyDate, a)
  {
  }

  /** Which visit motives count. `FirstDoseMrna` is the French rule,
      `AnyMotive` the German one, `NoMotive` what any other domain gets. */
  datatype MotiveRule = FirstDoseMrna | AnyMotive | NoMotive

  /** A first-dose Pfizer or Moderna appointment, judged on the lower-cased name. */
  predicate IsFirstDoseMrna(name: string) {
    var lower := Lower(name);
    Contains(lower, "1re") && (Contains(lower, "pfizer") || Contains(lower, "moderna"))
  }

  /** The test ignores letter case: a name and its lower-cased form get the
      same verdict. */
  lemma MotiveTestIgnoresCase(name: string)
    ensures IsFirstDoseMrna(Lower(name)) <==> IsFirstDoseMrna(name)
  {
    LowerIdempotent(name);
  }

  predicate Admits(rule: MotiveRule, m: VisitMotive) {
    match rule
    case FirstDoseMrna => IsFirstDoseMrna(m.name)
    case AnyMotive => true
    case NoMotive => false
  }

  /** A French rule example: a first-dose Pfizer motive is admitted. */
  lemma FirstDosePfizerAdmitted()
    ensures Admits(FirstDoseMrna, VisitMotive(0, "1re injection Pfizer"))
  {
    var lower := Lower("1re injection Pfizer");
    assert lower[0..3] == "1re";
    assert lower[14..20] == "pfizer";
    assert OccursAt(lower, "1re", 0);
    assert OccursAt(lower, "pfizer", 14);
  }

  /** A string never contains a pattern whose first character it lacks. */
  lemma MissingFirstChar(s: string, sub: string)
    requires |sub| > 0
    requires sub[0] !in s
    ensures !Contains(s, sub)
  {
    assert forall i :: OccursAt(s, sub, i) ==> s[i] == sub[0] && s[i] in s;
  }

  /** A second-dose motive lacks the first-dose marker and is refused. */
  lemma SecondDoseRefused()
    ensures !Admits(FirstDoseMrna, VisitMotive(0, "2e injection Pfizer"))
  {
    var lower := Lower("2e injection Pfizer");
    assert forall i :: 0 <= i < |lower| ==> lower[i] != '1';
    MissingFirstChar(lower, "1re");
  }

  /** A first dose of another brand is refused. */
  lemma OtherBrandRefused()
    ensures !Admits(FirstDoseMrna, VisitMotive(0, "1re injection AstraZeneca"))
  {
    var lower := Lower("1re injection AstraZeneca");
    assert forall i :: 0 <= i < |lower| ==> lower[i] != 'p' && lower[i] != 'm';
    MissingFirstChar(lower, "pfizer");
    MissingFirstChar(lower, "moderna");
  }

  /** The French availability rule on the three kinds of day: today with
      slots is kept, today without slots and any later day are dropped. */
  lemma SameOrNextDayExamples(today: string, tomorrow: string, other: string, slots: seq<string>)
    requires other != today && other != tomorrow
    ensures Keeps(SameOrNextDay(today, tomorrow), Availability(today, ["slot"]))
    ensures !Keeps(SameOrNextDay(today, tomorrow), Availability(today, []))
    ensures !Keeps(SameOrNextDay(today, tomorrow), Availability(other, slots))
    ensures Keeps(AnyDate, Availability(other, ["slot"]))
  {
  }
}
