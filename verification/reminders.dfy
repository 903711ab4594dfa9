/** The Reminders page: the active warranties it fetches, the urgency tier of each,
    and the three sections it renders from one ascending list. */
module Reminders {
  import opened Wrappers
  import opened Calendar
  import opened Sequences
  import opened Receipts
  import opened Text

  datatype Urgency = Critical | Warning | Normal

  /** `getUrgencyLevel`. */
  function UrgencyLevel(days: int): (level: Urgency)
    ensures level == Critical <==> days <= 7
    ensures level == Normal <==> days > 30
  {
    if days <= 7 then Critical
    else if days <= 30 then Warning
    else Normal
  }

  /** The tiers cover every integer, one tier each, with closed boundaries at 7 and 30. */
  lemma UrgencyPartition(days: int)
    ensures UrgencyLevel(days) == Critical <==> days <= 7
    ensures UrgencyLevel(days) == Warning <==> 8 <= days <= 30
    ensures UrgencyLevel(days) == Normal <==> 31 <= days
    ensures ExactlyOne(UrgencyLevel(days) == Critical, UrgencyLevel(days) == Warning,
                       UrgencyLevel(days) == Normal)
  {
  }

  /** The query's filter: an expiry is set and is not before `now`. */
  predicate IsActive(r: Receipt, now: int) {
    r.warrantyExpiry.Some? && ExpiryInstant(r) >= now
  }

  /** What the fetch returns: the records with an expiry at or after `now`, ascending
      by expiry (records with equal expiry keep the order they were given in). */
  function ActiveWarranties(records: seq<Receipt>, now: int): (r: seq<Receipt>)
    ensures forall x :: x in r ==> x.warrantyExpiry.Some? && ExpiryInstant(x) >= now
    ensures forall x :: x in records && IsActive(x, now) ==> x in r
    ensures multiset(r) == multiset(Filter(records, x => IsActive(x, now)))
    ensures SortedBy(r, ExpiryInstant)
  {
    var active := Filter(records, x => IsActive(x, now));
    var r := SortBy(active, ExpiryInstant);
    assert forall x :: x in r <==> x in active by {
      forall x ensures x in r <==> x in active {
        assert x in r <==> x in multiset(r);
      }
    }
    r
  }

  /** With one shared `now`, every listed warranty has a non-negative number of days left. */
  lemma ActiveDaysNonNegative(records: seq<Receipt>, now: int)
    ensures forall x :: x in ActiveWarranties(records, now) ==> DaysLeft(x, now) >= 0
  {
    forall x | x in ActiveWarranties(records, now) ensures DaysLeft(x, now) >= 0 {
      assert ExpiryInstant(x) - now >= 0;
    }
  }

  /** The three inline filters of the page. */
  predicate InUrgentSection(r: Receipt, now: int) {
    DaysLeft(r, now) <= 7
  }

  predicate InMonthSection(r: Receipt, now: int) {
    var days := DaysLeft(r, now);
    days > 7 && days <= 30
  }

  predicate InFutureSection(r: Receipt, now: int) {
    DaysLeft(r, now) > 30
  }

  /** Each inline filter selects exactly the records of one urgency tier. */
  lemma SectionsMatchUrgency(r: Receipt, now: int)
    ensures InUrgentSection(r, now) <==> UrgencyLevel(DaysLeft(r, now)) == Critical
    ensures InMonthSection(r, now) <==> UrgencyLevel(DaysLeft(r, now)) == Warning
    ensures InFutureSection(r, now) <==> UrgencyLevel(DaysLeft(r, now)) == Normal
  {
  }

  /** The records the section of `tier` lists, in the order they were fetched. */
  function Section(expiring: seq<Receipt>, now: int, tier: Urgency): seq<Receipt> {
    match tier
    case Critical => Filter(expiring, r => InUrgentSection(r, now))
    case Warning => Filter(expiring, r => InMonthSection(r, now))
    case Normal => Filter(expiring, r => InFutureSection(r, now))
  }

  /** Every fetched record is listed in exactly one section, the one of its tier, and the
      three sections together hold the fetched list and nothing else. */
  lemma SectionsPartition(expiring: seq<Receipt>, now: int)
    ensures multiset(Section(expiring, now, Critical)) + multiset(Section(expiring, now, Warning))
            + multiset(Section(expiring, now, Normal)) == multiset(expiring)
    ensures forall x, tier :: x in expiring ==>
              (x in Section(expiring, now, tier) <==> UrgencyLevel(DaysLeft(x, now)) == tier)
  {
    FilterPartition(expiring, r => InUrgentSection(r, now), r => InMonthSection(r, now),
                    r => InFutureSection(r, now));
  }

  /** A fetched record is listed in the section of its own tier. */
  lemma InOwnSection(expiring: seq<Receipt>, now: int, x: Receipt)
    requires x in expiring
    ensures x in Section(expiring, now, UrgencyLevel(DaysLeft(x, now)))
  {
    SectionsMatchUrgency(x, now);
  }

  /** Each section keeps the fetched order, so it is ascending by expiry as the list is. */
  lemma SectionsKeepOrder(expiring: seq<Receipt>, now: int, tier: Urgency)
    requires SortedBy(expiring, ExpiryInstant)
    ensures IsSubsequence(Section(expiring, now, tier), expiring)
    ensures SortedBy(Section(expiring, now, tier), ExpiryInstant)
  {
    match tier {
      case Critical => FilterIsSubsequence(expiring, r => InUrgentSection(r, now));
      case Warning => FilterIsSubsequence(expiring, r => InMonthSection(r, now));
      case Normal => FilterIsSubsequence(expiring, r => InFutureSection(r, now));
    }
    SubsequenceSorted(Section(expiring, now, tier), expiring, ExpiryInstant);
  }

  /** The "N day(s) left" line of a card: only the urgent section says "day" for one. */
  function DaysLeftLine(tier: Urgency, days: int): (line: string)
    ensures |IntText(days)| < |line| && line[..|IntText(days)|] == IntText(days)
  {
    IntText(days) + (if tier == Critical && days == 1 then " day left" else " days left")
  }

  lemma DaysLeftLineSingular(tier: Urgency, days: int)
    ensures DaysLeftLine(tier, days) == IntText(days) + " day left"
            <==> tier == Critical && days == 1
  {
    var n := |IntText(days)|;
    if !(tier == Critical && days == 1) {
      assert |DaysLeftLine(tier, days)| == n + |" days left"|;
      assert |IntText(days) + " day left"| == n + |" day left"|;
    }
  }

  /** What the page shows. */
  datatype Page =
    | LoadingReminders
    | NoActiveWarranties
    | Sections(sections: seq<(Urgency, seq<Receipt>)>)

  /** Sections are rendered urgent first, then this month, then future. */
  function Rank(t: Urgency): int {
    match t
    case Critical => 0
    case Warning => 1
    case Normal => 2
  }

  /** The page for the fetched list: a heading and its cards for each non-empty section,
      urgent first, then this month, then future. */
  function RemindersPage(loading: bool, expiring: seq<Receipt>, now: int): (page: Page)
    ensures page.LoadingReminders? <==> loading
    ensures page.NoActiveWarranties? <==> !loading && expiring == []
  {
    if loading then LoadingReminders
    else if |expiring| == 0 then NoActiveWarranties
    else Sections(ShownSections(Section(expiring, now, Critical), Section(expiring, now, Warning),
                                Section(expiring, now, Normal)))
  }

  /** The section of `tier` among the three. */
  function SectionFor(tier: Urgency, urgent: seq<Receipt>, month: seq<Receipt>, future: seq<Receipt>)
    : seq<Receipt>
  {
    match tier
    case Critical => urgent
    case Warning => month
    case Normal => future
  }

  /** The three `length > 0 &&` blocks of the page, in order. */
  function ShownSections(urgent: seq<Receipt>, month: seq<Receipt>, future: seq<Receipt>)
    : (r: seq<(Urgency, seq<Receipt>)>)
    ensures |r| <= 3
    ensures forall i :: 0 <= i < |r| ==> r[i].1 != [] && r[i].1 == SectionFor(r[i].0, urgent, month, future)
    ensures forall i, j :: 0 <= i < j < |r| ==> Rank(r[i].0) < Rank(r[j].0)
    ensures forall t :: SectionFor(t, urgent, month, future) != [] <==>
              (t, SectionFor(t, urgent, month, future)) in r
  {
    (if urgent == [] then [] else [(Critical, urgent)])
    + (if month == [] then [] else [(Warning, month)])
    + (if future == [] then [] else [(Normal, future)])
  }

  /** Once loaded, a non-empty list shows at least one section; a section is shown
      exactly when it has cards, and the sections come in tier order, each at most once. */
  lemma RemindersPageSections(expiring: seq<Receipt>, now: int)
    requires |expiring| > 0
    ensures RemindersPage(false, expiring, now).Sections?
    ensures var ss := RemindersPage(false, expiring, now).sections;
            && 1 <= |ss| <= 3
            && (forall i :: 0 <= i < |ss| ==> ss[i].1 != [] && ss[i].1 == Section(expiring, now, ss[i].0))
            && (forall i, j :: 0 <= i < j < |ss| ==> Rank(ss[i].0) < Rank(ss[j].0))
            && (forall t :: Section(expiring, now, t) != [] <==> (t, Section(expiring, now, t)) in ss)
  {
    var urgent, month, future :=
      Section(expiring, now, Critical), Section(expiring, now, Warning), Section(expiring, now, Normal);
    var ss := ShownSections(urgent, month, future);
    assert RemindersPage(false, expiring, now) == Sections(ss);
    forall t ensures Section(expiring, now, t) == SectionFor(t, urgent, month, future) {
      match t {
        case Critical =>
        case Warning =>
        case Normal =>
      }
    }
    var x := expiring[0];
    var t := UrgencyLevel(DaysLeft(x, now));
    InOwnSection(expiring, now, x);
    assert (t, Section(expiring, now, t)) in ss;
  }

  /** A warranty expiring on 2025-01-15 has, at any time of 2025-01-10, five days left
      and is in the critical tier. */
  lemma FiveDaysLeftIsCritical(r: Receipt, msIntoDay: int)
    requires r.warrantyExpiry == Some(Date(2025, 1, 15)) && 0 <= msIntoDay < MsPerDay
    ensures DaysLeft(r, DayNumber(Date(2025, 1, 10)) * MsPerDay + msIntoDay) == 5
    ensures UrgencyLevel(DaysLeft(r, DayNumber(Date(2025, 1, 10)) * MsPerDay + msIntoDay)) == Critical
  {
    DaysUntilCountsCalendarDays(Date(2025, 1, 15), DayNumber(Date(2025, 1, 10)), msIntoDay);
  }
}
