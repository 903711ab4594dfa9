/** The Home page: the three most recent receipts, the warranties that expire within
    the next thirty days, and how each of those is coloured. */
module Home {
  import opened Calendar
  import opened Sequences
  import opened Receipts
  import opened Reminders

  /** `thirtyDaysFromNow`: `setDate(getDate() + 30)` on the current time, thirty
      whole days later. */
  function WindowEnd(now: int): (end: int)
    ensures end - now == 30 * MsPerDay
    ensures DaysUntil(end, now) == 30
  {
    now + 30 * MsPerDay
  }

  /** The query's filter: an expiry is set and lies between now and the window's end,
      both ends included. */
  predicate IsUpcoming(r: Receipt, now: int) {
    r.warrantyExpiry.Some? && now <= ExpiryInstant(r) <= WindowEnd(now)
  }

  /** What the expiring-soon fetch returns: the records expiring in the window,
      ascending by expiry (equal expiries in the order they were given in). */
  function UpcomingExpiries(records: seq<Receipt>, now: int): (r: seq<Receipt>)
    ensures forall x :: x in r <==> x in records && IsUpcoming(x, now)
    ensures multiset(r) == multiset(Filter(records, x => IsUpcoming(x, now)))
    ensures SortedBy(r, ExpiryInstant)
  {
    var upcoming := Filter(records, x => IsUpcoming(x, now));
    var r := SortBy(upcoming, ExpiryInstant);
    assert forall x :: x in r <==> x in upcoming by {
      forall x ensures x in r <==> x in upcoming {
        assert x in r <==> x in multiset(r);
      }
    }
    r
  }

  /** Every listed warranty has between 0 and 30 days left, both included. */
  lemma UpcomingDaysLeft(records: seq<Receipt>, now: int)
    ensures forall x :: x in UpcomingExpiries(records, now) ==> 0 <= DaysLeft(x, now) <= 30
  {
    forall x | x in UpcomingExpiries(records, now) ensures 0 <= DaysLeft(x, now) <= 30 {
      var d := DaysLeft(x, now);
      var gap := ExpiryInstant(x) - now;
      assert 0 <= gap <= 30 * MsPerDay;
      assert (d - 1) * MsPerDay < gap <= d * MsPerDay;
    }
  }

  /** The upcoming list is the Reminders page's active list cut off at the window's
      end: the same records in the same order. */
  lemma UpcomingIsActiveWithinWindow(records: seq<Receipt>, now: int)
    ensures UpcomingExpiries(records, now)
            == Filter(ActiveWarranties(records, now), x => ExpiryInstant(x) <= WindowEnd(now))
  {
    var active := x => IsActive(x, now);
    var inWindow := x => ExpiryInstant(x) <= WindowEnd(now);
    var upcoming := x => IsUpcoming(x, now);
    var selected := Filter(records, active);
    assert ActiveWarranties(records, now) == SortBy(selected, ExpiryInstant);
    FilterSortBy(selected, ExpiryInstant, inWindow);
    FilterFilter(records, active, inWindow, upcoming);
    FilterAgree(records, upcoming, x => IsUpcoming(x, now));
  }

  /** The colour of the days-left line of an upcoming item. */
  datatype Tone = Destructive | Accent

  function Highlight(days: int): (tone: Tone)
    ensures tone == Destructive <==> days <= 7
  {
    if days <= 7 then Destructive else Accent
  }

  /** The destructive colour marks exactly the critical tier of the Reminders page. */
  lemma HighlightIsCritical(days: int)
    ensures Highlight(days) == Destructive <==> UrgencyLevel(days) == Critical
    ensures Highlight(days) == Accent <==> UrgencyLevel(days) != Critical
  {
  }

  /** An upcoming item is coloured destructive exactly when the Reminders page lists it
      under "Expiring This Week". */
  lemma HighlightMatchesUrgentSection(records: seq<Receipt>, now: int, x: Receipt)
    requires x in UpcomingExpiries(records, now)
    ensures x in ActiveWarranties(records, now)
    ensures Highlight(DaysLeft(x, now)) == Destructive
            <==> x in Section(ActiveWarranties(records, now), now, Critical)
  {
    assert IsActive(x, now);
    SectionsPartition(ActiveWarranties(records, now), now);
  }

  /** Newer first: `order by created_at desc`. */
  function NewestFirst(r: Receipt): int {
    -r.createdAt
  }

  /** The recent-receipts fetch: the three newest records, newest first. */
  function RecentReceipts(records: seq<Receipt>): (r: seq<Receipt>)
    ensures |r| == if |records| < 3 then |records| else 3
    ensures forall i, j :: 0 <= i < j < |r| ==> r[i].createdAt >= r[j].createdAt
    ensures multiset(r) <= multiset(records)
  {
    var sorted := SortBy(records, NewestFirst);
    var r := Take(sorted, 3);
    assert sorted == r + sorted[|r|..];
    assert multiset(sorted) == multiset(r) + multiset(sorted[|r|..]);
    r
  }

  /** No record left out of the recent list is newer than one shown. */
  lemma RecentAreNewest(records: seq<Receipt>)
    ensures forall x, y :: x in records && x !in RecentReceipts(records) && y in RecentReceipts(records)
              ==> x.createdAt <= y.createdAt
  {
    var sorted := SortBy(records, NewestFirst);
    var r := RecentReceipts(records);
    assert r == sorted[..|r|];
    forall x, y | x in records && x !in r && y in r ensures x.createdAt <= y.createdAt {
      assert x in multiset(sorted);
      var j :| 0 <= j < |sorted| && sorted[j] == x;
      var i :| 0 <= i < |r| && r[i] == y;
      assert j >= |r|;
      assert sorted[i] == y;
      assert NewestFirst(sorted[i]) <= NewestFirst(sorted[j]);
    }
  }

  /** The "No receipts yet" card. */
  function ShowNoReceiptsCard(loading: bool, recent: seq<Receipt>): (shown: bool)
    ensures shown ==> !loading
    ensures !loading ==> (shown <==> recent == [])
  {
    !loading && |recent| == 0
  }

  /** Once loaded, the card shows exactly when the user has no receipt at all. */
  lemma NoReceiptsCardWhenEmpty(records: seq<Receipt>)
    ensures ShowNoReceiptsCard(false, RecentReceipts(records)) <==> records == []
    ensures !ShowNoReceiptsCard(true, RecentReceipts(records))
  {
  }
}
