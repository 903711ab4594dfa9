/** The receipt record as the pages read it back from the `receipts` table, and the
    days-left rule they share. */
module Receipts {
  import opened Wrappers
  import opened Calendar

  /** One row of `receipts`; the nullable columns are options. `createdAt` is the
      `created_at` instant in milliseconds. */
  datatype Receipt = Receipt(
    id: string,
    storeName: Option<string>,
    purchaseDate: string,
    category: string,
    warrantyExpiry: Option<CivilDate>,
    imageUrl: Option<string>,
    createdAt: int)

  /** `new Date(r.warranty_expiry).getTime()`: UTC midnight of the expiry date. A missing
      expiry is `new Date(null)`, the epoch. */
  function ExpiryInstant(r: Receipt): (instant: int)
    ensures instant % MsPerDay == 0
    ensures r.warrantyExpiry.Some? ==> instant / MsPerDay == DayNumber(r.warrantyExpiry.value)
    ensures r.warrantyExpiry.None? ==> instant == 0
  {
    match r.warrantyExpiry
    case Some(d) =>
      DivOfParts(DayNumber(d) * MsPerDay, MsPerDay, DayNumber(d), 0);
      DayNumber(d) * MsPerDay
    case None => 0
  }

  /** `Math.ceil((expiry - now) / 86_400_000)` on whole milliseconds. */
  function DaysUntil(expiry: int, now: int): (days: int)
    ensures (days - 1) * MsPerDay < expiry - now <= days * MsPerDay
  {
    -((now - expiry) / MsPerDay)
  }

  /** `getDaysUntilExpiry(r.warranty_expiry)` against one shared `now`. */
  function DaysLeft(r: Receipt, now: int): int {
    DaysUntil(ExpiryInstant(r), now)
  }

  /** At any moment of a UTC day, the days left to an expiry date are the whole number
      of calendar days from that day to the expiry date; so the count does not change
      during a day. */
  lemma DaysUntilCountsCalendarDays(expiry: CivilDate, today: int, msIntoDay: int)
    requires 0 <= msIntoDay < MsPerDay
    ensures DaysUntil(DayNumber(expiry) * MsPerDay, today * MsPerDay + msIntoDay)
            == DayNumber(expiry) - today
  {
    var k := DaysUntil(DayNumber(expiry) * MsPerDay, today * MsPerDay + msIntoDay);
    var e := DayNumber(expiry);
    assert (k - 1) * MsPerDay < (e - today) * MsPerDay - msIntoDay <= k * MsPerDay;
  }

  /** A record's days left, at any moment of a UTC day, is the number of calendar days
      from that day to its expiry date. */
  lemma DaysLeftCountsCalendarDays(r: Receipt, expiry: CivilDate, today: int, msIntoDay: int)
    requires r.warrantyExpiry == Some(expiry) && 0 <= msIntoDay < MsPerDay
    ensures ExpiryInstant(r) == DayNumber(expiry) * MsPerDay
    ensures DaysLeft(r, today * MsPerDay + msIntoDay) == DayNumber(expiry) - today
  {
    DaysUntilCountsCalendarDays(expiry, today, msIntoDay);
  }
}
