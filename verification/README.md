# Receipt vault: warranty and receipt bookkeeping

This project models the rules inside the pages of a receipt-vault app:

- Scan: saving a scanned receipt. It checks the required fields and uploads a data-URL image as bytes. It derives the warranty expiry by moving the purchase date on by N months with JavaScript's `Date.setMonth`, then builds the inserted row.
- Reminders: the days-left count, the three urgency tiers and the three sections built from one list of active warranties.
- Home: the thirty-day "expiring soon" window, the colour of its days-left line, the three most recent receipts and the "No receipts yet" card.
- Vault: filtering by category and by free-text search, and the advice shown when nothing is found.

Dates are civil dates in the proleptic Gregorian calendar. `DayNumber` counts days since 1970-01-01. Instants are whole milliseconds, with UTC throughout. The backend's answers are parameters of the model:

- the signed-in user;
- the decoded image;
- `Date.now()`;
- whether the upload and the insert succeed;
- the public URL.

The database queries are modelled as the selection they express: a `Filter` followed by a stable `SortBy` and, for the recent list, a `Take`.

Modules:

- `Wrappers` (Option)
- `Sequences` (filter, stable sort, limit, subsequences)
- `Calendar`
- `Text` (digits, `String(n)`, `parseInt`, `split`, `includes`, `toLowerCase`)
- `JsDate` (the `Date` object as a class `MutableDate`, with `setMonth` and `toISOString`)
- `Receipts` (the record and the days-left rule)
- `Scan`, `Reminders`, `Home`, `Vault`

Two facts of the code that shape the model:

- A day the target month lacks runs on into the next month; it is not clamped to the month's last day. So January 31st plus one month is March 3rd, or March 2nd in a leap year. This is `setMonth` as ECMAScript defines it.
- Each query orders by one column only and breaks no ties, by id or otherwise. The model's sort is stable: records with equal keys keep the order the database gave them (`Sequences.SortByStable`).

## Model

| member | source | states |
|---|---|---|
| Sequences.Filter | src/pages/Vault.tsx:52 | `Array.prototype.filter`: the result holds exactly the elements satisfying the predicate, never more often than the input |
| Sequences.FilterIsSubsequence | src/pages/Vault.tsx:56-59 | a filter keeps the survivors in their input order |
| Sequences.SortByStable | src/pages/Reminders.tsx:32 | the sort is stable: the records of one key come out in the order they went in |
| Sequences.SortBy | src/pages/Reminders.tsx:32 | `order by` ascending: the result is sorted by the key and is a permutation of the input |
| Sequences.FilterSortBy | src/pages/Home.tsx:63-69 | filtering a stably sorted list equals stably sorting the filtered list |
| Sequences.Take | src/pages/Home.tsx:55 | `limit n`: the first n elements, or all when there are fewer |
| Text.ParseIntDefined | src/pages/Scan.tsx:113 | `parseInt` gives a number exactly when a digit follows the blanks and the sign; the number's magnitude is below 10 to the length of that run of digits and writes as the run, and it is not positive after a minus sign and not negative otherwise |
| Text.ParseInt | src/pages/Scan.tsx:113 | `parseInt`: a number only when digits follow the blanks and sign, not positive after a minus and not negative otherwise; its full contract is `Text.ParseIntDefined` |
| Text.ParseIntOfIntText | src/pages/Scan.tsx:124 | `parseInt` reads back the decimal text of any integer |
| Text.BeforeFirst | src/pages/Scan.tsx:116 | `split(c)[0]` is the longest prefix without `c`, followed by `c` when shorter than the text |
| Text.ContainsAt | src/pages/Vault.tsx:57-58 | `includes` holds exactly when the query occurs at some position |
| Text.ToLower | src/pages/Vault.tsx:57-58 | `toLowerCase` keeps the length and folds each character by itself; `Text.ToLowerIdempotent` states what folding achieves |
| Text.Contains | src/pages/Vault.tsx:57-58 | `includes` holds only for a query no longer than the text; `Text.ContainsAt` gives both directions |
| Text.ToLowerIdempotent | src/pages/Vault.tsx:57-58 | lower-casing leaves no upper-case letter A to Z and applying it twice is applying it once |
| JsDate.ParseIsoDate | src/pages/Scan.tsx:114 | `new Date(text)` yields a real calendar date of years 0 to 9999 or the Invalid Date |
| JsDate.ParseIsoDateText | src/pages/Scan.tsx:114 | the text of every date of years 0 to 9999 parses back to that date |
| JsDate.IsoDateTextOfParse | src/pages/Scan.tsx:114 | every accepted text is the "YYYY-MM-DD" text of the date it parses to |
| JsDate.FourDigitYearsInRange | src/pages/Scan.tsx:114 | every valid date of the years 0 to 9999, all that `JsDate.ParseIsoDate` accepts, has a time value |
| JsDate.WithMonthIsMakeDay | src/pages/Scan.tsx:115 | the calendar `setMonth` agrees with MakeDay: same day number as first of target month plus day minus one, and is the only valid date with it |
| JsDate.WithMonth | src/pages/Scan.tsx:115 | `setMonth(m)` of a valid date is a valid date that keeps the day or runs on to day 1, 2 or 3; `JsDate.WithMonthIsMakeDay` ties it to MakeDay |
| JsDate.AddMonths | src/pages/Scan.tsx:114-115 | `setMonth(getMonth() + n)` gives a valid date; `JsDate.AddMonthsCalendar` and `JsDate.AddMonthsLater` state where it lands |
| JsDate.AddMonthsCalendar | src/pages/Scan.tsx:115 | n months later: the month index rises by n and the day is kept when it exists, otherwise the next month on day 1, 2 or 3 |
| JsDate.AddMonthsLater | src/pages/Scan.tsx:115 | zero months leaves the date alone; positive months give a strictly later date |
| JsDate.DatePartOfTimestamp | src/pages/Scan.tsx:116 | `toISOString().split('T')[0]` of a midnight date is its "YYYY-MM-DD" text |
| JsDate.MutableDate.constructor | src/pages/Scan.tsx:114 | a Date built from a parsed date holds that date and is not NaN |
| JsDate.MutableDate.Invalid | src/pages/Scan.tsx:114 | a Date built from a text that does not parse is the Invalid Date |
| JsDate.MutableDate.SetMonth | src/pages/Scan.tsx:115 | the date becomes `WithMonth` of the old date, or NaN exactly when that is outside the time range; NaN stays NaN |
| JsDate.MutableDate.ToIsoString | src/pages/Scan.tsx:116 | throws (None) exactly on NaN, otherwise gives the ISO timestamp of the date at midnight |
| Receipts.DaysUntil | src/pages/Reminders.tsx:48-51 | the ceiling of the millisecond difference over a day: (days-1)·day < expiry-now ≤ days·day |
| Receipts.ExpiryInstant | src/pages/Reminders.tsx:49 | `new Date(expiry).getTime()` is the UTC midnight that starts the expiry date: a whole multiple of a day whose day number is the date's; no expiry reads as the epoch |
| Receipts.DaysLeftCountsCalendarDays | src/pages/Reminders.tsx:48-51 | a record's days left, at any moment of a UTC day, is the number of calendar days from that day to its expiry date |
| Receipts.DaysUntilCountsCalendarDays | src/pages/Home.tsx:92-95 | at any moment of a UTC day the count is the number of calendar days to the expiry date |
| Reminders.UrgencyPartition | src/pages/Reminders.tsx:53-57 | critical iff ≤ 7, warning iff 8..30, normal iff ≥ 31, exactly one of the three |
| Reminders.UrgencyLevel | src/pages/Reminders.tsx:53-57 | `getUrgencyLevel`: critical iff ≤ 7, normal iff > 30; `Reminders.UrgencyPartition` proves the three tiers split the integers |
| Reminders.ActiveWarranties | src/pages/Reminders.tsx:27-32 | the fetch returns exactly the records with an expiry at or after now, each as often as in the records, ascending by expiry |
| Reminders.ActiveDaysNonNegative | src/pages/Reminders.tsx:30-31 | with one shared now, every listed warranty has at least 0 days left |
| Reminders.SectionsMatchUrgency | src/pages/Reminders.tsx:90-98 | each section's inline filter selects exactly the records of one urgency tier |
| Reminders.SectionsPartition | src/pages/Reminders.tsx:140-154 | the three sections together hold each fetched record exactly as often as the list, and a record is in a section iff it is that section's tier |
| Reminders.InOwnSection | src/pages/Reminders.tsx:196-204 | a fetched record is listed in the section of its own tier |
| Reminders.SectionsKeepOrder | src/pages/Reminders.tsx:97-98 | each section is a subsequence of the fetched list, so ascending by expiry |
| Reminders.DaysLeftLineSingular | src/pages/Reminders.tsx:123 | the line says "day left" exactly for one day in the urgent section |
| Reminders.DaysLeftLine | src/pages/Reminders.tsx:123 | the line starts with the number of days; `Reminders.DaysLeftLineSingular` says when it reads "day" |
| Reminders.RemindersPage | src/pages/Reminders.tsx:73-87 | loading shows the spinner exactly while loading, and "No active warranties" exactly for an empty loaded list; `Reminders.RemindersPageSections` covers the sections |
| Reminders.ShownSections | src/pages/Reminders.tsx:90 | a section is rendered exactly when non-empty, in the order urgent, month, future, each at most once |
| Reminders.RemindersPageSections | src/pages/Reminders.tsx:73-98 | a loaded non-empty list shows one to three sections, each the filter of its tier, in tier order, and exactly the non-empty ones |
| Reminders.FiveDaysLeftIsCritical | src/pages/Reminders.tsx:48-57 | an expiry on 2025-01-15 has five days left all through 2025-01-10 and is critical |
| Home.WindowEnd | src/pages/Home.tsx:60-61 | the window's end is exactly 30 days after now |
| Home.UpcomingExpiries | src/pages/Home.tsx:63-69 | the fetch returns exactly the records with now ≤ expiry ≤ window end, each as often as in the records, ascending by expiry |
| Home.UpcomingDaysLeft | src/pages/Home.tsx:92-95 | every listed warranty has from 0 to 30 days left |
| Home.UpcomingIsActiveWithinWindow | src/pages/Home.tsx:66-69 | the upcoming list is the Reminders page's active list cut at the window's end, in the same order |
| Home.HighlightIsCritical | src/pages/Home.tsx:185 | destructive colour iff days left ≤ 7, that is the critical tier; accent otherwise |
| Home.Highlight | src/pages/Home.tsx:185 | destructive exactly for 7 days or fewer; `Home.HighlightIsCritical` ties it to the critical tier |
| Home.HighlightMatchesUrgentSection | src/pages/Home.tsx:185 | an upcoming item is destructive exactly when the Reminders page lists it as urgent |
| Home.RecentReceipts | src/pages/Home.tsx:51-55 | at most three records, min(3, total), newest created first, drawn from the records |
| Home.RecentAreNewest | src/pages/Home.tsx:54-55 | no record left out is newer than a listed one |
| Home.ShowNoReceiptsCard | src/pages/Home.tsx:231 | the card never shows while loading, and once loaded shows exactly for an empty recent list; `Home.NoReceiptsCardWhenEmpty` ties that to having no receipts |
| Home.NoReceiptsCardWhenEmpty | src/pages/Home.tsx:231 | once loaded, the card shows exactly when the user has no receipt; never while loading |
| Vault.FilterChoicesAreCategories | src/pages/Vault.tsx:18 | the filter offers "All" followed by exactly the save categories, in order |
| Vault.VaultView | src/pages/Vault.tsx:48-63 | a receipt is in view iff it is in the chosen category and matches a non-empty query; the view is a subsequence of the list |
| Vault.FilterReceipts | src/pages/Vault.tsx:48-63 | the two-stage filter equals the one-filter view |
| Vault.ViewAllWithoutFilters | src/pages/Vault.tsx:49-62 | with "All" and no query the view is the whole list |
| Vault.ViewOfCategory | src/pages/Vault.tsx:51-53 | another category keeps only receipts of exactly that category, and all of them without a query |
| Vault.ViewOfQuery | src/pages/Vault.tsx:55-60 | with a query a receipt stays iff its lower-cased store name or category contains the lower-cased query; without a store name only through the category |
| Vault.QueryIgnoresCase | src/pages/Vault.tsx:57-58 | the search does not depend on the query's letter case |
| Vault.ViewIdempotent | src/pages/Vault.tsx:48-63 | filtering the view again with the same controls changes nothing |
| Vault.ViewKeepsOrder | src/pages/Vault.tsx:40 | the view keeps the loaded order, so stays sorted by purchase date |
| Vault.EmptyStateMessage | src/pages/Vault.tsx:125-127 | "Try adjusting your filters" exactly when a query or a category is set, "Start by scanning your first receipt" exactly otherwise; `Vault.EmptyStateAdvice` relates it to the view |
| Vault.EmptyStateAdvice | src/pages/Vault.tsx:125-127 | an empty view advises adjusting filters iff a filter is set; otherwise the user has no receipts at all |
| Scan.DefaultCategoryListed | src/pages/Scan.tsx:14-30 | eight distinct categories, and the default "Others" is the last of them |
| Scan.DefaultPurchaseDate | src/pages/Scan.tsx:28 | the initial purchase date is today's "YYYY-MM-DD" and parses back as today |
| Scan.ToBytesExact | src/pages/Scan.tsx:94 | each byte is its character's code when all codes are below 256 |
| Scan.CopyBytes | src/pages/Scan.tsx:92-95 | the loop fills a fresh array as long as the text with the low eight bits of each character code |
| Scan.OrNull | src/pages/Scan.tsx:121 | `field \|\| null`: null exactly for the empty text, the text otherwise |
| Scan.ExpiryFor | src/pages/Scan.tsx:112-117 | no expiry exactly when the months do not parse to a positive number, and an expiry only for a purchase date that parses; `Scan.ExpiryIsMonthsLater` states the date |
| Scan.ExpiryOfDate | src/pages/Scan.tsx:113-116 | a positive month count and a parsed date give the date n months later, or the RangeError beyond the time range |
| Scan.MonthsLaterText | src/pages/Scan.tsx:114-116 | new Date, setMonth(getMonth()+n), toISOString, split: the "YYYY-MM-DD" of n months later, or the RangeError |
| Scan.DeriveExpiry | src/pages/Scan.tsx:112-117 | the expiry step computes `ExpiryFor`, including the Invalid Date of an unparsable purchase date |
| Scan.SaveResult | src/pages/Scan.tsx:70-131 | the save stops exactly for a missing date or category, and saves only for a signed-in user and an accepted insert; the Scan lemmas below state the rest |
| Scan.HandleSave | src/pages/Scan.tsx:70-148 | one press of Save yields the outcome `SaveResult` describes: stop, failure with its cause, or the saved row |
| Scan.SaveNeedsDateAndCategory | src/pages/Scan.tsx:71-78 | the save stops with nothing uploaded or inserted iff the purchase date or category is empty |
| Scan.ExpiryOnlyForPositiveMonths | src/pages/Scan.tsx:113 | no expiry iff the months field is empty or does not parse to a positive number; a RangeError for a parsed date means the date is out of range |
| Scan.ExpiryNeedsDateAndMonths | src/pages/Scan.tsx:113-116 | a derived expiry comes from a parsed purchase date and a positive month count |
| Scan.ExpiryIsMonthsLater | src/pages/Scan.tsx:114-116 | the stored expiry is the purchase date n months later with rollover, and strictly after the purchase |
| Scan.ExpiryReadsBack | src/pages/Scan.tsx:116 | the stored expiry text parses back to the date n months later |
| Scan.ExpiryInRangeForRealisticWarranties | src/pages/Scan.tsx:114-116 | a warranty up to 1 200 000 months always yields a date |
| Scan.SavedRowFields | src/pages/Scan.tsx:119-129 | the row's user, date and category are the form's; store name, amount and notes are null exactly for an empty field and otherwise the form's text; months stored whenever the field is non-empty; expiry stored iff months positive |
| Scan.UploadOnlyForDataUrls | src/pages/Scan.tsx:89-101 | an upload happens only for a data URL, as a JPEG at the image path holding the decoded bytes |
| Scan.ImagePathInUserFolder | src/pages/Scan.tsx:98 | the file is "<user id>/<clock digits>.jpg", and the digits read back as the clock |
| Scan.DataUrlsAreUploaded | src/pages/Scan.tsx:89-101 | every data URL of a valid signed-in save is uploaded unless decoding fails, which stops the save |
| Scan.ImageUrlOnlyAfterUpload | src/pages/Scan.tsx:103-108 | a saved row has an image URL iff a data URL was uploaded successfully, and it is the public URL |
| Scan.FailedUploadStillSaves | src/pages/Scan.tsx:103-109 | a failed upload does not stop the save; the row then has no image URL |
| Scan.RejectedInsertSavesNothing | src/pages/Scan.tsx:131 | a refused insert never ends as a saved receipt |
| Scan.ExpiryOfDateText | src/pages/Scan.tsx:113-116 | the expiry for a date typed by the date input and a month count in digits |
| Scan.JanuaryThirtyFirstRunsOn | src/pages/Scan.tsx:115 | 2023-01-31 plus 1 month is 2023-03-03; 2024-01-31 plus 1 month is 2024-03-02 |
| Scan.TwelveMonthWarranty | src/pages/Scan.tsx:113-116 | 2024-01-15 plus 12 months is 2025-01-15 |
| Scan.ZeroMonthsStoredWithoutExpiry | src/pages/Scan.tsx:113-124 | "0" months is stored as 0 with no expiry |

## Left out

- Supabase: authentication, the table queries, the storage upload and `getPublicUrl` are a foreign backend. Their answers are parameters; each query is modelled as the selection and order it asks for.
- The database compares the expiry column with the ISO timestamp of now. The model compares the expiry's UTC midnight with `now` in milliseconds, so once now is past UTC midnight it drops a warranty expiring that day. A `date` column compares as the whole day, so the app still lists that warranty, with "0 days left".
- `atob`, and the `split(',')[1]` before it, are not modelled. The decoded text is a parameter, and `None` stands for the exception.
- The camera capture, the file-input fallback and `FileReader` are capture plumbing.
- Toasts, navigation, the `loading` flag of the Scan page and React state and effects are UI plumbing. The Home and Reminders loading flags are modelled as parameters.
- `parseFloat(amount)` and `toFixed(2)` are floating point. The row keeps the amount's text.
- `toLocaleDateString` date formatting is locale display.
- The images and the "Unknown Store" fallback are display only.
- Time zones are not modelled; every date and time is UTC. The app parses "YYYY-MM-DD" as UTC midnight, but `getMonth` and `setMonth` work on the local date and time, and `toISOString` writes the UTC date. Away from UTC the stored expiry differs from the model's for whole classes of input:
  - West of UTC, a purchase date reads as a time on the local day before. For a purchase not on the 1st of a month the stored expiry still comes out as the model's. For a purchase on the 1st, the local day is the last day of the month before. The stored expiry is then later than the model's by the length of the month before the purchase month minus the length of the month before the target month. That can be late, early or the same. At UTC-5: "2023-02-01" plus one month is stored as "2023-03-04" against the model's "2023-03-01"; "2024-03-01" plus one month as "2024-03-30" against "2024-04-01"; "2024-01-01" plus one month as "2024-02-01", as in the model.
  - In any zone with daylight saving, east or west of UTC, a span from standard time into summer time keeps the local time of day while the offset grows by an hour. The expiry is then stored one day earlier than it otherwise would be: "2024-01-15" plus six months is stored as "2024-07-14" in Berlin and in New York, against the model's "2024-07-15".
- The clock is one shared `now`. The pages read it many times:
  - The Reminders page reads `new Date()` in its query and again in every `getDaysUntilExpiry` call. That call runs for each record in each of the three section tests, in each section's filter and for each card (src/pages/Reminders.tsx:31, 90, 98, 100, 140-142, 151-153, 156, 196, 204, 206).
  - The Home page reads it for the window, for the query and for each card.
  - When a day boundary passes between two readings, a record can fall into no section, or a section heading can show with no cards. The model, with its single `now`, does not capture this.
- Scan.CopyBytes: characters are Unicode scalar values, not UTF-16 code units, so `charCodeAt` of a character above U+FFFF is not modelled. Decoded base64 never holds one.
- Text.ParseInt: the "0x" hexadecimal prefix and non-decimal radixes are not modelled. The fields hold decimal digits.
- Text.ParseInt: returns the exact integer, while `parseInt` returns a double. Beyond 2^53 in magnitude the app gets a rounded number ("-99999999999999999999" reads as -1e20). `Scan.RowFor` stores the exact integer as `warrantyMonths`. For a positive count that large both the app and the model end in a RangeError, so only the stored month count of a huge negative entry differs.
- Text.ToLower: folds only the ASCII letters A to Z, not full Unicode case mapping.
- JsDate.ParseIsoDate: accepts only the strict "YYYY-MM-DD" form with a four-digit year. Other texts some engines accept, such as date-times, are treated as the Invalid Date.
- JsDate.ParseIsoDate: a date input accepts years of four or more digits, up to 275760, so its value can be "12345-06-15". ECMAScript leaves a five- or six-digit year without a sign to each engine. The model treats such a text as the Invalid Date, so with positive months `Scan.ExpiryFor` gives a RangeError and the save fails. An engine that parses the text would store a "+012345-…" expiry instead.
- src/components/Layout.tsx (navigation chrome) and capacitor.config.ts (static configuration) are not part of this model.
