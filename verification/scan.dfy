/** The Scan page's save: the required-field check, the image upload, the warranty
    expiry derived from the purchase date and the number of warranty months, and the
    row written to `receipts`. The backend's answers (the signed-in user, the decoded
    image, the clock, whether the upload and the insert succeed, the public URL) are
    parameters. */
module Scan {
  import opened Wrappers
  import opened Calendar
  import opened Text
  import opened JsDate

  /** The categories a receipt can be saved with. */
  const Categories: seq<string> :=
    ["Electronics", "Appliances", "Food & Dining", "Travel", "Health", "Fashion",
     "Home & Garden", "Others"]

  /** The category the form starts with. */
  const DefaultCategory: string := "Others"

  lemma DefaultCategoryListed()
    ensures DefaultCategory in Categories && DefaultCategory == Categories[|Categories| - 1]
    ensures |Categories| == 8
    ensures forall i, j :: 0 <= i < j < |Categories| ==> Categories[i] != Categories[j]
  {
  }

  /** The purchase date the form starts with: today's date as "YYYY-MM-DD", which the
      save reads back as today. */
  function DefaultPurchaseDate(today: Date): (text: string)
    requires ValidDate(today) && 0 <= today.year <= 9999
    ensures ParseIsoDate(text) == Some(today)
  {
    DatePartOfTimestamp(today);
    ParseIsoDateText(today);
    BeforeFirst(IsoTimestamp(today), 'T')
  }

  /** An element of a `Uint8Array`. */
  newtype byte = b: int | 0 <= b < 256

  /** Storing a character code into a `Uint8Array` keeps its low eight bits. */
  function ToByte(c: char): byte {
    (c as int % 256) as byte
  }

  function ToBytes(binary: string): (bytes: seq<byte>)
    ensures |bytes| == |binary|
  {
    seq(|binary|, i requires 0 <= i < |binary| => ToByte(binary[i]))
  }

  /** The decoded text of a data URL has only character codes below 256, and then every
      byte is exactly its character's code. */
  lemma ToBytesExact(binary: string)
    requires forall i :: 0 <= i < |binary| ==> binary[i] as int < 256
    ensures forall i :: 0 <= i < |binary| ==> ToBytes(binary)[i] as int == binary[i] as int
  {
  }

  /** The copy loop: a fresh byte array as long as the decoded text, filled one
      character code at a time. */
  method CopyBytes(binary: string) returns (bytes: array<byte>)
    ensures fresh(bytes)
    ensures bytes.Length == |binary|
    ensures bytes[..] == ToBytes(binary)
  {
    bytes := new byte[|binary|];
    for i := 0 to |binary|
      invariant forall k :: 0 <= k < i ==> bytes[k] == ToByte(binary[k])
    {
      bytes[i] := ToByte(binary[i]);
    }
  }

  /** The form's fields, as the inputs hold them. */
  datatype Form = Form(
    storeName: string,
    purchaseDate: string,
    amount: string,
    category: string,
    warrantyMonths: string,
    notes: string)

  /** One upload to the `receipts` bucket. */
  datatype Upload = Upload(path: string, bytes: seq<byte>, contentType: string)

  /** The row inserted into `receipts`. `amount` keeps the text `parseFloat` reads. */
  datatype Row = Row(
    userId: string,
    storeName: Option<string>,
    purchaseDate: string,
    amount: Option<string>,
    warrantyMonths: Option<int>,
    warrantyExpiry: Option<string>,
    category: string,
    notes: Option<string>,
    imageUrl: Option<string>)

  datatype SaveError =
    | NotAuthenticated   // no signed-in user
    | DecodeFailed       // `atob` rejected the image's payload
    | InvalidTime        // `toISOString` threw a RangeError on an Invalid Date
    | InsertRejected     // the database refused the row

  /** What one press of Save does. `upload` is the upload that was attempted, if any. */
  datatype SaveOutcome =
    | MissingInformation
    | Failed(upload: Option<Upload>, error: SaveError)
    | Saved(upload: Option<Upload>, row: Row)

  /** The warranty expiry the save derives: none, a "YYYY-MM-DD" text, or the
      RangeError of an Invalid Date. */
  datatype ExpiryOutcome = NoExpiry | ExpiresOn(text: string) | RangeError

  /** `field || null`: an empty text is stored as null. */
  function OrNull(field: string): (r: Option<string>)
    ensures r.None? <==> field == ""
    ensures r.Some? ==> r.value == field
  {
    if field == "" then None else Some(field)
  }

  /** The image is a data URL, the only kind that is uploaded. */
  predicate IsDataUrl(image: Option<string>) {
    image.Some? && StartsWith(image.value, "data:")
  }

  /** `${user.id}/${Date.now()}.jpg`. */
  function ImagePath(userId: string, clockMs: nat): string {
    userId + "/" + NatText(clockMs) + ".jpg"
  }

  /** The number of warranty months, when the field holds a positive one. */
  function PositiveMonths(warrantyMonths: string): Option<int> {
    if warrantyMonths != "" && ParseInt(warrantyMonths).Some? && ParseInt(warrantyMonths).value > 0
    then ParseInt(warrantyMonths)
    else None
  }

  /** The expiry: the purchase date `n` months later, written as "YYYY-MM-DD", when the
      field holds a positive `n`. */
  function ExpiryFor(purchaseDate: string, warrantyMonths: string): (e: ExpiryOutcome)
    ensures e.NoExpiry? <==> PositiveMonths(warrantyMonths).None?
    ensures e.ExpiresOn? ==> ParseIsoDate(purchaseDate).Some?
  {
    match PositiveMonths(warrantyMonths)
    case None => NoExpiry
    case Some(n) =>
      match ParseIsoDate(purchaseDate)
      case None => RangeError
      case Some(d) =>
        var e := AddMonths(d, n);
        AddMonthsCalendar(d, n);
        if InTimeRange(e) then ExpiresOn(IsoDateText(e)) else RangeError
  }

  /** The row for a form, once the image URL and the expiry are known. */
  function RowFor(form: Form, userId: string, imageUrl: Option<string>, warrantyExpiry: Option<string>)
    : Row
  {
    Row(userId, OrNull(form.storeName), form.purchaseDate, OrNull(form.amount),
        if form.warrantyMonths == "" then None else ParseInt(form.warrantyMonths),
        warrantyExpiry, form.category, OrNull(form.notes), imageUrl)
  }

  /** The whole save, as one value: what is uploaded and inserted, or why it stops. */
  function SaveResult(form: Form, image: Option<string>, user: Option<string>,
                      binary: Option<string>, clockMs: nat, uploadSucceeds: bool,
                      publicUrl: string, insertSucceeds: bool): (outcome: SaveOutcome)
    ensures outcome.MissingInformation? <==> form.purchaseDate == "" || form.category == ""
    ensures outcome.Saved? ==> user.Some? && insertSucceeds
  {
    if form.purchaseDate == "" || form.category == "" then MissingInformation
    else if user.None? then Failed(None, NotAuthenticated)
    else if IsDataUrl(image) && binary.None? then Failed(None, DecodeFailed)
    else
      var upload :=
        if IsDataUrl(image) then Some(Upload(ImagePath(user.value, clockMs), ToBytes(binary.value), "image/jpeg"))
        else None;
      var imageUrl := if upload.Some? && uploadSucceeds then Some(publicUrl) else None;
      match ExpiryFor(form.purchaseDate, form.warrantyMonths)
      case RangeError => Failed(upload, InvalidTime)
      case NoExpiry =>
        if insertSucceeds then Saved(upload, RowFor(form, user.value, imageUrl, None))
        else Failed(upload, InsertRejected)
      case ExpiresOn(text) =>
        if insertSucceeds then Saved(upload, RowFor(form, user.value, imageUrl, Some(text)))
        else Failed(upload, InsertRejected)
  }

  /** For a positive month count and a purchase date that parses, the expiry is the
      date that many months later, or the RangeError when that date has no time value. */
  lemma ExpiryOfDate(purchaseDate: string, warrantyMonths: string, d: Date, n: int)
    requires PositiveMonths(warrantyMonths) == Some(n) && ParseIsoDate(purchaseDate) == Some(d)
    ensures ValidDate(d) && ValidDate(AddMonths(d, n))
    ensures ExpiryFor(purchaseDate, warrantyMonths)
            == if InTimeRange(AddMonths(d, n)) then ExpiresOn(IsoDateText(AddMonths(d, n))) else RangeError
  {
    AddMonthsCalendar(d, n);
  }

  /** `new Date(purchaseDate)` for a date that parsed, moved on with
      `setMonth(getMonth() + n)` and cut to the text before the 'T' of its
      `toISOString()`; `None` is the RangeError of a date beyond the time range. */
  method MonthsLaterText(d: Date, n: int) returns (text: Option<string>)
    requires ValidDate(d) && 0 <= d.year <= 9999
    ensures ValidDate(AddMonths(d, n))
    ensures text.None? <==> !InTimeRange(AddMonths(d, n))
    ensures text.Some? ==> text.value == IsoDateText(AddMonths(d, n))
  {
    FourDigitYearsInRange(d);
    var expiry := new MutableDate(d);
    expiry.SetMonth(expiry.month + n);
    var iso := expiry.ToIsoString();
    if iso.None? {
      return None;
    }
    DatePartOfTimestamp(expiry.AsDate());
    text := Some(BeforeFirst(iso.value, 'T'));
  }

  /** The expiry step of `handleSave`: nothing unless the months field holds a positive
      number; otherwise the purchase date that many months later, where a purchase
      date that does not parse is an Invalid Date, whose `toISOString` throws. */
  method DeriveExpiry(purchaseDate: string, warrantyMonths: string) returns (e: ExpiryOutcome)
    ensures e == ExpiryFor(purchaseDate, warrantyMonths)
  {
    e := NoExpiry;
    var months := ParseInt(warrantyMonths);
    if warrantyMonths != "" && months.Some? && months.value > 0 {
      var n := months.value;
      assert PositiveMonths(warrantyMonths) == Some(n);
      var parsed := ParseIsoDate(purchaseDate);
      if parsed.None? {
        // getMonth() of an Invalid Date is NaN, setMonth(NaN) leaves it invalid
        // and toISOString() throws.
        var expiry := new MutableDate.Invalid();
        expiry.SetMonth(expiry.month + n);
        var iso := expiry.ToIsoString();
        assert iso.None?;
        return RangeError;
      }
      var d := parsed.value;
      ExpiryOfDate(purchaseDate, warrantyMonths, d, n);
      var text := MonthsLaterText(d, n);
      if text.None? {
        return RangeError;
      }
      e := ExpiresOn(text.value);
    }
  }

  /** `handleSave`. `binary` is what `atob` gives for the data URL's payload (`None`
      when it throws), `clockMs` is `Date.now()`, `publicUrl` is what `getPublicUrl`
      answers. */
  method HandleSave(form: Form, image: Option<string>, user: Option<string>,
                    binary: Option<string>, clockMs: nat, uploadSucceeds: bool,
                    publicUrl: string, insertSucceeds: bool)
    returns (outcome: SaveOutcome)
    ensures outcome == SaveResult(form, image, user, binary, clockMs, uploadSucceeds, publicUrl, insertSucceeds)
  {
    if form.purchaseDate == "" || form.category == "" {
      return MissingInformation;
    }
    if user.None? {
      return Failed(None, NotAuthenticated);
    }
    var userId := user.value;

    var imageUrl: Option<string> := None;
    var upload: Option<Upload> := None;
    if IsDataUrl(image) {
      if binary.None? {
        return Failed(None, DecodeFailed);
      }
      var bytes := CopyBytes(binary.value);
      upload := Some(Upload(ImagePath(userId, clockMs), bytes[..], "image/jpeg"));
      if uploadSucceeds {
        imageUrl := Some(publicUrl);
      }
    }

    var warrantyExpiry := DeriveExpiry(form.purchaseDate, form.warrantyMonths);
    if warrantyExpiry.RangeError? {
      return Failed(upload, InvalidTime);
    }

    if !insertSucceeds {
      return Failed(upload, InsertRejected);
    }
    var expiryText := if warrantyExpiry.ExpiresOn? then Some(warrantyExpiry.text) else None;
    outcome := Saved(upload, RowFor(form, userId, imageUrl, expiryText));
  }

  /** Save stops before anything else, uploading and inserting nothing, exactly when
      the purchase date or the category is empty. */
  lemma SaveNeedsDateAndCategory(form: Form, image: Option<string>, user: Option<string>,
                                 binary: Option<string>, clockMs: nat, uploadSucceeds: bool,
                                 publicUrl: string, insertSucceeds: bool)
    ensures SaveResult(form, image, user, binary, clockMs, uploadSucceeds, publicUrl, insertSucceeds)
              .MissingInformation?
            <==> form.purchaseDate == "" || form.category == ""
  {
  }

  /** An expiry is derived exactly when the months field is non-empty and `parseInt`
      reads a positive number from it; for a purchase date that parses, it is then a
      date unless that date lies beyond the time range. */
  lemma ExpiryOnlyForPositiveMonths(purchaseDate: string, warrantyMonths: string)
    ensures ExpiryFor(purchaseDate, warrantyMonths).NoExpiry?
            <==> !(warrantyMonths != "" && ParseInt(warrantyMonths).Some? && ParseInt(warrantyMonths).value > 0)
    ensures ExpiryFor(purchaseDate, warrantyMonths).RangeError? && ParseIsoDate(purchaseDate).Some? ==>
              var d := ParseIsoDate(purchaseDate).value;
              ValidDate(AddMonths(d, ParseInt(warrantyMonths).value))
              && !InTimeRange(AddMonths(d, ParseInt(warrantyMonths).value))
  {
    var n := PositiveMonths(warrantyMonths);
    var d := ParseIsoDate(purchaseDate);
    if n.Some? && d.Some? {
      ExpiryOfDate(purchaseDate, warrantyMonths, d.value, n.value);
    }
  }

  /** An expiry is only derived from a purchase date that parses and a positive
      number of months. */
  lemma ExpiryNeedsDateAndMonths(purchaseDate: string, warrantyMonths: string)
    requires ExpiryFor(purchaseDate, warrantyMonths).ExpiresOn?
    ensures ParseIsoDate(purchaseDate).Some? && PositiveMonths(warrantyMonths).Some?
  {
  }

  /** A derived expiry is the text of the purchase date `d` advanced by the `n` months:
      the month index goes up by `n` and the day is kept when the target month has it;
      otherwise the date runs on into the month after, to day 1, 2 or 3. The expiry
      always comes after the purchase. */
  lemma ExpiryIsMonthsLater(purchaseDate: string, warrantyMonths: string, d: Date, n: int)
    requires ParseIsoDate(purchaseDate) == Some(d) && PositiveMonths(warrantyMonths) == Some(n)
    requires ExpiryFor(purchaseDate, warrantyMonths).ExpiresOn?
    ensures var e := AddMonths(d, n);
            var target := Date(d.year + (d.month - 1 + n) / 12, (d.month - 1 + n) % 12 + 1, 1);
            && ValidDate(e)
            && ExpiryFor(purchaseDate, warrantyMonths).text == IsoDateText(e)
            && (d.day <= DaysInMonth(target.year, target.month) ==>
                  MonthIndex(e) == MonthIndex(d) + n && e.day == d.day)
            && (d.day > DaysInMonth(target.year, target.month) ==>
                  MonthIndex(e) == MonthIndex(d) + n + 1
                  && e.day == d.day - DaysInMonth(target.year, target.month) && 1 <= e.day <= 3)
            && Precedes(d, e) && DayNumber(d) < DayNumber(e)
  {
    ExpiryOfDate(purchaseDate, warrantyMonths, d, n);
    AddMonthsCalendar(d, n);
    AddMonthsLater(d, n);
  }

  /** For expiries up to the year 9999, the stored text reads back as the date the
      purchase date advanced by the number of months. */
  lemma ExpiryReadsBack(purchaseDate: string, warrantyMonths: string)
    requires ExpiryFor(purchaseDate, warrantyMonths).ExpiresOn?
    requires ParseIsoDate(purchaseDate).Some? && PositiveMonths(warrantyMonths).Some?
    requires AddMonths(ParseIsoDate(purchaseDate).value, PositiveMonths(warrantyMonths).value).year <= 9999
    ensures ParseIsoDate(ExpiryFor(purchaseDate, warrantyMonths).text)
            == Some(AddMonths(ParseIsoDate(purchaseDate).value, PositiveMonths(warrantyMonths).value))
  {
    var d := ParseIsoDate(purchaseDate).value;
    var n := PositiveMonths(warrantyMonths).value;
    ExpiryOfDate(purchaseDate, warrantyMonths, d, n);
    var e := AddMonths(d, n);
    AddMonthsCalendar(d, n);
    ParseIsoDateText(e);
  }

  /** A date the date input can hold and a warranty of up to 100 000 years never
      reach the end of the time range. */
  lemma ExpiryInRangeForRealisticWarranties(purchaseDate: string, warrantyMonths: string)
    requires ParseIsoDate(purchaseDate).Some?
    requires PositiveMonths(warrantyMonths).Some? && PositiveMonths(warrantyMonths).value <= 1_200_000
    ensures ExpiryFor(purchaseDate, warrantyMonths).ExpiresOn?
  {
    var d := ParseIsoDate(purchaseDate).value;
    var n := PositiveMonths(warrantyMonths).value;
    ExpiryOfDate(purchaseDate, warrantyMonths, d, n);
    AddMonthsCalendar(d, n);
    var e := AddMonths(d, n);
    assert 0 <= e.year <= 110_000;
    DayOfYearBound(e);
    if 0 < e.year {
      YearsAscend(0, e.year);
    }
    YearsAscend(e.year, 110_001);
  }

  /** A saved row stores the form's fields, with empty texts as null, and the number of
      warranty months whenever the field is non-empty, even when no expiry was derived;
      the expiry is stored exactly when the months are positive. */
  lemma SavedRowFields(form: Form, image: Option<string>, user: Option<string>,
                       binary: Option<string>, clockMs: nat, uploadSucceeds: bool,
                       publicUrl: string, insertSucceeds: bool)
    requires SaveResult(form, image, user, binary, clockMs, uploadSucceeds, publicUrl, insertSucceeds).Saved?
    ensures var row := SaveResult(form, image, user, binary, clockMs, uploadSucceeds, publicUrl, insertSucceeds).row;
            && user.Some? && row.userId == user.value
            && row.purchaseDate == form.purchaseDate && row.purchaseDate != ""
            && row.category == form.category && row.category != ""
            && (row.storeName.None? <==> form.storeName == "")
            && (row.storeName.Some? ==> row.storeName.value == form.storeName)
            && (row.amount.None? <==> form.amount == "")
            && (row.amount.Some? ==> row.amount.value == form.amount)
            && (row.notes.None? <==> form.notes == "")
            && (row.notes.Some? ==> row.notes.value == form.notes)
            && (row.warrantyMonths == if form.warrantyMonths == "" then None else ParseInt(form.warrantyMonths))
            && (row.warrantyExpiry.Some? <==> PositiveMonths(form.warrantyMonths).Some?)
            && (row.warrantyExpiry.Some? ==>
                  ExpiryFor(form.purchaseDate, form.warrantyMonths) == ExpiresOn(row.warrantyExpiry.value))
  {
  }

  /** Only a data URL is uploaded: as a JPEG at the image path, holding the bytes of
      the decoded text. */
  lemma UploadOnlyForDataUrls(form: Form, image: Option<string>, user: Option<string>,
                              binary: Option<string>, clockMs: nat, uploadSucceeds: bool,
                              publicUrl: string, insertSucceeds: bool)
    requires var o := SaveResult(form, image, user, binary, clockMs, uploadSucceeds, publicUrl, insertSucceeds);
             !o.MissingInformation? && o.upload.Some?
    ensures IsDataUrl(image) && user.Some? && binary.Some?
    ensures SaveResult(form, image, user, binary, clockMs, uploadSucceeds, publicUrl, insertSucceeds).upload.value
            == Upload(ImagePath(user.value, clockMs), ToBytes(binary.value), "image/jpeg")
  {
  }

  /** The image is stored under the user's own folder, as a ".jpg" file named by the
      clock. */
  lemma ImagePathInUserFolder(userId: string, clockMs: nat)
    ensures StartsWith(ImagePath(userId, clockMs), userId + "/")
    ensures var p := ImagePath(userId, clockMs);
            |p| >= |userId| + 5 && p[|p| - 4..] == ".jpg"
            && AllDigits(p[|userId| + 1..|p| - 4]) && Value(p[|userId| + 1..|p| - 4]) == clockMs
  {
    var p := ImagePath(userId, clockMs);
    var name := NatText(clockMs);
    assert p == (userId + "/") + name + ".jpg";
    assert p[|userId| + 1..|p| - 4] == name;
    ValueOfNatText(clockMs);
  }

  /** Every data URL of a signed-in save with both required fields is uploaded, unless
      it fails to decode. */
  lemma DataUrlsAreUploaded(form: Form, image: Option<string>, user: Option<string>,
                            binary: Option<string>, clockMs: nat, uploadSucceeds: bool,
                            publicUrl: string, insertSucceeds: bool)
    requires form.purchaseDate != "" && form.category != "" && user.Some? && IsDataUrl(image)
    ensures var o := SaveResult(form, image, user, binary, clockMs, uploadSucceeds, publicUrl, insertSucceeds);
            binary.Some? <==> !o.MissingInformation? && o.upload.Some?
    ensures binary.None? ==>
              SaveResult(form, image, user, binary, clockMs, uploadSucceeds, publicUrl, insertSucceeds)
              == Failed(None, DecodeFailed)
  {
    var e := ExpiryFor(form.purchaseDate, form.warrantyMonths);
    var o := SaveResult(form, image, user, binary, clockMs, uploadSucceeds, publicUrl, insertSucceeds);
    if binary.Some? {
      var u := Upload(ImagePath(user.value, clockMs), ToBytes(binary.value), "image/jpeg");
      match e {
        case RangeError => assert o == Failed(Some(u), InvalidTime);
        case NoExpiry => assert o.upload == Some(u);
        case ExpiresOn(_) => assert o.upload == Some(u);
      }
    }
  }

  /** A saved row has an image URL exactly when a data URL was uploaded successfully,
      and the URL is the one the storage gave. */
  lemma ImageUrlOnlyAfterUpload(form: Form, image: Option<string>, user: Option<string>,
                                binary: Option<string>, clockMs: nat, uploadSucceeds: bool,
                                publicUrl: string, insertSucceeds: bool)
    requires SaveResult(form, image, user, binary, clockMs, uploadSucceeds, publicUrl, insertSucceeds).Saved?
    ensures var row := SaveResult(form, image, user, binary, clockMs, uploadSucceeds, publicUrl, insertSucceeds).row;
            (row.imageUrl.Some? <==> IsDataUrl(image) && uploadSucceeds)
            && (row.imageUrl.Some? ==> row.imageUrl.value == publicUrl)
  {
    match ExpiryFor(form.purchaseDate, form.warrantyMonths) {
      case RangeError =>
      case NoExpiry =>
      case ExpiresOn(_) =>
    }
  }

  /** A failed upload does not stop the save, which then stores no image URL. */
  lemma FailedUploadStillSaves(form: Form, image: Option<string>, user: Option<string>,
                               binary: Option<string>, clockMs: nat, publicUrl: string)
    requires form.purchaseDate != "" && form.category != "" && user.Some? && binary.Some?
    requires !ExpiryFor(form.purchaseDate, form.warrantyMonths).RangeError?
    ensures var o := SaveResult(form, image, user, binary, clockMs, false, publicUrl, true);
            o.Saved? && o.row.imageUrl.None?
  {
    match ExpiryFor(form.purchaseDate, form.warrantyMonths) {
      case NoExpiry =>
      case ExpiresOn(_) =>
    }
  }

  /** Nothing is saved when the database refuses the row. */
  lemma RejectedInsertSavesNothing(form: Form, image: Option<string>, user: Option<string>,
                                   binary: Option<string>, clockMs: nat, uploadSucceeds: bool,
                                   publicUrl: string)
    ensures !SaveResult(form, image, user, binary, clockMs, uploadSucceeds, publicUrl, false).Saved?
  {
    match ExpiryFor(form.purchaseDate, form.warrantyMonths) {
      case RangeError =>
      case NoExpiry =>
      case ExpiresOn(_) =>
    }
  }

  /** The expiry for a purchase date written by the date input and a month count
      written in digits. */
  lemma ExpiryOfDateText(d: Date, n: nat)
    requires ValidDate(d) && 0 <= d.year <= 9999 && n > 0
    ensures ValidDate(AddMonths(d, n))
    ensures ExpiryFor(IsoDateText(d), NatText(n))
            == if InTimeRange(AddMonths(d, n)) then ExpiresOn(IsoDateText(AddMonths(d, n))) else RangeError
  {
    ParseIntOfIntText(n);
    ParseIsoDateText(d);
    ExpiryOfDate(IsoDateText(d), NatText(n), d, n);
  }

  /** January 31st plus one month runs on past February: to March 3rd in 2023 and,
      February having 29 days, to March 2nd in 2024. */
  lemma JanuaryThirtyFirstRunsOn()
    ensures ExpiryFor(IsoDateText(Date(2023, 1, 31)), "1") == ExpiresOn(IsoDateText(Date(2023, 3, 3)))
    ensures ExpiryFor(IsoDateText(Date(2024, 1, 31)), "1") == ExpiresOn(IsoDateText(Date(2024, 3, 2)))
  {
    assert NatText(1) == "1";
    ExpiryOfDateText(Date(2023, 1, 31), 1);
    FourDigitYearsInRange(Date(2023, 3, 3));
    ExpiryOfDateText(Date(2024, 1, 31), 1);
    FourDigitYearsInRange(Date(2024, 3, 2));
  }

  /** A twelve-month warranty bought on 2024-01-15 expires on 2025-01-15. */
  lemma TwelveMonthWarranty()
    ensures ExpiryFor(IsoDateText(Date(2024, 1, 15)), "12") == ExpiresOn(IsoDateText(Date(2025, 1, 15)))
  {
    assert NatText(12) == "12";
    ExpiryOfDateText(Date(2024, 1, 15), 12);
    FourDigitYearsInRange(Date(2025, 1, 15));
  }

  /** "0" months stores 0 months and no expiry. */
  lemma ZeroMonthsStoredWithoutExpiry(form: Form, user: string)
    requires form.purchaseDate == "2024-01-15" && form.category == "Others" && form.warrantyMonths == "0"
    ensures var o := SaveResult(form, None, Some(user), None, 0, false, "", true);
            o.Saved? && o.row.warrantyMonths == Some(0) && o.row.warrantyExpiry.None?
  {
    ParseIntOfIntText(0);
    assert ParseInt("0") == Some(0);
  }
}
