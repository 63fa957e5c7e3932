/**
 * The older slot helpers (apps/frontend/src/utils/dateUtils.ts): a fixed
 * template of hourly slots 08:00 to 18:00 and a booked-slot extractor that
 * matches bookings by a date prefix and cuts their time out by position.
 *
 * `getNZDateString` turns the picked date into midnight at UTC+13 and renders
 * it with `toISOString()`; that platform conversion is the parameter `isoOf`
 * (from the text handed to `new Date` to the ISO text it renders as).
 */
module DateUtils {
  import opened JsString
  import opened JsArray
  import opened Slots
  import App

  /** The one field of a booking the extractor reads. */
  datatype BookingRow = BookingRow(bookingDate: string)

  const FirstHour: nat := 8
  const LastHour: nat := 18

  /** `getNZDateString(date)`: "" for "", else the first ten characters of the ISO text. */
  function NZDateString(date: string, isoOf: string -> string): (day: string)
    ensures date == "" ==> day == ""
    ensures date != "" ==> day <= isoOf(date + "T00:00:00+13:00")
    ensures |day| == if date == "" then 0
                     else if |isoOf(date + "T00:00:00+13:00")| < 10 then |isoOf(date + "T00:00:00+13:00")|
                     else 10
  {
    if date == "" then "" else Slice(isoOf(date + "T00:00:00+13:00"), 0, 10)
  }

  /** `getDefaultTimeSlots()`: the labels of the hours 08 to 18, built one by one. */
  method DefaultTimeSlots() returns (slots: seq<string>)
    ensures slots == HourLabels(FirstHour, LastHour)
  {
    slots := [];
    for h := FirstHour to LastHour + 1
      invariant slots == HourLabels(FirstHour, h - 1)
    {
      var text := FormatHour(h);
      HourLabelsSnoc(FirstHour, h - 1);
      slots := slots + [text];
    }
  }

  /** The template is the eleven slots "08:00" to "18:00", ascending, each a two-digit hour and ":00". */
  lemma TemplateShape()
    ensures |HourLabels(FirstHour, LastHour)| == 11
    ensures HourLabels(FirstHour, LastHour)[0] == "08:00" && HourLabels(FirstHour, LastHour)[10] == "18:00"
    ensures forall i :: 0 <= i < 11 ==> HourOf(HourLabels(FirstHour, LastHour)[i]) == FirstHour + i
    ensures forall i :: 0 <= i < 11 ==> |HourLabels(FirstHour, LastHour)[i]| == 5 && HourLabels(FirstHour, LastHour)[i][2..] == ":00"
    ensures StrictlyAscending(HourLabels(FirstHour, LastHour))
  {
    var slots := HourLabels(FirstHour, LastHour);
    assert slots[0] == Label(8) == "08:00";
    assert slots[10] == Label(18) == "18:00";
  }

  /** What the extractor keeps of one booking: `booking_date.slice(11, 16)`. */
  function SlotOf(b: BookingRow): string {
    Slice(b.bookingDate, 11, 16)
  }

  /**
   * `getBookedSlots(date, bookings)`: for each booking whose text starts with
   * the day, in booking order, the five characters at positions 11 to 15.
   */
  function BookedSlots(date: string, bookings: seq<BookingRow>, isoOf: string -> string): (taken: seq<string>)
    ensures date == "" ==> taken == []
    ensures |taken| <= |bookings|
    ensures forall t :: t in taken ==> |t| <= 5
    ensures forall t :: t in taken ==>
              exists b :: b in bookings && NZDateString(date, isoOf) <= b.bookingDate && t == SlotOf(b)
    ensures forall b :: b in bookings && date != "" && NZDateString(date, isoOf) <= b.bookingDate ==>
              SlotOf(b) in taken
  {
    if date == "" then []
    else
      var day := NZDateString(date, isoOf);
      FilterMap(bookings, (b: BookingRow) => day <= b.bookingDate, SlotOf)
  }

  /** One booking contributes its slice exactly when it starts with the day. */
  lemma BookedSlotsSingle(date: string, b: BookingRow, isoOf: string -> string)
    ensures BookedSlots(date, [b], isoOf)
            == if date != "" && NZDateString(date, isoOf) <= b.bookingDate then [SlotOf(b)] else []
  {
    if date != "" {
      var day := NZDateString(date, isoOf);
      FilterMapSingle(b, (b: BookingRow) => day <= b.bookingDate, SlotOf);
    }
  }

  /** The slots of a concatenation are the slots of its parts, in order. */
  lemma BookedSlotsAppend(date: string, xs: seq<BookingRow>, ys: seq<BookingRow>, isoOf: string -> string)
    ensures BookedSlots(date, xs + ys, isoOf) == BookedSlots(date, xs, isoOf) + BookedSlots(date, ys, isoOf)
  {
    if date != "" {
      var day := NZDateString(date, isoOf);
      FilterMapAppend(xs, ys, (b: BookingRow) => day <= b.bookingDate, SlotOf);
    }
  }

  /** A booking written as a ten-character day, one separator and a time yields the time's first five characters. */
  lemma SlotOfDateTime(day: string, sep: char, time: string)
    requires |day| == 10 && |time| >= 5
    ensures SlotOf(BookingRow(day + [sep] + time)) == time[..5]
  {
    var s := day + [sep] + time;
    assert forall i :: 0 <= i < 5 ==> s[11 + i] == time[i];
  }

  /** A booking date written "YYYY-MM-DD HH:mm": ten characters, one space, five characters, no other space. */
  predicate IsDateTimeText(s: string) {
    |s| == 16 && s[10] == ' ' && ' ' !in s[..10] && ' ' !in s[11..]
  }

  /** The form's booking records, seen as the rows this extractor reads. */
  function Rows(bookings: seq<App.Booking>): (rows: seq<BookingRow>)
    ensures |rows| == |bookings|
    ensures forall i :: 0 <= i < |rows| ==> rows[i].bookingDate == bookings[i].bookingDate
  {
    if bookings == [] then [] else [BookingRow(bookings[0].bookingDate)] + Rows(bookings[1..])
  }

  /**
   * On one well-written booking, this extractor for `date` keeps or drops it
   * as the form's `getBookedSlots` does for the converted day, and reads the
   * same time.
   */
  lemma ExtractorsAgreeOnOne(date: string, b: App.Booking, isoOf: string -> string)
    requires |NZDateString(date, isoOf)| == 10
    requires IsDateTimeText(b.bookingDate)
    ensures BookedSlots(date, [BookingRow(b.bookingDate)], isoOf) == App.BookedSlots(NZDateString(date, isoOf), [b])
  {
    var day := NZDateString(date, isoOf);
    var s := b.bookingDate;
    var prefix, time := s[..10], s[11..];
    assert s == prefix + " " + time;
    App.DateTimeParts(prefix, time);
    SlotOfDateTime(prefix, ' ', time);
    assert time[..5] == time;
    assert (day <= s) == (prefix == day);
    BookedSlotsSingle(date, BookingRow(s), isoOf);
    App.BookedSlotsSingle(day, b);
  }

  /**
   * When every booking is written "YYYY-MM-DD HH:mm", this extractor for
   * `date` returns the times the form's `getBookedSlots` returns for the day
   * `getNZDateString(date)` renders, in the same order. That day is the one
   * the platform conversion gives, not necessarily `date` itself.
   */
  lemma {:induction false} ExtractorsAgree(date: string, bookings: seq<App.Booking>, isoOf: string -> string)
    requires |NZDateString(date, isoOf)| == 10
    requires forall b :: b in bookings ==> IsDateTimeText(b.bookingDate)
    ensures BookedSlots(date, Rows(bookings), isoOf) == App.BookedSlots(NZDateString(date, isoOf), bookings)
  {
    if bookings != [] {
      var day := NZDateString(date, isoOf);
      var b, rest := bookings[0], bookings[1..];
      assert bookings == [b] + rest;
      assert Rows(bookings) == [BookingRow(b.bookingDate)] + Rows(rest);
      ExtractorsAgreeOnOne(date, b, isoOf);
      ExtractorsAgree(date, rest, isoOf);
      BookedSlotsAppend(date, [BookingRow(b.bookingDate)], Rows(rest), isoOf);
      App.BookedSlotsAppend(day, [b], rest);
    }
  }

  /**
   * The picked day 2024-07-15 at midnight UTC+13 is 11:00 UTC on 2024-07-14,
   * so the ISO text starts with the day before: this extractor then reports a
   * booking of 2024-07-14 as taken on 2024-07-15, where the form's
   * `getBookedSlots` reports none.
   */
  lemma DayBeforeIsMatched(isoOf: string -> string)
    requires isoOf("2024-07-15T00:00:00+13:00") == "2024-07-14T11:00:00.000Z"
    ensures NZDateString("2024-07-15", isoOf) == "2024-07-14"
    ensures BookedSlots("2024-07-15", [BookingRow("2024-07-14 09:00")], isoOf) == ["09:00"]
    ensures App.BookedSlots("2024-07-15", [App.Booking(1, "Ana", "2024-07-14 09:00")]) == []
  {
    DayBeforeRendering(isoOf);
    DayBeforeTaken(isoOf);
    DayBeforeNotTakenByForm();
  }

  lemma DayBeforeRendering(isoOf: string -> string)
    requires isoOf("2024-07-15T00:00:00+13:00") == "2024-07-14T11:00:00.000Z"
    ensures NZDateString("2024-07-15", isoOf) == "2024-07-14"
  {
    var iso := isoOf("2024-07-15" + "T00:00:00+13:00");
    assert "2024-07-15" + "T00:00:00+13:00" == "2024-07-15T00:00:00+13:00";
    assert NZDateString("2024-07-15", isoOf) == iso[..10] == "2024-07-14";
  }

  lemma DayBeforeTaken(isoOf: string -> string)
    requires NZDateString("2024-07-15", isoOf) == "2024-07-14"
    ensures BookedSlots("2024-07-15", [BookingRow("2024-07-14 09:00")], isoOf) == ["09:00"]
  {
    var day, time := "2024-07-14", "09:00";
    assert day + " " + time == "2024-07-14 09:00";
    SlotOfDateTime(day, ' ', time);
    assert time[..5] == time;
    assert day <= "2024-07-14 09:00";
    BookedSlotsSingle("2024-07-15", BookingRow("2024-07-14 09:00"), isoOf);
  }

  lemma DayBeforeNotTakenByForm()
    ensures App.BookedSlots("2024-07-15", [App.Booking(1, "Ana", "2024-07-14 09:00")]) == []
  {
    var day, time := "2024-07-14", "09:00";
    assert day + " " + time == "2024-07-14 09:00";
    App.DateTimeParts(day, time);
    App.BookedSlotsSingle("2024-07-15", App.Booking(1, "Ana", "2024-07-14 09:00"));
  }
}
