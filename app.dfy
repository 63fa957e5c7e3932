/**
 * The booking form's slot logic (apps/frontend/src/App.tsx): the month key it
 * fetches bookings by, the times already booked on the selected date, the
 * slots still offered (whole hours 08:00 to 21:00 after the current hour and
 * not booked), and the guard that refuses to submit an incomplete form.
 *
 * The current hour is a parameter. As in the form, hours at or before it are
 * dropped whatever date is selected, not only when that date is today.
 */
module App {
  import opened JsString
  import opened JsArray
  import opened Slots

  /** A row of `GET /bookings`; `bookingDate` is written "YYYY-MM-DD HH:mm". */
  datatype Booking = Booking(id: int, name: string, bookingDate: string)

  const OpeningHour: nat := 8
  const ClosingHour: nat := 21

  /** `date ? date.slice(0, 7) : ""`: the "YYYY-MM" the bookings are fetched by. */
  function MonthKey(date: string): (month: string)
    ensures month <= date
    ensures |month| == if |date| < 7 then |date| else 7
  {
    if date == "" then "" else Slice(date, 0, 7)
  }

  /** `bookingDate.split(" ")[0]`: the text before the first space. */
  function DatePart(bookingDate: string): (day: string)
    ensures day <= bookingDate && ' ' !in day
    ensures |day| == |bookingDate| || bookingDate[|day|] == ' '
  {
    Split(bookingDate, ' ')[0]
  }

  /** `bookingDate.split(" ")[1] || ""`: the text between the first and the second space, "" without a space. */
  function TimePart(bookingDate: string): (time: string)
    ensures ' ' !in time
    ensures time == if |DatePart(bookingDate)| < |bookingDate|
                    then DatePart(bookingDate[|DatePart(bookingDate)| + 1..])
                    else ""
  {
    var parts := Split(bookingDate, ' ');
    assert parts[0] == DatePart(bookingDate);
    if |parts| > 1 then parts[1] else ""
  }

  /** A date and a time joined by one space split back into that date and that time. */
  lemma DateTimeParts(day: string, time: string)
    requires ' ' !in day && ' ' !in time
    ensures DatePart(day + " " + time) == day
    ensures TimePart(day + " " + time) == time
  {
    SplitJoin([day, time], ' ');
    assert Join([day, time], ' ') == day + " " + time;
  }

  /**
   * `getBookedSlots()`: the time of every booking on `date`, in booking order
   * (`bookings || []` is the empty sequence while nothing has been fetched).
   */
  function BookedSlots(date: string, bookings: seq<Booking>): (taken: seq<string>)
    ensures date == "" ==> taken == []
    ensures |taken| <= |bookings|
    ensures forall t :: t in taken ==>
              exists b :: b in bookings && DatePart(b.bookingDate) == date && t == TimePart(b.bookingDate)
    ensures forall b :: b in bookings && date != "" && DatePart(b.bookingDate) == date ==>
              TimePart(b.bookingDate) in taken
  {
    if date == "" then []
    else FilterMap(bookings, (b: Booking) => DatePart(b.bookingDate) == date, (b: Booking) => TimePart(b.bookingDate))
  }

  /** One booking contributes its time exactly when it is on `date`. */
  lemma BookedSlotsSingle(date: string, b: Booking)
    ensures BookedSlots(date, [b]) == if date != "" && DatePart(b.bookingDate) == date then [TimePart(b.bookingDate)] else []
  {
    if date != "" {
      FilterMapSingle(b, (b: Booking) => DatePart(b.bookingDate) == date, (b: Booking) => TimePart(b.bookingDate));
    }
  }

  /** The times of a concatenation are the times of its parts, in order. */
  lemma BookedSlotsAppend(date: string, xs: seq<Booking>, ys: seq<Booking>)
    ensures BookedSlots(date, xs + ys) == BookedSlots(date, xs) + BookedSlots(date, ys)
  {
    if date != "" {
      FilterMapAppend(xs, ys, (b: Booking) => DatePart(b.bookingDate) == date, (b: Booking) => TimePart(b.bookingDate));
    }
  }

  /** Without a booking on `date` nothing is taken. */
  lemma NothingBookedOnFreeDate(date: string, bookings: seq<Booking>)
    requires forall b :: b in bookings ==> DatePart(b.bookingDate) != date
    ensures BookedSlots(date, bookings) == []
  {
    if date != "" {
      FilterMapNoneKept(bookings, (b: Booking) => DatePart(b.bookingDate) == date, (b: Booking) => TimePart(b.bookingDate));
    }
  }

  /** The bookings kept for `date` all lie in the month that was fetched. */
  lemma MonthKeyCoversDate(date: string, b: Booking)
    requires date != "" && DatePart(b.bookingDate) == date
    ensures MonthKey(date) <= b.bookingDate
  {
    var month := MonthKey(date);
    assert forall i :: 0 <= i < |month| ==> month[i] == date[i] == b.bookingDate[i];
  }

  /** The loop keeps `hour`: it is after `nowHour` and its label is not taken. */
  predicate Free(hour: nat, datesTaken: seq<string>, nowHour: int)
    requires hour < 100
  {
    hour > nowHour && Label(hour) !in datesTaken
  }

  /**
   * The slots the loop of `getDefaultTimeSlots` adds from `hour` on: each
   * hour up to closing that is after `nowHour` and whose label is not taken.
   */
  function SlotsFrom(hour: nat, datesTaken: seq<string>, nowHour: int): seq<string>
    requires hour <= ClosingHour + 1
    decreases ClosingHour + 1 - hour
  {
    if hour > ClosingHour then []
    else if !Free(hour, datesTaken, nowHour) then SlotsFrom(hour + 1, datesTaken, nowHour)
    else [Label(hour)] + SlotsFrom(hour + 1, datesTaken, nowHour)
  }

  /** Every slot from `hour` on is an hour up to closing, after `nowHour`, not taken. */
  lemma {:induction false} SlotsFromSound(hour: nat, datesTaken: seq<string>, nowHour: int)
    requires hour <= ClosingHour + 1
    ensures forall s :: s in SlotsFrom(hour, datesTaken, nowHour) ==>
              hour <= HourOf(s) <= ClosingHour && HourOf(s) > nowHour && s !in datesTaken
    decreases ClosingHour + 1 - hour
  {
    if hour <= ClosingHour {
      SlotsFromSound(hour + 1, datesTaken, nowHour);
    }
  }

  /** The slots from `hour` on are strictly ascending. */
  lemma {:induction false} SlotsFromAscending(hour: nat, datesTaken: seq<string>, nowHour: int)
    requires hour <= ClosingHour + 1
    ensures StrictlyAscending(SlotsFrom(hour, datesTaken, nowHour))
    decreases ClosingHour + 1 - hour
  {
    if hour <= ClosingHour {
      var rest := SlotsFrom(hour + 1, datesTaken, nowHour);
      SlotsFromAscending(hour + 1, datesTaken, nowHour);
      SlotsFromSound(hour + 1, datesTaken, nowHour);
      if !(hour <= nowHour || Label(hour) in datesTaken) {
        assert SlotsFrom(hour, datesTaken, nowHour) == [Label(hour)] + rest;
        AscendingCons(Label(hour), rest);
      }
    }
  }

  /** Every free hour from `hour` to closing after `nowHour` is among the slots. */
  lemma {:induction false} SlotsFromComplete(hour: nat, datesTaken: seq<string>, nowHour: int)
    requires hour <= ClosingHour + 1
    ensures forall h: nat :: hour <= h <= ClosingHour && h > nowHour && Label(h) !in datesTaken ==>
              Label(h) in SlotsFrom(hour, datesTaken, nowHour)
    decreases ClosingHour + 1 - hour
  {
    if hour <= ClosingHour {
      SlotsFromComplete(hour + 1, datesTaken, nowHour);
      var rest := SlotsFrom(hour + 1, datesTaken, nowHour);
      var slots := SlotsFrom(hour, datesTaken, nowHour);
      assert slots == rest || slots == [Label(hour)] + rest;
      forall h: nat | hour <= h <= ClosingHour && h > nowHour && Label(h) !in datesTaken
        ensures Label(h) in slots
      {
        if h > hour {
          assert Label(h) in rest;
        }
      }
    }
  }

  /**
   * The slots offered for a day: exactly the labels of the hours from opening
   * to closing that are after `nowHour` and not in `datesTaken`, ascending.
   */
  function AvailableSlots(datesTaken: seq<string>, nowHour: int): (slots: seq<string>)
    ensures forall i :: 0 <= i < |slots| ==> OpeningHour <= HourOf(slots[i]) <= ClosingHour
    ensures forall i :: 0 <= i < |slots| ==> HourOf(slots[i]) > nowHour && slots[i] !in datesTaken
    ensures StrictlyAscending(slots)
    ensures forall h: nat :: OpeningHour <= h <= ClosingHour && h > nowHour && Label(h) !in datesTaken ==> Label(h) in slots
    ensures nowHour >= ClosingHour ==> slots == []
  {
    SlotsFromSound(OpeningHour, datesTaken, nowHour);
    SlotsFromAscending(OpeningHour, datesTaken, nowHour);
    SlotsFromComplete(OpeningHour, datesTaken, nowHour);
    var slots := SlotsFrom(OpeningHour, datesTaken, nowHour);
    assert forall i :: 0 <= i < |slots| ==> slots[i] in slots;
    assert slots != [] ==> ClosingHour >= HourOf(slots[0]) > nowHour;
    slots
  }

  /** The slots the loop has collected before reaching `hour`. */
  function SlotsBefore(hour: nat, datesTaken: seq<string>, nowHour: int): seq<string>
    requires OpeningHour <= hour <= ClosingHour + 1
    decreases hour
  {
    if hour == OpeningHour then []
    else if !Free(hour - 1, datesTaken, nowHour) then SlotsBefore(hour - 1, datesTaken, nowHour)
    else SlotsBefore(hour - 1, datesTaken, nowHour) + [Label(hour - 1)]
  }

  /** What the loop has collected, followed by what it will still add, is the whole list. */
  lemma {:induction false} SlotsBeforeThenFrom(hour: nat, datesTaken: seq<string>, nowHour: int)
    requires OpeningHour <= hour <= ClosingHour + 1
    ensures SlotsBefore(hour, datesTaken, nowHour) + SlotsFrom(hour, datesTaken, nowHour)
            == SlotsFrom(OpeningHour, datesTaken, nowHour)
    decreases hour
  {
    if hour > OpeningHour {
      SlotsBeforeThenFrom(hour - 1, datesTaken, nowHour);
      var before := SlotsBefore(hour - 1, datesTaken, nowHour);
      var after := SlotsFrom(hour, datesTaken, nowHour);
      if !Free(hour - 1, datesTaken, nowHour) {
        assert SlotsBefore(hour, datesTaken, nowHour) == before;
        assert SlotsFrom(hour - 1, datesTaken, nowHour) == after;
      } else {
        assert SlotsBefore(hour, datesTaken, nowHour) == before + [Label(hour - 1)];
        assert SlotsFrom(hour - 1, datesTaken, nowHour) == [Label(hour - 1)] + after;
        assert before + [Label(hour - 1)] + after == before + ([Label(hour - 1)] + after);
      }
    }
  }

  /** `getDefaultTimeSlots(datesTaken)` with the clock read as `nowHour`. */
  method DefaultTimeSlots(datesTaken: seq<string>, nowHour: int) returns (slots: seq<string>)
    ensures slots == AvailableSlots(datesTaken, nowHour)
  {
    slots := [];
    for hour := OpeningHour to ClosingHour + 1
      invariant slots == SlotsBefore(hour, datesTaken, nowHour)
    {
      var text := FormatHour(hour);
      if hour <= nowHour || text in datesTaken {
        continue;
      }
      slots := slots + [text];
    }
    SlotsBeforeThenFrom(ClosingHour + 1, datesTaken, nowHour);
    assert slots == SlotsFrom(OpeningHour, datesTaken, nowHour);
  }

  /** With nothing taken and the clock before opening, every hour 08:00 to 21:00 is offered. */
  lemma FullDayWhenFree(nowHour: int)
    requires nowHour < OpeningHour
    ensures AvailableSlots([], nowHour) == HourLabels(OpeningHour, ClosingHour)
    ensures |AvailableSlots([], nowHour)| == 14
    ensures AvailableSlots([], nowHour)[0] == "08:00" && AvailableSlots([], nowHour)[13] == "21:00"
  {
    SlotsFromAllFree(OpeningHour, nowHour);
    var all := HourLabels(OpeningHour, ClosingHour);
    assert all[0] == Label(8) == "08:00";
    assert all[13] == Label(21) == "21:00";
  }

  lemma {:induction false} SlotsFromAllFree(hour: nat, nowHour: int)
    requires OpeningHour <= hour <= ClosingHour + 1 && nowHour < OpeningHour
    ensures SlotsFrom(hour, [], nowHour) == HourLabels(hour, ClosingHour)
    decreases ClosingHour + 1 - hour
  {
    if hour <= ClosingHour {
      SlotsFromAllFree(hour + 1, nowHour);
    }
  }

  /**
   * The slot list the form shows for the selected `date` (none without a
   * date): the day's slots minus the times booked on that date.
   */
  function OfferedSlots(date: string, bookings: seq<Booking>, nowHour: int): (slots: seq<string>)
    ensures date == "" ==> slots == []
    ensures forall i :: 0 <= i < |slots| ==> OpeningHour <= HourOf(slots[i]) <= ClosingHour && HourOf(slots[i]) > nowHour
    ensures forall b :: b in bookings && DatePart(b.bookingDate) == date ==> TimePart(b.bookingDate) !in slots
    ensures StrictlyAscending(slots)
    ensures forall h: nat :: date != "" && OpeningHour <= h <= ClosingHour && h > nowHour &&
              (forall b :: b in bookings && DatePart(b.bookingDate) == date ==> TimePart(b.bookingDate) != Label(h))
              ==> Label(h) in slots
  {
    if date == "" then [] else AvailableSlots(BookedSlots(date, bookings), nowHour)
  }

  /**
   * Hours at or before `nowHour` are dropped for every selected date: a date
   * without bookings gets the same slots as an empty list of taken times,
   * whether that date is today, in the future or in the past.
   */
  lemma PastHoursDroppedOnAnyDate(date: string, bookings: seq<Booking>, nowHour: int)
    requires date != ""
    requires forall b :: b in bookings ==> DatePart(b.bookingDate) != date
    ensures OfferedSlots(date, bookings, nowHour) == AvailableSlots([], nowHour)
  {
    NothingBookedOnFreeDate(date, bookings);
  }

  /** What `handleSubmit` does before any request: refuse, or post the three fields. */
  datatype SubmitOutcome = Rejected(message: string) | Post(name: string, date: string, time: string)

  /** `handleSubmit`'s guard: any empty field refuses the submission with a message and no request. */
  function Submit(name: string, date: string, time: string): (outcome: SubmitOutcome)
    ensures outcome.Rejected? <==> name == "" || date == "" || time == ""
    ensures outcome.Rejected? ==> outcome.message == "Please fill in all fields."
    ensures outcome.Post? ==> outcome.name == name && outcome.date == date && outcome.time == time
  {
    if name == "" || date == "" || time == "" then Rejected("Please fill in all fields.")
    else Post(name, date, time)
  }

  /** A named booker who picks one of the offered slots passes the guard. */
  lemma OfferedSlotPassesGuard(name: string, date: string, bookings: seq<Booking>, nowHour: int, time: string)
    requires name != "" && time in OfferedSlots(date, bookings, nowHour)
    ensures Submit(name, date, time) == Post(name, date, time)
  {
    var slots := OfferedSlots(date, bookings, nowHour);
    var i :| 0 <= i < |slots| && slots[i] == time;
    assert HourOf(time) >= OpeningHour;
  }
}
