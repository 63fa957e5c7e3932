# Car-park booker: time-slot availability

A Dafny model of the slot logic of the car-park booking form. The form
collects a name, a date and an hourly time. For the picked date it lists the
hours still free: whole hours from 08:00 to 21:00, minus the hours at or
before the current hour and minus the times already booked on that date.
It refuses to submit while a field is empty.

Two source files hold this logic:

- `apps/frontend/src/App.tsx`, modelled in module `App`:
  - the month key the bookings are fetched by;
  - `getBookedSlots`, the times booked on the picked date;
  - `getDefaultTimeSlots`, the slot generator. It is a `for` loop, so it is a
    method proved against the function `AvailableSlots`;
  - the list the time picker shows (`OfferedSlots`);
  - the empty-field guard of `handleSubmit`.
- `apps/frontend/src/utils/dateUtils.ts`, modelled in module `DateUtils`. It
  is an older variant with a fixed 08:00 to 18:00 template (also a loop) and
  an extractor that matches bookings by date prefix and slices out
  characters 11 to 15.

Supporting modules model the JavaScript built-ins the code relies on:

- `JsString`: `toString`, `padStart`, `slice`, `indexOf`, `split`/`join`.
- `JsArray`: `filter(...).map(...)`.
- `Slots`: the `"HH:00"` label of an hour and its inverse `HourOf`.

The clock is a parameter. `nowHour` stands for the hour that `App.tsx` reads
from the system clock in Pacific/Auckland time. In `dateUtils.ts`, the `Date`
conversion inside `getNZDateString` is the function parameter `isoOf`.

Behaviour kept as the code has it:

- The past-hour filter drops hours `<= nowHour` whatever date is picked:
  today, a future date or a past one (`App.PastHoursDroppedOnAnyDate`).
  `dateUtils.ts` defines `isNZToday` and `getNZCurrentHour`
  (apps/frontend/src/utils/dateUtils.ts:29-43), which suggests a filter meant
  for today only. But `getDefaultTimeSlots` in App.tsx (lines 148-153) calls
  neither of them, and the model follows that code.
- `getNZDateString` (apps/frontend/src/utils/dateUtils.ts:4-8) does not give
  back the picked day. Midnight of a day at UTC+13 is 11:00 UTC of the day
  before, and `toISOString()` writes UTC. So for a valid `YYYY-MM-DD` input
  the platform conversion returns the calendar day before it. The older
  extractor therefore matches the bookings of the previous day.
  `DateUtils.ExtractorsAgree` is stated for that converted day, and
  `DateUtils.DayBeforeIsMatched` works through 2024-07-15.
- `split(" ")[1] || ""` gives the text between the first and the second
  space, not everything after the first space (`App.TimePart`).
- `bookings || []` is the empty sequence while no bookings have been fetched.

## Model

| member | source | states |
|---|---|---|
| `App.MonthKey` | apps/frontend/src/App.tsx:12 | the key is a prefix of the date, of length min(7, length of date); so it is "" exactly when the date is "" |
| `App.MonthKeyCoversDate` | apps/frontend/src/App.tsx:12-29 | every booking kept for a non-empty date starts with that date's month key, so the fetched month covers the picked day |
| `App.DatePart` | apps/frontend/src/App.tsx:28 | `split(" ")[0]` is a space-free prefix of the booking date, followed by a space or the end: the text before the first space |
| `App.TimePart` | apps/frontend/src/App.tsx:32-33 | `split(" ")[1]`, or "" when it is missing or empty, is space-free; it is the text before the next space of whatever follows the first space, and "" when there is no space |
| `App.DateTimeParts` | apps/frontend/src/App.tsx:28-33 | a date and a time joined by one space split back into exactly that date and that time |
| `App.BookedSlots` | apps/frontend/src/App.tsx:24-35 | [] for an empty date; no longer than the bookings; every element is the time of some booking whose date part equals the date, and every such booking's time is present |
| `App.BookedSlotsSingle` | apps/frontend/src/App.tsx:26-34 | one booking contributes exactly its time when its date part equals the (non-empty) date, and nothing otherwise |
| `App.BookedSlotsAppend` | apps/frontend/src/App.tsx:26-34 | the result for a concatenation is the concatenation of the results: booking order is kept, one entry per kept booking |
| `App.NothingBookedOnFreeDate` | apps/frontend/src/App.tsx:26-30 | with no booking on the date, no time is taken |
| `App.SlotsFromSound` | apps/frontend/src/App.tsx:151-155 | every slot the loop adds from `hour` on names an hour between `hour` and 21, after `nowHour`, and is not in `datesTaken` |
| `App.SlotsFromAscending` | apps/frontend/src/App.tsx:151-155 | the slots the loop adds are strictly ascending by hour |
| `App.SlotsFromComplete` | apps/frontend/src/App.tsx:151-155 | every hour from `hour` to 21 that is after `nowHour` and whose label is not taken is added |
| `App.SlotsBeforeThenFrom` | apps/frontend/src/App.tsx:151-155 | the slots the loop has collected before `hour`, followed by those it adds from `hour` on, form the whole list |
| `App.AvailableSlots` | apps/frontend/src/App.tsx:145-157 | every slot is the "HH:00" label of an hour in 8..21 that is after `nowHour` and not taken; slots are strictly ascending (no duplicates); every such free hour is present; empty when `nowHour >= 21` |
| `App.DefaultTimeSlots` | apps/frontend/src/App.tsx:145-157 | the loop returns exactly `AvailableSlots(datesTaken, nowHour)` |
| `App.FullDayWhenFree` | apps/frontend/src/App.tsx:151-156 | with nothing taken and `nowHour < 8`, the result is the 14 labels 08:00 to 21:00 in order |
| `App.OfferedSlots` | apps/frontend/src/App.tsx:110-118 | the picker's list: [] without a date; only hours in 8..21 after `nowHour`, ascending; no booked time of the date; every hour whose label no booking of the date holds is offered |
| `App.PastHoursDroppedOnAnyDate` | apps/frontend/src/App.tsx:148-153 | for any non-empty date without bookings, the list is the one for an empty taken list; the past-hour filter does not depend on the date |
| `App.Submit` | apps/frontend/src/App.tsx:39-42 | the submission is refused with "Please fill in all fields." exactly when name, date or time is empty; otherwise the three fields are posted unchanged |
| `App.OfferedSlotPassesGuard` | apps/frontend/src/App.tsx:39-42 | with a name given, picking any offered slot passes the guard |
| `Slots.Label` | apps/frontend/src/App.tsx:152-154 | `HourOf` reads the hour back from the label |
| `Slots.LabelIsPadded` | apps/frontend/src/App.tsx:152-154 | `hour.toString().padStart(2, "0") + ":00"` is the two-digit zero-padded hour followed by ":00" |
| `Slots.FormatHour` | apps/frontend/src/utils/dateUtils.ts:14 | the text both generators build for an hour is its label |
| `Slots.LabelOfHourOf` | apps/frontend/src/App.tsx:152-153 | any text that names an hour is that hour's label, so labels and hours below 100 correspond one to one |
| `Slots.HourLabels` | apps/frontend/src/utils/dateUtils.ts:13-15 | the labels of `first`..`last`: the right count, element i is the label of hour first + i, strictly ascending |
| `Slots.HourLabelsSnoc` | apps/frontend/src/utils/dateUtils.ts:13-15 | one more loop iteration appends the label of the next hour |
| `DateUtils.NZDateString` | apps/frontend/src/utils/dateUtils.ts:4-8 | "" for an empty date; otherwise a prefix, at most 10 characters long, of the ISO text of midnight UTC+13 of the date |
| `DateUtils.DefaultTimeSlots` | apps/frontend/src/utils/dateUtils.ts:11-17 | the loop returns the labels of the hours 8 to 18 |
| `DateUtils.TemplateShape` | apps/frontend/src/utils/dateUtils.ts:11-17 | that template has exactly 11 slots, "08:00" first and "18:00" last; slot i names hour 8 + i; each is 5 characters, two digits then ":00"; strictly ascending |
| `DateUtils.BookedSlots` | apps/frontend/src/utils/dateUtils.ts:20-26 | [] for an empty date; no longer than the bookings; at most 5 characters each; every element is `slice(11, 16)` of a booking starting with the day; every such booking's slice is present |
| `DateUtils.BookedSlotsSingle` | apps/frontend/src/utils/dateUtils.ts:22-25 | one booking contributes exactly its slice when it starts with the day, and nothing otherwise |
| `DateUtils.BookedSlotsAppend` | apps/frontend/src/utils/dateUtils.ts:23-25 | the result for a concatenation is the concatenation of the results: booking order is kept |
| `DateUtils.SlotOfDateTime` | apps/frontend/src/utils/dateUtils.ts:25 | for a ten-character day, one separator and a time, `slice(11, 16)` is the time's first five characters |
| `DateUtils.ExtractorsAgreeOnOne` | apps/frontend/src/utils/dateUtils.ts:22-25 | on one booking written "YYYY-MM-DD HH:mm", this extractor for a date keeps or drops it exactly as the App.tsx extractor does for the ten-character day `getNZDateString` gives, and reads the same time |
| `DateUtils.ExtractorsAgree` | apps/frontend/src/utils/dateUtils.ts:20-26 | when `getNZDateString(date)` is ten characters long and every booking is written "YYYY-MM-DD HH:mm", this extractor for `date` returns the same list as the App.tsx extractor for the converted day, not for `date` itself |
| `DateUtils.DayBeforeIsMatched` | apps/frontend/src/utils/dateUtils.ts:4-26 | if 2024-07-15 at midnight UTC+13 renders as 2024-07-14T11:00:00.000Z, the converted day is 2024-07-14; this extractor reports a 2024-07-14 09:00 booking as taken on 2024-07-15, and the App.tsx extractor reports nothing |
| `JsArray.FilterMap` | apps/frontend/src/App.tsx:26-34 | `filter(keep).map(f)` is no longer than the input; every output is `f` of a kept element; every kept element's image is present |
| `JsArray.FilterMapLength` | apps/frontend/src/utils/dateUtils.ts:23-25 | exactly one output per kept element |
| `JsArray.FilterMapAppend` | apps/frontend/src/utils/dateUtils.ts:23-25 | `filter.map` of a concatenation is the concatenation of the results |
| `JsArray.FilterMapSingle` | apps/frontend/src/App.tsx:26-34 | a single element gives `[f(x)]` when kept and [] otherwise |
| `JsArray.FilterMapNoneKept` | apps/frontend/src/App.tsx:26-30 | nothing comes out when nothing is kept |
| `JsString.NumberToString` | apps/frontend/src/App.tsx:152 | `toString()` gives at least one digit, only digits, no leading zero; one digit exactly below 10, at most two exactly below 100 |
| `JsString.NumberToStringValue` | apps/frontend/src/App.tsx:152 | the decimal value of `n.toString()` is `n` |
| `JsString.PadStart` | apps/frontend/src/App.tsx:152 | `padStart` ends with the input, is padded in front with the pad character only, and is max(len, length of input) long |
| `JsString.Slice` | apps/frontend/src/utils/dateUtils.ts:25 | `slice(start, end)` clamps both bounds to the length and copies the characters from `start` on |
| `JsString.IndexOf` | apps/frontend/src/App.tsx:28 | the first position of the character, or the length when it does not occur |
| `JsString.Split` | apps/frontend/src/App.tsx:28 | `split` gives at least one piece, no piece contains the separator, and the first piece is the text before the first separator |
| `JsString.JoinSplit` | apps/frontend/src/App.tsx:32 | joining the pieces of a split gives the string back |
| `JsString.SplitJoin` | apps/frontend/src/App.tsx:32 | splitting a join of separator-free pieces gives the pieces back |

## Left out

- JSX rendering, the React state hooks and the building of `<option>` elements (apps/frontend/src/App.tsx:59-142). This is user interface. Only the slot list the picker is built from (lines 110-118) is modelled, as `App.OfferedSlots`.
- Fetching with SWR, its 10-second refresh, `mutate`, and the POST request with its response handling (apps/frontend/src/App.tsx:11, 14-22, 43-56, 91). This is network I/O and asynchronous. `App.Submit` stops where the request would be sent.
- Reading the clock (apps/frontend/src/App.tsx:148): `nowHour` is a parameter. If the platform cannot parse the locale text, `getHours()` is NaN and no hour is dropped. The model gives that result for any `nowHour` below 8.
- The `Date` conversion in `getNZDateString` is the parameter `isoOf`. The model does not capture that `toISOString()` throws on an unparseable date, because `isoOf` is total.
- Strings are sequences of Unicode characters. JavaScript's `slice`, `split`, `indexOf` and `startsWith` count UTF-16 code units. The two differ only when a `booking_date` holds a character outside the Basic Multilingual Plane, and the model does not capture that case.
- `isNZToday` and `getNZCurrentHour` (apps/frontend/src/utils/dateUtils.ts:29-43) read the clock with a fixed +13 hour offset. No modelled code calls them.
- The backend (apps/backend/src/index.ts) only answers a greeting and starts a server. It holds no booking store, so bookings are inputs here. The formatter configuration (prettier.config.js) has no behaviour.
